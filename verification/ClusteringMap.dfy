/**
 base::ClusteringMap: keys united into clusters, by union by rank with path compression, and the
 values of every cluster at its root.
 */
module ClusteringMap {
  import opened Bits

  type Key = nat
  type Value = nat

  // ----- The meaning: a history of calls

  datatype Call = Append(key: Key, value: Value) | Union(u: Key, v: Key)

  // Keys connected by the unions of a history.
  ghost predicate Connected(calls: seq<Call>, a: Key, b: Key)
    decreases |calls|
  {
    if calls == [] then a == b
    else
      var front, last := calls[..|calls| - 1], calls[|calls| - 1];
      || Connected(front, a, b)
      || (last.Union? && Connected(front, a, last.u) && Connected(front, last.v, b))
      || (last.Union? && Connected(front, a, last.v) && Connected(front, last.u, b))
  }

  // The values appended to keys that are, in the end, connected to a key.
  ghost function Collected(calls: seq<Call>, upto: nat, key: Key): multiset<Value>
    requires upto <= |calls|
  {
    if upto == 0 then multiset{}
    else
      var last := calls[upto - 1];
      Collected(calls, upto - 1, key)
      + if last.Append? && Connected(calls, last.key, key) then multiset{last.value} else multiset{}
  }

  // A name for the cluster of a key: after a union the cluster of v gets the name of that of u.
  ghost function NameOf(calls: seq<Call>, key: Key): Key
    decreases |calls|
  {
    if calls == [] then key
    else
      var front, last := calls[..|calls| - 1], calls[|calls| - 1];
      if last.Union? && NameOf(front, key) == NameOf(front, last.v) then NameOf(front, last.u) else NameOf(front, key)
  }

  // Hence being connected is an equivalence.
  lemma {:induction false} ConnectedIffSameName(calls: seq<Call>, a: Key, b: Key)
    ensures Connected(calls, a, b) <==> NameOf(calls, a) == NameOf(calls, b)
    decreases |calls|
  {
    if calls != [] {
      var front, last := calls[..|calls| - 1], calls[|calls| - 1];
      ConnectedIffSameName(front, a, b);
      if last.Union? {
        ConnectedIffSameName(front, a, last.u);
        ConnectedIffSameName(front, a, last.v);
        ConnectedIffSameName(front, last.u, b);
        ConnectedIffSameName(front, last.v, b);
      }
    }
  }

  // It is the least one: whatever labels the two sides of every union alike labels connected keys alike.
  lemma {:induction false} ConnectedIsLeast(calls: seq<Call>, mark: Key -> int, a: Key, b: Key)
    requires forall i :: 0 <= i < |calls| && calls[i].Union? ==> mark(calls[i].u) == mark(calls[i].v)
    requires Connected(calls, a, b)
    ensures mark(a) == mark(b)
    decreases |calls|
  {
    if calls != [] {
      var front, last := calls[..|calls| - 1], calls[|calls| - 1];
      if Connected(front, a, b) {
        ConnectedIsLeast(front, mark, a, b);
      } else if Connected(front, a, last.u) && Connected(front, last.v, b) {
        ConnectedIsLeast(front, mark, a, last.u);
        ConnectedIsLeast(front, mark, last.v, b);
      } else {
        ConnectedIsLeast(front, mark, a, last.v);
        ConnectedIsLeast(front, mark, last.u, b);
      }
    }
  }

  // ----- The table

  datatype Entry = Entry(root: Key, rank: nat, values: seq<Value>)

  type Table = map<Key, Entry>

  // rep is the root at the end of the links; every rank on the way is greater than the one before.
  ghost predicate IsLinked(table: Table, rep: map<Key, Key>, bound: nat, k: Key)
    requires k in table && rep.Keys == table.Keys
  {
    && table[k].rank <= bound && table[k].root in table
    && rep[k] in table && table[rep[k]].root == rep[k]
    && rep[k] == rep[table[k].root]
    && (table[k].root == k ==> rep[k] == k)
    && (table[k].root != k ==> table[k].rank < table[table[k].root].rank && table[k].values == [])
  }

  ghost predicate IsForest(table: Table, rep: map<Key, Key>, bound: nat) {
    rep.Keys == table.Keys && forall k {:trigger IsLinked(table, rep, bound, k)} | k in table :: IsLinked(table, rep, bound, k)
  }

  ghost function ClassOf(rep: map<Key, Key>, root: Key): set<Key> {
    set k | k in rep && rep[k] == root
  }

  // A root of rank r has at least 2^r keys below it, itself included.
  ghost predicate RanksAreSmall(table: Table, rep: map<Key, Key>) {
    forall k | k in table && table[k].root == k :: |ClassOf(rep, k)| >= Pow2(table[k].rank)
  }

  // Two keys of the table are connected when they have the same root; other keys are alone.
  ghost predicate RepsAre(rep: map<Key, Key>, calls: seq<Call>) {
    forall a: Key, b: Key :: Connected(calls, a, b) <==> (a == b || (a in rep && b in rep && rep[a] == rep[b]))
  }

  // The values of a cluster are at its root.
  ghost predicate ValuesAre(table: Table, calls: seq<Call>) {
    && (forall k | k in table && table[k].root == k :: multiset(table[k].values) == Collected(calls, |calls|, k))
    && (forall i :: 0 <= i < |calls| && calls[i].Append? ==> calls[i].key in table)
  }

  // ----- What the operations do to the table

  lemma {:induction false} CollectedSame(calls: seq<Call>, upto: nat, a: Key, b: Key)
    requires upto <= |calls| && Connected(calls, a, b)
    ensures Collected(calls, upto, a) == Collected(calls, upto, b)
  {
    if upto > 0 {
      CollectedSame(calls, upto - 1, a, b);
      var k := calls[upto - 1];
      if k.Append? {
        ConnectedIffSameName(calls, k.key, a);
        ConnectedIffSameName(calls, k.key, b);
        ConnectedIffSameName(calls, a, b);
      }
    }
  }

  // The calls of a longer history count as before where they connect the same keys.
  lemma {:induction false} CollectedLonger(calls: seq<Call>, c: Call, upto: nat, a: Key, b: Key)
    requires upto <= |calls| && forall k: Key :: Connected(calls + [c], k, a) <==> Connected(calls, k, b)
    ensures Collected(calls + [c], upto, a) == Collected(calls, upto, b)
  {
    hide Connected;
    if upto > 0 {
      CollectedLonger(calls, c, upto - 1, a, b);
    }
  }

  // Two clusters that have become one.
  lemma {:induction false} CollectedBoth(calls: seq<Call>, c: Call, upto: nat, a: Key, p: Key, q: Key)
    requires upto <= |calls|
    requires forall k: Key :: Connected(calls + [c], k, a) <==> Connected(calls, k, p) || Connected(calls, k, q)
    requires forall k: Key :: !(Connected(calls, k, p) && Connected(calls, k, q))
    ensures Collected(calls + [c], upto, a) == Collected(calls, upto, p) + Collected(calls, upto, q)
  {
    hide Connected;
    if upto > 0 {
      CollectedBoth(calls, c, upto - 1, a, p, q);
      assert (calls + [c])[upto - 1] == calls[upto - 1];
    }
  }

  lemma {:induction false} NothingCollected(calls: seq<Call>, upto: nat, key: Key)
    requires upto <= |calls| && forall i :: 0 <= i < upto && calls[i].Append? ==> !Connected(calls, calls[i].key, key)
    ensures Collected(calls, upto, key) == multiset{}
  {
    hide Connected;
    if upto > 0 {
      NothingCollected(calls, upto - 1, key);
    }
  }

  lemma LastCall(calls: seq<Call>, c: Call, a: Key, b: Key)
    ensures c.Append? ==> (Connected(calls + [c], a, b) <==> Connected(calls, a, b))
    ensures c.Union? ==> (Connected(calls + [c], a, b) <==>
              || Connected(calls, a, b)
              || (Connected(calls, a, c.u) && Connected(calls, c.v, b))
              || (Connected(calls, a, c.v) && Connected(calls, c.u, b)))
  {
    assert (calls + [c])[..|calls|] == calls;
  }

  // ----- Valid states

  ghost predicate IsState(table: Table, rep: map<Key, Key>, bound: nat, calls: seq<Call>) {
    IsForest(table, rep, bound) && RanksAreSmall(table, rep) && RepsAre(rep, calls) && ValuesAre(table, calls)
  }

  // The rank of a root is greater than that of any key below it.
  lemma {:induction false} RankOfRoot(table: Table, rep: map<Key, Key>, bound: nat, k: Key)
    requires IsForest(table, rep, bound) && k in table
    ensures k in rep && rep[k] in table && (rep[k] != k ==> table[k].rank < table[rep[k]].rank)
    decreases bound - table[k].rank
  {
    assert IsLinked(table, rep, bound, k);
    if table[k].root != k {
      assert IsLinked(table, rep, bound, table[k].root);
      RankOfRoot(table, rep, bound, table[k].root);
    }
  }

  // A new key is a cluster of its own.
  lemma AddKey(table: Table, rep: map<Key, Key>, bound: nat, calls: seq<Call>, key: Key)
    requires IsState(table, rep, bound, calls) && key !in table
    ensures IsState(table[key := Entry(key, 0, [])], rep[key := key], bound, calls)
  {
    hide Connected, Collected, ClassOf, Pow2, RanksAreSmall, ValuesAre, IsForest, RepsAre;
    AddKeyForest(table, rep, bound, key);
    AddKeyRanks(table, rep, bound, key);
    AddKeyReps(table, rep, bound, calls, key);
    AddKeyValues(table, rep, bound, calls, key);
  }

  lemma AddKeyForest(table: Table, rep: map<Key, Key>, bound: nat, key: Key)
    requires IsForest(table, rep, bound) && key !in table
    ensures IsForest(table[key := Entry(key, 0, [])], rep[key := key], bound)
  {
    var table', rep' := table[key := Entry(key, 0, [])], rep[key := key];
    forall k | k in table'
      ensures IsLinked(table', rep', bound, k)
    {
      assert k != key ==> IsLinked(table, rep, bound, k);
    }
  }

  lemma AddKeyRanks(table: Table, rep: map<Key, Key>, bound: nat, key: Key)
    requires IsForest(table, rep, bound) && RanksAreSmall(table, rep) && key !in table
    ensures RanksAreSmall(table[key := Entry(key, 0, [])], rep[key := key])
  {
    var table', rep' := table[key := Entry(key, 0, [])], rep[key := key];
    forall k | k in rep
      ensures rep[k] in table
    {
      assert IsLinked(table, rep, bound, k);
    }
    assert ClassOf(rep', key) == {key};
    forall k | k in table && table[k].root == k
      ensures |ClassOf(rep', k)| >= Pow2(table[k].rank)
    {
      assert ClassOf(rep', k) == ClassOf(rep, k);
    }
  }

  lemma AddKeyReps(table: Table, rep: map<Key, Key>, bound: nat, calls: seq<Call>, key: Key)
    requires IsForest(table, rep, bound) && RepsAre(rep, calls) && key !in table
    ensures RepsAre(rep[key := key], calls)
  {
    hide Connected;
    var rep' := rep[key := key];
    forall a: Key, b: Key
      ensures Connected(calls, a, b) <==> (a == b || (a in rep' && b in rep' && rep'[a] == rep'[b]))
    {
      assert a in rep ==> IsLinked(table, rep, bound, a);
      assert b in rep ==> IsLinked(table, rep, bound, b);
    }
  }

  lemma AddKeyValues(table: Table, rep: map<Key, Key>, bound: nat, calls: seq<Call>, key: Key)
    requires IsForest(table, rep, bound) && RepsAre(rep, calls) && ValuesAre(table, calls) && key !in table
    ensures ValuesAre(table[key := Entry(key, 0, [])], calls)
  {
    hide Connected, IsForest;
    assert key !in rep by {
      NotInReps(table, rep, bound, key);
    }
    forall i | 0 <= i < |calls| && calls[i].Append?
      ensures !Connected(calls, calls[i].key, key)
    {
      assert calls[i].key in table;
    }
    NothingCollected(calls, |calls|, key);
  }

  lemma NotInReps(table: Table, rep: map<Key, Key>, bound: nat, key: Key)
    requires IsForest(table, rep, bound) && key !in table
    ensures key !in rep
  {
  }

  // Path compression: a key is linked to its root directly.
  lemma Compress(table: Table, rep: map<Key, Key>, bound: nat, calls: seq<Call>, key: Key)
    requires IsState(table, rep, bound, calls) && key in table && table[key].root != key
    ensures IsState(table[key := table[key].(root := rep[key])], rep, bound, calls)
  {
    hide Connected, Collected, RepsAre, ClassOf, Pow2, IsForest;
    RootsAreRoots(table, rep, bound, key);
    CompressForest(table, rep, bound, key);
  }

  lemma CompressForest(table: Table, rep: map<Key, Key>, bound: nat, key: Key)
    requires IsForest(table, rep, bound) && key in table && table[key].root != key
    ensures IsForest(table[key := table[key].(root := rep[key])], rep, bound)
  {
    assert IsLinked(table, rep, bound, key);
    RankOfRoot(table, rep, bound, key);
    assert IsLinked(table, rep, bound, rep[key]);
    var table' := table[key := table[key].(root := rep[key])];
    forall k | k in table'
      ensures IsLinked(table', rep, bound, k)
    {
      assert IsLinked(table, rep, bound, k);
      assert IsLinked(table, rep, bound, table[k].root);
    }
  }

  lemma RootsAreRoots(table: Table, rep: map<Key, Key>, bound: nat, key: Key)
    requires IsForest(table, rep, bound) && key in table
    ensures key in rep && rep[key] in table && (rep[key] == key <==> table[key].root == key)
    ensures table[rep[key]].root == rep[key]
  {
    assert IsLinked(table, rep, bound, key);
  }

  // A value is added to the root of its key.
  lemma AddValue(table: Table, rep: map<Key, Key>, bound: nat, calls: seq<Call>, key: Key, value: Value)
    requires IsState(table, rep, bound, calls) && key in table
    ensures rep[key] in table
    ensures var r := rep[key];
            IsState(table[r := table[r].(values := table[r].values + [value])], rep, bound, calls + [Append(key, value)])
  {
    hide Connected, Collected, RepsAre, ClassOf, Pow2, IsForest, ValuesAre;
    RootsAreRoots(table, rep, bound, key);
    var r := rep[key];
    var table' := table[r := table[r].(values := table[r].values + [value])];
    assert IsForest(table', rep, bound) by { ValuesDoNotMatter(table, rep, bound, r, table[r].values + [value]); }
    assert RanksAreSmall(table', rep);
    AppendReps(rep, calls, Append(key, value));
    AppendValues(table, rep, bound, calls, key, value);
  }

  lemma ValuesDoNotMatter(table: Table, rep: map<Key, Key>, bound: nat, r: Key, values: seq<Value>)
    requires IsForest(table, rep, bound) && r in table && table[r].root == r
    ensures IsForest(table[r := table[r].(values := values)], rep, bound)
  {
    var table' := table[r := table[r].(values := values)];
    forall k | k in table'
      ensures IsLinked(table', rep, bound, k)
    {
      assert IsLinked(table, rep, bound, k);
    }
  }

  lemma AppendReps(rep: map<Key, Key>, calls: seq<Call>, c: Call)
    requires RepsAre(rep, calls) && c.Append?
    ensures RepsAre(rep, calls + [c])
  {
    hide Connected;
    forall a: Key, b: Key
      ensures Connected(calls + [c], a, b) <==> (a == b || (a in rep && b in rep && rep[a] == rep[b]))
    {
      LastCall(calls, c, a, b);
    }
  }

  lemma AppendValues(table: Table, rep: map<Key, Key>, bound: nat, calls: seq<Call>, key: Key, value: Value)
    requires IsForest(table, rep, bound) && RepsAre(rep, calls) && ValuesAre(table, calls)
    requires key in table && key in rep && rep[key] in table
    ensures ValuesAre(table[rep[key] := table[rep[key]].(values := table[rep[key]].values + [value])], calls + [Append(key, value)])
  {
    hide Connected, IsForest, Collected;
    var c, r := Append(key, value), rep[key];
    var calls' := calls + [c];
    var table' := table[r := table[r].(values := table[r].values + [value])];
    RootsAreRoots(table, rep, bound, key);
    forall k | k in table' && table'[k].root == k
      ensures multiset(table'[k].values) == Collected(calls', |calls'|, k)
    {
      RootsAreRoots(table, rep, bound, k);
      forall j: Key
        ensures Connected(calls', j, k) <==> Connected(calls, j, k)
      {
        LastCall(calls, c, j, k);
      }
      CollectedLonger(calls, c, |calls|, k, k);
      CollectedLast(calls', k);
      assert Connected(calls, key, k) <==> k == r;
    }
  }

  lemma CollectedLast(calls: seq<Call>, k: Key)
    requires calls != []
    ensures var last := calls[|calls| - 1];
            Collected(calls, |calls|, k) == Collected(calls, |calls| - 1, k)
            + if last.Append? && Connected(calls, last.key, k) then multiset{last.value} else multiset{}
  {
  }

  // ----- A union

  function Reattached(rep: map<Key, Key>, p: Key, q: Key): map<Key, Key> {
    map k | k in rep :: if rep[k] == q then p else rep[k]
  }

  // q becomes a child of p, which takes all values and, on a draw, one more rank.
  function Attached(table: Table, p: Key, q: Key, values: seq<Value>): Table
    requires p in table && q in table
  {
    var rank := table[p].rank + if table[q].rank == table[p].rank then 1 else 0;
    table[q := Entry(p, table[q].rank, [])][p := Entry(p, rank, values)]
  }

  ghost predicate AreRoots(table: Table, rep: map<Key, Key>, u: Key, v: Key, p: Key, q: Key) {
    && u in table && v in table && p in table && q in table && rep.Keys == table.Keys
    && p != q && table[q].rank <= table[p].rank
    && ((rep[u] == p && rep[v] == q) || (rep[u] == q && rep[v] == p))
  }

  lemma UniteForest(table: Table, rep: map<Key, Key>, bound: nat, u: Key, v: Key, p: Key, q: Key, values: seq<Value>)
    requires IsForest(table, rep, bound) && AreRoots(table, rep, u, v, p, q)
    ensures IsForest(Attached(table, p, q, values), Reattached(rep, p, q), bound + 1)
  {
    var table', rep' := Attached(table, p, q, values), Reattached(rep, p, q);
    RootsAreRoots(table, rep, bound, u);
    RootsAreRoots(table, rep, bound, v);
    RootsAreRoots(table, rep, bound, p);
    RootsAreRoots(table, rep, bound, q);
    assert rep'.Keys == table'.Keys;
    assert IsLinked(table, rep, bound, p) && IsLinked(table, rep, bound, q);
    forall k | k in table'
      ensures IsLinked(table', rep', bound + 1, k)
    {
      assert IsLinked(table, rep, bound, k);
    }
  }

  lemma UniteRanks(table: Table, rep: map<Key, Key>, bound: nat, u: Key, v: Key, p: Key, q: Key, values: seq<Value>)
    requires IsForest(table, rep, bound) && RanksAreSmall(table, rep) && AreRoots(table, rep, u, v, p, q)
    ensures RanksAreSmall(Attached(table, p, q, values), Reattached(rep, p, q))
  {
    var table', rep' := Attached(table, p, q, values), Reattached(rep, p, q);
    RootsAreRoots(table, rep, bound, u);
    RootsAreRoots(table, rep, bound, v);
    var a, b := ClassOf(rep, p), ClassOf(rep, q);
    assert ClassOf(rep', p) == a + b;
    assert a !! b;
    assert |a + b| == |a| + |b|;
    forall k | k in table' && table'[k].root == k
      ensures |ClassOf(rep', k)| >= Pow2(table'[k].rank)
    {
      if k != p {
        assert ClassOf(rep', k) == ClassOf(rep, k);
      }
    }
  }

  lemma UniteReps(table: Table, rep: map<Key, Key>, calls: seq<Call>, u: Key, v: Key, p: Key, q: Key)
    requires RepsAre(rep, calls) && AreRoots(table, rep, u, v, p, q)
    ensures RepsAre(Reattached(rep, p, q), calls + [Union(u, v)])
  {
    hide Connected;
    var rep' := Reattached(rep, p, q);
    forall a: Key, b: Key
      ensures Connected(calls + [Union(u, v)], a, b) <==> (a == b || (a in rep' && b in rep' && rep'[a] == rep'[b]))
    {
      LastCall(calls, Union(u, v), a, b);
    }
  }

  lemma UniteValues(table: Table, rep: map<Key, Key>, bound: nat, calls: seq<Call>, u: Key, v: Key, p: Key, q: Key, values: seq<Value>)
    requires IsForest(table, rep, bound) && RepsAre(rep, calls) && ValuesAre(table, calls) && AreRoots(table, rep, u, v, p, q)
    requires multiset(values) == multiset(table[p].values) + multiset(table[q].values)
    ensures ValuesAre(Attached(table, p, q, values), calls + [Union(u, v)])
  {
    hide Connected, IsForest, Collected;
    var table', c := Attached(table, p, q, values), Union(u, v);
    var calls' := calls + [c];
    RootsAreRoots(table, rep, bound, u);
    RootsAreRoots(table, rep, bound, v);
    RootsAreRoots(table, rep, bound, p);
    RootsAreRoots(table, rep, bound, q);
    forall k | k in table' && table'[k].root == k
      ensures multiset(table'[k].values) == Collected(calls', |calls'|, k)
    {
      RootsAreRoots(table, rep, bound, k);
      CollectedLast(calls', k);
      forall j: Key
        ensures Connected(calls', j, k) <==> (if k == p then Connected(calls, j, p) || Connected(calls, j, q) else Connected(calls, j, k))
      {
        LastCall(calls, c, j, k);
      }
      if k == p {
        CollectedBoth(calls, c, |calls|, p, p, q);
      } else {
        CollectedLonger(calls, c, |calls|, k, k);
      }
    }
  }

  lemma Unite(table: Table, rep: map<Key, Key>, bound: nat, calls: seq<Call>, u: Key, v: Key, p: Key, q: Key, values: seq<Value>)
    requires IsState(table, rep, bound, calls) && AreRoots(table, rep, u, v, p, q)
    requires multiset(values) == multiset(table[p].values) + multiset(table[q].values)
    ensures IsState(Attached(table, p, q, values), Reattached(rep, p, q), bound + 1, calls + [Union(u, v)])
  {
    hide Connected, Collected, ClassOf, Pow2, RanksAreSmall, ValuesAre, IsForest, RepsAre;
    UniteForest(table, rep, bound, u, v, p, q, values);
    UniteRanks(table, rep, bound, u, v, p, q, values);
    UniteReps(table, rep, calls, u, v, p, q);
    UniteValues(table, rep, bound, calls, u, v, p, q, values);
  }

  // A union of two keys of one cluster changes nothing.
  lemma AlreadyUnited(table: Table, rep: map<Key, Key>, bound: nat, calls: seq<Call>, u: Key, v: Key)
    requires IsState(table, rep, bound, calls) && u in rep && v in rep && rep[u] == rep[v]
    ensures IsState(table, rep, bound, calls + [Union(u, v)])
  {
    hide Connected, IsForest, Collected, RanksAreSmall;
    var c := Union(u, v);
    forall a: Key, b: Key
      ensures Connected(calls + [c], a, b) <==> Connected(calls, a, b)
    {
      LastCall(calls, c, a, b);
    }
    forall k | k in table && table[k].root == k
      ensures multiset(table[k].values) == Collected(calls + [c], |calls| + 1, k)
    {
      CollectedLonger(calls, c, |calls|, k, k);
      CollectedLast(calls + [c], k);
    }
  }

  // How many links lead from a key to its root.
  ghost function Depth(table: Table, rep: map<Key, Key>, bound: nat, k: Key): nat
    requires IsForest(table, rep, bound) && k in table
    decreases bound - table[k].rank
  {
    assert IsLinked(table, rep, bound, k);
    if table[k].root == k then 0
    else
      assert IsLinked(table, rep, bound, table[k].root);
      1 + Depth(table, rep, bound, table[k].root)
  }

  lemma {:induction false} DepthIsBelowRank(table: Table, rep: map<Key, Key>, bound: nat, k: Key)
    requires IsForest(table, rep, bound) && k in table
    ensures k in rep && rep[k] in table && table[k].rank + Depth(table, rep, bound, k) <= table[rep[k]].rank
    decreases bound - table[k].rank
  {
    assert IsLinked(table, rep, bound, k);
    if table[k].root != k {
      assert IsLinked(table, rep, bound, table[k].root);
      DepthIsBelowRank(table, rep, bound, table[k].root);
    }
  }

  // No chain of links is longer than the binary logarithm of the number of keys.
  lemma PathsAreShort(table: Table, rep: map<Key, Key>, bound: nat, calls: seq<Call>, k: Key)
    requires IsState(table, rep, bound, calls) && k in table
    ensures Pow2(Depth(table, rep, bound, k)) <= |table|
  {
    hide Connected, Collected, RepsAre, ValuesAre, IsForest, Pow2, ClassOf, Depth;
    RootsAreRoots(table, rep, bound, k);
    var r := rep[k];
    DepthIsBelowRank(table, rep, bound, k);
    assert |ClassOf(rep, r)| >= Pow2(table[r].rank);
    Pow2Grows(Depth(table, rep, bound, k), table[r].rank);
    ClassIsPart(table, rep, bound, r);
  }

  lemma ClassIsPart(table: Table, rep: map<Key, Key>, bound: nat, r: Key)
    requires IsForest(table, rep, bound)
    ensures |ClassOf(rep, r)| <= |table|
  {
    assert ClassOf(rep, r) <= table.Keys;
    SubsetIsSmaller(ClassOf(rep, r), table.Keys);
    assert |table.Keys| == |table|;
  }

  lemma SubsetIsSmaller(a: set<Key>, b: set<Key>)
    requires a <= b
    ensures |a| <= |b|
  {
    assert b == a + (b - a);
    assert |a + (b - a)| == |a| + |b - a|;
  }

  // ----- All clusters

  datatype Cluster = Cluster(keys: seq<Key>, values: seq<Value>)

  // Every key is in exactly one cluster, together with the keys connected to it and with its values.
  ghost predicate AreClusters(clusters: seq<Cluster>, keys: set<Key>, calls: seq<Call>) {
    && (forall c :: 0 <= c < |clusters| ==> IsCluster(clusters[c], keys, calls))
    && (forall c, d :: 0 <= c < d < |clusters| ==> AreApart(clusters[c].keys, clusters[d].keys))
    && (forall k | k in keys :: exists c :: 0 <= c < |clusters| && k in clusters[c].keys)
  }

  ghost predicate AreApart(a: seq<Key>, b: seq<Key>) {
    forall k | k in a :: k !in b
  }

  // All keys connected to one of them, each once, and the values collected for them.
  ghost predicate IsCluster(c: Cluster, keys: set<Key>, calls: seq<Call>) {
    && c.keys != [] && (forall k | k in c.keys :: k in keys)
    && (forall i, j :: 0 <= i < j < |c.keys| ==> c.keys[i] != c.keys[j])
    && (forall k | k in keys :: k in c.keys <==> Connected(calls, c.keys[0], k))
    && multiset(c.values) == Collected(calls, |calls|, c.keys[0])
  }

  // A root and one of its keys.
  type Pair = (Key, Key)

  ghost predicate HasKey(eks: seq<Pair>, k: Key) {
    exists i :: 0 <= i < |eks| && eks[i].1 == k
  }

  // The keys of a set, each once with its root, ordered by the roots.
  ghost predicate IsListed(eks: seq<Pair>, keys: set<Key>, rep: map<Key, Key>) {
    && (forall i :: 0 <= i < |eks| ==> eks[i].1 in keys && eks[i].1 in rep && rep[eks[i].1] == eks[i].0)
    && (forall i, j :: 0 <= i < j < |eks| ==> eks[i].0 <= eks[j].0 && eks[i].1 != eks[j].1)
    && (forall k | k in keys :: HasKey(eks, k))
  }

  function KeysAt(eks: seq<Pair>, i: nat, j: nat): seq<Key>
    requires i <= j <= |eks|
  {
    seq(j - i, h requires 0 <= h < j - i => eks[i + h].1)
  }

  // Puts a pair where sorting would put it.
  method Insert(eks: seq<Pair>, e: Pair, ghost keys: set<Key>, ghost rep: map<Key, Key>) returns (r: seq<Pair>)
    requires IsListed(eks, keys, rep) && e.1 !in keys && e.1 in rep && rep[e.1] == e.0
    ensures IsListed(r, keys + {e.1}, rep)
  {
    var i := |eks|;
    while i > 0 && e.0 < eks[i - 1].0
      invariant 0 <= i <= |eks| && forall h :: i <= h < |eks| ==> e.0 < eks[h].0
    {
      i := i - 1;
    }
    r := eks[..i] + [e] + eks[i..];
    InsertIsListed(eks, e, i, keys, rep);
  }

  lemma InsertIsListed(eks: seq<Pair>, e: Pair, i: nat, keys: set<Key>, rep: map<Key, Key>)
    requires IsListed(eks, keys, rep) && e.1 !in keys && e.1 in rep && rep[e.1] == e.0 && i <= |eks|
    requires forall h :: i <= h < |eks| ==> e.0 < eks[h].0
    requires i > 0 ==> eks[i - 1].0 <= e.0
    ensures IsListed(eks[..i] + [e] + eks[i..], keys + {e.1}, rep)
  {
    hide HasKey;
    var r := eks[..i] + [e] + eks[i..];
    assert forall h :: 0 <= h < i ==> eks[h].0 <= e.0;
    forall h, m | 0 <= h < m < |r|
      ensures r[h].0 <= r[m].0 && r[h].1 != r[m].1
    {
      assert r[h] == if h < i then eks[h] else if h == i then e else eks[h - 1];
      assert r[m] == if m < i then eks[m] else if m == i then e else eks[m - 1];
    }
    forall h | 0 <= h < |r|
      ensures r[h].1 in keys + {e.1} && r[h].1 in rep && rep[r[h].1] == r[h].0
    {
      assert r[h] == if h < i then eks[h] else if h == i then e else eks[h - 1];
    }
    InsertHasKeys(eks, e, i);
    assert forall k | k in keys :: HasKey(eks, k);
  }

  lemma InsertHasKeys(eks: seq<Pair>, e: Pair, i: nat)
    requires i <= |eks|
    ensures forall k: Key :: HasKey(eks, k) || k == e.1 ==> HasKey(eks[..i] + [e] + eks[i..], k)
  {
    var r := eks[..i] + [e] + eks[i..];
    forall k: Key | HasKey(eks, k) || k == e.1
      ensures HasKey(r, k)
    {
      if k == e.1 {
        assert r[i].1 == k;
      } else {
        var h :| 0 <= h < |eks| && eks[h].1 == k;
        assert r[if h < i then h else h + 1].1 == k;
      }
    }
  }

  // The pairs with one root, and no pair before or behind them with the same root.
  ghost predicate IsGroup(eks: seq<Pair>, i: nat, j: nat) {
    && i < j <= |eks|
    && (forall h :: i <= h < j ==> eks[h].0 == eks[i].0)
    && (i > 0 ==> eks[i - 1].0 != eks[i].0) && (j < |eks| ==> eks[j].0 != eks[i].0)
  }

  // The keys of a group are exactly those with its root.
  lemma KeysOfGroup(eks: seq<Pair>, i: nat, j: nat, keys: set<Key>, rep: map<Key, Key>, k: Key)
    requires IsListed(eks, keys, rep) && IsGroup(eks, i, j) && k in keys && k in rep
    ensures k in KeysAt(eks, i, j) <==> rep[k] == eks[i].0
  {
    hide IsListed;
    var group := KeysAt(eks, i, j);
    if k in group {
      var m :| 0 <= m < |group| && group[m] == k;
      ListedAt(eks, keys, rep, i + m);
      assert eks[i + m].0 == eks[i].0;
    }
    if rep[k] == eks[i].0 {
      var h := PlaceOfKey(eks, keys, rep, k);
      ListedAt(eks, keys, rep, h);
      InGroup(eks, i, j, keys, rep, h);
      assert group[h - i] == k;
    }
  }

  lemma ListedAt(eks: seq<Pair>, keys: set<Key>, rep: map<Key, Key>, h: nat)
    requires IsListed(eks, keys, rep) && h < |eks|
    ensures eks[h].1 in keys && eks[h].1 in rep && rep[eks[h].1] == eks[h].0
  {
    hide HasKey;
  }

  lemma PlaceOfKey(eks: seq<Pair>, keys: set<Key>, rep: map<Key, Key>, k: Key) returns (h: nat)
    requires IsListed(eks, keys, rep) && k in keys
    ensures h < |eks| && eks[h].1 == k
  {
    assert HasKey(eks, k);
    h :| 0 <= h < |eks| && eks[h].1 == k;
  }

  lemma InGroup(eks: seq<Pair>, i: nat, j: nat, keys: set<Key>, rep: map<Key, Key>, h: nat)
    requires IsListed(eks, keys, rep) && IsGroup(eks, i, j) && h < |eks| && eks[h].0 == eks[i].0
    ensures i <= h < j
  {
    hide HasKey;
  }

  lemma DistinctInGroup(eks: seq<Pair>, i: nat, j: nat, keys: set<Key>, rep: map<Key, Key>)
    requires IsListed(eks, keys, rep) && IsGroup(eks, i, j)
    ensures var group := KeysAt(eks, i, j);
            && (forall k | k in group :: k in keys)
            && (forall a, b :: 0 <= a < b < |group| ==> group[a] != group[b])
  {
    hide HasKey;
    var group := KeysAt(eks, i, j);
    forall a, b | 0 <= a < b < |group|
      ensures group[a] != group[b]
    {
      assert eks[i + a].1 != eks[i + b].1;
    }
  }

  lemma GroupIsCluster(eks: seq<Pair>, i: nat, j: nat, table: Table, rep: map<Key, Key>, bound: nat, calls: seq<Call>)
    requires IsState(table, rep, bound, calls) && IsListed(eks, table.Keys, rep) && IsGroup(eks, i, j)
    ensures eks[i].0 in table
    ensures IsCluster(Cluster(KeysAt(eks, i, j), table[eks[i].0].values), table.Keys, calls)
  {
    hide Connected, Collected, RanksAreSmall, IsForest, HasKey;
    var keys, first, root := KeysAt(eks, i, j), eks[i].1, eks[i].0;
    RootsAreRoots(table, rep, bound, first);
    assert keys[0] == first && rep[first] == root;
    RootsAreRoots(table, rep, bound, root);
    DistinctInGroup(eks, i, j, table.Keys, rep);
    forall k | k in table.Keys
      ensures k in keys <==> Connected(calls, first, k)
    {
      RootsAreRoots(table, rep, bound, k);
      KeysOfGroup(eks, i, j, table.Keys, rep, k);
    }
    assert Connected(calls, first, root);
    CollectedSame(calls, |calls|, first, root);
  }

  // The clusters found so far are those of the first i pairs.
  ghost predicate ClustersUpTo(clusters: seq<Cluster>, eks: seq<Pair>, i: nat, keys: set<Key>, calls: seq<Call>)
    requires i <= |eks|
  {
    && (forall c :: 0 <= c < |clusters| ==> IsCluster(clusters[c], keys, calls))
    && (forall c, k :: 0 <= c < |clusters| && k in clusters[c].keys ==> HasKey(eks[..i], k))
    && (forall c, d :: 0 <= c < d < |clusters| ==> AreApart(clusters[c].keys, clusters[d].keys))
    && (forall k | HasKey(eks[..i], k) :: InSome(clusters, k))
  }

  ghost predicate InSome(clusters: seq<Cluster>, k: Key) {
    exists c :: 0 <= c < |clusters| && k in clusters[c].keys
  }

  lemma KeysOfMore(eks: seq<Pair>, i: nat, j: nat, k: Key)
    requires i <= j <= |eks|
    ensures HasKey(eks[..j], k) <==> HasKey(eks[..i], k) || k in KeysAt(eks, i, j)
  {
    var keys := KeysAt(eks, i, j);
    if HasKey(eks[..j], k) {
      var h :| 0 <= h < j && eks[..j][h].1 == k;
      if h < i {
        assert eks[..i][h].1 == k;
      } else {
        assert keys[h - i] == k;
      }
    }
    if HasKey(eks[..i], k) {
      var h :| 0 <= h < i && eks[..i][h].1 == k;
      assert eks[..j][h].1 == k;
    }
    if k in keys {
      var m :| 0 <= m < |keys| && keys[m] == k;
      assert eks[..j][i + m].1 == k;
    }
  }

  lemma KeysAreNew(eks: seq<Pair>, i: nat, j: nat, keys: set<Key>, rep: map<Key, Key>, k: Key)
    requires i <= j <= |eks| && IsListed(eks, keys, rep) && k in KeysAt(eks, i, j)
    ensures !HasKey(eks[..i], k)
  {
    var group := KeysAt(eks, i, j);
    var m :| 0 <= m < |group| && group[m] == k;
    forall h | 0 <= h < i
      ensures eks[..i][h].1 != k
    {
      assert eks[h].1 != eks[i + m].1;
    }
  }

  lemma InSomeMore(clusters: seq<Cluster>, c: Cluster, k: Key)
    ensures InSome(clusters + [c], k) <==> InSome(clusters, k) || k in c.keys
  {
    var all := clusters + [c];
    if InSome(clusters, k) {
      var d :| 0 <= d < |clusters| && k in clusters[d].keys;
      assert all[d] == clusters[d];
    }
    assert all[|clusters|] == c;
  }

  lemma OneClusterMore(clusters: seq<Cluster>, c: Cluster, eks: seq<Pair>, i: nat, j: nat, rep: map<Key, Key>, keys: set<Key>, calls: seq<Call>)
    requires i < j <= |eks| && ClustersUpTo(clusters, eks, i, keys, calls) && IsListed(eks, keys, rep)
    requires IsCluster(c, keys, calls) && c.keys == KeysAt(eks, i, j)
    ensures ClustersUpTo(clusters + [c], eks, j, keys, calls)
  {
    hide IsCluster, InSome, HasKey, IsListed, KeysAt;
    var all := clusters + [c];
    forall k: Key
      ensures HasKey(eks[..j], k) <==> HasKey(eks[..i], k) || k in c.keys
      ensures InSome(all, k) <==> InSome(clusters, k) || k in c.keys
      ensures k in c.keys ==> !HasKey(eks[..i], k)
    {
      KeysOfMore(eks, i, j, k);
      InSomeMore(clusters, c, k);
      if k in c.keys {
        KeysAreNew(eks, i, j, keys, rep, k);
      }
    }
    forall x, k | 0 <= x < |all| && k in all[x].keys
      ensures HasKey(eks[..j], k)
    {
      assert x < |clusters| ==> all[x] == clusters[x];
    }
    forall x, y | 0 <= x < y < |all|
      ensures AreApart(all[x].keys, all[y].keys)
    {
      assert all[x] == clusters[x];
      assert y < |clusters| ==> all[y] == clusters[y];
    }
  }

  // ----- The class

  class ClusteringMap {
    var table: Table
    ghost var rep: map<Key, Key>
    ghost var bound: nat
    ghost var calls: seq<Call>

    ghost predicate Valid()
      reads this
    {
      IsState(table, rep, bound, calls)
    }

    constructor ()
      ensures Valid() && calls == [] && table == map[]
    {
      table, rep, bound, calls := map[], map[], 0, [];
      new;
      assert ValuesAre(table, calls);
    }

    method GetEntry(key: Key)
      requires Valid()
      modifies this
      ensures Valid() && calls == old(calls) && bound == old(bound)
      ensures table == if key in old(table) then old(table) else old(table)[key := Entry(key, 0, [])]
      ensures rep == if key in old(table) then old(rep) else old(rep)[key := key]
    {
      hide IsState;
      if key !in table {
        AddKey(table, rep, bound, calls, key);
        table := table[key := Entry(key, 0, [])];
        rep := rep[key := key];
      }
    }

    // The root of a key, whose path is compressed; a new key becomes a root.
    method GetRoot(key: Key) returns (root: Key)
      requires Valid()
      modifies this
      ensures Valid() && calls == old(calls) && bound == old(bound)
      ensures rep == if key in old(table) then old(rep) else old(rep)[key := key]
      ensures key in rep && root == rep[key] && root in table && table[root].root == root
      ensures table.Keys == old(table).Keys + {key}
      // The path is compressed.
      ensures table[key].root == root
      ensures forall k | k in old(table) :: table[k].rank == old(table)[k].rank && table[k].values == old(table)[k].values
      decreases bound + 1 - if key in table then table[key].rank else bound + 1
    {
      hide Connected, Collected, RepsAre, ClassOf, Pow2, IsForest, ValuesAre, RanksAreSmall;
      GetEntry(key);
      IsForestAt(table, rep, bound, key);
      RootsAreRoots(table, rep, bound, key);
      if table[key].root == key {
        return key;
      }
      root := GetRoot(table[key].root);
      RootsAreRoots(table, rep, bound, key);
      Compress(table, rep, bound, calls, key);
      table := table[key := table[key].(root := table[root].root)];
    }

    method AppendValue(key: Key, value: Value)
      requires Valid()
      modifies this
      ensures Valid() && calls == old(calls) + [Append(key, value)]
    {
      hide IsState;
      var root := GetRoot(key);
      AddValue(table, rep, bound, calls, key, value);
      table := table[root := table[root].(values := table[root].values + [value])];
      calls := calls + [Append(key, value)];
    }

    // All values of the cluster of a key.
    method Get(key: Key) returns (values: seq<Value>)
      requires Valid()
      modifies this
      ensures Valid() && calls == old(calls)
      ensures multiset(values) == Collected(calls, |calls|, key)
    {
      hide Connected, Collected, ClassOf, Pow2, IsForest, RanksAreSmall;
      var root := GetRoot(key);
      values := table[root].values;
      assert rep[root] == root by { RootsAreRoots(table, rep, bound, root); }
      CollectedSame(calls, |calls|, key, root);
    }

    method UnionKeys(u: Key, v: Key)
      requires Valid()
      modifies this
      ensures Valid() && calls == old(calls) + [Union(u, v)]
    {
      hide IsState;
      var ru := GetRoot(u);
      var rv := GetRoot(v);
      StillRoot(table, rep, bound, calls, u, ru);
      if table[ru].root == table[rv].root {
        AlreadyUnited(table, rep, bound, calls, u, v);
        calls := calls + [Union(u, v)];
        return;
      }
      if table[ru].rank < table[rv].rank {
        Attach(rv, ru, u, v);
      } else {
        Attach(ru, rv, u, v);
      }
    }

    // Makes one root the child of another; the shorter list of values is moved behind the longer one.
    method Attach(parent: Key, child: Key, ghost u: Key, ghost v: Key)
      requires Valid() && AreRoots(table, rep, u, v, parent, child)
      requires table[parent].root == parent && table[child].root == child
      modifies this
      ensures Valid() && calls == old(calls) + [Union(u, v)]
      // The shorter list of values is appended to the longer one.
      ensures var pv, cv := old(table)[parent].values, old(table)[child].values;
              && parent in table && child in table
              && table[parent].values == (if |pv| < |cv| then cv + pv else pv + cv)
              && table[child].values == [] && table[child].root == parent
    {
      hide IsState;
      var pv, cv := table[parent].values, table[child].values;
      var rank := table[parent].rank;
      if table[child].rank == table[parent].rank {
        rank := rank + 1;
      }
      if |pv| < |cv| {
        pv, cv := cv, pv;
      }
      Unite(table, rep, bound, calls, u, v, parent, child, pv + cv);
      table := table[child := Entry(table[parent].root, table[child].rank, [])];
      table := table[parent := Entry(table[parent].root, rank, pv + cv)];
      rep, bound, calls := Reattached(rep, parent, child), bound + 1, calls + [Union(u, v)];
    }

    // Every cluster once, with its keys and its values.
    method ForEachCluster() returns (clusters: seq<Cluster>)
      requires Valid()
      modifies this
      ensures Valid() && calls == old(calls) && table.Keys == old(table).Keys
      ensures AreClusters(clusters, table.Keys, calls)
    {
      hide Connected, Collected, ClassOf, Pow2, IsForest, RanksAreSmall, ValuesAre, RepsAre, IsListed, ClustersUpTo, IsCluster;
      var eks: seq<Pair> := [];
      var rest := table.Keys;
      NothingListed(rep);
      IsForestKeys(table, rep, bound, calls);
      while rest != {}
        invariant Valid() && calls == old(calls) && table.Keys == old(table).Keys && rest <= table.Keys && rep == old(rep)
        invariant IsListed(eks, table.Keys - rest, rep)
        decreases rest
      {
        var key :| key in rest;
        ghost var done := table.Keys - rest;
        var root := GetRoot(key);
        eks := Insert(eks, (root, key), done, rep);
        rest := rest - {key};
        assert table.Keys - rest == done + {key};
      }
      assert table.Keys - rest == table.Keys;
      clusters := [];
      NoClusters(eks, table.Keys, calls);
      var i := 0;
      while i < |eks|
        invariant Valid() && calls == old(calls) && table.Keys == old(table).Keys && IsListed(eks, table.Keys, rep)
        invariant i <= |eks| && (0 < i < |eks| ==> eks[i - 1].0 != eks[i].0)
        invariant ClustersUpTo(clusters, eks, i, table.Keys, calls)
        decreases |eks| - i
      {
        var keys := [eks[i].1];
        var j := i + 1;
        while j < |eks| && eks[i].0 == eks[j].0
          invariant i < j <= |eks| && keys == KeysAt(eks, i, j)
          invariant forall h :: i <= h < j ==> eks[h].0 == eks[i].0
        {
          keys := keys + [eks[j].1];
          j := j + 1;
        }
        GroupIsCluster(eks, i, j, table, rep, bound, calls);
        var c := Cluster(keys, table[eks[i].0].values);
        OneClusterMore(clusters, c, eks, i, j, rep, table.Keys, calls);
        clusters := clusters + [c];
        i := j;
      }
      AllClusters(clusters, eks, table.Keys, rep, calls);
    }
  }

  lemma NothingListed(rep: map<Key, Key>)
    ensures IsListed([], {}, rep)
  {
  }

  lemma IsForestKeys(table: Table, rep: map<Key, Key>, bound: nat, calls: seq<Call>)
    requires IsState(table, rep, bound, calls)
    ensures rep.Keys == table.Keys && table.Keys - table.Keys == {}
  {
  }

  lemma NoClusters(eks: seq<Pair>, keys: set<Key>, calls: seq<Call>)
    ensures ClustersUpTo([], eks, 0, keys, calls)
  {
    assert eks[..0] == [];
  }

  lemma AllClusters(clusters: seq<Cluster>, eks: seq<Pair>, keys: set<Key>, rep: map<Key, Key>, calls: seq<Call>)
    requires ClustersUpTo(clusters, eks, |eks|, keys, calls) && IsListed(eks, keys, rep)
    ensures AreClusters(clusters, keys, calls)
  {
    hide IsCluster;
    assert eks[..|eks|] == eks;
    forall k | k in keys
      ensures exists c :: 0 <= c < |clusters| && k in clusters[c].keys
    {
      assert HasKey(eks, k);
      assert InSome(clusters, k);
    }
  }

  lemma IsForestAt(table: Table, rep: map<Key, Key>, bound: nat, k: Key)
    requires IsForest(table, rep, bound) && k in table
    ensures rep.Keys == table.Keys && IsLinked(table, rep, bound, k)
  {
  }

  lemma StillRoot(table: Table, rep: map<Key, Key>, bound: nat, calls: seq<Call>, u: Key, ru: Key)
    requires IsState(table, rep, bound, calls) && u in rep && rep[u] == ru
    ensures ru in table && table[ru].root == ru && rep.Keys == table.Keys
  {
    RootsAreRoots(table, rep, bound, u);
  }
}
