/**
 FileSorter: items sorted in runs that fit into memory, and merged from a file.
 */
module FileSorter {
  import opened Bits

  type Item = int
  type Less = (Item, Item) -> bool

  ghost predicate IsStrictWeakOrder(less: Less) {
    && (forall a, b :: less(a, b) ==> !less(b, a))
    && (forall a, b, c :: !less(b, a) && !less(c, b) ==> !less(c, a))
  }

  ghost predicate IsSorted(items: seq<Item>, less: Less) {
    forall i, j :: 0 <= i < j < |items| ==> !less(items[j], items[i])
  }

  lemma Irreflexive(less: Less, a: Item)
    requires IsStrictWeakOrder(less)
    ensures !less(a, a)
    ensures forall b :: less(a, b) ==> !less(b, a)
  {
  }

  lemma NotLessTransitive(less: Less, a: Item, b: Item, c: Item)
    requires IsStrictWeakOrder(less) && !less(b, a) && !less(c, b)
    ensures !less(c, a)
  {
  }

  // ----- Sorting a buffer: any sorting will do

  method Sort(items: seq<Item>, less: Less) returns (r: seq<Item>)
    requires IsStrictWeakOrder(less)
    ensures IsSorted(r, less) && multiset(r) == multiset(items)
  {
    r := [];
    for n := 0 to |items|
      invariant IsSorted(r, less) && multiset(r) == multiset(items[..n])
    {
      var e, i := items[n], |r|;
      while i > 0 && less(e, r[i - 1])
        invariant 0 <= i <= |r| && forall k :: i <= k < |r| ==> less(e, r[k])
      {
        i := i - 1;
      }
      assert items[..n + 1] == items[..n] + [e];
      assert r == r[..i] + r[i..];
      InsertSorted(r, e, i, less);
      r := r[..i] + [e] + r[i..];
    }
    assert items[..|items|] == items;
  }

  lemma InsertSorted(r: seq<Item>, e: Item, i: nat, less: Less)
    requires IsStrictWeakOrder(less) && IsSorted(r, less) && i <= |r|
    requires (forall k :: i <= k < |r| ==> less(e, r[k])) && (i > 0 ==> !less(e, r[i - 1]))
    ensures IsSorted(r[..i] + [e] + r[i..], less)
  {
    var r' := r[..i] + [e] + r[i..];
    forall k | 0 <= k < i
      ensures !less(e, r[k])
    {
      if k < i - 1 {
        assert !less(r[i - 1], r[k]);
        NotLessTransitive(less, r[k], r[i - 1], e);
      }
    }
    forall k, m | 0 <= k < m < |r'|
      ensures !less(r'[m], r'[k])
    {
      assert r'[k] == if k < i then r[k] else if k == i then e else r[k - 1];
      assert r'[m] == if m < i then r[m] else if m == i then e else r[m - 1];
    }
  }

  // ----- Runs: pieces of the file that start at the multiples of the capacity

  function RunStart(i: nat, capacity: nat): nat
    requires capacity > 0
  {
    i - i % capacity
  }

  lemma NextMod(i: nat, capacity: nat)
    requires capacity > 0
    ensures (i + 1) % capacity == if i % capacity + 1 == capacity then 0 else i % capacity + 1
  {
    var q, r := i / capacity, i % capacity;
    assert i == q * capacity + r;
    if r + 1 == capacity {
      assert i + 1 == (q + 1) * capacity + 0;
      DivModUnique(i + 1, capacity, q + 1, 0);
    } else {
      DivModUnique(i + 1, capacity, q, r + 1);
    }
  }

  lemma RunStartIs(i: nat, capacity: nat)
    requires capacity > 0
    ensures var s := RunStart(i, capacity);
            s <= i < s + capacity && s % capacity == 0 && RunStart(s, capacity) == s
    ensures i % capacity == 0 ==> RunStart(i, capacity) == i
  {
    var q, r := i / capacity, i % capacity;
    assert i == q * capacity + r;
    DivModUnique(i - r, capacity, q, 0);
  }

  lemma NextInRun(i: nat, capacity: nat)
    requires capacity > 0
    ensures (i + 1) % capacity != 0 ==> RunStart(i + 1, capacity) == RunStart(i, capacity)
    ensures (i + 1) % capacity == 0 ==> i + 1 == RunStart(i, capacity) + capacity
  {
    NextMod(i, capacity);
  }

  // A number between the start of a run and its end belongs to the run.
  lemma {:induction false} InRun(s: nat, i: nat, capacity: nat)
    requires capacity > 0 && s % capacity == 0 && s <= i < s + capacity
    ensures RunStart(i, capacity) == s
    decreases i
  {
    if i > s {
      InRun(s, i - 1, capacity);
      NextInRun(i - 1, capacity);
    } else {
      RunStartIs(s, capacity);
    }
  }

  ghost predicate RunsAreSorted(file: seq<Item>, capacity: nat, less: Less)
    requires capacity > 0
  {
    forall i, j :: 0 <= i < j < |file| && RunStart(i, capacity) == RunStart(j, capacity) ==> !less(file[j], file[i])
  }

  // A full run behind full runs.
  lemma AppendRun(file: seq<Item>, run: seq<Item>, capacity: nat, less: Less)
    requires capacity > 0 && |file| % capacity == 0 && |run| <= capacity
    requires RunsAreSorted(file, capacity, less) && IsSorted(run, less)
    ensures RunsAreSorted(file + run, capacity, less)
    ensures |run| == capacity ==> |file + run| % capacity == 0
  {
    var all := file + run;
    forall i, j | 0 <= i < j < |all| && RunStart(i, capacity) == RunStart(j, capacity)
      ensures !less(all[j], all[i])
    {
      if j >= |file| {
        InRun(|file|, j, capacity);
        RunStartIs(i, capacity);
        if i < |file| {
          assert false;
        }
        assert all[i] == run[i - |file|] && all[j] == run[j - |file|];
      }
    }
    if |run| == capacity {
      InRun(|file|, |file| + capacity - 1, capacity);
      NextMod(|file| + capacity - 1, capacity);
      RunStartIs(|file| + capacity - 1, capacity);
    }
  }

  // ----- Merging

  // Where reading goes on in every run: pos maps the start of a run to its first item not written yet.
  ghost predicate ArePositions(pos: map<nat, nat>, n: nat, capacity: nat)
    requires capacity > 0
  {
    && (forall s: nat :: s in pos <==> s < n && RunStart(s, capacity) == s)
    && (forall s | s in pos :: s <= pos[s] <= s + capacity && pos[s] <= n)
  }

  // An item that has not been written yet.
  ghost predicate IsLeft(pos: map<nat, nat>, n: nat, capacity: nat, i: nat)
    requires capacity > 0
  {
    i < n && RunStart(i, capacity) in pos && pos[RunStart(i, capacity)] <= i
  }

  // The queue holds the first item left of every run that is not finished, and nothing else.
  ghost predicate HoldsHeads(q: map<nat, Item>, file: seq<Item>, pos: map<nat, nat>, capacity: nat)
    requires capacity > 0
  {
    forall i: nat :: (i in q <==> i < |file| && RunStart(i, capacity) in pos && pos[RunStart(i, capacity)] == i)
                     && (i in q && i < |file| ==> q[i] == file[i])
  }

  ghost predicate IsWritten(out: seq<Item>, file: seq<Item>, pos: map<nat, nat>, capacity: nat, less: Less)
    requires capacity > 0
  {
    IsSorted(out, less) && forall a, i: nat :: 0 <= a < |out| && IsLeft(pos, |file|, capacity, i) ==> !less(file[i], out[a])
  }

  // The items left in one run, and those left in all runs from s on.
  ghost function LeftInRun(file: seq<Item>, pos: map<nat, nat>, capacity: nat, s: nat): multiset<Item> {
    var end := if s + capacity <= |file| then s + capacity else |file|;
    if s in pos && pos[s] <= end then multiset(file[pos[s]..end]) else multiset{}
  }

  ghost function Left(file: seq<Item>, pos: map<nat, nat>, capacity: nat, s: nat): multiset<Item>
    requires capacity > 0
    decreases |file| - s
  {
    if s >= |file| then multiset{} else LeftInRun(file, pos, capacity, s) + Left(file, pos, capacity, s + capacity)
  }

  // The head of a run that comes first comes before everything that is left.
  lemma LeastHeadIsLeast(file: seq<Item>, pos: map<nat, nat>, q: map<nat, Item>, capacity: nat, less: Less, i: nat, j: nat)
    requires capacity > 0 && IsStrictWeakOrder(less) && RunsAreSorted(file, capacity, less)
    requires ArePositions(pos, |file|, capacity) && HoldsHeads(q, file, pos, capacity)
    requires i in q && (forall k | k in q :: !less(q[k], q[i])) && IsLeft(pos, |file|, capacity, j)
    ensures i < |file| && !less(file[j], file[i])
  {
    hide RunStart, IsStrictWeakOrder, RunsAreSorted;
    var s := RunStart(j, capacity);
    var h := pos[s];
    RunStartIs(j, capacity);
    InRun(s, h, capacity);
    assert h in q && q[h] == file[h] && q[i] == file[i];
    assert !less(file[h], file[i]);
    if h < j {
      assert !less(file[j], file[h]) by { InOneRun(file, capacity, less, h, j); }
      NotLessTransitive(less, file[i], file[h], file[j]);
    }
  }

  lemma InOneRun(file: seq<Item>, capacity: nat, less: Less, h: nat, j: nat)
    requires capacity > 0 && RunsAreSorted(file, capacity, less) && h < j < |file|
    requires RunStart(h, capacity) == RunStart(j, capacity)
    ensures !less(file[j], file[h])
  {
  }

  // Writing the head i: the positions, the queue and the multisets afterwards.
  lemma {:induction false} LeftUpdate(file: seq<Item>, pos: map<nat, nat>, capacity: nat, i: nat, s: nat)
    requires capacity > 0 && ArePositions(pos, |file|, capacity) && i < |file| && s % capacity == 0
    requires RunStart(i, capacity) in pos && pos[RunStart(i, capacity)] == i
    ensures var r := RunStart(i, capacity);
            Left(file, pos, capacity, s) == Left(file, pos[r := i + 1], capacity, s) + if s <= r then multiset{file[i]} else multiset{}
    decreases |file| - s
  {
    hide ArePositions, LeftInRun, RunStart;
    var r := RunStart(i, capacity);
    RunStartIs(i, capacity);
    if s < |file| {
      RunUpdate(file, pos, capacity, i, s);
      if s < r && r < s + capacity {
        InRun(s, r, capacity);
      }
      NextMultipleMod(s, capacity);
      LeftUpdate(file, pos, capacity, i, s + capacity);
    }
  }

  lemma RunUpdate(file: seq<Item>, pos: map<nat, nat>, capacity: nat, i: nat, s: nat)
    requires capacity > 0 && ArePositions(pos, |file|, capacity) && i < |file|
    requires RunStart(i, capacity) in pos && pos[RunStart(i, capacity)] == i
    ensures var r := RunStart(i, capacity);
            LeftInRun(file, pos, capacity, s) == LeftInRun(file, pos[r := i + 1], capacity, s) + if s == r then multiset{file[i]} else multiset{}
  {
    hide ArePositions, RunStart, LeftInRun;
    RunStartIs(i, capacity);
    var r := RunStart(i, capacity);
    if s == r {
      OwnRun(file, pos, capacity, i, r);
    } else {
      OtherRun(file, pos, capacity, r, i + 1, s);
    }
  }

  lemma OwnRun(file: seq<Item>, pos: map<nat, nat>, capacity: nat, i: nat, r: nat)
    requires r <= i < r + capacity && i < |file| && r in pos && pos[r] == i
    ensures LeftInRun(file, pos, capacity, r) == LeftInRun(file, pos[r := i + 1], capacity, r) + multiset{file[i]}
  {
    FirstOfPiece(file, i, if r + capacity <= |file| then r + capacity else |file|);
  }

  lemma OtherRun(file: seq<Item>, pos: map<nat, nat>, capacity: nat, r: nat, next: nat, s: nat)
    requires s != r
    ensures LeftInRun(file, pos[r := next], capacity, s) == LeftInRun(file, pos, capacity, s)
  {
  }

  lemma FirstOfPiece(file: seq<Item>, i: nat, end: nat)
    requires i < end <= |file|
    ensures multiset(file[i..end]) == multiset(file[i + 1..end]) + multiset{file[i]}
  {
    assert file[i..end] == [file[i]] + file[i + 1..end];
  }

  lemma NextMultipleMod(s: nat, capacity: nat)
    requires capacity > 0 && s % capacity == 0
    ensures (s + capacity) % capacity == 0
  {
    var q := s / capacity;
    assert s + capacity == (q + 1) * capacity + 0;
    DivModUnique(s + capacity, capacity, q + 1, 0);
  }

  lemma IsRun(pos: map<nat, nat>, n: nat, capacity: nat, s: nat)
    requires capacity > 0 && ArePositions(pos, n, capacity) && s < n && s % capacity == 0
    ensures s in pos
  {
    RunStartIs(s, capacity);
  }

  // At the beginning everything is left, at the end nothing is.
  lemma {:induction false} AllLeft(file: seq<Item>, pos: map<nat, nat>, capacity: nat, s: nat)
    requires capacity > 0 && s % capacity == 0 && s < |file|
    requires ArePositions(pos, |file|, capacity) && forall r | r in pos :: pos[r] == r
    ensures Left(file, pos, capacity, s) == multiset(file[s..])
    decreases |file| - s
  {
    hide ArePositions, LeftInRun, Left;
    var end := if s + capacity <= |file| then s + capacity else |file|;
    IsRun(pos, |file|, capacity, s);
    NextMultipleMod(s, capacity);
    FirstRun(file, pos, capacity, s);
    WholeRun(file, pos, capacity, s, end);
    SplitTail(file, s, end);
    if s + capacity < |file| {
      AllLeft(file, pos, capacity, s + capacity);
    } else {
      NoMoreRuns(file, pos, capacity, s + capacity);
    }
  }

  lemma FirstRun(file: seq<Item>, pos: map<nat, nat>, capacity: nat, s: nat)
    requires capacity > 0 && s < |file|
    ensures Left(file, pos, capacity, s) == LeftInRun(file, pos, capacity, s) + Left(file, pos, capacity, s + capacity)
  {
    hide LeftInRun;
  }

  lemma NoMoreRuns(file: seq<Item>, pos: map<nat, nat>, capacity: nat, s: nat)
    requires capacity > 0 && s >= |file|
    ensures Left(file, pos, capacity, s) == multiset{}
  {
  }

  lemma WholeRun(file: seq<Item>, pos: map<nat, nat>, capacity: nat, s: nat, end: nat)
    requires s < |file| && s in pos && pos[s] == s && end == if s + capacity <= |file| then s + capacity else |file|
    ensures LeftInRun(file, pos, capacity, s) == multiset(file[s..end])
  {
  }

  lemma SplitTail(file: seq<Item>, s: nat, end: nat)
    requires s <= end <= |file|
    ensures multiset(file[s..]) == multiset(file[s..end]) + multiset(file[end..])
    ensures end == |file| ==> multiset(file[end..]) == multiset{}
  {
    assert end == |file| ==> file[end..] == [];
    assert file[s..] == file[s..end] + file[end..];
  }

  lemma RunIsDone(file: seq<Item>, pos: map<nat, nat>, q: map<nat, Item>, capacity: nat, s: nat)
    requires capacity > 0 && s % capacity == 0 && s < |file|
    requires ArePositions(pos, |file|, capacity) && HoldsHeads(q, file, pos, capacity) && q == map[]
    ensures LeftInRun(file, pos, capacity, s) == multiset{}
  {
    hide RunStart;
    RunStartIs(s, capacity);
    var end := if s + capacity <= |file| then s + capacity else |file|;
    if s in pos && pos[s] < end {
      InRun(s, pos[s], capacity);
    }
    assert file[end..end] == [];
  }

  lemma {:induction false} NothingLeft(file: seq<Item>, pos: map<nat, nat>, q: map<nat, Item>, capacity: nat, s: nat)
    requires capacity > 0 && s % capacity == 0
    requires ArePositions(pos, |file|, capacity) && HoldsHeads(q, file, pos, capacity) && q == map[]
    ensures Left(file, pos, capacity, s) == multiset{}
    decreases |file| - s
  {
    hide ArePositions, HoldsHeads, LeftInRun;
    if s < |file| {
      RunIsDone(file, pos, q, capacity, s);
      NextMultipleMod(s, capacity);
      NothingLeft(file, pos, q, capacity, s + capacity);
    }
  }

  // One item is written: the head of its run is the next item, if the run goes on.
  lemma HeadsUpdate(q: map<nat, Item>, file: seq<Item>, pos: map<nat, nat>, capacity: nat, i: nat, q': map<nat, Item>)
    requires capacity > 0 && ArePositions(pos, |file|, capacity) && HoldsHeads(q, file, pos, capacity) && i in q
    requires q' == if (i + 1) % capacity != 0 && i + 1 < |file| then (q - {i})[i + 1 := file[i + 1]] else q - {i}
    ensures i < |file| && RunStart(i, capacity) in pos && pos[RunStart(i, capacity)] == i
    ensures var pos' := pos[RunStart(i, capacity) := i + 1];
            ArePositions(pos', |file|, capacity) && HoldsHeads(q', file, pos', capacity)
  {
    var s := RunStart(i, capacity);
    var pos' := pos[s := i + 1];
    RunStartIs(i, capacity);
    NextInRun(i, capacity);
    forall j: nat
      ensures (j in q' <==> j < |file| && RunStart(j, capacity) in pos' && pos'[RunStart(j, capacity)] == j)
              && (j in q' && j < |file| ==> q'[j] == file[j])
    {
      RunStartIs(j, capacity);
      if j == i + 1 {
        if (i + 1) % capacity == 0 {
          RunStartIs(i + 1, capacity);
        }
      }
    }
  }

  // The queue before merging: the first item of every run.
  ghost predicate HoldsStarts(q: map<nat, Item>, file: seq<Item>, capacity: nat, upto: nat)
    requires capacity > 0
  {
    forall j: nat :: (j in q <==> j < upto && j < |file| && RunStart(j, capacity) == j) && (j in q && j < |file| ==> q[j] == file[j])
  }

  method Heads(file: seq<Item>, itemCount: nat, capacity: nat) returns (q: map<nat, Item>)
    requires capacity > 0 && itemCount == |file|
    ensures HoldsStarts(q, file, capacity, itemCount)
  {
    q := map[];
    var i := 0;
    while i < itemCount
      invariant i % capacity == 0 && HoldsStarts(q, file, capacity, i)
      decreases itemCount - i
    {
      ghost var before := q;
      q := q[i := file[i]];
      NextMultipleMod(i, capacity);
      forall j: nat | i <= j < i + capacity
        ensures RunStart(j, capacity) == i
      {
        InRun(i, j, capacity);
      }
      i := i + capacity;
    }
  }

  lemma StartMerging(q: map<nat, Item>, file: seq<Item>, capacity: nat, less: Less) returns (pos: map<nat, nat>)
    requires capacity > 0 && HoldsStarts(q, file, capacity, |file|)
    ensures ArePositions(pos, |file|, capacity) && HoldsHeads(q, file, pos, capacity)
    ensures IsWritten([], file, pos, capacity, less) && Left(file, pos, capacity, 0) == multiset(file)
  {
    hide RunStart;
    pos := map j | j in q :: j;
    forall j: nat
      ensures RunStart(j, capacity) <= j && RunStart(RunStart(j, capacity), capacity) == RunStart(j, capacity)
    {
      RunStartIs(j, capacity);
    }
    ZeroMod(capacity);
    if file == [] {
      NoMoreRuns(file, pos, capacity, 0);
    } else {
      AllLeft(file, pos, capacity, 0);
    }
    assert file[0..] == file;
  }

  // The item that comes first, and its place in the file.
  method Top(q: map<nat, Item>, less: Less) returns (i: nat)
    requires q != map[] && IsStrictWeakOrder(less)
    ensures i in q && forall k | k in q :: !less(q[k], q[i])
  {
    assert q.Keys != {};
    i :| i in q;
    var rest := q.Keys - {i};
    Irreflexive(less, q[i]);
    while rest != {}
      invariant i in q && rest <= q.Keys && forall k | k in q && k !in rest :: !less(q[k], q[i])
      decreases rest
    {
      var j :| j in rest;
      Irreflexive(less, q[j]);
      if less(q[j], q[i]) {
        forall k | k in q && k !in rest
          ensures !less(q[k], q[j])
        {
          NotLessTransitive(less, q[j], q[i], q[k]);
        }
        i := j;
      }
      rest := rest - {j};
    }
  }

  method Merge(file: seq<Item>, itemCount: nat, capacity: nat, less: Less, heads: map<nat, Item>) returns (out: seq<Item>)
    requires capacity > 0 && itemCount == |file| && IsStrictWeakOrder(less) && RunsAreSorted(file, capacity, less)
    requires HoldsStarts(heads, file, capacity, itemCount)
    ensures IsSorted(out, less) && multiset(out) == multiset(file)
  {
    hide IsStrictWeakOrder, RunsAreSorted, HoldsHeads, ArePositions, IsWritten, Left, HoldsStarts, RunStart, IsSorted;
    var q: map<nat, Item> := heads;
    ghost var pos: map<nat, nat>;
    pos := StartMerging(q, file, capacity, less);
    out := [];
    while q != map[]
      invariant ArePositions(pos, |file|, capacity) && HoldsHeads(q, file, pos, capacity)
      invariant IsWritten(out, file, pos, capacity, less)
      invariant multiset(out) + Left(file, pos, capacity, 0) == multiset(file)
      decreases |Left(file, pos, capacity, 0)|
    {
      var i := Top(q, less);
      ghost var q0, pos0, left0 := q, pos, Left(file, pos, capacity, 0);
      var item := q[i];
      var next := i + 1;
      q := q - {i};
      if next % capacity != 0 && next < itemCount {
        q := q[next := file[next]];
      }
      HeadsUpdate(q0, file, pos0, capacity, i, q);
      ZeroMod(capacity);
      LeftUpdate(file, pos0, capacity, i, 0);
      pos := pos[RunStart(i, capacity) := i + 1];
      WriteOne(out, file, pos0, q0, capacity, less, i);
      assert item == file[i] by { HeadIs(q0, file, pos0, capacity, i); }
      out := out + [item];
      assert left0 == Left(file, pos, capacity, 0) + multiset{item};
    }
    ZeroMod(capacity);
    NothingLeft(file, pos, q, capacity, 0);
    assert IsSorted(out, less) by { WrittenIsSorted(out, file, pos, capacity, less); }
  }

  lemma ZeroMod(capacity: nat)
    requires capacity > 0
    ensures 0 % capacity == 0 && 0 <= RunStart(0, capacity)
    ensures forall i: nat :: 0 <= RunStart(i, capacity)
  {
    DivModUnique(0, capacity, 0, 0);
    forall i: nat
      ensures 0 <= RunStart(i, capacity)
    {
      RunStartIs(i, capacity);
    }
  }

  lemma HeadIs(q: map<nat, Item>, file: seq<Item>, pos: map<nat, nat>, capacity: nat, i: nat)
    requires capacity > 0 && HoldsHeads(q, file, pos, capacity) && i in q
    ensures i < |file| && q[i] == file[i]
  {
  }

  lemma WrittenIsSorted(out: seq<Item>, file: seq<Item>, pos: map<nat, nat>, capacity: nat, less: Less)
    requires capacity > 0 && IsWritten(out, file, pos, capacity, less)
    ensures IsSorted(out, less)
  {
  }

  // The item written comes neither before those written earlier nor behind those still left.
  lemma WriteOne(out: seq<Item>, file: seq<Item>, pos: map<nat, nat>, q: map<nat, Item>, capacity: nat, less: Less, i: nat)
    requires capacity > 0 && IsStrictWeakOrder(less) && RunsAreSorted(file, capacity, less)
    requires ArePositions(pos, |file|, capacity) && HoldsHeads(q, file, pos, capacity)
    requires IsWritten(out, file, pos, capacity, less) && i in q && forall k | k in q :: !less(q[k], q[i])
    ensures i < |file|
    ensures IsWritten(out + [file[i]], file, pos[RunStart(i, capacity) := i + 1], capacity, less)
  {
    hide RunsAreSorted, RunStart, IsStrictWeakOrder;
    HeadIs(q, file, pos, capacity, i);
    var pos' := pos[RunStart(i, capacity) := i + 1];
    var out' := out + [file[i]];
    assert IsLeft(pos, |file|, capacity, i);
    forall j: nat | IsLeft(pos', |file|, capacity, j)
      ensures IsLeft(pos, |file|, capacity, j) && !less(file[j], file[i])
    {
      assert pos[RunStart(i, capacity)] == i;
      LeastHeadIsLeast(file, pos, q, capacity, less, i, j);
    }
    assert IsSorted(out', less);
  }

  // ----- The class

  class FileSorter {
    const capacity: nat
    const less: Less
    var buffer: seq<Item>
    var file: seq<Item>
    var itemCount: nat
    var output: seq<Item>
    ghost var added: seq<Item>

    // Everything added is in the buffer or, in sorted full runs, in the file.
    ghost predicate Valid()
      reads this
    {
      && capacity > 0 && |buffer| <= capacity && |file| % capacity == 0
      && IsStrictWeakOrder(less) && RunsAreSorted(file, capacity, less)
      && itemCount == |added| == |file| + |buffer|
      && multiset(file) + multiset(buffer) == multiset(added)
    }

    // The size of the buffer in items, but not less than 16.
    constructor (bufferItems: nat, less: Less)
      requires IsStrictWeakOrder(less)
      ensures Valid() && added == [] && output == [] && this.less == less
      ensures capacity >= 16 && capacity >= bufferItems && (capacity == 16 || capacity == bufferItems)
    {
      capacity := if bufferItems < 16 then 16 else bufferItems;
      this.less := less;
      buffer, file, itemCount, output, added := [], [], 0, [], [];
    }

    method FlushToTmpFile()
      requires Valid()
      modifies this`buffer, this`file
      ensures buffer == [] && RunsAreSorted(file, capacity, less)
      ensures multiset(file) == multiset(added) && |file| == |added|
      ensures |old(buffer)| == capacity ==> Valid()
    {
      hide IsSorted, IsStrictWeakOrder, RunsAreSorted;
      if buffer == [] {
        return;
      }
      var run := Sort(buffer, less);
      assert |run| == |multiset(run)| == |multiset(buffer)| == |buffer|;
      AppendRun(file, run, capacity, less);
      file := file + run;
      buffer := [];
    }

    method Add(item: Item)
      requires Valid()
      modifies this
      ensures Valid() && added == old(added) + [item] && output == old(output)
      // The file grows only when the buffer is full.
      ensures |old(buffer)| < capacity ==> buffer == old(buffer) + [item] && file == old(file)
      ensures |old(buffer)| == capacity ==> buffer == [item] && |file| == |old(file)| + capacity
    {
      hide IsStrictWeakOrder, RunsAreSorted;
      if |buffer| == capacity {
        FlushToTmpFile();
      }
      buffer := buffer + [item];
      itemCount := itemCount + 1;
      added := added + [item];
    }

    // Writes everything that has been added, in order.
    method SortAndFinish()
      requires Valid() && output == []
      modifies this
      ensures added == old(added)
      ensures IsSorted(output, less) && multiset(output) == multiset(added)
    {
      hide IsStrictWeakOrder, RunsAreSorted;
      FlushToTmpFile();
      var q := Heads(file, itemCount, capacity);
      output := Merge(file, itemCount, capacity, less, q);
    }
  }
}
