/**
 base::MemTrie: a path-compressed trie from keys to lists of values.
 */
module MemTrie {
  import opened Options
  import opened Sequences

  type Char = nat
  type Key = seq<Char>
  type Value = nat

  // The edge is what follows the first character on the way from the parent.
  datatype Node = Node(moves: map<Char, Node>, edge: Key, values: seq<Value>) {
    predicate Empty() { moves == map[] && values == [] }
  }

  const EMPTY_NODE: Node := Node(map[], [], [])

  // ----- The meaning of a trie: the values of every key, in the order in which they were added

  function Lookup(n: Node, key: Key): seq<Value>
    decreases |key|
  {
    if key == [] then n.values
    else if key[0] !in n.moves then []
    else
      var child, rest := n.moves[key[0]], key[1..];
      if child.edge <= rest then Lookup(child, rest[|child.edge|..]) else []
  }

  // What is found from the edge to a node on.
  function Below(child: Node, key: Key): seq<Value> {
    if child.edge <= key then Lookup(child, key[|child.edge|..]) else []
  }

  lemma LookupStep(n: Node, key: Key)
    requires key != []
    ensures Lookup(n, key) == if key[0] in n.moves then Below(n.moves[key[0]], key[1..]) else []
  {
  }

  // Every node but the root leads somewhere or holds something.
  ghost predicate IsTrie(n: Node) {
    forall c | c in n.moves :: !n.moves[c].Empty() && IsTrie(n.moves[c])
  }

  // Below a node that is not empty there is a key with a value.
  lemma {:induction false} SomeKey(n: Node) returns (key: Key)
    requires IsTrie(n) && !n.Empty()
    ensures Lookup(n, key) != []
    decreases n
  {
    if n.values != [] {
      key := [];
    } else {
      var c :| c in n.moves;
      var child := n.moves[c];
      var rest := SomeKey(child);
      key := [c] + (child.edge + rest);
      assert key[1..] == child.edge + rest && (child.edge + rest)[|child.edge|..] == rest;
    }
  }

  // What is found behind the first character and the edge of a child.
  lemma LookupBehind(n: Node, c: Char, key: Key)
    requires c in n.moves
    ensures Lookup(n, [c] + (n.moves[c].edge + key)) == Lookup(n.moves[c], key)
  {
    var edge := n.moves[c].edge;
    var k := [c] + (edge + key);
    assert k[1..] == edge + key && (edge + key)[|edge|..] == key;
  }

  // ----- Adding

  // A node for the first i characters of the edge, and below it what was there before.
  function Split(child: Node, i: nat): Node
    requires i < |child.edge|
  {
    Node(map[child.edge[i] := child.(edge := child.edge[i + 1..])], child.edge[..i], [])
  }

  function Added(n: Node, key: Key, value: Value): Node
    decreases |key|
  {
    if key == [] then n.(values := n.values + [value])
    else
      var c, rest := key[0], key[1..];
      if c !in n.moves then n.(moves := n.moves[c := Node(map[], rest, [value])])
      else
        var child := n.moves[c];
        var i := CommonPrefix(child.edge, rest);
        var next := if i == |child.edge| then child else Split(child, i);
        n.(moves := n.moves[c := Added(next, rest[i..], value)])
  }

  lemma AddedKeepsEdge(n: Node, key: Key, value: Value)
    ensures Added(n, key, value).edge == n.edge && !Added(n, key, value).Empty()
  {
    if key != [] {
      assert key[0] in Added(n, key, value).moves;
    }
  }

  // A split node is reached and searched as the old one.
  lemma SplitLookup(child: Node, i: nat, key: Key)
    requires i < |child.edge|
    ensures Below(Split(child, i), key) == Below(child, key)
  {
    var edge, s := child.edge, Split(child, i);
    if edge[..i] <= key && i < |key| {
      var k := key[i..];
      assert k[0] == key[i] && k[1..] == key[i + 1..];
      var lower := child.(edge := edge[i + 1..]);
      assert edge <= key <==> edge[i] == key[i] && edge[i + 1..] <= key[i + 1..] by {
        if edge[i] == key[i] && edge[i + 1..] <= key[i + 1..] {
          assert edge == edge[..i] + [edge[i]] + edge[i + 1..];
          assert key == key[..i] + [key[i]] + key[i + 1..];
        }
      }
      if edge <= key {
        assert key[i + 1..][|edge[i + 1..]|..] == key[|edge|..];
        SameBelow(child, edge[i + 1..], key[|edge|..]);
      }
    }
  }

  // The edge of a node plays no role below it.
  lemma SameBelow(n: Node, edge: Key, key: Key)
    ensures Lookup(n.(edge := edge), key) == Lookup(n, key)
  {
  }

  // The child that an addition goes on with, after a split if need be.
  function NextNode(child: Node, rest: Key): Node {
    var i := CommonPrefix(child.edge, rest);
    if i == |child.edge| then child else Split(child, i)
  }

  lemma NextNodeIs(child: Node, rest: Key, k: Key)
    ensures NextNode(child, rest).edge <= rest && |NextNode(child, rest).edge| == CommonPrefix(child.edge, rest)
    ensures Below(NextNode(child, rest), k) == Below(child, k)
  {
    hide Lookup;
    var i := CommonPrefix(child.edge, rest);
    if i < |child.edge| {
      SplitLookup(child, i, k);
    }
  }

  // Added adds one value behind those of its key, and changes no other key.
  lemma {:induction false} AddedLookup(n: Node, key: Key, value: Value, k: Key)
    ensures Lookup(Added(n, key, value), k) == Lookup(n, k) + if k == key then [value] else []
    decreases |key|, 0
  {
    hide CommonPrefix, Split, Lookup;
    if key == [] {
      AddedHere(n, value, k);
    } else if k == [] {
      assert Lookup(Added(n, key, value), []) == Lookup(n, []) by { ValuesHere(n); ValuesHere(Added(n, key, value)); }
    } else {
      LookupStep(n, k);
      LookupStep(Added(n, key, value), k);
      var c, rest, krest := key[0], key[1..], k[1..];
      assert k == key <==> k[0] == c && krest == rest by {
        assert k == [k[0]] + krest && key == [c] + rest;
      }
      if k[0] == c {
        if c in n.moves {
          AddedMove(n, key, value);
          AddedBelow(n.moves[c], rest, value, krest);
        } else {
          NewLeaf(rest, value, krest);
        }
      }
    }
  }

  lemma AddedBelow(child: Node, rest: Key, value: Value, k: Key)
    ensures var next := NextNode(child, rest);
            Below(Added(next, rest[|next.edge|..], value), k) == Below(child, k) + if k == rest then [value] else []
    decreases |rest|, 1
  {
    hide CommonPrefix, Split, Lookup, Added;
    var next := NextNode(child, rest);
    NextNodeIs(child, rest, k);
    var i := |next.edge|;
    AddedKeepsEdge(next, rest[i..], value);
    assert rest == next.edge + rest[i..];
    if next.edge <= k {
      assert k == next.edge + k[i..];
      AddedLookup(next, rest[i..], value, k[i..]);
    }
  }

  lemma AddedMove(n: Node, key: Key, value: Value)
    requires key != [] && key[0] in n.moves
    ensures var next := NextNode(n.moves[key[0]], key[1..]);
            && |next.edge| <= |key| - 1
            && Added(n, key, value).moves == n.moves[key[0] := Added(next, key[1..][|next.edge|..], value)]
  {
    NextNodeIs(n.moves[key[0]], key[1..], []);
  }

  lemma NewLeaf(edge: Key, value: Value, k: Key)
    ensures Below(Node(map[], edge, [value]), k) == if k == edge then [value] else []
  {
    if edge <= k {
      assert k == edge + k[|edge|..];
    }
  }

  lemma ValuesHere(n: Node)
    ensures Lookup(n, []) == n.values
  {
  }

  lemma AddedHere(n: Node, value: Value, k: Key)
    ensures Lookup(Added(n, [], value), k) == Lookup(n, k) + if k == [] then [value] else []
  {
  }

  lemma {:induction false} AddedIsTrie(n: Node, key: Key, value: Value)
    requires IsTrie(n)
    ensures IsTrie(Added(n, key, value))
    decreases |key|
  {
    if key != [] {
      var c, rest := key[0], key[1..];
      if c in n.moves {
        var child := n.moves[c];
        var i := CommonPrefix(child.edge, rest);
        var next := if i == |child.edge| then child else Split(child, i);
        assert IsTrie(next) by {
          if i < |child.edge| {
            assert forall d | d in child.moves :: IsTrie(child.moves[d]);
            assert IsTrie(child.(edge := child.edge[i + 1..]));
          }
        }
        AddedIsTrie(next, rest[i..], value);
        AddedKeepsEdge(next, rest[i..], value);
      }
    }
  }

  // ----- Erasing

  function EraseFirst(values: seq<Value>, v: Value): seq<Value> {
    if values == [] then [] else if values[0] == v then values[1..] else [values[0]] + EraseFirst(values[1..], v)
  }

  // A node without values and with one child is merged with that child.
  ghost predicate Mergeable(n: Node) {
    n.values == [] && |n.moves| == 1
  }

  ghost function Merged(n: Node): Node
    requires Mergeable(n)
  {
    assert n.moves.Keys != {};
    var c :| c in n.moves;
    n.moves[c].(edge := n.edge + [c] + n.moves[c].edge)
  }

  ghost function Erased(n: Node, key: Key, value: Value): Node
    decreases |key|
  {
    if key == [] then
      var n' := n.(values := EraseFirst(n.values, value));
      if Mergeable(n') then Merged(n') else n'
    else
      var c, rest := key[0], key[1..];
      if c !in n.moves || !(n.moves[c].edge <= rest) then n
      else
        var child := Erased(n.moves[c], rest[|n.moves[c].edge|..], value);
        if child.Empty() then n.(moves := n.moves - {c}) else n.(moves := n.moves[c := child])
  }

  lemma OnlyMove(n: Node, c: Char, d: Char)
    requires |n.moves| == 1 && c in n.moves && d in n.moves
    ensures c == d
  {
    assert |n.moves.Keys| == 1;
    var rest := n.moves.Keys - {c};
    assert |rest| == 0;
    assert d !in rest;
  }

  // Merging changes nothing for those who come from above.
  lemma MergedBelow(n: Node, k: Key)
    requires Mergeable(n)
    ensures Below(Merged(n), k) == Below(n, k)
  {
    assert n.moves.Keys != {};
    var c :| c in n.moves && Merged(n) == n.moves[c].(edge := n.edge + [c] + n.moves[c].edge);
    var child := n.moves[c];
    var edge := n.edge + [c] + child.edge;
    assert edge <= k ==> n.edge <= k;
    if n.edge <= k {
      var rest := k[|n.edge|..];
      assert k == n.edge + rest;
      if rest != [] {
        LookupStep(n, rest);
        if rest[0] == c {
          MergedEdge(n.edge, c, child.edge, k);
          if edge <= k {
            SameBelow(child, edge, k[|edge|..]);
          }
        } else {
          OnlyMoveBut(n, c, rest[0]);
          assert k[|n.edge|] != edge[|n.edge|];
        }
      } else {
        ValuesHere(n);
      }
    }
  }

  lemma OnlyMoveBut(n: Node, c: Char, d: Char)
    requires |n.moves| == 1 && c in n.moves && d != c
    ensures d !in n.moves
  {
    if d in n.moves {
      OnlyMove(n, c, d);
    }
  }

  lemma MergedEdge(a: Key, c: Char, b: Key, k: Key)
    requires a <= k && |k| > |a| && k[|a|] == c
    ensures a + [c] + b <= k <==> b <= k[|a| + 1..]
    ensures a + [c] + b <= k ==> k[|a + [c] + b|..] == k[|a| + 1..][|b|..]
  {
    assert k == a + [c] + k[|a| + 1..];
    if b <= k[|a| + 1..] {
      assert k[|a| + 1..] == b + k[|a| + 1..][|b|..];
      assert k == (a + [c] + b) + k[|a| + 1..][|b|..];
    }
    if a + [c] + b <= k {
      assert k == (a + [c] + b) + k[|a + [c] + b|..];
      assert k[|a| + 1..] == b + k[|a + [c] + b|..];
    }
  }

  lemma NothingInEmpty(n: Node, k: Key)
    requires n.Empty()
    ensures Below(n, k) == []
  {
  }

  // What one erasure makes of the values of a key, for a key that starts in front of the node's edge.
  lemma {:induction false} ErasedBelow(n: Node, key: Key, value: Value, k: Key)
    ensures Below(Erased(n, key, value), k) == if k == n.edge + key then EraseFirst(Below(n, k), value) else Below(n, k)
    decreases |key|, 1
  {
    hide EraseFirst, Lookup, Merged, Mergeable;
    if key == [] {
      ErasedHere(n, value, k);
    } else {
      ErasedKeepsEdge(n, key, value);
      if n.edge <= k {
        var rest := k[|n.edge|..];
        assert k == n.edge + rest;
        ErasedLookup(n, key, value, rest);
      }
    }
  }

  lemma ErasedKeepsEdge(n: Node, key: Key, value: Value)
    requires key != []
    ensures Erased(n, key, value).edge == n.edge && Erased(n, key, value).values == n.values
  {
  }

  lemma ErasedHere(n: Node, value: Value, k: Key)
    ensures Below(Erased(n, [], value), k) == if k == n.edge then EraseFirst(Below(n, k), value) else Below(n, k)
  {
    hide EraseFirst, Lookup, Merged;
    var n' := n.(values := EraseFirst(n.values, value));
    if Mergeable(n') {
      MergedBelow(n', k);
    }
    if n.edge <= k {
      ValuesHere(n);
      ValuesHere(n');
      if k[|n.edge|..] != [] {
        LookupStep(n, k[|n.edge|..]);
        LookupStep(n', k[|n.edge|..]);
      }
    }
  }

  // The same for a key that starts behind the node, as every key does at the root.
  lemma {:induction false} ErasedLookup(n: Node, key: Key, value: Value, k: Key)
    requires key != []
    ensures Lookup(Erased(n, key, value), k) == if k == key then EraseFirst(Lookup(n, k), value) else Lookup(n, k)
    decreases |key|, 0
  {
    hide EraseFirst, Lookup, Merged, Mergeable;
    ErasedKeepsEdge(n, key, value);
    var n' := Erased(n, key, value);
    ValuesHere(n);
    ValuesHere(n');
    if k != [] {
      LookupStep(n, k);
      LookupStep(n', k);
      var c, rest := key[0], key[1..];
      assert k == key <==> k[0] == c && k[1..] == rest by {
        assert k == [k[0]] + k[1..] && key == [c] + rest;
      }
      if c in n.moves && k[0] == c {
        ErasedInChild(n.moves[c], rest, value, k[1..]);
      }
      NothingErased(value);
    }
  }

  lemma NothingErased(value: Value)
    ensures EraseFirst([], value) == []
  {
  }

  lemma ErasedInChild(child: Node, rest: Key, value: Value, k: Key)
    ensures !(child.edge <= rest) ==> (k == rest ==> Below(child, k) == [])
    ensures child.edge <= rest ==>
              var child' := Erased(child, rest[|child.edge|..], value);
              && Below(child', k) == (if k == rest then EraseFirst(Below(child, k), value) else Below(child, k))
              && (child'.Empty() ==> Below(child', k) == [])
    decreases |rest|, 2
  {
    hide EraseFirst, Lookup, Merged, Mergeable, Erased;
    if child.edge <= rest {
      assert rest == child.edge + rest[|child.edge|..];
      ErasedBelow(child, rest[|child.edge|..], value, k);
      if Erased(child, rest[|child.edge|..], value).Empty() {
        NothingInEmpty(Erased(child, rest[|child.edge|..], value), k);
      }
    }
  }

  lemma {:induction false} ErasedIsTrie(n: Node, key: Key, value: Value)
    requires IsTrie(n)
    ensures IsTrie(Erased(n, key, value))
    decreases |key|
  {
    hide EraseFirst;
    if key == [] {
      var n' := n.(values := EraseFirst(n.values, value));
      if Mergeable(n') {
        MergedIsTrie(n');
      }
    } else {
      var c, rest := key[0], key[1..];
      if c in n.moves && n.moves[c].edge <= rest {
        ErasedIsTrie(n.moves[c], rest[|n.moves[c].edge|..], value);
      }
    }
  }

  lemma MergedIsTrie(n: Node)
    requires IsTrie(n) && Mergeable(n)
    ensures IsTrie(Merged(n)) && !Merged(n).Empty()
  {
    assert n.moves.Keys != {};
    var c :| c in n.moves && Merged(n) == n.moves[c].(edge := n.edge + [c] + n.moves[c].edge);
    var child := n.moves[c];
    assert IsTrie(child);
  }

  // ----- The empty key

  // The branch that goes wrong at the root: what is left there is merged with its only child, whose
  // edge nobody looks at.
  ghost predicate MergesRoot(root: Node, key: Key, value: Value) {
    key == [] && EraseFirst(root.values, value) == [] && |root.moves| == 1
  }

  ghost predicate ErasesRight(root: Node, key: Key, value: Value) {
    forall k :: Lookup(Erased(root, key, value), k) == if k == key then EraseFirst(Lookup(root, k), value) else Lookup(root, k)
  }

  // After the merge some key is found that is not there, or one that is there is lost.
  lemma {:induction false} MergedRootIsWrong(n: Node, r: Key) returns (k: Key)
    requires Mergeable(n) && Lookup(Merged(n), r) != []
    ensures Lookup(Merged(n), k) != Lookup(n, k)
    decreases |r|
  {
    if r == [] || Lookup(n, r) == [] {
      k := r;
      ValuesHere(n);
    } else {
      assert n.moves.Keys != {};
      var c :| c in n.moves && Merged(n) == n.moves[c].(edge := n.edge + [c] + n.moves[c].edge);
      var child := n.moves[c];
      LookupStep(n, r);
      OnlyMove(n, c, r[0]);
      var r' := r[1..][|child.edge|..];
      SameBelow(child, n.edge + [c] + child.edge, r');
      k := MergedRootIsWrong(n, r');
    }
  }

  // Erasing takes one value of its key away, and nothing else, exactly when the root is not merged.
  lemma EraseIsRightIff(root: Node, key: Key, value: Value)
    requires IsTrie(root)
    ensures ErasesRight(root, key, value) <==> !MergesRoot(root, key, value)
  {
    hide Lookup, EraseFirst, Merged;
    if MergesRoot(root, key, value) {
      var n := root.(values := EraseFirst(root.values, value));
      MergedIsTrie(n);
      var r := SomeKey(Merged(n));
      var k := MergedRootIsWrong(n, r);
      OtherValues(root, n, k);
    } else {
      forall k
        ensures Lookup(Erased(root, key, value), k) == if k == key then EraseFirst(Lookup(root, k), value) else Lookup(root, k)
      {
        if key == [] {
          OtherValues(root, root.(values := EraseFirst(root.values, value)), k);
        } else {
          ErasedLookup(root, key, value, k);
        }
      }
    }
  }

  lemma RootKeepsEdge(root: Node, key: Key, value: Value)
    requires !MergesRoot(root, key, value)
    ensures Erased(root, key, value).edge == root.edge
  {
  }

  lemma OtherValues(n: Node, n': Node, k: Key)
    requires n'.moves == n.moves
    ensures Lookup(n', k) == if k == [] then n'.values else Lookup(n, k)
    ensures Lookup(n, []) == n.values
  {
  }

  // ----- Moving along a prefix

  // Where a prefix leads: a node, and how much of its edge the prefix covers.
  datatype Place = Place(node: Node, offset: nat)

  // Behind the prefix there is what is below that place, or nothing at all.
  ghost predicate LeadsTo(root: Node, prefix: Key, place: Option<Place>) {
    match place
    case None => forall k: Key :: Lookup(root, prefix + k) == []
    case Some(p) =>
      && p.offset <= |p.node.edge|
      && forall k: Key :: Lookup(root, prefix + k) == if p.node.edge[p.offset..] <= k
                                                      then Lookup(p.node, k[|p.node.edge| - p.offset..]) else []
  }

  lemma StepOn(cur: Node, rest: Key, k: Key)
    requires rest != []
    ensures Lookup(cur, rest + k) == if rest[0] in cur.moves then Below(cur.moves[rest[0]], rest[1..] + k) else []
  {
    LookupStep(cur, rest + k);
    assert (rest + k)[1..] == rest[1..] + k;
  }

  method SkipEqual(edge: Key, prefix: Key, from: nat) returns (i: nat)
    requires from <= |prefix|
    ensures i == CommonPrefix(edge, prefix[from..])
  {
    hide CommonPrefix;
    i := 0;
    assert edge[0..] == edge;
    while i < |edge| && from + i < |prefix| && edge[i] == prefix[from + i]
      invariant i <= |edge| && from + i <= |prefix|
      invariant i + CommonPrefix(edge[i..], prefix[from + i..]) == CommonPrefix(edge, prefix[from..])
    {
      OneMoreEqual(edge[i..], prefix[from + i..]);
      assert edge[i..][1..] == edge[i + 1..] && prefix[from + i..][1..] == prefix[from + i + 1..];
      i := i + 1;
    }
    NoMoreEqual(edge[i..], prefix[from + i..]);
  }

  lemma NoMoreEqual(a: Key, b: Key)
    requires a == [] || b == [] || a[0] != b[0]
    ensures CommonPrefix(a, b) == 0
  {
  }

  lemma OneMoreEqual(a: Key, b: Key)
    requires a != [] && b != [] && a[0] == b[0]
    ensures CommonPrefix(a, b) == 1 + CommonPrefix(a[1..], b[1..])
  {
  }

  lemma PrefixWithin(edge: Key, rest: Key, i: nat)
    requires i == CommonPrefix(edge, rest)
    ensures edge <= rest <==> i == |edge|
    ensures i < |rest| && i < |edge| ==> !(edge <= rest) && forall k: Key :: !(edge <= rest + k)
    ensures i == |rest| ==> forall k: Key :: edge <= rest + k <==> edge[i..] <= k
  {
    if i < |rest| && i < |edge| {
      forall k: Key
        ensures !(edge <= rest + k)
      {
        assert (rest + k)[i] == rest[i];
      }
    }
    if i == |rest| {
      assert edge == rest + edge[i..];
      forall k: Key
        ensures edge <= rest + k <==> edge[i..] <= k
      {
        PrefixOfConcat(rest, edge[i..], k);
      }
    }
  }

  method MoveTo(root: Node, prefix: Key, fullMatch: bool) returns (place: Option<Place>)
    ensures !fullMatch && (prefix != [] || root.edge == []) ==> LeadsTo(root, prefix, place)
    ensures fullMatch ==> Lookup(root, prefix) == if place.Some? then place.value.node.values else []
    ensures prefix == [] ==> place == Some(Place(root, 0))
    ensures place.Some? && prefix != [] ==> (IsTrie(root) ==> IsTrie(place.value.node) && !place.value.node.Empty())
  {
    hide Lookup, CommonPrefix, GoesOnAt, GoesOnBelow;
    if prefix == [] {
      assert forall k: Key :: prefix + k == k;
      ValuesHere(root);
      return Some(Place(root, 0));
    }
    var cur, it := root, 0;
    assert GoesOnAt(root, prefix, root, 0) by { StartsHere(root, prefix); }
    while true
      invariant it < |prefix| && (IsTrie(root) ==> IsTrie(cur)) && GoesOnAt(root, prefix, cur, it)
      decreases |prefix| - it
    {
      OneMove(root, prefix, cur, it);
      if prefix[it] !in cur.moves {
        assert prefix + [] == prefix;
        return None;
      }
      ghost var parent, from := cur, it;
      cur := cur.moves[prefix[it]];
      it := it + 1;
      var i := SkipEqual(cur.edge, prefix, it);
      it := it + i;
      OneEdge(root, prefix, cur, from, i);
      if i < |cur.edge| {
        if it != |prefix| || fullMatch {
          return None;
        }
      }
      if it == |prefix| {
        return Some(Place(cur, i));
      }
    }
  }

  // The search for a prefix goes on at a node with the rest of the prefix.
  ghost predicate GoesOnAt(root: Node, prefix: Key, cur: Node, it: nat)
    requires it <= |prefix|
  {
    forall k: Key :: Lookup(root, prefix + k) == Lookup(cur, prefix[it..] + k)
  }

  ghost predicate GoesOnBelow(root: Node, prefix: Key, child: Node, it: nat)
    requires it <= |prefix|
  {
    forall k: Key :: Lookup(root, prefix + k) == Below(child, prefix[it..] + k)
  }

  lemma StartsHere(root: Node, prefix: Key)
    ensures GoesOnAt(root, prefix, root, 0)
  {
    assert prefix[0..] == prefix;
  }

  lemma OneMove(root: Node, prefix: Key, cur: Node, it: nat)
    requires it < |prefix| && GoesOnAt(root, prefix, cur, it)
    ensures prefix[it] !in cur.moves ==> LeadsTo(root, prefix, None) && Lookup(root, prefix) == []
    ensures prefix[it] in cur.moves ==> GoesOnBelow(root, prefix, cur.moves[prefix[it]], it + 1)
  {
    hide Lookup, Below;
    var rest := prefix[it..];
    assert rest[1..] == prefix[it + 1..];
    forall k: Key
      ensures Lookup(root, prefix + k) == if prefix[it] in cur.moves then Below(cur.moves[prefix[it]], prefix[it + 1..] + k) else []
    {
      StepOn(cur, rest, k);
    }
    assert prefix + [] == prefix;
  }

  // Behind the i characters that an edge has in common with the rest of the prefix.
  lemma OneEdge(root: Node, prefix: Key, child: Node, from: nat, i: nat)
    requires from < |prefix| && GoesOnBelow(root, prefix, child, from + 1) && i == CommonPrefix(child.edge, prefix[from + 1..])
    ensures i < |child.edge| && from + 1 + i != |prefix| ==> LeadsTo(root, prefix, None)
    ensures i < |child.edge| ==> Lookup(root, prefix) == []
    ensures from + 1 + i == |prefix| ==> LeadsTo(root, prefix, Some(Place(child, i)))
    ensures i == |child.edge| ==> GoesOnAt(root, prefix, child, from + 1 + i)
    ensures i == |child.edge| && from + 1 + i == |prefix| ==> Lookup(root, prefix) == child.values
  {
    hide Lookup, CommonPrefix, Below, LeadsTo, GoesOnAt, GoesOnBelow;
    var rest := prefix[from + 1..];
    PrefixWithin(child.edge, rest, i);
    if i == |child.edge| {
      WholeEdge(root, prefix, child, from + 1);
    } else {
      NotThisKey(root, prefix, child, from + 1);
      if i == |rest| {
        PartCovered(root, prefix, child, from + 1, i);
      } else {
        PartDiffers(root, prefix, child, from + 1);
      }
    }
  }

  lemma WholeEdge(root: Node, prefix: Key, child: Node, it: nat)
    requires it <= |prefix| && GoesOnBelow(root, prefix, child, it) && child.edge <= prefix[it..]
    ensures GoesOnAt(root, prefix, child, it + |child.edge|)
    ensures it + |child.edge| == |prefix| ==>
              LeadsTo(root, prefix, Some(Place(child, |child.edge|))) && Lookup(root, prefix) == child.values
  {
    hide Lookup;
    var rest, i := prefix[it..], |child.edge|;
    forall k: Key
      ensures Lookup(root, prefix + k) == Lookup(child, prefix[it + i..] + k)
    {
      assert Lookup(root, prefix + k) == Below(child, rest + k);
      assert (rest + k)[i..] == prefix[it + i..] + k;
    }
    if it + i == |prefix| {
      assert forall k: Key :: prefix[it + i..] + k == k && k[0..] == k;
      assert prefix + [] == prefix;
      ValuesHere(child);
      assert Lookup(root, prefix + []) == Lookup(child, prefix[it + i..] + []);
    }
  }

  // The prefix ends within the edge.
  lemma PartCovered(root: Node, prefix: Key, child: Node, it: nat, i: nat)
    requires it <= |prefix| && GoesOnBelow(root, prefix, child, it) && i == |prefix[it..]| < |child.edge|
    requires forall k: Key :: child.edge <= prefix[it..] + k <==> child.edge[i..] <= k
    ensures LeadsTo(root, prefix, Some(Place(child, i)))
  {
    hide Lookup;
    var rest := prefix[it..];
    forall k: Key
      ensures Lookup(root, prefix + k) == if child.edge[i..] <= k then Lookup(child, k[|child.edge| - i..]) else []
    {
      assert Lookup(root, prefix + k) == Below(child, rest + k);
      if child.edge[i..] <= k {
        DropBoth(rest, k, |child.edge|);
      }
    }
  }

  // The edge goes another way than the prefix.
  lemma PartDiffers(root: Node, prefix: Key, child: Node, it: nat)
    requires it <= |prefix| && GoesOnBelow(root, prefix, child, it)
    requires forall k: Key :: !(child.edge <= prefix[it..] + k)
    ensures LeadsTo(root, prefix, None)
  {
    hide Lookup;
    forall k: Key
      ensures Lookup(root, prefix + k) == []
    {
      assert Lookup(root, prefix + k) == Below(child, prefix[it..] + k);
    }
  }

  lemma NotThisKey(root: Node, prefix: Key, child: Node, it: nat)
    requires it <= |prefix| && GoesOnBelow(root, prefix, child, it) && !(child.edge <= prefix[it..])
    ensures Lookup(root, prefix) == []
  {
    hide Lookup;
    var rest := prefix[it..];
    assert prefix + [] == prefix && rest + [] == rest;
    assert Lookup(root, prefix + []) == Below(child, rest + []);
  }

  lemma DropBoth(a: Key, b: Key, n: nat)
    requires |a| <= n <= |a| + |b|
    ensures (a + b)[n..] == b[n - |a|..]
  {
  }

  // ----- Listing a subtree

  datatype Item = Item(key: Key, value: Value)

  ghost predicate LexLeq(a: Key, b: Key)
    decreases |a|
  {
    a == [] || (b != [] && (a[0] < b[0] || (a[0] == b[0] && LexLeq(a[1..], b[1..]))))
  }

  ghost predicate IsSorted(items: seq<Item>) {
    forall i, j :: 0 <= i < j < |items| ==> LexLeq(items[i].key, items[j].key)
  }

  ghost predicate AllUnder(items: seq<Item>, prefix: Key) {
    forall i :: 0 <= i < |items| ==> prefix <= items[i].key
  }

  // The values listed for a key.
  ghost function ValuesFor(items: seq<Item>, key: Key): seq<Value> {
    if items == [] then []
    else
      var last := items[|items| - 1];
      ValuesFor(items[..|items| - 1], key) + if last.key == key then [last.value] else []
  }

  lemma {:induction false} ValuesForConcat(a: seq<Item>, b: seq<Item>, key: Key)
    ensures ValuesFor(a + b, key) == ValuesFor(a, key) + ValuesFor(b, key)
  {
    if b == [] {
      assert a + b == a;
    } else {
      assert (a + b)[..|a + b| - 1] == a + b[..|b| - 1];
      ValuesForConcat(a, b[..|b| - 1], key);
    }
  }

  lemma {:induction false} NoneElsewhere(items: seq<Item>, prefix: Key, key: Key)
    requires AllUnder(items, prefix) && !(prefix <= key)
    ensures ValuesFor(items, key) == []
  {
    if items != [] {
      NoneElsewhere(items[..|items| - 1], prefix, key);
    }
  }

  lemma {:induction false} LexPrefix(p: Key, a: Key, b: Key)
    ensures LexLeq(p + a, p + b) <==> LexLeq(a, b)
  {
    if p == [] {
      assert p + a == a && p + b == b;
    } else {
      assert (p + a)[1..] == p[1..] + a && (p + b)[1..] == p[1..] + b;
      LexPrefix(p[1..], a, b);
    }
  }

  lemma {:induction false} LexReflexive(a: Key)
    ensures LexLeq(a, a)
  {
    if a != [] {
      LexReflexive(a[1..]);
    }
  }

  // What has been listed of a node after its own values and the moves by the characters done.
  ghost predicate ListedSoFar(items: seq<Item>, n: Node, prefix: Key, done: set<Char>) {
    IsSorted(items) && AreUnder(items, prefix, done) && HasValues(items, n, prefix, done)
  }

  ghost predicate AreUnder(items: seq<Item>, prefix: Key, done: set<Char>) {
    forall i :: 0 <= i < |items| ==> IsUnder(items[i].key, prefix, done)
  }

  ghost predicate HasValues(items: seq<Item>, n: Node, prefix: Key, done: set<Char>) {
    forall k: Key :: ValuesFor(items, prefix + k) == if k == [] || k[0] in done then Lookup(n, k) else []
  }

  ghost predicate IsUnder(key: Key, prefix: Key, done: set<Char>) {
    prefix <= key && (key == prefix || key[|prefix|] in done)
  }

  lemma ListValues(n: Node, prefix: Key)
    ensures ListedSoFar(OwnItems(n, prefix, |n.values|), n, prefix, {})
  {
    hide LexLeq;
    var items := OwnItems(n, prefix, |n.values|);
    LexReflexive(prefix);
    ValuesHere(n);
    forall k: Key
      ensures ValuesFor(items, prefix + k) == if k == [] then n.values else []
    {
      OwnValues(n, prefix, |n.values|, k);
      assert n.values[..|n.values|] == n.values;
    }
  }

  function OwnItems(n: Node, prefix: Key, upto: nat): (items: seq<Item>)
    requires upto <= |n.values|
    ensures |items| == upto && forall i :: 0 <= i < upto ==> items[i] == Item(prefix, n.values[i])
  {
    seq(upto, i requires 0 <= i < upto => Item(prefix, n.values[i]))
  }

  lemma SamePrefix(prefix: Key, k: Key)
    ensures prefix + k == prefix <==> k == []
  {
    assert |prefix + k| == |prefix| + |k|;
    if k == [] {
      assert prefix + k == prefix;
    }
  }

  lemma NoValues(key: Key)
    ensures ValuesFor([], key) == []
  {
  }

  lemma LastValue(items: seq<Item>, key: Key)
    requires items != []
    ensures var last := items[|items| - 1];
            ValuesFor(items, key) == ValuesFor(items[..|items| - 1], key) + if last.key == key then [last.value] else []
  {
  }

  lemma {:induction false} OwnValues(n: Node, prefix: Key, upto: nat, k: Key)
    requires upto <= |n.values|
    ensures ValuesFor(OwnItems(n, prefix, upto), prefix + k) == if k == [] then n.values[..upto] else []
  {
    hide OwnItems, ValuesFor;
    if upto == 0 {
      assert OwnItems(n, prefix, 0) == [] && n.values[..0] == [];
      NoValues(prefix + k);
    } else {
      OwnValues(n, prefix, upto - 1, k);
      SamePrefix(prefix, k);
      var items, items0 := OwnItems(n, prefix, upto), OwnItems(n, prefix, upto - 1);
      assert items[..upto - 1] == items0;
      LastValue(items, prefix + k);
      assert n.values[..upto] == n.values[..upto - 1] + [n.values[upto - 1]];
    }
  }

  // What the listing of a whole child says about the keys of its parent.
  lemma ChildValues(sub: seq<Item>, n: Node, prefix: Key, c: Char, k: Key)
    requires c in n.moves
    requires var p := prefix + [c] + n.moves[c].edge;
             AllUnder(sub, p) && forall r: Key :: ValuesFor(sub, p + r) == Lookup(n.moves[c], r)
    ensures ValuesFor(sub, prefix + k) == if k != [] && k[0] == c then Lookup(n, k) else []
  {
    hide ValuesFor, Lookup;
    var edge := n.moves[c].edge;
    var p := prefix + [c] + edge;
    if k != [] && k[0] == c && edge <= k[1..] {
      var r := k[1..][|edge|..];
      assert k == [c] + (edge + r);
      assert prefix + k == p + r;
      LookupBehind(n, c, r);
    } else {
      if k != [] {
        LookupStep(n, k);
      }
      assert p == prefix + ([c] + edge);
      PrefixOfConcat(prefix, [c] + edge, k);
      assert k != [] ==> k == [k[0]] + k[1..];
      if k != [] && k[0] == c {
        PrefixOfConcat([c], edge, k[1..]);
      }
      NoneElsewhere(sub, p, prefix + k);
    }
  }

  lemma MoreValues(items: seq<Item>, sub: seq<Item>, n: Node, prefix: Key, done: set<Char>, c: Char)
    requires c in n.moves && c !in done && HasValues(items, n, prefix, done)
    requires var p := prefix + [c] + n.moves[c].edge;
             AllUnder(sub, p) && forall r: Key :: ValuesFor(sub, p + r) == Lookup(n.moves[c], r)
    ensures HasValues(items + sub, n, prefix, done + {c})
  {
    hide ValuesFor, Lookup, AllUnder;
    forall k: Key
      ensures ValuesFor(items + sub, prefix + k) == if k == [] || k[0] in done + {c} then Lookup(n, k) else []
    {
      ValuesForConcat(items, sub, prefix + k);
      ChildValues(sub, n, prefix, c, k);
    }
  }

  lemma ListChild(items: seq<Item>, sub: seq<Item>, n: Node, prefix: Key, done: set<Char>, c: Char)
    requires ListedSoFar(items, n, prefix, done) && c in n.moves && c !in done && forall d | d in done :: d < c
    requires IsSorted(sub)
    requires var p := prefix + [c] + n.moves[c].edge;
             AllUnder(sub, p) && forall r: Key :: ValuesFor(sub, p + r) == Lookup(n.moves[c], r)
    ensures ListedSoFar(items + sub, n, prefix, done + {c})
  {
    hide ValuesFor, Lookup, LexLeq, IsUnder, IsSorted, AllUnder, AreUnder, HasValues;
    var p := prefix + [c] + n.moves[c].edge;
    MoreValues(items, sub, n, prefix, done, c);
    AllUnderMore(items, sub, prefix, done, c, p);
    ListedInOrder(items, sub, prefix, done, c, p);
  }

  lemma AllUnderMore(items: seq<Item>, sub: seq<Item>, prefix: Key, done: set<Char>, c: Char, p: Key)
    requires AllUnder(sub, p) && prefix + [c] <= p
    requires AreUnder(items, prefix, done)
    ensures AreUnder(items + sub, prefix, done + {c})
  {
    var all := items + sub;
    forall i | 0 <= i < |all|
      ensures IsUnder(all[i].key, prefix, done + {c})
    {
      if i < |items| {
        assert IsUnder(items[i].key, prefix, done);
      } else {
        assert p <= sub[i - |items|].key && p[|prefix|] == c;
      }
    }
  }

  lemma ListedInOrder(items: seq<Item>, sub: seq<Item>, prefix: Key, done: set<Char>, c: Char, p: Key)
    requires IsSorted(items) && IsSorted(sub) && AllUnder(sub, p) && prefix + [c] <= p && forall d | d in done :: d < c
    requires AreUnder(items, prefix, done)
    ensures IsSorted(items + sub)
  {
    hide LexLeq;
    var all := items + sub;
    forall i, j | 0 <= i < j < |all|
      ensures LexLeq(all[i].key, all[j].key)
    {
      if i < |items| <= j {
        var a, b := all[i].key, all[j].key;
        assert IsUnder(items[i].key, prefix, done);
        assert p <= sub[j - |items|].key && b[|prefix|] == c;
        LessBehind(prefix, a, b);
      }
    }
  }

  lemma LessBehind(prefix: Key, a: Key, b: Key)
    requires prefix <= a && prefix <= b && |b| > |prefix| && (a == prefix || a[|prefix|] < b[|prefix|])
    ensures LexLeq(a, b)
  {
    var ra, rb := a[|prefix|..], b[|prefix|..];
    LexPrefix(prefix, ra, rb);
    assert a == prefix + ra && b == prefix + rb;
  }

  method LeastOf(chars: set<Char>) returns (c: Char)
    requires chars != {}
    ensures c in chars && forall d | d in chars :: c <= d
  {
    c :| c in chars;
    var rest := chars - {c};
    while rest != {}
      invariant c in chars && forall d | d in chars && d !in rest :: c <= d
      decreases rest
    {
      var d :| d in rest;
      if d < c {
        c := d;
      }
      rest := rest - {d};
    }
  }

  // All keys below a node with their values, in lexicographic order.
  method ForEachInSubtree(n: Node, prefix: Key) returns (items: seq<Item>)
    ensures IsSorted(items) && AllUnder(items, prefix)
    ensures forall k: Key :: ValuesFor(items, prefix + k) == Lookup(n, k)
    decreases n
  {
    hide ListedSoFar, IsSorted, AllUnder, ValuesFor, Lookup;
    items := OwnItems(n, prefix, |n.values|);
    ListValues(n, prefix);
    var rest := n.moves.Keys;
    assert n.moves.Keys - rest == {};
    while rest != {}
      invariant rest <= n.moves.Keys && ListedSoFar(items, n, prefix, n.moves.Keys - rest)
      invariant forall c, d | c in rest && d in n.moves.Keys - rest :: d < c
      decreases rest
    {
      var c := LeastOf(rest);
      ghost var done := n.moves.Keys - rest;
      var sub := ForEachInSubtree(n.moves[c], prefix + [c] + n.moves[c].edge);
      ListChild(items, sub, n, prefix, done, c);
      items := items + sub;
      rest := rest - {c};
      assert n.moves.Keys - rest == done + {c};
    }
    AllListed(items, n, prefix, n.moves.Keys - rest);
  }

  lemma AllListed(items: seq<Item>, n: Node, prefix: Key, done: set<Char>)
    requires ListedSoFar(items, n, prefix, done) && done == n.moves.Keys
    ensures IsSorted(items) && AllUnder(items, prefix)
    ensures forall k: Key :: ValuesFor(items, prefix + k) == Lookup(n, k)
  {
    hide ValuesFor;
    forall i | 0 <= i < |items|
      ensures prefix <= items[i].key
    {
      assert IsUnder(items[i].key, prefix, done);
    }
  }

  // ----- The class

  class MemTrie {
    var root: Node

    ghost predicate Valid()
      reads this
    {
      IsTrie(root)
    }

    constructor ()
      ensures Valid() && root.edge == [] && forall k: Key :: Lookup(root, k) == []
    {
      root := EMPTY_NODE;
    }

    method Add(key: Key, value: Value)
      requires Valid()
      modifies this
      ensures Valid() && root.edge == old(root).edge
      ensures forall k: Key :: Lookup(root, k) == Lookup(old(root), k) + if k == key then [value] else []
    {
      hide Lookup;
      forall k: Key
        ensures Lookup(Added(root, key, value), k) == Lookup(root, k) + if k == key then [value] else []
      {
        AddedLookup(root, key, value, k);
      }
      AddedIsTrie(root, key, value);
      AddedKeepsEdge(root, key, value);
      root := Added(root, key, value);
    }

    // Takes one value of a key away, if it is there; with the empty key only as long as the root stays.
    method Erase(key: Key, value: Value)
      requires Valid()
      modifies this
      ensures Valid() && root == Erased(old(root), key, value)
      ensures !MergesRoot(old(root), key, value) ==> root.edge == old(root).edge
      ensures !MergesRoot(old(root), key, value) ==>
                forall k: Key :: Lookup(root, k) == if k == key then EraseFirst(Lookup(old(root), k), value) else Lookup(old(root), k)
    {
      hide Lookup, Erased, EraseFirst, MergesRoot;
      EraseIsRightIff(root, key, value);
      ErasedIsTrie(root, key, value);
      if !MergesRoot(root, key, value) {
        RootKeepsEdge(root, key, value);
      }
      root := EraseAt(root, key, value);
    }

    static method EraseAt(n: Node, key: Key, value: Value) returns (r: Node)
      ensures r == Erased(n, key, value)
      decreases |key|
    {
      if key == [] {
        r := n.(values := EraseFirst(n.values, value));
        if r.values == [] && |r.moves| == 1 {
          ghost var n' := r;
          assert r.moves.Keys != {};
          var c :| c in r.moves;
          ghost var d :| d in n'.moves && Merged(n') == n'.moves[d].(edge := n'.edge + [d] + n'.moves[d].edge);
          OnlyMove(n', c, d);
          var child := r.moves[c];
          r := child.(edge := r.edge + [c] + child.edge);
        }
        return;
      }
      r := n;
      var symbol := key[0];
      if symbol in n.moves {
        var child := n.moves[symbol];
        if child.edge <= key[1..] {
          var child' := EraseAt(child, key[1..][|child.edge|..], value);
          r := if child'.Empty() then n.(moves := n.moves - {symbol}) else n.(moves := n.moves[symbol := child']);
        }
      }
    }

    method HasKey(key: Key) returns (exists_: bool)
      requires Valid()
      ensures exists_ <==> Lookup(root, key) != []
    {
      var place := MoveTo(root, key, true);
      exists_ := place.Some? && place.value.node.values != [];
    }

    // Some key with values starts with the prefix.
    method HasPrefix(prefix: Key) returns (exists_: bool)
      requires Valid()
      ensures exists_ <==> exists k: Key :: Lookup(root, prefix + k) != []
    {
      hide Lookup;
      var place := MoveTo(root, prefix, false);
      exists_ := place.Some? && !place.value.node.Empty();
      if prefix == [] {
        assert forall k: Key :: prefix + k == k;
        if exists_ {
          ghost var k := SomeKey(root);
          assert Lookup(root, prefix + k) != [];
        } else {
          EmptyHasNothing(root);
        }
      } else if exists_ {
        var n := place.value.node;
        ghost var k := SomeKey(n);
        ghost var behind := n.edge[place.value.offset..] + k;
        assert behind[|n.edge| - place.value.offset..] == k;
        assert Lookup(root, prefix + behind) != [];
      }
    }

    method ForEachInNode(key: Key) returns (values: seq<Value>)
      requires Valid()
      ensures values == Lookup(root, key)
    {
      var place := MoveTo(root, key, true);
      values := if place.Some? then place.value.node.values else [];
    }

    // All keys that start with the prefix and their values, in order.
    method ForEachWithPrefix(prefix: Key) returns (items: seq<Item>)
      requires Valid()
      ensures IsSorted(items) && AllUnder(items, prefix)
      ensures prefix != [] || root.edge == [] ==>
                forall k: Key :: ValuesFor(items, prefix + k) == Lookup(root, prefix + k)
    {
      hide Lookup, IsSorted, ValuesFor, LexLeq, AllUnder;
      var place := MoveTo(root, prefix, false);
      items := [];
      if place.None? {
        NothingListed(prefix);
        return;
      }
      var n, tail := place.value.node, place.value.node.edge[place.value.offset..];
      items := ForEachInSubtree(n, prefix + tail);
      UnderPrefix(items, prefix, tail);
      forall k: Key | prefix != [] || root.edge == []
        ensures ValuesFor(items, prefix + k) == Lookup(root, prefix + k)
      {
        if tail <= k {
          assert prefix + k == (prefix + tail) + k[|tail|..];
        } else {
          PrefixOfConcat(prefix, tail, k);
          NoneElsewhere(items, prefix + tail, prefix + k);
        }
      }
    }

    method ForEachInTrie() returns (items: seq<Item>)
      requires Valid()
      ensures IsSorted(items) && forall k: Key :: ValuesFor(items, k) == Lookup(root, k)
    {
      hide Lookup, IsSorted, ValuesFor, LexLeq;
      items := ForEachInSubtree(root, []);
      assert forall k: Key :: [] + k == k;
    }
  }

  lemma EmptyHasNothing(n: Node)
    requires n.Empty()
    ensures forall k: Key :: Lookup(n, k) == []
  {
  }

  lemma NothingListed(prefix: Key)
    ensures IsSorted([]) && AllUnder([], prefix) && forall k: Key :: ValuesFor([], prefix + k) == []
  {
  }

  lemma UnderPrefix(items: seq<Item>, prefix: Key, tail: Key)
    requires AllUnder(items, prefix + tail)
    ensures AllUnder(items, prefix)
  {
    forall i | 0 <= i < |items|
      ensures prefix <= items[i].key
    {
      assert prefix + tail <= items[i].key;
    }
  }

  lemma PrefixOfConcat(prefix: Key, tail: Key, k: Key)
    ensures prefix + tail <= prefix + k <==> tail <= k
  {
    if prefix + tail <= prefix + k {
      forall i | 0 <= i < |tail|
        ensures tail[i] == k[i]
      {
        assert (prefix + tail)[|prefix| + i] == (prefix + k)[|prefix| + i];
      }
    }
  }
}
