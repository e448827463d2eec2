/**
 Which way the bits of a Huffman code go: wherever two branches part, the one that holds the smaller
 least symbol is the left one, and left is 0.
 */
module HuffmanOrder {
  import opened Kraft
  import opened HuffmanTree
  import opened HuffmanCodes

  // Every inner node takes its symbol, the smaller one, from the left.
  ghost predicate Ordered(t: Tree) {
    match t
    case Leaf(_, _) => true
    case Inner(s, _, l, r) => s == l.symbol < r.symbol && Ordered(l) && Ordered(r)
  }

  ghost predicate OrderedForest(ts: seq<Tree>) {
    DistinctRoots(ts) && forall i :: 0 <= i < |ts| ==> Ordered(ts[i])
  }

  lemma RoundKeepsOrder(ts: seq<Tree>, i: nat, j: nat)
    requires PopsTwo(ts, i, j) && OrderedForest(ts)
    ensures OrderedForest(AfterRound(ts, i, j))
  {
    hide Without;
    RoundKeepsDistinct(ts, i, j);
    TreesThatStay(ts, i, j);
  }

  lemma {:induction false} BuildsOrdered(ts: seq<Tree>, root: Tree)
    requires OrderedForest(ts) && Builds(ts, root)
    ensures Ordered(root)
    decreases |ts|
  {
    hide OrderedForest, PopsTwo;
    if |ts| < 2 {
      OnlyTree(ts, root);
    } else {
      var i: nat, j: nat :| PopsTwo(ts, i, j) && Builds(AfterRound(ts, i, j), root);
      RoundKeepsOrder(ts, i, j);
      BuildsOrdered(AfterRound(ts, i, j), root);
    }
  }

  lemma OnlyTree(ts: seq<Tree>, root: Tree)
    requires OrderedForest(ts) && ts == [root]
    ensures Ordered(root)
  {
    assert ts[0] == root;
  }

  lemma TreeIsOrdered(root: Tree, freqs: Table)
    requires IsTreeOf(root, freqs)
    ensures Ordered(root)
  {
    hide Items, Builds;
    var infos :| multiset(infos) == Items(freqs.Keys, freqs) && Builds(LeafTrees(infos), root);
    LeavesAreDistinct(infos, freqs);
    BuildsOrdered(LeafTrees(infos), root);
  }

  // The symbol of a node is the least one below it.
  lemma {:induction false} LeastBelow(t: Tree, path: seq<bool>) returns (i: nat)
    requires Ordered(t)
    ensures i < |Entries(t, path)| && Entries(t, path)[i].symbol == t.symbol
    ensures forall j :: 0 <= j < |Entries(t, path)| ==> t.symbol <= Entries(t, path)[j].symbol
  {
    match t
    case Leaf(_, _) => i := 0;
    case Inner(_, _, l, r) =>
      i := LeastBelow(l, path + [false]);
      var k := LeastBelow(r, path + [true]);
  }

  // A code that goes right somewhere has a smaller symbol on its left there.
  lemma {:induction false} SmallerOnTheLeft(t: Tree, path: seq<bool>, i: nat, k: nat) returns (j: nat)
    requires Ordered(t) && i < |Entries(t, path)|
    requires |path| <= k < |Entries(t, path)[i].path| && Entries(t, path)[i].path[k]
    ensures j < |Entries(t, path)| && k < |Entries(t, path)[j].path| && !Entries(t, path)[j].path[k]
    ensures Entries(t, path)[j].path[..k] == Entries(t, path)[i].path[..k]
    ensures Entries(t, path)[j].symbol < Entries(t, path)[i].symbol
  {
    EntriesBelow(t, path);
    match t
    case Leaf(_, _) =>
    case Inner(_, _, l, r) =>
      var a, b := Entries(l, path + [false]), Entries(r, path + [true]);
      EntriesBelow(l, path + [false]);
      EntriesBelow(r, path + [true]);
      if i < |a| {
        GoesOn(path, false, a[i].path, k);
        j := SmallerOnTheLeft(l, path + [false], i, k);
      } else if k > |path| {
        var h := SmallerOnTheLeft(r, path + [true], i - |a|, k);
        j := |a| + h;
      } else {
        j := LeastBelow(l, path + [false]);
        var least := LeastBelow(r, path + [true]);
        GoesOn(path, false, a[j].path, k);
        GoesOn(path, true, b[i - |a|].path, k);
      }
  }

  lemma GoesOn(path: seq<bool>, bit: bool, p: seq<bool>, k: nat)
    requires path + [bit] <= p && |path| <= k < |p|
    ensures p[|path|] == bit && p[..|path|] == path
    ensures p[k] != bit ==> |path + [bit]| <= k
  {
    assert p[|path|] == (path + [bit])[|path|];
  }

  // Of the codes built for a table: where one has a 1, another one agrees with it up to there, has a 0
  // and stands for a smaller symbol.
  lemma OneMeansGreater(root: Tree, freqs: Table, i: nat, k: nat) returns (j: nat)
    requires IsTreeOf(root, freqs) && i < |Entries(root, [])|
    requires k < |Entries(root, [])[i].path| && Entries(root, [])[i].path[k]
    ensures j < |Entries(root, [])| && k < |Entries(root, [])[j].path| && !Entries(root, [])[j].path[k]
    ensures Entries(root, [])[j].path[..k] == Entries(root, [])[i].path[..k]
    ensures Entries(root, [])[j].symbol < Entries(root, [])[i].symbol
  {
    hide Entries, IsTreeOf;
    TreeIsOrdered(root, freqs);
    j := SmallerOnTheLeft(root, [], i, k);
  }
}
