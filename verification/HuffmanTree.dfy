/**
 HuffmanCoder::BuildHuffmanTree: greedy merging with a priority queue gives a tree of least total
 cost, and a deep tree needs many symbols.
 */
module HuffmanTree {
  import opened Options
  import opened Bits
  import opened Kraft

  // An inner node keeps the smaller symbol of its children and the sum of their frequencies.
  datatype Tree =
    | Leaf(symbol: nat, freq: nat)
    | Inner(symbol: nat, freq: nat, l: Tree, r: Tree)
  {
    // What the priority queue compares: the least frequency first, then the least symbol.
    predicate ComesBefore(other: Tree) {
      if freq != other.freq then freq < other.freq else symbol < other.symbol
    }
  }

  type Table = map<nat, nat>

  // ----- What a tree says about its leaves

  datatype LeafInfo = LeafInfo(symbol: nat, freq: nat)

  function Leaves(t: Tree): (r: seq<LeafInfo>)
    ensures r != []
  {
    match t
    case Leaf(s, f) => [LeafInfo(s, f)]
    case Inner(_, _, l, r) => Leaves(l) + Leaves(r)
  }

  function Freqs(leaves: seq<LeafInfo>): (r: seq<nat>)
    ensures |r| == |leaves| && forall i :: 0 <= i < |r| ==> r[i] == leaves[i].freq
  {
    seq(|leaves|, i requires 0 <= i < |leaves| => leaves[i].freq)
  }

  // The depths of the leaves, from the left, when the root is at depth d.
  function Depths(t: Tree, d: nat): (r: seq<nat>)
    ensures |r| == |Leaves(t)|
  {
    match t
    case Leaf(_, _) => [d]
    case Inner(_, _, l, r) => Depths(l, d + 1) + Depths(r, d + 1)
  }

  function Height(t: Tree): nat {
    match t
    case Leaf(_, _) => 0
    case Inner(_, _, l, r) => 1 + if Height(l) > Height(r) then Height(l) else Height(r)
  }

  // The total number of bits when every leaf is used as often as its frequency says.
  function Cost(t: Tree): nat {
    Total(Freqs(Leaves(t)), Depths(t, 0))
  }

  function Weight(t: Tree): nat {
    Sum(Freqs(Leaves(t)))
  }

  // ----- Costs add up

  lemma {:induction false} SumConcat(a: seq<nat>, b: seq<nat>)
    ensures Sum(a + b) == Sum(a) + Sum(b)
  {
    if a == [] {
      assert a + b == b;
    } else {
      assert (a + b)[1..] == a[1..] + b;
      SumConcat(a[1..], b);
    }
  }

  lemma {:induction false} TotalConcat(ws: seq<nat>, ds: seq<nat>, ws': seq<nat>, ds': seq<nat>)
    requires |ws| == |ds| && |ws'| == |ds'|
    ensures Total(ws + ws', ds + ds') == Total(ws, ds) + Total(ws', ds')
  {
    if ws == [] {
      assert ws + ws' == ws' && ds + ds' == ds';
    } else {
      assert (ws + ws')[1..] == ws[1..] + ws' && (ds + ds')[1..] == ds[1..] + ds';
      TotalConcat(ws[1..], ds[1..], ws', ds');
    }
  }

  lemma FreqsConcat(a: seq<LeafInfo>, b: seq<LeafInfo>)
    ensures Freqs(a + b) == Freqs(a) + Freqs(b)
  {
  }

  // One level further down every leaf costs its frequency more.
  lemma {:induction false} Deeper(t: Tree, d: nat)
    ensures Total(Freqs(Leaves(t)), Depths(t, d + 1)) == Total(Freqs(Leaves(t)), Depths(t, d)) + Weight(t)
  {
    match t
    case Leaf(_, f) =>
      assert Freqs(Leaves(t)) == [f] && [f][1..] == [] && [d][1..] == [] && [d + 1][1..] == [];
      assert Sum([f]) == f;
    case Inner(_, _, l, r) =>
      Deeper(l, d + 1);
      Deeper(r, d + 1);
      FreqsConcat(Leaves(l), Leaves(r));
      SumConcat(Freqs(Leaves(l)), Freqs(Leaves(r)));
      TotalConcat(Freqs(Leaves(l)), Depths(l, d + 1), Freqs(Leaves(r)), Depths(r, d + 1));
      TotalConcat(Freqs(Leaves(l)), Depths(l, d + 2), Freqs(Leaves(r)), Depths(r, d + 2));
  }

  lemma CostOfInner(t: Tree)
    requires t.Inner?
    ensures Weight(t) == Weight(t.l) + Weight(t.r)
    ensures Cost(t) == Cost(t.l) + Cost(t.r) + Weight(t)
  {
    hide Total, Sum, Freqs;
    Deeper(t.l, 0);
    Deeper(t.r, 0);
    FreqsConcat(Leaves(t.l), Leaves(t.r));
    SumConcat(Freqs(Leaves(t.l)), Freqs(Leaves(t.r)));
    TotalConcat(Freqs(Leaves(t.l)), Depths(t.l, 1), Freqs(Leaves(t.r)), Depths(t.r, 1));
  }

  lemma CostOfLeaf(t: Tree)
    requires t.Leaf?
    ensures Weight(t) == t.freq && Cost(t) == 0
  {
    assert Freqs(Leaves(t)) == [t.freq] && [t.freq][1..] == [];
    assert Depths(t, 0) == [0] && Sum([]) == 0;
    assert Sum([t.freq]) == t.freq + Sum([]);
    assert Total([t.freq], [0]) == t.freq * 0 + Total([t.freq][1..], [0][1..]);
  }

  // ----- The depths of a binary tree fill a code exactly

  lemma {:induction false} UsedConcat(a: seq<nat>, b: seq<nat>, top: nat)
    requires IsTop(a, top) && IsTop(b, top)
    ensures IsTop(a + b, top) && Used(a + b, top) == Used(a, top) + Used(b, top)
  {
    if a == [] {
      assert a + b == b;
    } else {
      assert (a + b)[1..] == a[1..] + b;
      UsedConcat(a[1..], b, top);
    }
  }

  lemma {:induction false} TreeFillsCode(t: Tree, d: nat, top: nat)
    requires d + Height(t) <= top
    ensures IsTop(Depths(t, d), top) && Used(Depths(t, d), top) == Pow2(top - d)
  {
    match t
    case Leaf(_, _) =>
      assert [d][1..] == [];
    case Inner(_, _, l, r) =>
      TreeFillsCode(l, d + 1, top);
      TreeFillsCode(r, d + 1, top);
      UsedConcat(Depths(l, d + 1), Depths(r, d + 1), top);
  }

  // No binary tree over the same frequencies is cheaper than greedy merging.
  lemma GreedyIsBest(t: Tree)
    ensures GreedyCost(multiset(Freqs(Leaves(t)))) <= Cost(t)
  {
    hide GreedyCost, Total, Used, Depths, Leaves, Freqs, Height;
    TreeFillsCode(t, 0, Height(t));
    GreedyIsLeast(Freqs(Leaves(t)), Depths(t, 0), Height(t));
  }

  // ----- Deep trees are heavy

  function Fib(n: nat): nat {
    if n < 2 then n else Fib(n - 1) + Fib(n - 2)
  }

  lemma {:induction false} FibMonotone(m: nat, n: nat)
    requires m <= n
    ensures Fib(m) <= Fib(n)
    decreases n - m
  {
    if m < n {
      FibMonotone(m, n - 1);
      if n >= 2 {
      } else {
        assert m == 0 && n == 1;
      }
    }
  }

  // The heavier child, or 0 for a leaf.
  function HeavyChild(t: Tree): nat {
    match t
    case Leaf(_, _) => 0
    case Inner(_, _, l, r) => if Weight(l) > Weight(r) then Weight(l) else Weight(r)
  }

  // Every subtree is at least as heavy as its height asks for.
  ghost predicate Heavy(t: Tree) {
    && Weight(t) >= Fib(Height(t) + 2)
    && (t.Inner? ==> Heavy(t.l) && Heavy(t.r))
  }

  // A tree that is not deeper than b, whose sibling weighs no less than its heavier child.
  lemma HeavySiblings(t: Tree, a: Tree, b: Tree)
    requires t.Inner? && ((t.l == a && t.r == b) || (t.l == b && t.r == a))
    requires Heavy(a) && Heavy(b) && Height(b) <= Height(a) && Weight(b) >= HeavyChild(a)
    ensures Heavy(t)
  {
    hide Weight, Cost, Fib, HeavyChild, Heavy, Leaves, Height;
    CostOfInner(t);
    HeavyMeans(a);
    SiblingWeight(a, b);
    FibStep(Height(a) + 1);
    HeightOfInner(t);
    HeavyFrom(t);
  }

  lemma HeightOfInner(t: Tree)
    requires t.Inner?
    ensures Height(t) == 1 + if Height(t.l) > Height(t.r) then Height(t.l) else Height(t.r)
  {
  }

  lemma SiblingWeight(a: Tree, b: Tree)
    requires Heavy(a) && Heavy(b) && Height(b) <= Height(a) && Weight(b) >= HeavyChild(a)
    ensures Weight(b) >= Fib(Height(a) + 1)
  {
    hide Weight, Fib, Leaves, Heavy, Height, HeavyChild;
    SmallFibs();
    if a.Inner? {
      var d := DeepChild(a);
    } else {
      LeafHeight(a);
      HeavyMeans(b);
    }
  }

  lemma LeafHeight(t: Tree)
    requires t.Leaf?
    ensures Height(t) == 0
  {
  }

  lemma SmallFibs()
    ensures Fib(1) == 1 && Fib(2) == 1
  {
  }

  lemma FibStep(n: nat)
    ensures Fib(n + 2) == Fib(n + 1) + Fib(n)
  {
  }

  lemma HeavyMeans(t: Tree)
    requires Heavy(t)
    ensures Weight(t) >= Fib(Height(t) + 2)
  {
  }

  lemma HeavyFrom(t: Tree)
    requires t.Inner? && Heavy(t.l) && Heavy(t.r) && Weight(t) >= Fib(Height(t) + 2)
    ensures Heavy(t)
  {
  }

  lemma DeepChild(a: Tree) returns (d: Tree)
    requires a.Inner? && Heavy(a)
    ensures Height(a) == Height(d) + 1 && HeavyChild(a) >= Weight(d) >= Fib(Height(d) + 2)
  {
    d := if Height(a.l) > Height(a.r) then a.l else a.r;
  }

  lemma MergedIsHeavy(t: Tree)
    requires t.Inner? && Heavy(t.l) && Heavy(t.r)
    requires Weight(t.l) >= HeavyChild(t.r) && Weight(t.r) >= HeavyChild(t.l)
    ensures Heavy(t)
  {
    hide Weight, HeavyChild, Heavy;
    if Height(t.r) <= Height(t.l) {
      HeavySiblings(t, t.l, t.r);
    } else {
      HeavySiblings(t, t.r, t.l);
    }
  }

  // ----- The forest in the priority queue

  ghost function Roots(ts: seq<Tree>): (r: seq<nat>)
    ensures |r| == |ts| && forall i :: 0 <= i < |r| ==> r[i] == ts[i].freq
  {
    seq(|ts|, i requires 0 <= i < |ts| => ts[i].freq)
  }

  ghost function ForestCost(ts: seq<Tree>): nat {
    if ts == [] then 0 else Cost(ts[0]) + ForestCost(ts[1..])
  }

  ghost function ForestLeaves(ts: seq<Tree>): multiset<LeafInfo> {
    if ts == [] then multiset{} else multiset(Leaves(ts[0])) + ForestLeaves(ts[1..])
  }

  ghost function ForestWeight(ts: seq<Tree>): nat {
    if ts == [] then 0 else Weight(ts[0]) + ForestWeight(ts[1..])
  }

  lemma {:induction false} ForestWithout(ts: seq<Tree>, i: nat)
    requires i < |ts|
    ensures ForestCost(ts) == ForestCost(Without(ts, i)) + Cost(ts[i])
    ensures ForestWeight(ts) == ForestWeight(Without(ts, i)) + Weight(ts[i])
  {
    hide Cost, Weight;
    if i > 0 {
      TailWithout(ts, i);
      ForestWithout(ts[1..], i - 1);
    } else {
      assert Without(ts, 0) == ts[1..];
    }
  }

  lemma TailWithout<T>(a: seq<T>, i: nat)
    requires 0 < i < |a|
    ensures Without(a, i) != [] && Without(a, i)[0] == a[0] && Without(a, i)[1..] == Without(a[1..], i - 1)
  {
  }

  lemma {:induction false} LeavesWithout(ts: seq<Tree>, i: nat)
    requires i < |ts|
    ensures ForestLeaves(ts) == ForestLeaves(Without(ts, i)) + multiset(Leaves(ts[i]))
  {
    hide Leaves;
    if i > 0 {
      hide Without;
      TailWithout(ts, i);
      LeavesWithout(ts[1..], i - 1);
    } else {
      assert Without(ts, 0) == ts[1..];
    }
  }

  lemma ForestPush(ts: seq<Tree>, t: Tree)
    ensures ForestCost(ts + [t]) == ForestCost(ts) + Cost(t)
    ensures ForestLeaves(ts + [t]) == ForestLeaves(ts) + multiset(Leaves(t))
    ensures ForestWeight(ts + [t]) == ForestWeight(ts) + Weight(t)
  {
    hide Cost, Leaves, Weight, ForestCost, ForestLeaves, ForestWeight;
    var all := ts + [t];
    assert all[|ts|] == t && Without(all, |ts|) == ts;
    ForestWithout(all, |ts|);
    LeavesWithout(all, |ts|);
  }

  // The queue holds trees for the given leaves; their roots are ranked by true weights, none is
  // lighter than a child that was merged earlier, and finishing greedily costs total in all.
  ghost predicate Queue(ts: seq<Tree>, leaves: multiset<LeafInfo>, total: nat) {
    && ts != []
    && (forall i :: 0 <= i < |ts| ==> ts[i].freq == Weight(ts[i]))
    && ForestLeaves(ts) == leaves
    && ForestCost(ts) + GreedyCost(multiset(Roots(ts))) == total
  }

  ghost predicate HeavyForest(ts: seq<Tree>) {
    && (forall i :: 0 <= i < |ts| ==> Heavy(ts[i]))
    && (forall i, j :: 0 <= i < |ts| && 0 <= j < |ts| && i != j ==> Weight(ts[j]) >= HeavyChild(ts[i]))
  }

  // The index of the tree that comes first.
  method Top(ts: seq<Tree>) returns (top: nat)
    requires ts != []
    ensures top < |ts| && forall i :: 0 <= i < |ts| ==> !ts[i].ComesBefore(ts[top])
  {
    top := 0;
    for i := 1 to |ts|
      invariant top < i
      invariant forall h :: 0 <= h < i ==> !ts[h].ComesBefore(ts[top])
    {
      if ts[i].ComesBefore(ts[top]) {
        top := i;
      }
    }
  }

  lemma LeastIs(m: multiset<nat>, x: nat)
    requires x in m && forall y | y in m :: x <= y
    ensures Least(m) == x
  {
  }

  // The two trees popped from the queue have the two least weights.
  lemma PoppedAreLeast(ts: seq<Tree>, i: nat, j: nat)
    requires |ts| >= 2 && i < |ts| && forall h :: 0 <= h < |ts| ==> ts[i].freq <= ts[h].freq
    requires j < |Without(ts, i)| && forall h :: 0 <= h < |Without(ts, i)| ==> Without(ts, i)[j].freq <= Without(ts, i)[h].freq
    ensures |multiset(Roots(ts))| >= 2
    ensures ts[i].freq == Least(multiset(Roots(ts))) && Without(ts, i)[j].freq == SecondLeast(multiset(Roots(ts)))
    ensures multiset(Roots(Without(Without(ts, i), j))) ==
            multiset(Roots(ts)) - multiset{ts[i].freq} - multiset{Without(ts, i)[j].freq}
  {
    hide Least;
    var rest := Without(ts, i);
    RootsWithout(ts, i);
    RootsWithout(rest, j);
    RootIsLeast(ts, i);
    RootIsLeast(rest, j);
    assert |multiset(Roots(ts))| == |Roots(ts)|;
  }

  lemma RootIsLeast(ts: seq<Tree>, i: nat)
    requires i < |ts| && forall h :: 0 <= h < |ts| ==> ts[i].freq <= ts[h].freq
    ensures |multiset(Roots(ts))| > 0 && Least(multiset(Roots(ts))) == ts[i].freq
  {
    hide Least;
    var m := multiset(Roots(ts));
    assert Roots(ts)[i] in m;
    forall y | y in m
      ensures ts[i].freq <= y
    {
      assert y in Roots(ts);
    }
    LeastIs(m, ts[i].freq);
  }

  lemma RootsWithout(ts: seq<Tree>, i: nat)
    requires i < |ts|
    ensures multiset(Roots(Without(ts, i))) == multiset(Roots(ts)) - multiset{ts[i].freq}
  {
    assert Roots(Without(ts, i)) == Without(Roots(ts), i);
    MultisetWithout(Roots(ts), i);
  }

  lemma RootsPush(ts: seq<Tree>, t: Tree)
    ensures multiset(Roots(ts + [t])) == multiset([t.freq] + Roots(ts))
  {
    assert Roots(ts + [t]) == Roots(ts) + [t.freq];
  }

  // One round of merging: what is popped, what is pushed and what stays.
  ghost predicate IsMerge(ts: seq<Tree>, i: nat, j: nat, t: Tree) {
    && |ts| >= 2 && i < |ts| && j < |Without(ts, i)|
    && (forall h :: 0 <= h < |ts| ==> ts[i].freq <= ts[h].freq)
    && (forall h :: 0 <= h < |Without(ts, i)| ==> Without(ts, i)[j].freq <= Without(ts, i)[h].freq)
    && t.Inner? && t.freq == ts[i].freq + Without(ts, i)[j].freq
    && ((t.l == ts[i] && t.r == Without(ts, i)[j]) || (t.l == Without(ts, i)[j] && t.r == ts[i]))
  }

  lemma MergeKeepsCost(ts: seq<Tree>, i: nat, j: nat, t: Tree)
    requires IsMerge(ts, i, j, t) && t.freq == Weight(t)
    ensures var ts' := Without(Without(ts, i), j) + [t];
            ForestCost(ts') + GreedyCost(multiset(Roots(ts'))) == ForestCost(ts) + GreedyCost(multiset(Roots(ts)))
  {
    hide GreedyCost, Cost, Weight, Leaves, ForestCost, ForestLeaves, ForestWeight, Roots, Without;
    ForestWithout(ts, i);
    ForestWithout(Without(ts, i), j);
    ForestPush(Without(Without(ts, i), j), t);
    CostOfInner(t);
    MergedRoots(ts, i, j, t);
  }

  lemma PoppedByMerge(ts: seq<Tree>, i: nat, j: nat, t: Tree)
    requires IsMerge(ts, i, j, t)
    ensures |ts| >= 2 && i < |ts| && j < |Without(ts, i)| && |multiset(Roots(ts))| >= 2
    ensures t.freq == ts[i].freq + Without(ts, i)[j].freq
    ensures ts[i].freq == Least(multiset(Roots(ts))) && Without(ts, i)[j].freq == SecondLeast(multiset(Roots(ts)))
    ensures multiset(Roots(Without(Without(ts, i), j))) ==
            multiset(Roots(ts)) - multiset{ts[i].freq} - multiset{Without(ts, i)[j].freq}
  {
    hide Least, SecondLeast, Roots, Without;
    PoppedAreLeast(ts, i, j);
  }

  lemma MergedRoots(ts: seq<Tree>, i: nat, j: nat, t: Tree)
    requires IsMerge(ts, i, j, t)
    ensures GreedyCost(multiset(Roots(ts))) ==
            t.freq + GreedyCost(multiset(Roots(Without(Without(ts, i), j) + [t])))
  {
    hide GreedyCost, Least, SecondLeast, Roots, Without, IsMerge;
    PoppedByMerge(ts, i, j, t);
    var rest := Without(ts, i);
    var rest2 := Without(rest, j);
    RootsPush(rest2, t);
    var x, y := ts[i].freq, rest[j].freq;
    assert [t.freq] == [x + y];
    MergedGreedyCost(ts, rest2, x, y);
  }

  lemma MergeKeepsLeaves(ts: seq<Tree>, i: nat, j: nat, t: Tree)
    requires IsMerge(ts, i, j, t)
    ensures ForestLeaves(Without(Without(ts, i), j) + [t]) == ForestLeaves(ts)
  {
    hide Cost, Weight, Leaves, ForestCost, ForestLeaves, ForestWeight, Without;
    LeavesWithout(ts, i);
    LeavesWithout(Without(ts, i), j);
    ForestPush(Without(Without(ts, i), j), t);
    LeavesOfInner(t);
  }

  lemma MergeKeepsWeights(ts: seq<Tree>, i: nat, j: nat, t: Tree)
    requires IsMerge(ts, i, j, t) && forall h :: 0 <= h < |ts| ==> ts[h].freq == Weight(ts[h])
    ensures t.freq == Weight(t)
    ensures forall h :: 0 <= h < |Without(Without(ts, i), j)| ==>
              Without(Without(ts, i), j)[h].freq == Weight(Without(Without(ts, i), j)[h])
  {
    hide Weight, Cost, Leaves;
    CostOfInner(t);
  }

  lemma MergeKeepsQueue(ts: seq<Tree>, i: nat, j: nat, t: Tree, leaves: multiset<LeafInfo>, total: nat)
    requires Queue(ts, leaves, total) && IsMerge(ts, i, j, t)
    ensures Queue(Without(Without(ts, i), j) + [t], leaves, total)
  {
    hide GreedyCost, Weight, Leaves, ForestCost, ForestLeaves, Roots, IsMerge;
    assert j < |Without(ts, i)| && i < |ts| by { MergeIndices(ts, i, j, t); }
    MergeKeepsWeights(ts, i, j, t);
    MergeKeepsCost(ts, i, j, t);
    MergeKeepsLeaves(ts, i, j, t);
  }

  lemma MergeIndices(ts: seq<Tree>, i: nat, j: nat, t: Tree)
    requires IsMerge(ts, i, j, t)
    ensures i < |ts| && j < |Without(ts, i)|
  {
  }

  lemma MergedGreedyCost(ts: seq<Tree>, rest2: seq<Tree>, x: nat, y: nat)
    requires |multiset(Roots(ts))| >= 2 && |ts| >= 2
    requires x == Least(multiset(Roots(ts))) && y == SecondLeast(multiset(Roots(ts)))
    requires multiset(Roots(rest2)) == multiset(Roots(ts)) - multiset{x} - multiset{y}
    ensures GreedyCost(multiset(Roots(ts))) == x + y + GreedyCost(multiset([x + y] + Roots(rest2)))
  {
    hide GreedyCost, Least, SecondLeast, Roots;
    GreedyStep(Roots(ts), Roots(rest2), x, y);
  }

  lemma LeavesOfInner(t: Tree)
    requires t.Inner?
    ensures multiset(Leaves(t)) == multiset(Leaves(t.l)) + multiset(Leaves(t.r))
  {
  }

  lemma MergeKeepsHeavy(ts: seq<Tree>, i: nat, j: nat, t: Tree)
    requires HeavyForest(ts) && IsMerge(ts, i, j, t) && forall h :: 0 <= h < |ts| ==> ts[h].freq == Weight(ts[h])
    ensures HeavyForest(Without(Without(ts, i), j) + [t])
  {
    hide Weight, Heavy, Leaves, HeavyChild, Without;
    var rest2, j' := Without(Without(ts, i), j), if j < i then j else j + 1;
    TreesThatStay(ts, i, j);
    CostOfInner(t);
    assert Heavy(ts[i]) && Heavy(ts[j']);
    MergedIsHeavy(t);
    var all := rest2 + [t];
    forall x, y | 0 <= x < |all| && 0 <= y < |all| && x != y
      ensures Weight(all[y]) >= HeavyChild(all[x])
    {
      if x < |rest2| && y < |rest2| {
        assert OldIndex(i, j, x) != OldIndex(i, j, y);
      } else if x < |rest2| {
        assert Weight(ts[i]) >= HeavyChild(ts[OldIndex(i, j, x)]);
      } else {
        LighterThanRest(ts, i, j, t, y);
      }
    }
  }

  lemma TreesThatStay(ts: seq<Tree>, i: nat, j: nat)
    requires i < |ts| && j < |Without(ts, i)|
    ensures Without(ts, i)[j] == ts[if j < i then j else j + 1]
    ensures (if j < i then j else j + 1) < |ts| && |Without(Without(ts, i), j)| == |ts| - 2
    ensures forall k :: 0 <= k < |ts| - 2 ==>
              var h := OldIndex(i, j, k);
              h < |ts| && h != i && h != (if j < i then j else j + 1) && Without(Without(ts, i), j)[k] == ts[h]
  {
    var rest := Without(ts, i);
    ElementsStay(ts, i);
    ElementsStay(rest, j);
    forall k | 0 <= k < |ts| - 2
      ensures Without(rest, j)[k] == ts[OldIndex(i, j, k)]
    {
      hide Without;
      assert Without(rest, j)[k] == rest[if k < j then k else k + 1];
    }
  }

  lemma ElementsStay(ts: seq<Tree>, i: nat)
    requires i < |ts|
    ensures |Without(ts, i)| == |ts| - 1
    ensures forall k :: 0 <= k < |ts| - 1 ==> Without(ts, i)[k] == ts[if k < i then k else k + 1]
  {
  }

  // What was popped is no heavier than what stays.
  lemma LighterThanRest(ts: seq<Tree>, i: nat, j: nat, t: Tree, k: nat)
    requires IsMerge(ts, i, j, t) && k < |Without(Without(ts, i), j)|
    requires forall h :: 0 <= h < |ts| ==> ts[h].freq == Weight(ts[h])
    ensures Weight(Without(Without(ts, i), j)[k]) >= HeavyChild(t)
  {
    hide Weight;
    var k' := if k < j then k else k + 1;
    assert Without(Without(ts, i), j)[k] == Without(ts, i)[k'];
    assert Without(ts, i)[k'] == ts[if k' < i then k' else k' + 1];
    assert Without(ts, i)[j] == ts[if j < i then j else j + 1];
  }

  // Where the k-th tree that stays was before.
  function OldIndex(i: nat, j: nat, k: nat): nat {
    var k' := if k < j then k else k + 1;
    if k' < i then k' else k' + 1
  }

  // ----- The algorithm

  ghost function Items(keys: set<nat>, freqs: Table): multiset<LeafInfo>
    requires keys <= freqs.Keys
  {
    multiset(set s | s in keys :: LeafInfo(s, freqs[s]))
  }

  lemma AddItem(keys: set<nat>, freqs: Table, s: nat)
    requires keys <= freqs.Keys && s in freqs && s !in keys
    ensures Items(keys + {s}, freqs) == Items(keys, freqs) + multiset([LeafInfo(s, freqs[s])])
  {
    var oldItems := set k | k in keys :: LeafInfo(k, freqs[k]);
    assert (set k | k in keys + {s} :: LeafInfo(k, freqs[k])) == oldItems + {LeafInfo(s, freqs[s])};
    assert LeafInfo(s, freqs[s]) !in oldItems;
  }

  // No code lengths that a prefix-free code over the same leaves can have cost less in total.
  ghost predicate Optimal(t: Tree) {
    && (forall ds: seq<nat>, top: nat | |ds| == |Leaves(t)| && FitsCode(ds, top) ::
          Cost(t) <= Total(Freqs(Leaves(t)), ds))
    && (forall t': Tree | multiset(Freqs(Leaves(t'))) == multiset(Freqs(Leaves(t))) :: Cost(t) <= Cost(t'))
  }

  // ----- What the rounds of merging make of a queue

  // No tree comes before the one at i.
  ghost predicate ComesFirst(ts: seq<Tree>, i: nat) {
    i < |ts| && forall h :: 0 <= h < |ts| ==> !ts[h].ComesBefore(ts[i])
  }

  ghost predicate PopsTwo(ts: seq<Tree>, i: nat, j: nat) {
    ComesFirst(ts, i) && ComesFirst(Without(ts, i), j)
  }

  // The smaller symbol makes the resulting encoding more predictable.
  function Joined(a: Tree, b: Tree): Tree {
    if a.symbol > b.symbol then Inner(b.symbol, b.freq + a.freq, b, a) else Inner(a.symbol, a.freq + b.freq, a, b)
  }

  ghost function AfterRound(ts: seq<Tree>, i: nat, j: nat): (r: seq<Tree>)
    requires PopsTwo(ts, i, j)
    ensures |r| == |ts| - 1
  {
    Without(Without(ts, i), j) + [Joined(ts[i], Without(ts, i)[j])]
  }

  ghost predicate Builds(ts: seq<Tree>, root: Tree)
    decreases |ts|
  {
    if |ts| < 2 then ts == [root]
    else exists i: nat, j: nat :: PopsTwo(ts, i, j) && Builds(AfterRound(ts, i, j), root)
  }

  function LeafTrees(infos: seq<LeafInfo>): (ts: seq<Tree>)
    ensures |ts| == |infos|
    ensures forall i :: 0 <= i < |ts| ==> ts[i] == Leaf(infos[i].symbol, infos[i].freq)
  {
    seq(|infos|, i requires 0 <= i < |infos| => Leaf(infos[i].symbol, infos[i].freq))
  }

  // The tree for a table, whatever the order in which its symbols enter the queue.
  ghost predicate IsTreeOf(root: Tree, freqs: Table) {
    exists infos :: multiset(infos) == Items(freqs.Keys, freqs) && Builds(LeafTrees(infos), root)
  }

  // ----- The tree depends on nothing but the table

  ghost predicate DistinctRoots(ts: seq<Tree>) {
    forall i, j :: 0 <= i < j < |ts| ==> ts[i].symbol != ts[j].symbol
  }

  lemma FirstIsUnique(ts: seq<Tree>, us: seq<Tree>, i: nat, j: nat)
    requires multiset(ts) == multiset(us) && DistinctRoots(ts) && ComesFirst(ts, i) && ComesFirst(us, j)
    ensures ts[i] == us[j] && multiset(Without(ts, i)) == multiset(Without(us, j)) && DistinctRoots(Without(ts, i))
  {
    assert us[j] in multiset(ts) && ts[i] in multiset(us);
    var h :| 0 <= h < |ts| && ts[h] == us[j];
    var k :| 0 <= k < |us| && us[k] == ts[i];
    assert !us[k].ComesBefore(us[j]) && !ts[h].ComesBefore(ts[i]);
    assert h == i;
    MultisetWithout(ts, i);
    MultisetWithout(us, j);
  }

  lemma {:induction false} BuildsUnique(ts: seq<Tree>, us: seq<Tree>, root: Tree, root': Tree)
    requires multiset(ts) == multiset(us) && DistinctRoots(ts) && Builds(ts, root) && Builds(us, root')
    ensures root == root'
    decreases |ts|
  {
    hide Without;
    assert |multiset(ts)| == |ts| && |multiset(us)| == |us|;
    if |ts| < 2 {
      assert ts[0] in multiset(us);
    } else {
      var i: nat, j: nat :| PopsTwo(ts, i, j) && Builds(AfterRound(ts, i, j), root);
      var k: nat, l: nat :| PopsTwo(us, k, l) && Builds(AfterRound(us, k, l), root');
      FirstIsUnique(ts, us, i, k);
      FirstIsUnique(Without(ts, i), Without(us, k), j, l);
      RoundKeepsDistinct(ts, i, j);
      BuildsUnique(AfterRound(ts, i, j), AfterRound(us, k, l), root, root');
    }
  }

  lemma RoundKeepsDistinct(ts: seq<Tree>, i: nat, j: nat)
    requires PopsTwo(ts, i, j) && DistinctRoots(ts)
    ensures DistinctRoots(AfterRound(ts, i, j))
  {
    TreesThatStay(ts, i, j);
  }

  lemma {:induction false} SameLeafTrees(a: seq<LeafInfo>, b: seq<LeafInfo>)
    requires multiset(a) == multiset(b)
    ensures multiset(LeafTrees(a)) == multiset(LeafTrees(b))
    decreases |a|
  {
    hide LeafTrees, Without;
    assert |multiset(a)| == |a| && |multiset(b)| == |b|;
    if a != [] {
      assert a[0] in multiset(b);
      var i :| 0 <= i < |b| && b[i] == a[0];
      MultisetWithout(b, i);
      MultisetWithout(a, 0);
      LeafTreesWithout(a, 0);
      LeafTreesWithout(b, i);
      SameLeafTrees(Without(a, 0), Without(b, i));
    }
  }

  lemma LeafTreesWithout(a: seq<LeafInfo>, i: nat)
    requires i < |a|
    ensures |Without(a, i)| < |a|
    ensures multiset(LeafTrees(a)) == multiset(LeafTrees(Without(a, i))) + multiset{Leaf(a[i].symbol, a[i].freq)}
  {
    var ts := LeafTrees(a);
    assert LeafTrees(Without(a, i)) == Without(ts, i);
    MultisetWithout(ts, i);
    assert ts[i] in multiset(ts);
  }

  lemma LeavesAreDistinct(infos: seq<LeafInfo>, freqs: Table)
    requires multiset(infos) == Items(freqs.Keys, freqs)
    ensures DistinctRoots(LeafTrees(infos))
  {
    var items := set s | s in freqs :: LeafInfo(s, freqs[s]);
    assert multiset(infos) == multiset(items);
    forall i, j | 0 <= i < j < |infos|
      ensures infos[i].symbol != infos[j].symbol
    {
      TwiceInMultiset(infos, i, j);
      assert infos[i] in multiset(infos) && infos[j] in multiset(infos);
      assert infos[i] in items && infos[j] in items;
    }
  }

  lemma TwiceInMultiset(ls: seq<LeafInfo>, i: nat, j: nat)
    requires i < j < |ls|
    ensures ls[i] == ls[j] ==> multiset(ls)[ls[i]] >= 2
  {
    assert ls == ls[..j] + [ls[j]] + ls[j + 1..];
    assert ls[i] == ls[..j][i];
    assert ls[i] in multiset(ls[..j]);
  }

  lemma TreeIsUnique(freqs: Table, root: Tree, root': Tree)
    requires IsTreeOf(root, freqs) && IsTreeOf(root', freqs)
    ensures root == root'
  {
    hide Items, Builds, LeafTrees;
    var infos :| multiset(infos) == Items(freqs.Keys, freqs) && Builds(LeafTrees(infos), root);
    var infos' :| multiset(infos') == Items(freqs.Keys, freqs) && Builds(LeafTrees(infos'), root');
    LeavesAreDistinct(infos, freqs);
    SameLeafTrees(infos, infos');
    BuildsUnique(LeafTrees(infos), LeafTrees(infos'), root, root');
  }

  // ----- Filling the queue

  // One leaf for every symbol of the table.
  method FillQueue(freqs: Table) returns (pq: seq<Tree>, ghost infos: seq<LeafInfo>)
    ensures pq == LeafTrees(infos) && multiset(infos) == Items(freqs.Keys, freqs)
    ensures pq == [] <==> freqs == map[]
  {
    hide Items;
    pq, infos := [], [];
    var keys := freqs.Keys;
    ghost var used: set<nat> := {};
    NoItems(freqs);
    while keys != {}
      invariant keys <= freqs.Keys && used == freqs.Keys - keys
      invariant pq == LeafTrees(infos) && multiset(infos) == Items(used, freqs)
      invariant pq == [] <==> used == {}
      decreases keys
    {
      var s :| s in keys;
      AddItem(used, freqs, s);
      pq := pq + [Leaf(s, freqs[s])];
      infos := infos + [LeafInfo(s, freqs[s])];
      keys := keys - {s};
      used := used + {s};
    }
    assert used == freqs.Keys;
  }

  lemma NoItems(freqs: Table)
    ensures Items({}, freqs) == multiset{}
  {
  }

  // A forest of single leaves.
  ghost predicate LeafForest(ts: seq<Tree>, infos: seq<LeafInfo>) {
    && |ts| == |infos| && ForestLeaves(ts) == multiset(infos) && ForestCost(ts) == 0
    && forall i :: 0 <= i < |ts| ==> ts[i].freq == infos[i].freq && ts[i].freq == Weight(ts[i])
  }

  lemma {:induction false} LeafTreesForest(infos: seq<LeafInfo>)
    ensures LeafForest(LeafTrees(infos), infos)
  {
    hide Cost, Weight, Leaves, ForestCost, ForestLeaves, ForestWeight;
    if infos == [] {
      NoForest();
    } else {
      var infos', info := infos[..|infos| - 1], infos[|infos| - 1];
      var leaf := Leaf(info.symbol, info.freq);
      LeafTreesForest(infos');
      assert LeafTrees(infos) == LeafTrees(infos') + [leaf] && infos == infos' + [info];
      ForestPush(LeafTrees(infos'), leaf);
      CostOfLeaf(leaf);
      LeavesOfLeaf(leaf);
    }
  }

  lemma NoForest()
    ensures ForestLeaves([]) == multiset{} && ForestCost([]) == 0
  {
  }

  lemma LeavesOfLeaf(t: Tree)
    requires t.Leaf?
    ensures Leaves(t) == [LeafInfo(t.symbol, t.freq)]
  {
  }

  lemma LeafForestIsHeavy(ts: seq<Tree>)
    requires forall i :: 0 <= i < |ts| ==> ts[i].Leaf? && ts[i].freq > 0
    ensures HeavyForest(ts)
  {
    SmallFibs();
    forall i | 0 <= i < |ts|
      ensures Heavy(ts[i]) && HeavyChild(ts[i]) == 0
    {
      CostOfLeaf(ts[i]);
    }
  }

  method BuildHuffmanTree(freqs: Table) returns (root: Option<Tree>)
    ensures root.None? <==> freqs == map[]
    ensures root.Some? ==> IsTreeOf(root.value, freqs)
    ensures root.Some? ==> multiset(Leaves(root.value)) == Items(freqs.Keys, freqs) && Optimal(root.value)
    ensures root.Some? && (forall s | s in freqs :: freqs[s] > 0) ==> Heavy(root.value)
  {
    hide Builds, Optimal, Leaves, Items, Heavy, LeafTrees;
    var pq, infos := FillQueue(freqs);
    if pq == [] {
      return None;
    }
    ghost var start := pq;
    while |pq| > 1
      invariant pq != [] && forall r :: Builds(pq, r) ==> Builds(start, r)
      decreases |pq|
    {
      ghost var before := pq;
      var i := Top(pq);
      var a, rest := pq[i], pq[..i] + pq[i + 1..];
      var j := Top(rest);
      var b, rest2 := rest[j], rest[..j] + rest[j + 1..];
      if a.symbol > b.symbol {
        a, b := b, a;
      }
      var ab := Inner(a.symbol, a.freq + b.freq, a, b);
      pq := rest2 + [ab];
      BuildsRound(before, i, j, pq);
    }
    BuildsLast(pq);
    root := Some(pq[0]);
    TreeOfTable(freqs, infos, root.value);
  }

  lemma BuildsRound(ts: seq<Tree>, i: nat, j: nat, ts': seq<Tree>)
    requires |ts| > 1 && PopsTwo(ts, i, j) && ts' == AfterRound(ts, i, j)
    ensures forall r :: Builds(ts', r) ==> Builds(ts, r)
  {
  }

  lemma BuildsLast(ts: seq<Tree>)
    requires |ts| == 1
    ensures Builds(ts, ts[0])
  {
  }

  // What is built for a table is an optimal tree for it.
  lemma TreeOfTable(freqs: Table, infos: seq<LeafInfo>, root: Tree)
    requires multiset(infos) == Items(freqs.Keys, freqs) && Builds(LeafTrees(infos), root)
    ensures multiset(Leaves(root)) == Items(freqs.Keys, freqs) && Optimal(root)
    ensures (forall s | s in freqs :: freqs[s] > 0) ==> Heavy(root)
  {
    hide Cost, Weight, Leaves, ForestCost, ForestLeaves, Heavy, HeavyForest, Optimal, GreedyCost, Builds, Items;
    var ts := LeafTrees(infos);
    var positive := forall s | s in freqs :: freqs[s] > 0;
    LeafTreesForest(infos);
    assert Roots(ts) == Freqs(infos);
    BuildsFromSome(ts, root);
    if positive {
      LeavesArePositive(freqs, infos);
      LeafForestIsHeavy(ts);
    }
    BuiltTree(ts, root, infos, positive);
  }

  lemma BuildsFromSome(ts: seq<Tree>, root: Tree)
    requires Builds(ts, root)
    ensures ts != []
  {
  }

  lemma LeavesArePositive(freqs: Table, infos: seq<LeafInfo>)
    requires multiset(infos) == Items(freqs.Keys, freqs) && forall s | s in freqs :: freqs[s] > 0
    ensures forall i :: 0 <= i < |infos| ==> infos[i].freq > 0
  {
    forall i | 0 <= i < |infos|
      ensures infos[i].freq > 0
    {
      assert infos[i] in multiset(infos);
    }
  }

  lemma {:induction false} BuiltTree(ts: seq<Tree>, root: Tree, infos: seq<LeafInfo>, positive: bool)
    requires Builds(ts, root) && Queue(ts, multiset(infos), GreedyCost(multiset(Freqs(infos))))
    requires positive ==> HeavyForest(ts)
    ensures multiset(Leaves(root)) == multiset(infos) && Optimal(root)
    ensures positive ==> Heavy(root)
    decreases |ts|
  {
    hide GreedyCost, Queue, HeavyForest, Optimal, Leaves, Weight, Heavy, Freqs, PopsTwo, Joined, IsMerge, Without;
    if |ts| < 2 {
      LastTree(ts, infos, positive);
    } else {
      var i: nat, j: nat :| PopsTwo(ts, i, j) && Builds(AfterRound(ts, i, j), root);
      var t := RoundIsMerge(ts, i, j);
      MergeStep(ts, i, j, t, multiset(infos), GreedyCost(multiset(Freqs(infos))), positive);
      BuiltTree(AfterRound(ts, i, j), root, infos, positive);
    }
  }

  lemma RoundIsMerge(ts: seq<Tree>, i: nat, j: nat) returns (t: Tree)
    requires |ts| >= 2 && PopsTwo(ts, i, j)
    ensures IsMerge(ts, i, j, t) && i < |ts| && j < |Without(ts, i)|
    ensures AfterRound(ts, i, j) == Without(Without(ts, i), j) + [t]
  {
    t := Joined(ts[i], Without(ts, i)[j]);
  }

  lemma MergeStep(ts: seq<Tree>, i: nat, j: nat, t: Tree, leaves: multiset<LeafInfo>, total: nat, positive: bool)
    requires Queue(ts, leaves, total) && IsMerge(ts, i, j, t) && (positive ==> HeavyForest(ts))
    ensures Queue(Without(Without(ts, i), j) + [t], leaves, total)
    ensures positive ==> HeavyForest(Without(Without(ts, i), j) + [t])
  {
    MergeKeepsQueue(ts, i, j, t, leaves, total);
    if positive {
      assert forall h :: 0 <= h < |ts| ==> ts[h].freq == Weight(ts[h]);
      MergeKeepsHeavy(ts, i, j, t);
    }
  }

  lemma LastTree(ts: seq<Tree>, infos: seq<LeafInfo>, positive: bool)
    requires |ts| == 1 && Queue(ts, multiset(infos), GreedyCost(multiset(Freqs(infos)))) && (positive ==> HeavyForest(ts))
    ensures multiset(Leaves(ts[0])) == multiset(infos) && Optimal(ts[0])
    ensures positive ==> Heavy(ts[0])
  {
    hide Cost, Weight, Leaves, Total, Heavy, Freqs, Optimal;
    var t := ts[0];
    OneTree(ts);
    SameFreqs(Leaves(t), infos);
    GreedyIsOptimal(t);
  }

  lemma OneTree(ts: seq<Tree>)
    requires |ts| == 1
    ensures ForestCost(ts) == Cost(ts[0]) && ForestLeaves(ts) == multiset(Leaves(ts[0]))
    ensures GreedyCost(multiset(Roots(ts))) == 0
  {
    hide Cost, Leaves, Least, Merged, MergedWeight;
    assert ts[1..] == [];
    assert |multiset(Roots(ts))| == |Roots(ts)| == 1;
  }

  lemma GreedyIsOptimal(t: Tree)
    requires Cost(t) == GreedyCost(multiset(Freqs(Leaves(t))))
    ensures Optimal(t)
  {
    hide Cost, Leaves, Total, Freqs, GreedyCost, FitsCode;
    forall ds: seq<nat>, top: nat | |ds| == |Leaves(t)| && FitsCode(ds, top)
      ensures Cost(t) <= Total(Freqs(Leaves(t)), ds)
    {
      GreedyIsLeast(Freqs(Leaves(t)), ds, top);
    }
    forall t': Tree | multiset(Freqs(Leaves(t'))) == multiset(Freqs(Leaves(t)))
      ensures Cost(t) <= Cost(t')
    {
      GreedyIsBest(t');
    }
  }

  // The same leaves have the same frequencies, in whatever order.
  lemma {:induction false} SameFreqs(a: seq<LeafInfo>, b: seq<LeafInfo>)
    requires multiset(a) == multiset(b)
    ensures multiset(Freqs(a)) == multiset(Freqs(b))
    decreases |a|
  {
    hide Freqs, Without;
    assert |multiset(a)| == |a| && |multiset(b)| == |b|;
    if a != [] {
      assert a[0] in multiset(b);
      var i :| 0 <= i < |b| && b[i] == a[0];
      MultisetWithout(b, i);
      MultisetWithout(a, 0);
      FreqsWithout(a, 0);
      FreqsWithout(b, i);
      SameFreqs(Without(a, 0), Without(b, i));
    }
  }

  lemma FreqsWithout(a: seq<LeafInfo>, i: nat)
    requires i < |a|
    ensures |Without(a, i)| < |a|
    ensures multiset(Freqs(a)) == multiset(Freqs(Without(a, i))) + multiset{a[i].freq}
  {
    assert Freqs(Without(a, i)) == Without(Freqs(a), i);
    MultisetWithout(Freqs(a), i);
    assert a[i].freq in multiset(Freqs(a)) by { assert Freqs(a)[i] == a[i].freq; }
  }
}
