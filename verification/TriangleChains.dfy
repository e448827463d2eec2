/**
 Chains of triangles: a binary tree of triangles, written by serial::TrianglesChainSaver in preorder with
 two bits for the children of each, and read back by serial::DecodeTriangles.
 */
module TriangleChains {
  import opened PointDeltas

  // ----- Trees of deltas, as a list of edges and as a list of numbers

  // Every node is a triangle; the delta leads from its parent to it.
  datatype Tree = Nil | Node(id: int, delta: nat, left: Tree, right: Tree)

  // From a triangle to a neighbour behind one of its ribs: side 0 or 1, or -1 for the edge to the root.
  datatype Edge = Edge(from: int, to: int, delta: nat, side: int) {
    predicate Less(rhs: Edge) {
      if from == rhs.from then side < rhs.side else from < rhs.from
    }
  }

  ghost function Ids(t: Tree): set<int> {
    if t.Nil? then {} else {t.id} + Ids(t.left) + Ids(t.right)
  }

  // All triangles have different ids, none of them negative.
  ghost predicate IdsDiffer(t: Tree) {
    t.Node? ==>
      && t.id >= 0 && t.id !in Ids(t.left) && t.id !in Ids(t.right) && Ids(t.left) !! Ids(t.right)
      && IdsDiffer(t.left) && IdsDiffer(t.right)
  }

  ghost predicate IsChildEdge(t: Tree, e: Edge) {
    && t.Node? && e.from == t.id
    && ((e.side == 0 && t.left.Node? && e.to == t.left.id && e.delta == t.left.delta)
        || (e.side == 1 && t.right.Node? && e.to == t.right.id && e.delta == t.right.delta))
  }

  ghost predicate IsTreeEdge(t: Tree, e: Edge)
    decreases t
  {
    t.Node? && (IsChildEdge(t, e) || IsTreeEdge(t.left, e) || IsTreeEdge(t.right, e))
  }

  ghost predicate IsSubtree(s: Tree, t: Tree)
    decreases t
  {
    s.Node? && t.Node? && (s == t || IsSubtree(s, t.left) || IsSubtree(s, t.right))
  }

  lemma {:induction false} EdgesStartInside(t: Tree, e: Edge)
    requires IsTreeEdge(t, e)
    ensures e.from in Ids(t) && e.to in Ids(t)
    decreases t
  {
    if IsTreeEdge(t.left, e) {
      EdgesStartInside(t.left, e);
    } else if IsTreeEdge(t.right, e) {
      EdgesStartInside(t.right, e);
    }
  }

  lemma {:induction false} SubtreeIsInside(s: Tree, t: Tree)
    requires IsSubtree(s, t)
    ensures s.id in Ids(t)
    decreases t
  {
    if s != t {
      if IsSubtree(s, t.left) {
        SubtreeIsInside(s, t.left);
      } else {
        SubtreeIsInside(s, t.right);
      }
    }
  }

  // The edges that start at a node of the tree are those to its children.
  lemma {:induction false} EdgesOfNode(t: Tree, s: Tree, e: Edge)
    requires IdsDiffer(t) && IsSubtree(s, t) && e.from == s.id
    ensures IsTreeEdge(t, e) <==> IsChildEdge(s, e)
    decreases t
  {
    if IsTreeEdge(t.left, e) {
      EdgesStartInside(t.left, e);
    }
    if IsTreeEdge(t.right, e) {
      EdgesStartInside(t.right, e);
    }
    if s == t {
    } else if IsSubtree(s, t.left) {
      SubtreeIsInside(s, t.left);
      EdgesOfNode(t.left, s, e);
    } else {
      SubtreeIsInside(s, t.right);
      EdgesOfNode(t.right, s, e);
    }
  }

  lemma {:induction false} ChildIsSubtree(s: Tree, t: Tree)
    requires IsSubtree(s, t)
    ensures s.left.Node? ==> IsSubtree(s.left, t)
    ensures s.right.Node? ==> IsSubtree(s.right, t)
    decreases t
  {
    if s != t {
      if IsSubtree(s, t.left) {
        ChildIsSubtree(s, t.left);
      } else {
        ChildIsSubtree(s, t.right);
      }
    }
  }

  // ----- Words of 64 bits

  const WORD: nat := 0x1_0000_0000_0000_0000

  // delta << 2, and the result with a low bit set.
  function Shifted(delta: nat): nat { (4 * delta) % WORD }
  function WithBit(word: nat, bit: nat): nat
    requires bit > 0
  {
    if (word / bit) % 2 == 1 then word else word + bit
  }
  function WithSide(word: nat, side: int): nat { WithBit(word, if side == 0 then 1 else 2) }

  // Two bits are free above the delta.
  predicate Fits(delta: nat) { delta < WORD / 4 }

  ghost predicate DeltasFit(t: Tree) {
    t.Node? ==> Fits(t.delta) && DeltasFit(t.left) && DeltasFit(t.right)
  }

  // Bit 0 for a child on side 0, bit 1 for one on side 1.
  function ChildBits(t: Tree): nat
    requires t.Node?
  {
    if t.left.Node? then (if t.right.Node? then 3 else 1) else (if t.right.Node? then 2 else 0)
  }

  // The number of a node: its delta and the bits for its children.
  function NodeCode(t: Tree): nat
    requires t.Node?
  {
    4 * t.delta + ChildBits(t)
  }

  ghost predicate HasSide(edges: seq<Edge>, id: int, side: int) {
    exists e :: e in edges && e.from == id && e.side == side
  }

  // Bit 0 of a number tells of an edge on side 0, bit 1 of one on side 1, and the rest is the delta.
  lemma NumberMeans(edges: seq<Edge>, root: Tree, s: Tree)
    requires AreEdgesOf(edges, root) && IdsDiffer(root) && s.Node? && IsSubtree(s, root)
    ensures NodeCode(s) % 2 == 1 <==> HasSide(edges, s.id, 0)
    ensures (NodeCode(s) / 2) % 2 == 1 <==> HasSide(edges, s.id, 1)
    ensures NodeCode(s) / 4 == s.delta
  {
    hide AreEdgesOf, HasSide, IsSubtree, IdsDiffer;
    PartsOfCode(s);
    SidesOfNode(edges, root, s);
  }

  lemma PartsOfCode(s: Tree)
    requires s.Node?
    ensures (NodeCode(s) % 2 == 1 <==> s.left.Node?) && ((NodeCode(s) / 2) % 2 == 1 <==> s.right.Node?)
    ensures NodeCode(s) / 4 == s.delta
  {
  }

  lemma SidesOfNode(edges: seq<Edge>, root: Tree, s: Tree)
    requires AreEdgesOf(edges, root) && IdsDiffer(root) && s.Node? && IsSubtree(s, root)
    ensures HasSide(edges, s.id, 0) <==> s.left.Node?
    ensures HasSide(edges, s.id, 1) <==> s.right.Node?
  {
    hide IsTreeEdge, IsSubtree, IdsDiffer;
    SubtreeIsInside(s, root);
    NoNegativeIds(root);
    forall e | e in edges && e.from == s.id
      ensures IsChildEdge(s, e)
    {
      EdgesOfNode(root, s, e);
    }
    if s.left.Node? {
      var e := Edge(s.id, s.left.id, s.left.delta, 0);
      EdgesOfNode(root, s, e);
      assert e in edges;
    }
    if s.right.Node? {
      var e := Edge(s.id, s.right.id, s.right.delta, 1);
      EdgesOfNode(root, s, e);
      assert e in edges;
    }
  }

  // What is written for a tree: its nodes in preorder.
  ghost function Preorder(t: Tree): seq<nat> {
    if t.Nil? then [] else [NodeCode(t)] + (Preorder(t.left) + Preorder(t.right))
  }

  ghost function Size(t: Tree): nat {
    if t.Nil? then 0 else 1 + Size(t.left) + Size(t.right)
  }

  // ----- The saver

  // The edges of a tree, that to its root first.
  ghost predicate AreEdgesOf(edges: seq<Edge>, t: Tree) {
    && edges != [] && edges[0].from == -1 && t.Node? && edges[0].to == t.id
    && (forall i, j :: 0 <= i < j < |edges| ==> edges[i].to != edges[j].to)
    && (forall e :: e in edges <==> e == edges[0] || IsTreeEdge(t, e))
  }

  ghost predicate IsSorted(edges: seq<Edge>) {
    forall i, j :: 0 <= i < j < |edges| ==> !edges[j].Less(edges[i])
  }

  ghost predicate HasDistinctEnds(edges: seq<Edge>) {
    forall i, j :: 0 <= i < j < |edges| ==> edges[i].to != edges[j].to
  }

  // Any sorting will do that keeps the edges.
  method Sort(edges: seq<Edge>) returns (r: seq<Edge>)
    requires HasDistinctEnds(edges)
    ensures IsSorted(r) && HasDistinctEnds(r) && forall e :: e in r <==> e in edges
  {
    r := [];
    for n := 0 to |edges|
      invariant IsSorted(r) && HasDistinctEnds(r) && forall e :: e in r <==> e in edges[..n]
    {
      var e := edges[n];
      var i := |r|;
      while i > 0 && e.Less(r[i - 1])
        invariant 0 <= i <= |r| && forall k :: i <= k < |r| ==> e.Less(r[k])
      {
        i := i - 1;
      }
      forall k | 0 <= k < |r|
        ensures r[k].to != e.to
      {
        assert r[k] in edges[..n];
      }
      InsertSorted(r, e, i);
      r := r[..i] + [e] + r[i..];
      assert edges[..n + 1] == edges[..n] + [e];
    }
    assert edges[..|edges|] == edges;
  }

  lemma InsertSorted(r: seq<Edge>, e: Edge, i: nat)
    requires IsSorted(r) && HasDistinctEnds(r) && i <= |r| && forall k :: 0 <= k < |r| ==> r[k].to != e.to
    requires forall k :: i <= k < |r| ==> e.Less(r[k])
    requires i > 0 ==> !e.Less(r[i - 1])
    ensures var r' := r[..i] + [e] + r[i..];
            IsSorted(r') && HasDistinctEnds(r') && forall x :: x in r' <==> x in r || x == e
  {
    var r' := r[..i] + [e] + r[i..];
    forall k, m | 0 <= k < m < |r'|
      ensures !r'[m].Less(r'[k]) && r'[k].to != r'[m].to
    {
      assert r'[k] == if k < i then r[k] else if k == i then e else r[k - 1];
      assert r'[m] == if m < i then r[m] else if m == i then e else r[m - 1];
      if k < i && m == i && k < i - 1 {
        assert !r[i - 1].Less(r[k]);
      }
    }
    assert r == r[..i] + r[i..];
  }

  // The first edge that does not start before a node.
  method LowerBound(edges: seq<Edge>, node: int) returns (i: nat)
    requires IsSorted(edges)
    ensures i <= |edges|
    ensures forall k :: 0 <= k < i ==> edges[k].from < node
    ensures forall k :: i <= k < |edges| ==> edges[k].from >= node
  {
    var lo, hi := 0, |edges|;
    while lo < hi
      invariant lo <= hi <= |edges|
      invariant forall k :: 0 <= k < lo ==> edges[k].from < node
      invariant forall k :: hi <= k < |edges| ==> edges[k].from >= node
    {
      var mid := (lo + hi) / 2;
      if edges[mid].from < node {
        lo := mid + 1;
      } else {
        hi := mid;
      }
    }
    i := lo;
  }

  // What the lookup of a node finds: the edges to its children, the one on side 0 first.
  lemma ChildrenFound(edges: seq<Edge>, all: seq<Edge>, root: Tree, s: Tree, i: nat)
    requires AreEdgesOf(all, root) && IdsDiffer(root) && s.Node? && IsSubtree(s, root)
    requires IsSorted(edges) && HasDistinctEnds(edges) && forall e :: e in edges <==> e in all
    requires i <= |edges| && (forall k :: 0 <= k < i ==> edges[k].from < s.id) && forall k :: i <= k < |edges| ==> edges[k].from >= s.id
    ensures (i < |edges| && edges[i].from == s.id) <==> s.left.Node? || s.right.Node?
    ensures s.left.Node? || s.right.Node? ==>
              && IsChildEdge(s, edges[i]) && edges[i].side == (if s.left.Node? then 0 else 1)
              && ((i + 1 < |edges| && edges[i + 1].from == s.id) <==> s.left.Node? && s.right.Node?)
              && (s.left.Node? && s.right.Node? ==> IsChildEdge(s, edges[i + 1]) && edges[i + 1].side == 1)
  {
    hide IsTreeEdge, IsSubtree, IdsDiffer;
    SubtreeIsInside(s, root);
    NoNegativeIds(root);
    forall k | 0 <= k < |edges| && edges[k].from == s.id
      ensures IsChildEdge(s, edges[k])
    {
      assert edges[k] in all;
      EdgesOfNode(root, s, edges[k]);
    }
    if s.left.Node? {
      var e := Edge(s.id, s.left.id, s.left.delta, 0);
      EdgesOfNode(root, s, e);
      assert e in edges;
    }
    if s.right.Node? {
      var e := Edge(s.id, s.right.id, s.right.delta, 1);
      EdgesOfNode(root, s, e);
      assert e in edges;
    }
  }

  lemma {:induction false} NoNegativeIds(t: Tree)
    requires IdsDiffer(t)
    ensures forall id | id in Ids(t) :: id >= 0
  {
    if t.Node? {
      NoNegativeIds(t.left);
      NoNegativeIds(t.right);
    }
  }

  // The subtrees that are still to be written after the current one, the next one last.
  ghost function PreorderOfAll(trees: seq<Tree>): seq<nat> {
    if trees == [] then [] else Preorder(trees[|trees| - 1]) + PreorderOfAll(trees[..|trees| - 1])
  }

  ghost function SizeOfAll(trees: seq<Tree>): nat {
    if trees == [] then 0 else Size(trees[|trees| - 1]) + SizeOfAll(trees[..|trees| - 1])
  }

  lemma PushTree(trees: seq<Tree>, t: Tree)
    ensures PreorderOfAll(trees + [t]) == Preorder(t) + PreorderOfAll(trees)
    ensures SizeOfAll(trees + [t]) == Size(t) + SizeOfAll(trees)
  {
    assert (trees + [t])[..|trees|] == trees;
  }

  lemma PopTree(trees: seq<Tree>)
    requires trees != []
    ensures var t, rest := trees[|trees| - 1], trees[..|trees| - 1];
            PreorderOfAll(trees) == Preorder(t) + PreorderOfAll(rest) && SizeOfAll(trees) == Size(t) + SizeOfAll(rest)
  {
  }

  lemma {:induction false} SubtreesFit(s: Tree, t: Tree)
    requires IsSubtree(s, t) && DeltasFit(t)
    ensures s.Node? && Fits(s.delta)
    decreases t
  {
    if s != t {
      if IsSubtree(s, t.left) {
        SubtreesFit(s, t.left);
      } else {
        SubtreesFit(s, t.right);
      }
    }
  }

  lemma StepDown(s: Tree)
    requires s.Node?
    ensures Preorder(s) == [NodeCode(s)] + (Preorder(s.left) + Preorder(s.right))
    ensures Size(s) == 1 + Size(s.left) + Size(s.right)
    ensures s.left.Nil? ==> Preorder(s.left) == [] && Size(s.left) == 0
    ensures s.right.Nil? ==> Preorder(s.right) == [] && Size(s.right) == 0
  {
  }

  lemma BitsAreChildBits(s: Tree)
    requires s.Node? && Fits(s.delta)
    ensures var d := Shifted(s.delta);
            && (s.left.Node? && s.right.Node? ==> WithSide(WithSide(d, 0), 1) == NodeCode(s))
            && (s.left.Node? && s.right.Nil? ==> WithSide(d, 0) == NodeCode(s))
            && (s.left.Nil? && s.right.Node? ==> WithSide(d, 1) == NodeCode(s))
            && (s.left.Nil? && s.right.Nil? ==> d == NodeCode(s))
  {
  }

  ghost predicate LeadsToSubtree(e: Edge, s: Tree, root: Tree) {
    s.Node? && IsSubtree(s, root) && e.to == s.id && e.delta == s.delta
  }

  // The edges to the children of a node, the one to be followed first in front.
  ghost predicate LeadToChildren(next: seq<Edge>, s: Tree, root: Tree)
    requires s.Node?
  {
    && |next| == (if s.left.Node? then 1 else 0) + (if s.right.Node? then 1 else 0)
    && (s.left.Node? ==> LeadsToSubtree(next[0], s.left, root))
    && (s.right.Node? ==> LeadsToSubtree(next[|next| - 1], s.right, root))
  }

  // The number to be written for the current edge, and the edges to go on with.
  method NextEdges(sorted: seq<Edge>, curr: Edge, ghost edges: seq<Edge>, ghost s: Tree, ghost root: Tree)
    returns (delta: nat, next: seq<Edge>)
    requires LeadsToSubtree(curr, s, root) && AreEdgesOf(edges, root) && IdsDiffer(root) && DeltasFit(root)
    requires IsSorted(sorted) && HasDistinctEnds(sorted) && forall e :: e in sorted <==> e in edges
    ensures s.Node? && delta == NodeCode(s) && LeadToChildren(next, s, root)
  {
    hide AreEdgesOf, IsSubtree, IsTreeEdge, NodeCode, Shifted, WithSide, Fits, IdsDiffer, DeltasFit;
    SubtreesFit(s, root);
    // The source checks that two bits are free.
    assert Fits(curr.delta);
    delta := Shifted(curr.delta);
    var nextNode := curr.to;
    var i := LowerBound(sorted, nextNode);
    ChildrenFound(sorted, edges, root, s, i);
    ChildIsSubtree(s, root);
    BitsAreChildBits(s);
    next := [];
    if i < |sorted| && sorted[i].from == nextNode {
      delta := WithSide(delta, sorted[i].side);
      next := [sorted[i]];
      if i + 1 < |sorted| && sorted[i + 1].from == nextNode {
        delta := WithSide(delta, sorted[i + 1].side);
        next := next + [sorted[i + 1]];
      }
    }
  }

  // Writes the tree below its first edge.
  method SaveChain(edges: seq<Edge>, rootDelta: nat, ghost root: Tree) returns (out: seq<nat>)
    requires AreEdgesOf(edges, root) && root.delta == rootDelta && IdsDiffer(root) && DeltasFit(root)
    ensures out == Preorder(root)
  {
    hide AreEdgesOf, IsSubtree, IsTreeEdge, Preorder, PreorderOfAll, Size, SizeOfAll, IdsDiffer, DeltasFit, NodeCode;
    FirstEdge(edges, root);
    var curr := edges[0].(delta := rootDelta);
    var sorted := Sort(edges);
    var st: seq<Edge> := [];
    ghost var s, pending: seq<Tree> := root, [];
    out := [];
    NothingPending();
    while true
      invariant LeadsToSubtree(curr, s, root)
      invariant |st| == |pending| && forall k :: 0 <= k < |st| ==> LeadsToSubtree(st[k], pending[k], root)
      invariant out + (Preorder(s) + PreorderOfAll(pending)) == Preorder(root)
      decreases Size(s) + SizeOfAll(pending)
    {
      var delta, next := NextEdges(sorted, curr, edges, s, root);
      StepDown(s);
      ghost var t := s;
      out := out + [delta];
      if next == [] {
        if st == [] {
          NothingPending();
          return;
        }
        PopTree(pending);
        curr := st[|st| - 1];
        st := st[..|st| - 1];
        s, pending := pending[|pending| - 1], pending[..|pending| - 1];
      } else {
        curr := next[0];
        s := if t.left.Node? then t.left else t.right;
        if |next| == 2 {
          st := st + [next[1]];
          PushTree(pending, t.right);
          pending := pending + [t.right];
        }
      }
    }
  }

  lemma FirstEdge(edges: seq<Edge>, t: Tree)
    requires AreEdgesOf(edges, t)
    ensures edges != [] && t.Node? && edges[0].to == t.id && IsSubtree(t, t) && HasDistinctEnds(edges)
  {
  }

  lemma NothingPending()
    ensures PreorderOfAll([]) == [] && SizeOfAll([]) == 0
  {
  }

  // ----- Triangles

  // A triangle with its third point, and its neighbours behind the ribs 1-2 and 2-0.
  datatype Shape = Empty | Triangle(id: int, apex: Point, left: Shape, right: Shape)

  type Predictor = (Point, Point, Point) -> Point

  function Delta(actual: Point, prediction: Point): nat {
    EncodePointDeltaAsUint(actual, prediction) as nat
  }

  // The neighbour behind 1-2 has the points 2, 1 and a new one; that behind 2-0 has 0, 2 and a new one.
  ghost function LeftDelta(g: Shape, p0: Point, p1: Point, predict: Predictor): nat
    requires g.Triangle? && g.left.Triangle?
  {
    Delta(g.left.apex, predict(g.apex, p1, p0))
  }

  ghost function RightDelta(g: Shape, p0: Point, p1: Point, predict: Predictor): nat
    requires g.Triangle? && g.right.Triangle?
  {
    Delta(g.right.apex, predict(p0, g.apex, p1))
  }

  // The tree of deltas of some triangles whose first two points are given.
  ghost function DeltasOf(g: Shape, p0: Point, p1: Point, delta: nat, predict: Predictor): (t: Tree)
    ensures t.Node? <==> g.Triangle?
    decreases g, 1
  {
    if g.Empty? then Nil
    else Node(g.id, delta, LeftTree(g, p0, p1, predict), RightTree(g, p0, p1, predict))
  }

  ghost function LeftTree(g: Shape, p0: Point, p1: Point, predict: Predictor): (t: Tree)
    requires g.Triangle?
    ensures t.Node? <==> g.left.Triangle?
    decreases g, 0
  {
    if g.left.Empty? then Nil else DeltasOf(g.left, g.apex, p1, LeftDelta(g, p0, p1, predict), predict)
  }

  ghost function RightTree(g: Shape, p0: Point, p1: Point, predict: Predictor): (t: Tree)
    requires g.Triangle?
    ensures t.Node? <==> g.right.Triangle?
    decreases g, 0
  {
    if g.right.Empty? then Nil else DeltasOf(g.right, p0, g.apex, RightDelta(g, p0, p1, predict), predict)
  }

  // The points of all triangles in preorder, three for each.
  ghost function AllPoints(g: Shape, p0: Point, p1: Point): seq<Point> {
    if g.Empty? then [] else [p0, p1, g.apex] + (AllPoints(g.left, g.apex, p1) + AllPoints(g.right, p0, g.apex))
  }

  // A triangle whose right neighbour is still to be read.
  datatype Frame = Frame(g: Shape, p0: Point, p1: Point)

  ghost predicate IsFrame(f: Frame) {
    f.g.Triangle? && f.g.right.Triangle?
  }

  ghost function NumbersAfter(frames: seq<Frame>, predict: Predictor): seq<nat> {
    if frames == [] || !IsFrame(frames[|frames| - 1]) then []
    else
      var f := frames[|frames| - 1];
      Preorder(RightTree(f.g, f.p0, f.p1, predict)) + NumbersAfter(frames[..|frames| - 1], predict)
  }

  ghost function PointsAfter(frames: seq<Frame>): seq<Point> {
    if frames == [] || !IsFrame(frames[|frames| - 1]) then []
    else
      var f := frames[|frames| - 1];
      AllPoints(f.g.right, f.p0, f.g.apex) + PointsAfter(frames[..|frames| - 1])
  }

  lemma PushFrame(frames: seq<Frame>, f: Frame, predict: Predictor)
    requires IsFrame(f)
    ensures NumbersAfter(frames + [f], predict) == Preorder(RightTree(f.g, f.p0, f.p1, predict)) + NumbersAfter(frames, predict)
    ensures PointsAfter(frames + [f]) == AllPoints(f.g.right, f.p0, f.g.apex) + PointsAfter(frames)
  {
    assert (frames + [f])[..|frames|] == frames;
  }

  // What is left of a triangle when some of its neighbours are still to be read.
  ghost function NumbersLeft(f: Frame, bits: nat, predict: Predictor): seq<nat>
    requires f.g.Triangle?
  {
    (if bits % 2 == 1 then Preorder(LeftTree(f.g, f.p0, f.p1, predict)) else [])
    + (if bits >= 2 then Preorder(RightTree(f.g, f.p0, f.p1, predict)) else [])
  }

  ghost function PointsLeft(f: Frame, bits: nat): seq<Point>
    requires f.g.Triangle?
  {
    (if bits % 2 == 1 then AllPoints(f.g.left, f.g.apex, f.p1) else [])
    + (if bits >= 2 then AllPoints(f.g.right, f.p0, f.g.apex) else [])
  }

  // The bits tell of neighbours that are there.
  ghost predicate BitsFit(f: Frame, bits: nat) {
    && f.g.Triangle? && bits < 4
    && (bits % 2 == 1 ==> f.g.left.Triangle?) && (bits >= 2 ==> f.g.right.Triangle?)
  }

  // Three points of the output are those of a triangle.
  ghost predicate At(points: seq<Point>, ind: int, f: Frame) {
    2 <= ind < |points| && f.g.Triangle? && points[ind - 2] == f.p0 && points[ind - 1] == f.p1 && points[ind] == f.g.apex
  }

  // The neighbour to be read next.
  ghost function NextFrame(f: Frame, bits: nat): Frame
    requires BitsFit(f, bits) && bits > 0
  {
    if bits % 2 == 1 then Frame(f.g.left, f.g.apex, f.p1) else Frame(f.g.right, f.p0, f.g.apex)
  }

  ghost function NextTree(f: Frame, bits: nat, predict: Predictor): Tree
    requires BitsFit(f, bits) && bits > 0
  {
    if bits % 2 == 1 then LeftTree(f.g, f.p0, f.p1, predict) else RightTree(f.g, f.p0, f.p1, predict)
  }

  // Reading one number: the next triangle, and what is left behind it.
  lemma ReadNext(f: Frame, bits: nat, predict: Predictor)
    requires BitsFit(f, bits) && bits > 0
    ensures var n, t := NextFrame(f, bits), NextTree(f, bits, predict);
            && n.g.Triangle? && t.Node? && BitsFit(n, ChildBits(t))
            && NumbersLeft(f, bits, predict) == [NodeCode(t)] + (NumbersLeft(n, ChildBits(t), predict)
                 + if bits == 3 then Preorder(RightTree(f.g, f.p0, f.p1, predict)) else [])
            && PointsLeft(f, bits) == [n.p0, n.p1, n.g.apex] + (PointsLeft(n, ChildBits(t))
                 + if bits == 3 then AllPoints(f.g.right, f.p0, f.g.apex) else [])
            && t.delta == Delta(n.g.apex, predict(n.p0, n.p1, if bits % 2 == 1 then f.p0 else f.p1))
  {
    hide Delta, Preorder, AllPoints;
    var n, t := NextFrame(f, bits), NextTree(f, bits, predict);
    var delta := if bits % 2 == 1 then LeftDelta(f.g, f.p0, f.p1, predict) else RightDelta(f.g, f.p0, f.p1, predict);
    assert t == DeltasOf(n.g, n.p0, n.p1, delta, predict);
    FirstOfTree(n, delta, predict);
  }

  // The number of a triangle stands in front of those of its neighbours.
  lemma FirstOfTree(f: Frame, delta: nat, predict: Predictor)
    requires f.g.Triangle?
    ensures var t := DeltasOf(f.g, f.p0, f.p1, delta, predict);
            && t.Node? && BitsFit(f, ChildBits(t)) && t.delta == delta
            && Preorder(t) == [NodeCode(t)] + NumbersLeft(f, ChildBits(t), predict)
            && AllPoints(f.g, f.p0, f.p1) == [f.p0, f.p1, f.g.apex] + PointsLeft(f, ChildBits(t))
  {
    hide Delta;
    var t, g := DeltasOf(f.g, f.p0, f.p1, delta, predict), f.g;
    assert g.left.Empty? ==> AllPoints(g.left, g.apex, f.p1) == [] && Preorder(t.left) == [];
    assert g.right.Empty? ==> AllPoints(g.right, f.p0, g.apex) == [] && Preorder(t.right) == [];
    assert t.left.Node? <==> g.left.Triangle?;
    assert t.right.Node? <==> g.right.Triangle?;
  }

  // A number gives back its delta and its bits.
  lemma NumberParts(t: Tree)
    requires t.Node? && Fits(t.delta)
    ensures NodeCode(t) < WORD && NodeCode(t) / 4 == t.delta && NodeCode(t) % 4 == ChildBits(t)
  {
  }

  lemma NextFits(f: Frame, bits: nat, predict: Predictor)
    requires BitsFit(f, bits) && bits > 0
    requires DeltasFit(LeftTree(f.g, f.p0, f.p1, predict)) && DeltasFit(RightTree(f.g, f.p0, f.p1, predict))
    ensures var n, t := NextFrame(f, bits), NextTree(f, bits, predict);
            && n.g.Triangle? && t.Node? && Fits(t.delta)
            && DeltasFit(LeftTree(n.g, n.p0, n.p1, predict)) && DeltasFit(RightTree(n.g, n.p0, n.p1, predict))
  {
    hide Fits;
  }

  function DecodeNumber(delta: nat, prediction: Point): Point
    requires delta < WORD
  {
    DecodePointDeltaFromUint(delta as bv64, prediction)
  }

  // A delta gives back the point.
  lemma DecodedPoint(actual: Point, prediction: Point)
    ensures Delta(actual, prediction) < WORD
    ensures DecodeNumber(Delta(actual, prediction), prediction) == actual
  {
    hide EncodePointDeltaAsUint, DecodePointDeltaFromUint;
    var d := EncodePointDeltaAsUint(actual, prediction);
    SameWord(d);
    DeltaRoundTrip(actual, prediction);
  }

  lemma SameWord(d: bv64)
    ensures d as nat < WORD && (d as nat) as bv64 == d
  {
  }

  // Which points the saver does not abort on.
  lemma FitsIff(actual: Point, prediction: Point)
    ensures Fits(Delta(actual, prediction)) <==> IsClose(actual.x, prediction.x) && IsClose(actual.y, prediction.y)
  {
    hide EncodePointDeltaAsUint, IsClose;
    SmallWord(EncodePointDeltaAsUint(actual, prediction));
    DeltaFitsIff(actual, prediction);
  }

  lemma SmallWord(d: bv64)
    ensures (d as nat) < WORD / 4 <==> d >> 62 == 0
  {
    HighBits(d);
    if d < 0x4000_0000_0000_0000 {
      SmallNumber(d);
    } else {
      LargeNumber(d);
    }
  }

  lemma HighBits(d: bv64)
    ensures d >> 62 == 0 <==> d < 0x4000_0000_0000_0000
  {
  }

  lemma SmallNumber(d: bv64)
    requires d < 0x4000_0000_0000_0000
    ensures (d as nat) < 0x4000_0000_0000_0000
  {
    var low := d as bv62;
    assert low as bv64 == d;
    assert (low as nat) < 0x4000_0000_0000_0000 && low as nat == d as nat;
  }

  lemma LargeNumber(d: bv64)
    requires d >= 0x4000_0000_0000_0000
    ensures d as nat >= 0x4000_0000_0000_0000
  {
  }

  // Reads a chain that was written for some triangles with the same predictor, and ends with no bit
  // and no place on the stack left.
  method DecodeTriangles(deltas: seq<nat>, base: Point, predict: Predictor, ghost g: Shape, ghost p0: Point, ghost p1: Point)
    returns (points: seq<Point>, ghost leftBits: nat, ghost leftStack: seq<nat>)
    requires g.Triangle?
    requires var root := DeltasOf(g, p0, p1, Delta(g.apex, p1), predict);
             DeltasFit(root) && deltas == [Delta(p0, base), Delta(p1, p0)] + Preorder(root)
    ensures points == AllPoints(g, p0, p1) && leftBits == 0 && leftStack == []
  {
    hide Delta, Preorder, AllPoints, DecodeNumber, NumbersLeft, PointsLeft, NumbersAfter, PointsAfter, Fits, NodeCode, ChildBits,
         LeftTree, RightTree, DeltasFit, BitsFit, Reading, NextFrame, NextTree;
    ghost var root := DeltasOf(g, p0, p1, Delta(g.apex, p1), predict);
    ghost var cur := Frame(g, p0, p1);
    FirstOfTree(cur, root.delta, predict);
    RootFits(root);
    assert root.left == LeftTree(g, p0, p1, predict) && root.right == RightTree(g, p0, p1, predict);
    NumberParts(root);
    DecodedPoint(p0, base);
    DecodedPoint(p1, p0);
    DecodedPoint(g.apex, p1);
    points := [DecodeNumber(deltas[0], base)];
    points := points + [DecodeNumber(deltas[1], points[0])];
    points := points + [DecodeNumber(deltas[2] / 4, points[1])];
    assert points == [p0, p1, g.apex];
    var st: seq<nat> := [];
    ghost var frames: seq<Frame> := [];
    var ind, treeBits, i := 2, deltas[2] % 4, 3;
    NothingAfter(predict);
    assert Reading(deltas[3..], points, ind, treeBits, cur, st, frames, predict, AllPoints(g, p0, p1)) by {
      StartReading(deltas[3..], points, treeBits, cur, predict, AllPoints(g, p0, p1));
    }
    while i < |deltas|
      invariant 3 <= i <= |deltas| && 0 <= ind
      invariant Reading(deltas[i..], points, ind, treeBits, cur, st, frames, predict, AllPoints(g, p0, p1))
      decreases |deltas| - i, |st|
    {
      ghost var goal := AllPoints(g, p0, p1);
      if treeBits == 0 {
        // The end of a chain: goes back to the last triangle with a second neighbour.
        PopStep(deltas[i..], points, ind, cur, st, frames, predict, goal);
        ind := st[|st| - 1];
        st := st[..|st| - 1];
        treeBits := 2;
        cur, frames := frames[|frames| - 1], frames[..|frames| - 1];
      } else {
        ghost var f, bits := cur, treeBits;
        ReadStep(deltas[i..], points, ind, bits, f, st, frames, predict, goal);
        if treeBits == 3 {
          st := st + [ind];
          frames := frames + [f];
        }
        cur := NextFrame(f, bits);
        assert deltas[i + 1..] == deltas[i..][1..];
        points, treeBits := ReadTriangle(points, deltas[i], ind, treeBits, predict, f);
        ind := |points| - 1;
        i := i + 1;
      }
    }
    assert deltas[i..] == [];
    StopReading(points, ind, treeBits, cur, st, frames, predict, AllPoints(g, p0, p1));
    leftBits, leftStack := treeBits, st;
  }

  // Between two numbers: what is still to be read, and what has been made of the numbers before.
  ghost predicate Reading(rest: seq<nat>, points: seq<Point>, ind: int, bits: nat, cur: Frame, st: seq<nat>, frames: seq<Frame>,
                          predict: Predictor, goal: seq<Point>)
  {
    && BitsFit(cur, bits) && At(points, ind, cur)
    && DeltasFit(LeftTree(cur.g, cur.p0, cur.p1, predict)) && DeltasFit(RightTree(cur.g, cur.p0, cur.p1, predict))
    && |st| == |frames| && (forall k :: 0 <= k < |st| ==> IsPending(points, st[k], frames[k], predict))
    && rest == NumbersLeft(cur, bits, predict) + NumbersAfter(frames, predict)
    && points + (PointsLeft(cur, bits) + PointsAfter(frames)) == goal
  }

  lemma StartReading(rest: seq<nat>, points: seq<Point>, bits: nat, cur: Frame, predict: Predictor, goal: seq<Point>)
    requires BitsFit(cur, bits) && points == [cur.p0, cur.p1, cur.g.apex]
    requires DeltasFit(LeftTree(cur.g, cur.p0, cur.p1, predict)) && DeltasFit(RightTree(cur.g, cur.p0, cur.p1, predict))
    requires rest == NumbersLeft(cur, bits, predict) && goal == points + PointsLeft(cur, bits)
    ensures Reading(rest, points, 2, bits, cur, [], [], predict, goal)
  {
    hide DeltasFit, LeftTree, RightTree, NumbersLeft, PointsLeft;
    NothingAfter(predict);
  }

  lemma PopStep(rest: seq<nat>, points: seq<Point>, ind: int, cur: Frame, st: seq<nat>, frames: seq<Frame>,
                predict: Predictor, goal: seq<Point>)
    requires Reading(rest, points, ind, 0, cur, st, frames, predict, goal) && rest != []
    ensures st != [] && |st| == |frames|
    ensures Reading(rest, points, st[|st| - 1], 2, frames[|frames| - 1], st[..|st| - 1], frames[..|frames| - 1], predict, goal)
  {
    hide DeltasFit, LeftTree, RightTree, NumbersLeft, PointsLeft, NumbersAfter, PointsAfter;
    NothingLeft(cur, predict);
    NothingAfter(predict);
    assert st != [];
    TopIsFrame(points, st, frames, predict);
    PopFrame(frames, predict);
  }

  lemma ReadStep(rest: seq<nat>, points: seq<Point>, ind: nat, bits: nat, cur: Frame, st: seq<nat>, frames: seq<Frame>,
                 predict: Predictor, goal: seq<Point>)
    requires Reading(rest, points, ind, bits, cur, st, frames, predict, goal) && bits > 0
    ensures BitsFit(cur, bits) && At(points, ind, cur)
    ensures var n, t := NextFrame(cur, bits), NextTree(cur, bits, predict);
            && n.g.Triangle? && t.Node? && Fits(t.delta)
            && rest != [] && rest[0] == NodeCode(t)
            && Reading(rest[1..], points + [n.p0, n.p1, n.g.apex], |points| + 2, ChildBits(t), n,
                       if bits == 3 then st + [ind] else st, if bits == 3 then frames + [cur] else frames, predict, goal)
  {
    hide DeltasFit, LeftTree, RightTree, NumbersLeft, PointsLeft, NumbersAfter, PointsAfter, Fits, NodeCode, ChildBits, IsPending,
         NextFrame, NextTree, BitsFit, At;
    ReadNumbers(rest, bits, cur, frames, predict);
    ReadPoints(points, bits, cur, frames, predict);
    assert NextFrame(cur, bits).g.Triangle? && NextTree(cur, bits, predict).Node? && BitsFit(NextFrame(cur, bits), ChildBits(NextTree(cur, bits, predict)));
    NextFits(cur, bits, predict);
    var n := NextFrame(cur, bits);
    var points' := points + [n.p0, n.p1, n.g.apex];
    assert At(points', |points| + 2, n) by { LastThree(points, n); }
    if bits == 3 {
      IsPendingNow(points, ind, cur, predict);
      StillPending(points, points', st + [ind], frames + [cur], predict);
    } else {
      StillPending(points, points', st, frames, predict);
    }
  }

  lemma LastThree(points: seq<Point>, n: Frame)
    requires n.g.Triangle?
    ensures At(points + [n.p0, n.p1, n.g.apex], |points| + 2, n)
  {
  }

  lemma Regroup<T>(front: seq<T>, a: seq<T>, b: seq<T>, rest: seq<T>)
    ensures front + (a + b) + rest == front + (a + (b + rest))
  {
  }

  lemma DropHead<T>(c: T, s: seq<T>)
    ensures [c] + s != [] && ([c] + s)[0] == c && ([c] + s)[1..] == s
  {
  }

  lemma ReadNumbers(rest: seq<nat>, bits: nat, cur: Frame, frames: seq<Frame>, predict: Predictor)
    requires BitsFit(cur, bits) && bits > 0 && rest == NumbersLeft(cur, bits, predict) + NumbersAfter(frames, predict)
    ensures var n, t := NextFrame(cur, bits), NextTree(cur, bits, predict);
            && n.g.Triangle? && t.Node? && BitsFit(n, ChildBits(t)) && rest != [] && rest[0] == NodeCode(t)
            && rest[1..] == NumbersLeft(n, ChildBits(t), predict)
                            + NumbersAfter(if bits == 3 then frames + [cur] else frames, predict)
  {
    hide LeftTree, RightTree, NumbersLeft, PointsLeft, NumbersAfter, PointsAfter, NodeCode, ChildBits, NextFrame, NextTree,
         Preorder, AllPoints;
    ReadNext(cur, bits, predict);
    var n, t := NextFrame(cur, bits), NextTree(cur, bits, predict);
    var a, b := NumbersLeft(n, ChildBits(t), predict), if bits == 3 then Preorder(RightTree(cur.g, cur.p0, cur.p1, predict)) else [];
    Regroup([NodeCode(t)], a, b, NumbersAfter(frames, predict));
    DropHead(NodeCode(t), a + (b + NumbersAfter(frames, predict)));
    if bits == 3 {
      PushFrame(frames, cur, predict);
    } else {
      assert [] + NumbersAfter(frames, predict) == NumbersAfter(frames, predict);
    }
  }

  lemma ReadPoints(points: seq<Point>, bits: nat, cur: Frame, frames: seq<Frame>, predict: Predictor)
    requires BitsFit(cur, bits) && bits > 0
    ensures var n, t := NextFrame(cur, bits), NextTree(cur, bits, predict);
            && n.g.Triangle? && t.Node?
            && points + (PointsLeft(cur, bits) + PointsAfter(frames)) ==
               points + [n.p0, n.p1, n.g.apex]
               + (PointsLeft(n, ChildBits(t)) + PointsAfter(if bits == 3 then frames + [cur] else frames))
  {
    hide LeftTree, RightTree, NumbersLeft, PointsLeft, NumbersAfter, PointsAfter, NodeCode, ChildBits, NextFrame, NextTree,
         Preorder, AllPoints;
    ReadNext(cur, bits, predict);
    var n, t := NextFrame(cur, bits), NextTree(cur, bits, predict);
    var three := [n.p0, n.p1, n.g.apex];
    var a, b := PointsLeft(n, ChildBits(t)), if bits == 3 then AllPoints(cur.g.right, cur.p0, cur.g.apex) else [];
    Regroup(three, a, b, PointsAfter(frames));
    Behind(points, three, a + (b + PointsAfter(frames)));
    if bits == 3 {
      PushFrame(frames, cur, predict);
    } else {
      assert [] + PointsAfter(frames) == PointsAfter(frames);
    }
  }

  lemma Behind<T>(a: seq<T>, b: seq<T>, c: seq<T>)
    ensures a + (b + c) == a + b + c
  {
  }

  lemma StopReading(points: seq<Point>, ind: int, bits: nat, cur: Frame, st: seq<nat>, frames: seq<Frame>,
                    predict: Predictor, goal: seq<Point>)
    requires Reading([], points, ind, bits, cur, st, frames, predict, goal)
    ensures bits == 0 && st == [] && points == goal
  {
    hide DeltasFit, LeftTree, RightTree, NumbersLeft, PointsLeft, NumbersAfter, PointsAfter;
    TopIsFrame(points, st, frames, predict);
    NothingLeftAtAll(cur, bits, frames, predict);
  }

  lemma NothingAfter(predict: Predictor)
    ensures NumbersAfter([], predict) == [] && PointsAfter([]) == []
  {
  }

  // The triangle behind one of the ribs of the current one, and the bits of its own neighbours.
  method ReadTriangle(points: seq<Point>, number: nat, ind: nat, treeBits: nat, predict: Predictor, ghost f: Frame)
    returns (points': seq<Point>, treeBits': nat)
    requires BitsFit(f, treeBits) && treeBits > 0 && At(points, ind, f)
    requires var t := NextTree(f, treeBits, predict);
             t.Node? && Fits(t.delta) && number == NodeCode(t)
    ensures var n := NextFrame(f, treeBits);
            n.g.Triangle? && points' == points + [n.p0, n.p1, n.g.apex]
    ensures treeBits' == ChildBits(NextTree(f, treeBits, predict))
    // Bit 0 tells of the neighbour behind the rib 1-2, bit 1 of that behind 2-0.
    ensures number < WORD && treeBits' == number % 4
    ensures var (trg0, trg1, trg2) := if treeBits % 2 == 1 then (ind, ind - 1, ind - 2) else (ind - 2, ind, ind - 1);
            points' == points + [points[trg0], points[trg1],
                                 DecodeNumber(number / 4, predict(points[trg0], points[trg1], points[trg2]))]
  {
    hide Delta, Preorder, AllPoints, DecodeNumber, NumbersLeft, PointsLeft, Fits, NodeCode, ChildBits, LeftTree, RightTree;
    ReadNext(f, treeBits, predict);
    NumberParts(NextTree(f, treeBits, predict));
    ghost var n := NextFrame(f, treeBits);
    // Points trg0 and trg1 are the common rib, trg2 is the opposite point of the known triangle.
    var trg0, trg1, trg2 := ind - 2, ind, ind - 1;
    if treeBits % 2 == 1 {
      trg0, trg1, trg2 := ind, ind - 1, ind - 2;
    }
    var prediction := predict(points[trg0], points[trg1], points[trg2]);
    DecodedPoint(n.g.apex, prediction);
    points' := points + [points[trg0], points[trg1], DecodeNumber(number / 4, prediction)];
    treeBits' := number % 4;
  }

  lemma StillPending(points: seq<Point>, points': seq<Point>, st: seq<nat>, frames: seq<Frame>, predict: Predictor)
    requires points <= points' && |st| == |frames|
    requires forall k :: 0 <= k < |st| ==> IsPending(points, st[k], frames[k], predict)
    ensures forall k :: 0 <= k < |st| ==> IsPending(points', st[k], frames[k], predict)
  {
    hide DeltasFit, LeftTree, RightTree;
    forall k | 0 <= k < |st|
      ensures IsPending(points', st[k], frames[k], predict)
    {
      assert IsPending(points, st[k], frames[k], predict);
    }
  }

  lemma RootFits(t: Tree)
    requires t.Node? && DeltasFit(t)
    ensures Fits(t.delta) && DeltasFit(t.left) && DeltasFit(t.right)
  {
  }

  lemma IsPendingNow(points: seq<Point>, ind: int, f: Frame, predict: Predictor)
    requires BitsFit(f, 3) && At(points, ind, f)
    requires DeltasFit(LeftTree(f.g, f.p0, f.p1, predict)) && DeltasFit(RightTree(f.g, f.p0, f.p1, predict))
    ensures IsFrame(f) && IsPending(points, ind, f, predict)
  {
  }

  lemma TopIsFrame(points: seq<Point>, st: seq<nat>, frames: seq<Frame>, predict: Predictor)
    requires |st| == |frames| && forall k :: 0 <= k < |st| ==> IsPending(points, st[k], frames[k], predict)
    ensures frames != [] ==>
              var f := frames[|frames| - 1];
              && IsFrame(f) && BitsFit(f, 2) && st[|st| - 1] >= 2 && At(points, st[|st| - 1], f)
              && DeltasFit(LeftTree(f.g, f.p0, f.p1, predict)) && DeltasFit(RightTree(f.g, f.p0, f.p1, predict))
  {
    hide DeltasFit, LeftTree, RightTree;
    assert frames != [] ==> IsPending(points, st[|st| - 1], frames[|frames| - 1], predict);
  }

  lemma NothingLeft(f: Frame, predict: Predictor)
    requires f.g.Triangle?
    ensures NumbersLeft(f, 0, predict) == [] && PointsLeft(f, 0) == []
  {
  }

  lemma PopFrame(frames: seq<Frame>, predict: Predictor)
    requires frames != [] && IsFrame(frames[|frames| - 1])
    ensures var f, rest := frames[|frames| - 1], frames[..|frames| - 1];
            && NumbersAfter(frames, predict) == NumbersLeft(f, 2, predict) + NumbersAfter(rest, predict)
            && PointsAfter(frames) == PointsLeft(f, 2) + PointsAfter(rest)
  {
    hide Preorder, AllPoints, RightTree, LeftTree, NumbersAfter, PointsAfter;
    var f, rest := frames[|frames| - 1], frames[..|frames| - 1];
    assert frames == rest + [f];
    PushFrame(rest, f, predict);
    assert [] + Preorder(RightTree(f.g, f.p0, f.p1, predict)) == Preorder(RightTree(f.g, f.p0, f.p1, predict));
    assert [] + AllPoints(f.g.right, f.p0, f.g.apex) == AllPoints(f.g.right, f.p0, f.g.apex);
  }

  // When no number is left there is no neighbour left either.
  lemma NothingLeftAtAll(f: Frame, bits: nat, frames: seq<Frame>, predict: Predictor)
    requires BitsFit(f, bits) && NumbersLeft(f, bits, predict) + NumbersAfter(frames, predict) == []
    requires frames != [] ==> IsFrame(frames[|frames| - 1])
    ensures bits == 0 && frames == [] && PointsLeft(f, bits) == [] && PointsAfter(frames) == []
  {
    if bits > 0 {
      ReadNext(f, bits, predict);
    }
  }

  // A place on the stack: its triangle has been read, its right neighbour has not.
  ghost predicate IsPending(points: seq<Point>, ind: int, f: Frame, predict: Predictor) {
    && IsFrame(f) && At(points, ind, f)
    && DeltasFit(LeftTree(f.g, f.p0, f.p1, predict)) && DeltasFit(RightTree(f.g, f.p0, f.p1, predict))
  }

  // ----- A whole chain

  // The numbers written for a chain: the points of the first triangle, then the tree.
  method Save(arr0: Point, arr1: Point, arr2: Point, base: Point, edges: seq<Edge>, ghost root: Tree) returns (out: seq<nat>)
    requires AreEdgesOf(edges, root) && root.delta == Delta(arr2, arr1) && IdsDiffer(root) && DeltasFit(root)
    ensures out == [Delta(arr0, base), Delta(arr1, arr0)] + Preorder(root)
  {
    hide Delta, AreEdgesOf, Preorder;
    out := [Delta(arr0, base)];
    out := out + [Delta(arr1, arr0)];
    var chain := SaveChain(edges, Delta(arr2, arr1), root);
    out := out + chain;
  }

  // Triangles whose deltas come from one predictor are read back, in preorder and with the right ribs.
  method RoundTrip(g: Shape, p0: Point, p1: Point, base: Point, predict: Predictor, edges: seq<Edge>) returns (points: seq<Point>)
    requires g.Triangle?
    requires var root := DeltasOf(g, p0, p1, Delta(g.apex, p1), predict);
             AreEdgesOf(edges, root) && IdsDiffer(root) && DeltasFit(root)
    ensures points == AllPoints(g, p0, p1)
  {
    hide Delta, AreEdgesOf, Preorder, AllPoints, IdsDiffer, DeltasFit, LeftTree, RightTree;
    ghost var root := DeltasOf(g, p0, p1, Delta(g.apex, p1), predict);
    var numbers := Save(p0, p1, g.apex, base, edges, root);
    ghost var leftBits, leftStack;
    points, leftBits, leftStack := DecodeTriangles(numbers, base, predict, g, p0, p1);
  }
}
