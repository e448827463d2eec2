/**
 diff::RollingHashDiffer: blocks of the source that are found again in the destination are copied,
 what lies between them is left to a simpler differ.
 */
module RollingDiff {
  import opened Options
  import opened Sequences
  import Bits

  // ----- Patches

  datatype Op = Copy(n: nat) | Delete(n: nat) | Insert(values: seq<nat>)

  function Behind(values: seq<nat>, rest: Option<seq<nat>>): Option<seq<nat>> {
    if rest.None? then None else Some(values + rest.value)
  }

  // What a patch makes of a source, if it takes the source up completely.
  function Replay(ops: seq<Op>, src: seq<nat>): Option<seq<nat>> {
    if ops == [] then (if src == [] then Some([]) else None)
    else
      match ops[0]
      case Copy(n) => if n > |src| then None else Behind(src[..n], Replay(ops[1..], src[n..]))
      case Delete(n) => if n > |src| then None else Replay(ops[1..], src[n..])
      case Insert(values) => Behind(values, Replay(ops[1..], src))
  }

  lemma BehindTwice(a: seq<nat>, b: Option<seq<nat>>, c: seq<nat>)
    requires b.Some?
    ensures Behind(a, Some(b.value + c)) == Some(Behind(a, b).value + c)
  {
    assert a + (b.value + c) == a + b.value + c;
  }

  lemma {:induction false} ReplayConcat(ops: seq<Op>, src: seq<nat>, ops': seq<Op>, src': seq<nat>)
    requires Replay(ops, src).Some? && Replay(ops', src').Some?
    ensures Replay(ops + ops', src + src') == Some(Replay(ops, src).value + Replay(ops', src').value)
  {
    if ops == [] {
      assert ops + ops' == ops' && src + src' == src';
      assert [] + Replay(ops', src').value == Replay(ops', src').value;
    } else {
      assert (ops + ops')[1..] == ops[1..] + ops';
      match ops[0]
      case Copy(n) =>
        assert (src + src')[n..] == src[n..] + src' && (src + src')[..n] == src[..n];
        ReplayConcat(ops[1..], src[n..], ops', src');
        BehindTwice(src[..n], Replay(ops[1..], src[n..]), Replay(ops', src').value);
      case Delete(n) =>
        assert (src + src')[n..] == src[n..] + src';
        ReplayConcat(ops[1..], src[n..], ops', src');
      case Insert(values) =>
        ReplayConcat(ops[1..], src, ops', src');
        BehindTwice(values, Replay(ops[1..], src), Replay(ops', src').value);
    }
  }

  lemma ReplayOne(op: Op, src: seq<nat>)
    ensures op.Copy? && op.n == |src| ==> Replay([op], src) == Some(src)
    ensures op.Delete? && op.n == |src| ==> Replay([op], src) == Some([])
    ensures op.Insert? && src == [] ==> Replay([op], src) == Some(op.values)
  {
    assert [op][1..] == [] && src[|src|..] == [] && src[..|src|] == src;
    assert Replay([], []) == Some([]);
    assert src + [] == src;
    if op.Insert? {
      assert op.values + [] == op.values;
    }
  }

  // The operations of a patch, in the order of the calls; empty ones leave no trace.
  class PatchCoder {
    var ops: seq<Op>

    constructor ()
      ensures ops == []
    {
      ops := [];
    }

    method Copy(n: nat)
      modifies this
      ensures ops == old(ops) + CopyOps(n)
    {
      if n != 0 {
        ops := ops + [Op.Copy(n)];
      }
    }

    method Delete(n: nat)
      modifies this
      ensures ops == old(ops) + DeleteOps(n)
    {
      if n != 0 {
        ops := ops + [Op.Delete(n)];
      }
    }

    method Insert(values: seq<nat>)
      modifies this
      ensures ops == old(ops) + InsertOps(values)
    {
      if values != [] {
        ops := ops + [Op.Insert(values)];
      }
    }
  }

  function CopyOps(n: nat): seq<Op> { if n == 0 then [] else [Op.Copy(n)] }
  function DeleteOps(n: nat): seq<Op> { if n == 0 then [] else [Op.Delete(n)] }
  function InsertOps(values: seq<nat>): seq<Op> { if values == [] then [] else [Op.Insert(values)] }

  lemma ReplaySingle(values: seq<nat>)
    ensures Replay(CopyOps(|values|), values) == Some(values)
    ensures Replay(DeleteOps(|values|), values) == Some([])
    ensures Replay(InsertOps(values), []) == Some(values)
  {
    ReplayOne(Op.Copy(|values|), values);
    ReplayOne(Op.Delete(|values|), values);
    ReplayOne(Op.Insert(values), []);
  }

  // ----- The simple differ

  function CommonSuffix(a: seq<nat>, b: seq<nat>): (n: nat)
    ensures n <= |a| && n <= |b|
  {
    if a == [] || b == [] || a[|a| - 1] != b[|b| - 1] then 0 else 1 + CommonSuffix(a[..|a| - 1], b[..|b| - 1])
  }

  // The last q values.
  function Tail(a: seq<nat>, q: nat): seq<nat>
    requires q <= |a|
  {
    a[|a| - q..]
  }

  lemma {:induction false} LongestSuffix(a: seq<nat>, b: seq<nat>)
    ensures var n := CommonSuffix(a, b);
            Tail(a, n) == Tail(b, n) && (n < |a| && n < |b| ==> a[|a| - n - 1] != b[|b| - n - 1])
  {
    hide Tail;
    var n := CommonSuffix(a, b);
    if n > 0 {
      var a', b' := a[..|a| - 1], b[..|b| - 1];
      LongestSuffix(a', b');
      LongerTail(a, n - 1);
      LongerTail(b, n - 1);
      assert n < |a| ==> a[|a| - n - 1] == a'[|a'| - (n - 1) - 1];
      assert n < |b| ==> b[|b| - n - 1] == b'[|b'| - (n - 1) - 1];
    } else {
      EmptyTail(a);
      EmptyTail(b);
    }
  }

  lemma LongerTail(a: seq<nat>, q: nat)
    requires q < |a|
    ensures Tail(a, q + 1) == Tail(a[..|a| - 1], q) + [a[|a| - 1]]
  {
  }

  lemma EmptyTail(a: seq<nat>)
    ensures Tail(a, 0) == []
  {
  }

  // The patch that replaces everything but the equal values at the beginning and at the end.
  function Replacement(src: seq<nat>, dst: seq<nat>): seq<Op> {
    var p := CommonPrefix(src, dst);
    var q := CommonSuffix(src[p..], dst[p..]);
    CopyOps(p) + (DeleteOps(|src| - p - q) + (InsertOps(dst[p..|dst| - q]) + CopyOps(q)))
  }

  lemma ReplacementIsRight(src: seq<nat>, dst: seq<nat>)
    ensures Replay(Replacement(src, dst), src) == Some(dst)
  {
    hide Replay, CopyOps, DeleteOps, InsertOps, CommonPrefix, CommonSuffix, Tail;
    var p := CommonPrefix(src, dst);
    var q := RestsAgree(src, dst, p);
    ReplaceBetween(src, dst, p, q);
  }

  lemma RestsAgree(src: seq<nat>, dst: seq<nat>, p: nat) returns (q: nat)
    requires p <= |src| && p <= |dst|
    ensures q == CommonSuffix(src[p..], dst[p..]) && p + q <= |src| && p + q <= |dst|
    ensures Tail(src[p..], q) == Tail(dst[p..], q)
  {
    hide CommonSuffix, Tail;
    var a, b := src[p..], dst[p..];
    q := CommonSuffix(a, b);
    LongestSuffix(a, b);
  }

  lemma ReplaceBetween(src: seq<nat>, dst: seq<nat>, p: nat, q: nat)
    requires p + q <= |src| && p + q <= |dst| && src[..p] == dst[..p]
    requires Tail(src[p..], q) == Tail(dst[p..], q)
    ensures Replay(CopyOps(p) + (DeleteOps(|src| - p - q) + (InsertOps(dst[p..|dst| - q]) + CopyOps(q))), src) == Some(dst)
  {
    hide Replay, CopyOps, DeleteOps, InsertOps;
    var front, middle, back := ThreePieces(src, p, q);
    var front', middle', back' := ThreePieces(dst, p, q);
    ReplayMiddle(front, middle, middle', back);
  }

  lemma ThreePieces(s: seq<nat>, p: nat, q: nat) returns (front: seq<nat>, middle: seq<nat>, back: seq<nat>)
    requires p + q <= |s|
    ensures s == front + (middle + back) && |front| == p && |middle| == |s| - p - q && |back| == q
    ensures front == s[..p] && middle == s[p..|s| - q] && back == Tail(s[p..], q)
  {
    front, middle, back := s[..p], s[p..|s| - q], Tail(s[p..], q);
  }

  lemma ReplayMiddle(front: seq<nat>, middle: seq<nat>, middle': seq<nat>, back: seq<nat>)
    ensures Replay(CopyOps(|front|) + (DeleteOps(|middle|) + (InsertOps(middle') + CopyOps(|back|))), front + (middle + back))
            == Some(front + (middle' + back))
  {
    hide Replay, CopyOps, DeleteOps, InsertOps;
    ReplaySingle(front);
    ReplaySingle(middle);
    ReplaySingle(middle');
    ReplaySingle(back);
    ReplayConcat(InsertOps(middle'), [], CopyOps(|back|), back);
    assert [] + back == back && [] + (middle' + back) == middle' + back;
    ReplayConcat(DeleteOps(|middle|), middle, InsertOps(middle') + CopyOps(|back|), back);
    ReplayConcat(CopyOps(|front|), front, DeleteOps(|middle|) + (InsertOps(middle') + CopyOps(|back|)), middle + back);
  }

  method SimpleReplaceDiff(src: seq<nat>, dst: seq<nat>, patchCoder: PatchCoder)
    modifies patchCoder
    ensures patchCoder.ops == old(patchCoder.ops) + Replacement(src, dst)
    ensures Replay(Replacement(src, dst), src) == Some(dst)
  {
    hide Replay, CopyOps, DeleteOps, InsertOps, CommonPrefix, CommonSuffix;
    var begCopy := BegCopy(src, dst);
    patchCoder.Copy(begCopy);
    var endCopy := EndCopy(src[begCopy..], dst[begCopy..]);
    ReplacementIsRight(src, dst);
    patchCoder.Delete(|src| - begCopy - endCopy);
    patchCoder.Insert(dst[begCopy..|dst| - endCopy]);
    patchCoder.Copy(endCopy);
  }

  // The first loop of the simple differ.
  method BegCopy(src: seq<nat>, dst: seq<nat>) returns (begCopy: nat)
    ensures begCopy == CommonPrefix(src, dst)
  {
    begCopy := 0;
    assert src[0..] == src && dst[0..] == dst;
    while begCopy < |src| && begCopy < |dst| && src[begCopy] == dst[begCopy]
      invariant begCopy <= |src| && begCopy <= |dst|
      invariant begCopy + CommonPrefix(src[begCopy..], dst[begCopy..]) == CommonPrefix(src, dst)
    {
      assert src[begCopy..][1..] == src[begCopy + 1..] && dst[begCopy..][1..] == dst[begCopy + 1..];
      begCopy := begCopy + 1;
    }
  }

  // The second loop of the simple differ.
  method EndCopy(src: seq<nat>, dst: seq<nat>) returns (endCopy: nat)
    ensures endCopy == CommonSuffix(src, dst)
  {
    endCopy := 0;
    assert src[..|src|] == src && dst[..|dst|] == dst;
    while endCopy < |src| && endCopy < |dst| && src[|src| - endCopy - 1] == dst[|dst| - endCopy - 1]
      invariant endCopy <= |src| && endCopy <= |dst|
      invariant endCopy + CommonSuffix(src[..|src| - endCopy], dst[..|dst| - endCopy]) == CommonSuffix(src, dst)
    {
      ghost var src', dst' := src[..|src| - endCopy], dst[..|dst| - endCopy];
      assert src'[..|src'| - 1] == src[..|src| - endCopy - 1] && dst'[..|dst'| - 1] == dst[..|dst| - endCopy - 1];
      endCopy := endCopy + 1;
    }
  }

  // ----- Blocks

  ghost predicate IsBlockAt(src: seq<nat>, blockSize: nat, b: nat)
    requires blockSize > 0
  {
    b % blockSize == 0 && b + blockSize <= |src|
  }

  // A block of the source, not before from, with the hash of the window at p of the destination.
  ghost predicate IsCandidate(hash: seq<nat> -> nat, src: seq<nat>, dst: seq<nat>, blockSize: nat, from: nat, p: nat, b: nat)
    requires blockSize > 0 && p + blockSize <= |dst|
  {
    && IsBlockAt(src, blockSize, b) && from <= b
    && hash(src[b..b + blockSize]) == hash(dst[p..p + blockSize])
  }

  // The first of the candidates.
  ghost predicate IsFirst(hash: seq<nat> -> nat, src: seq<nat>, dst: seq<nat>, blockSize: nat, from: nat, p: nat, b: nat)
    requires blockSize > 0 && p + blockSize <= |dst|
  {
    && IsCandidate(hash, src, dst, blockSize, from, p, b)
    && forall c: nat | IsCandidate(hash, src, dst, blockSize, from, p, c) :: b <= c
  }

  // No block is copied to p: the first candidate differs from the window, or there is none.
  ghost predicate NothingToCopy(hash: seq<nat> -> nat, src: seq<nat>, dst: seq<nat>, blockSize: nat, from: nat, p: nat)
    requires blockSize > 0 && p + blockSize <= |dst|
  {
    forall b: nat | IsFirst(hash, src, dst, blockSize, from, p, b) :: src[b..b + blockSize] != dst[p..p + blockSize]
  }

  // A block that is copied: its place in the source and in the destination.
  datatype BlockCopy = BlockCopy(src: nat, dst: nat)

  // Where the source goes on behind the last block copied to a place before p.
  ghost function FromAt(copies: seq<BlockCopy>, blockSize: nat, p: nat): nat {
    if copies == [] then 0
    else
      var last := copies[|copies| - 1];
      if last.dst + blockSize <= p then last.src + blockSize else FromAt(copies[..|copies| - 1], blockSize, p)
  }

  ghost predicate SameBlock(c: BlockCopy, src: seq<nat>, dst: seq<nat>, blockSize: nat)
    requires blockSize > 0
  {
    && IsBlockAt(src, blockSize, c.src) && c.dst + blockSize <= |dst|
    && src[c.src..c.src + blockSize] == dst[c.dst..c.dst + blockSize]
  }

  // Equal blocks, one behind the other in both texts.
  ghost predicate AreCopies(copies: seq<BlockCopy>, src: seq<nat>, dst: seq<nat>, blockSize: nat)
    requires blockSize > 0
  {
    && (forall i :: 0 <= i < |copies| ==> SameBlock(copies[i], src, dst, blockSize))
    && (forall i :: 0 < i < |copies| ==>
          && copies[i - 1].src + blockSize <= copies[i].src
          && copies[i - 1].dst + blockSize <= copies[i].dst)
  }

  ghost predicate Covered(copies: seq<BlockCopy>, blockSize: nat, p: nat) {
    exists i :: 0 <= i < |copies| && copies[i].dst <= p < copies[i].dst + blockSize
  }

  // Every window up to the given place that is not inside a copied block was worth no copy.
  ghost predicate Scanned(hash: seq<nat> -> nat, copies: seq<BlockCopy>, src: seq<nat>, dst: seq<nat>, blockSize: nat, upto: nat)
    requires blockSize > 0
  {
    forall p :: 0 <= p < upto && p + blockSize < |dst| && !Covered(copies, blockSize, p) ==>
      NothingToCopy(hash, src, dst, blockSize, FromAt(copies, blockSize, p), p)
  }

  // Every block that is copied is the first candidate behind the block copied before it, and its
  // window does not touch the end of the destination.
  ghost predicate AreTaken(hash: seq<nat> -> nat, copies: seq<BlockCopy>, src: seq<nat>, dst: seq<nat>, blockSize: nat)
    requires blockSize > 0
  {
    forall i :: 0 <= i < |copies| ==> IsTaken(hash, copies[i], SrcEnd(copies[..i], blockSize), src, dst, blockSize)
  }

  ghost predicate IsTaken(hash: seq<nat> -> nat, c: BlockCopy, from: nat, src: seq<nat>, dst: seq<nat>, blockSize: nat)
    requires blockSize > 0
  {
    c.dst + blockSize < |dst| && IsFirst(hash, src, dst, blockSize, from, c.dst, c.src)
  }

  // ----- The patch for a list of copied blocks

  ghost function SrcEnd(copies: seq<BlockCopy>, blockSize: nat): nat {
    if copies == [] then 0 else copies[|copies| - 1].src + blockSize
  }

  ghost function DstEnd(copies: seq<BlockCopy>, blockSize: nat): nat {
    if copies == [] then 0 else copies[|copies| - 1].dst + blockSize
  }

  // The blocks are copied, and what lies before each of them is replaced.
  ghost function PatchUpTo(copies: seq<BlockCopy>, src: seq<nat>, dst: seq<nat>, blockSize: nat): seq<Op>
    requires blockSize > 0 && AreCopies(copies, src, dst, blockSize)
  {
    if copies == [] then []
    else
      var front, last := copies[..|copies| - 1], copies[|copies| - 1];
      PatchUpTo(front, src, dst, blockSize)
      + (Replacement(src[SrcEnd(front, blockSize)..last.src], dst[DstEnd(front, blockSize)..last.dst]) + CopyOps(blockSize))
  }

  lemma LastCopy(copies: seq<BlockCopy>, src: seq<nat>, dst: seq<nat>, blockSize: nat)
    requires blockSize > 0 && AreCopies(copies, src, dst, blockSize) && copies != []
    ensures var front, last := copies[..|copies| - 1], copies[|copies| - 1];
            && AreCopies(front, src, dst, blockSize) && SameBlock(last, src, dst, blockSize)
            && SrcEnd(front, blockSize) <= last.src && DstEnd(front, blockSize) <= last.dst
  {
    hide SameBlock;
  }

  lemma {:induction false} PatchUpToIsRight(copies: seq<BlockCopy>, src: seq<nat>, dst: seq<nat>, blockSize: nat)
    requires blockSize > 0 && AreCopies(copies, src, dst, blockSize)
    ensures SrcEnd(copies, blockSize) <= |src| && DstEnd(copies, blockSize) <= |dst|
    ensures Replay(PatchUpTo(copies, src, dst, blockSize), src[..SrcEnd(copies, blockSize)]) ==
            Some(dst[..DstEnd(copies, blockSize)])
  {
    hide Replay, Replacement, CopyOps, AreCopies;
    if copies == [] {
      assert src[..0] == [] && dst[..0] == [];
      assert Replay([], []) == Some([]) by { EmptyPatch(); }
    } else {
      var front, last := copies[..|copies| - 1], copies[|copies| - 1];
      LastCopy(copies, src, dst, blockSize);
      PatchUpToIsRight(front, src, dst, blockSize);
      var s, d := SrcEnd(front, blockSize), DstEnd(front, blockSize);
      PatchStep(PatchUpTo(front, src, dst, blockSize), src, dst, s, d, last, blockSize);
    }
  }

  // One more block and what lies before it.
  lemma PatchStep(ops: seq<Op>, src: seq<nat>, dst: seq<nat>, s: nat, d: nat, c: BlockCopy, blockSize: nat)
    requires s <= c.src && c.src + blockSize <= |src| && d <= c.dst && c.dst + blockSize <= |dst|
    requires src[c.src..c.src + blockSize] == dst[c.dst..c.dst + blockSize]
    requires Replay(ops, src[..s]) == Some(dst[..d])
    ensures Replay(ops + (Replacement(src[s..c.src], dst[d..c.dst]) + CopyOps(blockSize)), src[..c.src + blockSize])
            == Some(dst[..c.dst + blockSize])
  {
    hide Replay, Replacement, CopyOps;
    var gap, gap', block := src[s..c.src], dst[d..c.dst], src[c.src..c.src + blockSize];
    ReplacementIsRight(gap, gap');
    ReplaySingle(block);
    ReplayConcat(Replacement(gap, gap'), gap, CopyOps(blockSize), block);
    ReplayConcat(ops, src[..s], Replacement(gap, gap') + CopyOps(blockSize), gap + block);
    assert src[..c.src + blockSize] == src[..s] + (gap + block);
    assert dst[..c.dst + blockSize] == dst[..d] + (gap' + block);
  }

  lemma EmptyPatch()
    ensures Replay([], []) == Some([])
  {
  }

  ghost function WholePatch(copies: seq<BlockCopy>, src: seq<nat>, dst: seq<nat>, blockSize: nat): seq<Op>
    requires blockSize > 0 && AreCopies(copies, src, dst, blockSize)
  {
    PatchUpTo(copies, src, dst, blockSize)
    + if SrcEnd(copies, blockSize) <= |src| && DstEnd(copies, blockSize) <= |dst|
      then Replacement(src[SrcEnd(copies, blockSize)..], dst[DstEnd(copies, blockSize)..]) else []
  }

  // Whichever equal blocks are copied: the patch makes the destination of the source.
  lemma WholePatchIsRight(copies: seq<BlockCopy>, src: seq<nat>, dst: seq<nat>, blockSize: nat)
    requires blockSize > 0 && AreCopies(copies, src, dst, blockSize)
    ensures Replay(WholePatch(copies, src, dst, blockSize), src) == Some(dst)
  {
    hide Replay, Replacement, AreCopies;
    var s, d := SrcEnd(copies, blockSize), DstEnd(copies, blockSize);
    PatchUpToIsRight(copies, src, dst, blockSize);
    ReplacementIsRight(src[s..], dst[d..]);
    ReplayConcat(PatchUpTo(copies, src, dst, blockSize), src[..s], Replacement(src[s..], dst[d..]), src[s..]);
    assert src == src[..s] + src[s..] && dst == dst[..d] + dst[d..];
  }

  // ----- The differ

  // A rolling hasher for any hash function of the window.
  class WindowHasher {
    const hash: seq<nat> -> nat
    var window: seq<nat>

    constructor (hash: seq<nat> -> nat)
      ensures this.hash == hash
    {
      this.hash, window := hash, [];
    }

    method Init(values: seq<nat>) returns (h: nat)
      modifies this
      ensures window == values && h == hash(window)
    {
      window := values;
      h := hash(window);
    }

    method Scroll(remove: nat, add: nat) returns (h: nat)
      requires window != [] && remove == window[0]
      modifies this
      ensures window == old(window)[1..] + [add] && h == hash(window)
    {
      window := window[1..] + [add];
      h := hash(window);
    }
  }

  ghost predicate InTable(table: map<nat, seq<nat>>, h: nat, b: nat) {
    h in table && b in table[h]
  }

  ghost predicate HasHash(hash: seq<nat> -> nat, src: seq<nat>, blockSize: nat, h: nat, b: nat)
    requires blockSize > 0
  {
    IsBlockAt(src, blockSize, b) && hash(src[b..b + blockSize]) == h
  }

  // The table holds the blocks of the source up to a place under their hashes.
  ghost predicate IsTable(table: map<nat, seq<nat>>, hash: seq<nat> -> nat, src: seq<nat>, blockSize: nat, upto: nat)
    requires blockSize > 0
  {
    forall h: nat, b: nat :: InTable(table, h, b) <==> b < upto && HasHash(hash, src, blockSize, h, b)
  }

  method HashBlocks(hasher: WindowHasher, src: seq<nat>, blockSize: nat) returns (table: map<nat, seq<nat>>)
    requires blockSize > 0
    modifies hasher
    ensures IsTable(table, hasher.hash, src, blockSize, |src|)
  {
    table := map[];
    var pos := 0;
    while |src| - pos >= blockSize
      invariant pos <= |src| && pos % blockSize == 0
      invariant IsTable(table, hasher.hash, src, blockSize, pos)
      decreases |src| - pos
    {
      var h := hasher.Init(src[pos..pos + blockSize]);
      ghost var before := table;
      table := table[h := (if h in table then table[h] else []) + [pos]];
      MoreBlocks(before, table, hasher.hash, src, blockSize, pos);
      pos := pos + blockSize;
    }
    NoMoreBlocks(table, hasher.hash, src, blockSize, pos);
  }

  // The next multiple of the block size.
  lemma NextBlock(blockSize: nat, pos: nat, b: nat)
    requires blockSize > 0 && pos % blockSize == 0 && b % blockSize == 0
    ensures pos <= b < pos + blockSize ==> b == pos
    ensures (pos + blockSize) % blockSize == 0
  {
    var i, j := pos / blockSize, b / blockSize;
    assert pos == i * blockSize && b == j * blockSize;
    assert (j - i) * blockSize == b - pos;
    if j > i {
      Bits.AtLeastOnce(j - i, blockSize);
    } else if j < i {
      assert (i - j) * blockSize == pos - b;
      Bits.AtLeastOnce(i - j, blockSize);
    }
    assert pos + blockSize == (i + 1) * blockSize;
    Bits.DivModUnique(pos + blockSize, blockSize, i + 1, 0);
  }

  lemma MoreBlocks(table: map<nat, seq<nat>>, table': map<nat, seq<nat>>, hash: seq<nat> -> nat,
                   src: seq<nat>, blockSize: nat, pos: nat)
    requires blockSize > 0 && IsBlockAt(src, blockSize, pos) && IsTable(table, hash, src, blockSize, pos)
    requires var h := hash(src[pos..pos + blockSize]);
             table' == table[h := (if h in table then table[h] else []) + [pos]]
    ensures IsTable(table', hash, src, blockSize, pos + blockSize) && (pos + blockSize) % blockSize == 0
  {
    NextBlock(blockSize, pos, pos);
    forall h: nat, b: nat
      ensures InTable(table', h, b) <==> b < pos + blockSize && HasHash(hash, src, blockSize, h, b)
    {
      assert InTable(table', h, b) <==> InTable(table, h, b) || (b == pos && hash(src[pos..pos + blockSize]) == h);
      if pos < b && HasHash(hash, src, blockSize, h, b) {
        NextBlock(blockSize, pos, b);
      }
    }
  }

  lemma NoMoreBlocks(table: map<nat, seq<nat>>, hash: seq<nat> -> nat, src: seq<nat>, blockSize: nat, pos: nat)
    requires blockSize > 0 && pos % blockSize == 0 && pos <= |src| < pos + blockSize
    requires IsTable(table, hash, src, blockSize, pos)
    ensures IsTable(table, hash, src, blockSize, |src|)
  {
    forall b: nat | IsBlockAt(src, blockSize, b)
      ensures b < pos
    {
      NextBlock(blockSize, pos, b);
    }
  }

  // The least of some places that is not before from.
  method FirstFrom(places: seq<nat>, from: nat) returns (it: Option<nat>)
    ensures it.None? ==> forall b :: b in places ==> b < from
    ensures it.Some? ==> it.value in places && it.value >= from && forall b :: b in places && b >= from ==> it.value <= b
  {
    it := None;
    for i := 0 to |places|
      invariant it.None? ==> forall b :: b in places[..i] ==> b < from
      invariant it.Some? ==> it.value in places && it.value >= from
      invariant it.Some? ==> forall b :: b in places[..i] && b >= from ==> it.value <= b
    {
      assert places[..i + 1] == places[..i] + [places[i]];
      if places[i] >= from && (it.None? || places[i] < it.value) {
        it := Some(places[i]);
      }
    }
    assert places[..|places|] == places;
  }

  // What a lookup finds is the first candidate.
  ghost predicate FindsFirst(it: Option<nat>, hash: seq<nat> -> nat, src: seq<nat>, dst: seq<nat>, blockSize: nat, from: nat, p: nat)
    requires blockSize > 0 && p + blockSize <= |dst|
  {
    && (it.None? ==> forall b: nat :: !IsCandidate(hash, src, dst, blockSize, from, p, b))
    && (it.Some? ==> IsFirst(hash, src, dst, blockSize, from, p, it.value))
  }

  method LookUp(table: map<nat, seq<nat>>, h: nat, from: nat,
                ghost hash: seq<nat> -> nat, ghost src: seq<nat>, ghost dst: seq<nat>, ghost blockSize: nat, ghost p: nat)
    returns (it: Option<nat>)
    requires blockSize > 0 && IsTable(table, hash, src, blockSize, |src|)
    requires p + blockSize <= |dst| && h == hash(dst[p..p + blockSize])
    ensures FindsFirst(it, hash, src, dst, blockSize, from, p)
  {
    it := None;
    forall b: nat
      ensures IsCandidate(hash, src, dst, blockSize, from, p, b) <==> h in table && b in table[h] && b >= from
    {
      assert InTable(table, h, b) <==> b < |src| && HasHash(hash, src, blockSize, h, b);
    }
    if h in table {
      it := FirstFrom(table[h], from);
    }
  }

  lemma ScrollOn(hash: seq<nat> -> nat, copies: seq<BlockCopy>, src: seq<nat>, dst: seq<nat>, blockSize: nat, p: nat, it: Option<nat>)
    requires blockSize > 0 && Scanned(hash, copies, src, dst, blockSize, p)
    requires p + blockSize <= |dst| && DstEnd(copies, blockSize) <= p
    requires FindsFirst(it, hash, src, dst, blockSize, SrcEnd(copies, blockSize), p)
    requires it.Some? ==> it.value + blockSize <= |src| && !EqualBlocks(src, it.value, dst, p, blockSize)
    ensures Scanned(hash, copies, src, dst, blockSize, p + 1)
  {
    assert FromAt(copies, blockSize, p) == SrcEnd(copies, blockSize);
  }

  lemma CopyOn(hash: seq<nat> -> nat, copies: seq<BlockCopy>, c: BlockCopy, src: seq<nat>, dst: seq<nat>, blockSize: nat)
    requires blockSize > 0 && Scanned(hash, copies, src, dst, blockSize, c.dst)
    ensures Scanned(hash, copies + [c], src, dst, blockSize, c.dst + blockSize)
  {
    var all := copies + [c];
    assert all[..|all| - 1] == copies;
    forall p | 0 <= p < c.dst + blockSize && p + blockSize < |dst| && !Covered(all, blockSize, p)
      ensures NothingToCopy(hash, src, dst, blockSize, FromAt(all, blockSize, p), p)
    {
      assert all[|copies|] == c;
      assert p < c.dst;
      assert forall i :: 0 <= i < |copies| ==> all[i] == copies[i];
    }
  }

  lemma TakeOn(hash: seq<nat> -> nat, copies: seq<BlockCopy>, c: BlockCopy, src: seq<nat>, dst: seq<nat>, blockSize: nat, it: Option<nat>)
    requires blockSize > 0 && AreTaken(hash, copies, src, dst, blockSize) && c.dst + blockSize < |dst|
    requires it == Some(c.src) && FindsFirst(it, hash, src, dst, blockSize, SrcEnd(copies, blockSize), c.dst)
    ensures AreTaken(hash, copies + [c], src, dst, blockSize)
  {
    hide SrcEnd, IsFirst;
    var all := copies + [c];
    forall i | 0 <= i < |all|
      ensures IsTaken(hash, all[i], SrcEnd(all[..i], blockSize), src, dst, blockSize)
    {
      assert all[..i] == copies[..i];
      assert copies[..|copies|] == copies;
    }
  }

  lemma TakenBeforeEnd(hash: seq<nat> -> nat, copies: seq<BlockCopy>, src: seq<nat>, dst: seq<nat>, blockSize: nat)
    requires blockSize > 0 && AreTaken(hash, copies, src, dst, blockSize)
    ensures forall i :: 0 <= i < |copies| ==> copies[i].dst + blockSize < |dst|
  {
  }

  lemma AddCopy(copies: seq<BlockCopy>, c: BlockCopy, src: seq<nat>, dst: seq<nat>, blockSize: nat)
    requires blockSize > 0 && AreCopies(copies, src, dst, blockSize)
    requires SameBlock(c, src, dst, blockSize)
    requires SrcEnd(copies, blockSize) <= c.src && DstEnd(copies, blockSize) <= c.dst
    ensures AreCopies(copies + [c], src, dst, blockSize)
    ensures PatchUpTo(copies + [c], src, dst, blockSize) == PatchUpTo(copies, src, dst, blockSize)
              + (Replacement(src[SrcEnd(copies, blockSize)..c.src], dst[DstEnd(copies, blockSize)..c.dst]) + CopyOps(blockSize))
  {
    hide Replacement, CopyOps, PatchUpTo;
    assert (copies + [c])[..|copies|] == copies;
    CopiesPush(copies, c, src, dst, blockSize);
    PatchPush(copies, c, src, dst, blockSize);
  }

  lemma CopiesPush(copies: seq<BlockCopy>, c: BlockCopy, src: seq<nat>, dst: seq<nat>, blockSize: nat)
    requires blockSize > 0 && AreCopies(copies, src, dst, blockSize)
    requires SameBlock(c, src, dst, blockSize)
    requires SrcEnd(copies, blockSize) <= c.src && DstEnd(copies, blockSize) <= c.dst
    ensures AreCopies(copies + [c], src, dst, blockSize)
  {
    hide SameBlock;
  }

  lemma PatchPush(copies: seq<BlockCopy>, c: BlockCopy, src: seq<nat>, dst: seq<nat>, blockSize: nat)
    requires blockSize > 0 && AreCopies(copies, src, dst, blockSize) && AreCopies(copies + [c], src, dst, blockSize)
    requires SrcEnd(copies, blockSize) <= c.src <= |src| && DstEnd(copies, blockSize) <= c.dst <= |dst|
    ensures PatchUpTo(copies + [c], src, dst, blockSize) == PatchUpTo(copies, src, dst, blockSize)
              + (Replacement(src[SrcEnd(copies, blockSize)..c.src], dst[DstEnd(copies, blockSize)..c.dst]) + CopyOps(blockSize))
  {
    hide Replacement, CopyOps, AreCopies;
    assert (copies + [c])[..|copies|] == copies;
  }

  lemma LastIs(copies: seq<BlockCopy>, c: BlockCopy, blockSize: nat)
    requires copies != [] && copies[|copies| - 1] == c
    ensures SrcEnd(copies, blockSize) == c.src + blockSize && DstEnd(copies, blockSize) == c.dst + blockSize
  {
  }

  // Writes what lies before an equal block, and copies the block.
  method CopyBlock(c: BlockCopy, src: seq<nat>, dst: seq<nat>, srcLastDiff: nat, dstLastDiff: nat, blockSize: nat,
                   patchCoder: PatchCoder, ghost copies: seq<BlockCopy>, ghost base: seq<Op>)
    requires blockSize > 0 && AreCopies(copies, src, dst, blockSize)
    requires SameBlock(c, src, dst, blockSize)
    requires SrcEnd(copies, blockSize) == srcLastDiff <= c.src && DstEnd(copies, blockSize) == dstLastDiff <= c.dst
    requires patchCoder.ops == base + PatchUpTo(copies, src, dst, blockSize)
    modifies patchCoder
    ensures AreCopies(copies + [c], src, dst, blockSize)
    ensures patchCoder.ops == base + PatchUpTo(copies + [c], src, dst, blockSize)
  {
    hide Replay, Replacement, CopyOps, AreCopies, PatchUpTo;
    SimpleReplaceDiff(src[srcLastDiff..c.src], dst[dstLastDiff..c.dst], patchCoder);
    patchCoder.Copy(blockSize);
    AddCopy(copies, c, src, dst, blockSize);
  }

  // The patch copies blocks, all of them worth it, and makes the destination of the source.
  method Diff(hash: seq<nat> -> nat, blockSize: nat, src: seq<nat>, dst: seq<nat>, patchCoder: PatchCoder)
    returns (ghost copies: seq<BlockCopy>)
    requires blockSize > 0
    modifies patchCoder
    ensures AreCopies(copies, src, dst, blockSize)
    ensures patchCoder.ops == old(patchCoder.ops) + WholePatch(copies, src, dst, blockSize)
    ensures Replay(WholePatch(copies, src, dst, blockSize), src) == Some(dst)
    ensures Scanned(hash, copies, src, dst, blockSize, |dst|) && AreTaken(hash, copies, src, dst, blockSize)
    ensures forall i :: 0 <= i < |copies| ==> copies[i].dst + blockSize < |dst|
  {
    hide Replay, Replacement, CopyOps, AreCopies, Scanned, IsTable, FindsFirst, PatchUpTo, SrcEnd, DstEnd, IsBlockAt, WholePatch,
         SameBlock, Covered, EqualBlocks, AreTaken;
    ghost var base := patchCoder.ops;
    copies := [];
    NoCopies(hash, src, dst, blockSize);
    if |src| < blockSize || |dst| < blockSize {
      SimpleReplaceDiff(src, dst, patchCoder);
      return;
    }
    var hasher := new WindowHasher(hash);
    var srcHashes := HashBlocks(hasher, src, blockSize);
    var srcLastDiff, d, dstNext, dstLastDiff := 0, 0, blockSize, 0;
    var h := hasher.Init(dst[d..dstNext]);
    while dstNext != |dst|
      invariant hasher.hash == hash && fresh(hasher)
      invariant AreCopies(copies, src, dst, blockSize) && Scanned(hash, copies, src, dst, blockSize, d)
      invariant AreTaken(hash, copies, src, dst, blockSize)
      invariant srcLastDiff == SrcEnd(copies, blockSize) <= |src| && dstLastDiff == DstEnd(copies, blockSize) <= d
      invariant dstNext == d + blockSize <= |dst|
      invariant hasher.window == dst[d..dstNext] && h == hash(hasher.window)
      invariant patchCoder.ops == base + PatchUpTo(copies, src, dst, blockSize)
      decreases |dst| - d
    {
      var it := LookUp(srcHashes, h, srcLastDiff, hash, src, dst, blockSize, d);
      if it.Some? {
        IsABlock(it, hash, src, dst, blockSize, srcLastDiff, d);
      }
      if it.Some? && EqualBlocks(src, it.value, dst, d, blockSize) {
        var c := BlockCopy(it.value, d);
        IsSameBlock(c, src, dst, blockSize);
        CopyBlock(c, src, dst, srcLastDiff, dstLastDiff, blockSize, patchCoder, copies, base);
        CopyOn(hash, copies, c, src, dst, blockSize);
        TakeOn(hash, copies, c, src, dst, blockSize, it);
        copies := copies + [c];
        LastIs(copies, c, blockSize);
        srcLastDiff := it.value + blockSize;
        d, dstLastDiff := dstNext, dstNext;
        if |dst| - dstNext < blockSize {
          break;
        }
        dstNext := d + blockSize;
        h := hasher.Init(dst[d..dstNext]);
      } else {
        ScrollOn(hash, copies, src, dst, blockSize, d, it);
        NextWindow(dst, d, blockSize);
        h := hasher.Scroll(dst[d], dst[dstNext]);
        d, dstNext := d + 1, dstNext + 1;
      }
    }
    NothingBehind(hash, copies, src, dst, blockSize, d);
    TakenBeforeEnd(hash, copies, src, dst, blockSize);
    // The window at the very end is never looked up, so that something is always left here.
    assert dstLastDiff != |dst|;
    if srcLastDiff != |src| || dstLastDiff != |dst| {
      LastPart(src, dst, srcLastDiff, dstLastDiff, blockSize, patchCoder, copies, base);
    }
  }

  predicate EqualBlocks(src: seq<nat>, s: nat, dst: seq<nat>, d: nat, blockSize: nat)
    requires s + blockSize <= |src| && d + blockSize <= |dst|
  {
    src[s..s + blockSize] == dst[d..d + blockSize]
  }

  lemma NextWindow(dst: seq<nat>, d: nat, blockSize: nat)
    requires blockSize > 0 && d + blockSize < |dst|
    ensures dst[d..d + blockSize][0] == dst[d]
    ensures dst[d..d + blockSize][1..] + [dst[d + blockSize]] == dst[d + 1..d + 1 + blockSize]
  {
  }

  // Writes what lies behind the last block.
  method LastPart(src: seq<nat>, dst: seq<nat>, srcLastDiff: nat, dstLastDiff: nat, blockSize: nat,
                  patchCoder: PatchCoder, ghost copies: seq<BlockCopy>, ghost base: seq<Op>)
    requires blockSize > 0 && AreCopies(copies, src, dst, blockSize)
    requires SrcEnd(copies, blockSize) == srcLastDiff <= |src| && DstEnd(copies, blockSize) == dstLastDiff <= |dst|
    requires patchCoder.ops == base + PatchUpTo(copies, src, dst, blockSize)
    modifies patchCoder
    ensures patchCoder.ops == base + WholePatch(copies, src, dst, blockSize)
    ensures Replay(WholePatch(copies, src, dst, blockSize), src) == Some(dst)
  {
    hide Replay, Replacement, AreCopies, PatchUpTo, SrcEnd, DstEnd, WholePatch;
    WholePatchIsRight(copies, src, dst, blockSize);
    WholePatchIs(copies, src, dst, blockSize);
    SimpleReplaceDiff(src[srcLastDiff..], dst[dstLastDiff..], patchCoder);
  }

  lemma WholePatchIs(copies: seq<BlockCopy>, src: seq<nat>, dst: seq<nat>, blockSize: nat)
    requires blockSize > 0 && AreCopies(copies, src, dst, blockSize)
    requires SrcEnd(copies, blockSize) <= |src| && DstEnd(copies, blockSize) <= |dst|
    ensures WholePatch(copies, src, dst, blockSize) == PatchUpTo(copies, src, dst, blockSize)
              + Replacement(src[SrcEnd(copies, blockSize)..], dst[DstEnd(copies, blockSize)..])
  {
    hide Replacement;
  }

  lemma IsABlock(it: Option<nat>, hash: seq<nat> -> nat, src: seq<nat>, dst: seq<nat>, blockSize: nat, from: nat, p: nat)
    requires blockSize > 0 && p + blockSize <= |dst| && it.Some?
    requires FindsFirst(it, hash, src, dst, blockSize, from, p)
    ensures IsBlockAt(src, blockSize, it.value) && from <= it.value && it.value + blockSize <= |src|
  {
  }

  lemma IsSameBlock(c: BlockCopy, src: seq<nat>, dst: seq<nat>, blockSize: nat)
    requires blockSize > 0 && IsBlockAt(src, blockSize, c.src) && c.src + blockSize <= |src| && c.dst + blockSize <= |dst|
    requires EqualBlocks(src, c.src, dst, c.dst, blockSize)
    ensures SameBlock(c, src, dst, blockSize)
  {
  }

  lemma NoCopies(hash: seq<nat> -> nat, src: seq<nat>, dst: seq<nat>, blockSize: nat)
    requires blockSize > 0
    ensures AreCopies([], src, dst, blockSize) && Scanned(hash, [], src, dst, blockSize, 0)
    ensures AreTaken(hash, [], src, dst, blockSize)
    ensures PatchUpTo([], src, dst, blockSize) == [] && SrcEnd([], blockSize) == 0 && DstEnd([], blockSize) == 0
    ensures |src| < blockSize || |dst| < blockSize ==> Scanned(hash, [], src, dst, blockSize, |dst|)
    ensures WholePatch([], src, dst, blockSize) == Replacement(src, dst)
    ensures Replay(Replacement(src, dst), src) == Some(dst)
  {
    hide Replay, Replacement;
    ReplacementIsRight(src, dst);
    assert src[0..] == src && dst[0..] == dst;
  }

  lemma NothingBehind(hash: seq<nat> -> nat, copies: seq<BlockCopy>, src: seq<nat>, dst: seq<nat>, blockSize: nat, p: nat)
    requires blockSize > 0 && Scanned(hash, copies, src, dst, blockSize, p) && p + blockSize >= |dst|
    ensures Scanned(hash, copies, src, dst, blockSize, |dst|)
  {
  }

  // ----- What is missed

  function Window(s: seq<nat>, p: nat, blockSize: nat): seq<nat>
    requires p + blockSize <= |s|
  {
    s[p..p + blockSize]
  }

  // The hash tells the blocks of the source from all other windows of the destination.
  ghost predicate NoCollision(hash: seq<nat> -> nat, src: seq<nat>, dst: seq<nat>, blockSize: nat)
    requires blockSize > 0
  {
    forall b: nat, p: nat | IsBlockAt(src, blockSize, b) && p + blockSize <= |dst| ::
      hash(Window(src, b, blockSize)) == hash(Window(dst, p, blockSize)) ==>
      Window(src, b, blockSize) == Window(dst, p, blockSize)
  }

  // Then no equal block that could have been copied is missed before the end.
  lemma NoBlockMissed(hash: seq<nat> -> nat, copies: seq<BlockCopy>, src: seq<nat>, dst: seq<nat>, blockSize: nat, p: nat, b: nat)
    requires blockSize > 0 && Scanned(hash, copies, src, dst, blockSize, |dst|) && NoCollision(hash, src, dst, blockSize)
    requires p + blockSize < |dst| && !Covered(copies, blockSize, p)
    requires IsBlockAt(src, blockSize, b) && b >= FromAt(copies, blockSize, p)
    ensures Window(src, b, blockSize) != Window(dst, p, blockSize)
  {
    var from := FromAt(copies, blockSize, p);
    assert NothingToCopy(hash, src, dst, blockSize, from, p);
    if Window(src, b, blockSize) == Window(dst, p, blockSize) {
      var c := FirstCandidate(hash, src, dst, blockSize, from, p, b);
      CandidateIsEqual(hash, src, dst, blockSize, from, p, c);
    }
  }

  lemma CandidateIsEqual(hash: seq<nat> -> nat, src: seq<nat>, dst: seq<nat>, blockSize: nat, from: nat, p: nat, b: nat)
    requires blockSize > 0 && NoCollision(hash, src, dst, blockSize)
    requires p + blockSize <= |dst| && IsCandidate(hash, src, dst, blockSize, from, p, b)
    ensures src[b..b + blockSize] == dst[p..p + blockSize]
  {
    assert hash(Window(src, b, blockSize)) == hash(Window(dst, p, blockSize));
  }

  // A window that a copied block does not reach into from the left.
  ghost predicate StartsFree(copies: seq<BlockCopy>, blockSize: nat, p: nat) {
    forall i :: 0 <= i < |copies| ==> p <= copies[i].dst || copies[i].dst + blockSize <= p
  }

  // A window with an equal block behind the last copy is copied to exactly when it does not touch
  // the end of the destination: the last window is never looked up.
  lemma CopiedIff(hash: seq<nat> -> nat, copies: seq<BlockCopy>, src: seq<nat>, dst: seq<nat>, blockSize: nat, p: nat, b: nat)
    requires blockSize > 0 && Scanned(hash, copies, src, dst, blockSize, |dst|) && NoCollision(hash, src, dst, blockSize)
    requires AreTaken(hash, copies, src, dst, blockSize)
    requires p + blockSize <= |dst| && StartsFree(copies, blockSize, p)
    requires IsBlockAt(src, blockSize, b) && b >= FromAt(copies, blockSize, p)
    requires Window(src, b, blockSize) == Window(dst, p, blockSize)
    ensures (exists i :: 0 <= i < |copies| && copies[i].dst == p) <==> p + blockSize < |dst|
  {
    TakenBeforeEnd(hash, copies, src, dst, blockSize);
    if p + blockSize < |dst| && !Covered(copies, blockSize, p) {
      NoBlockMissed(hash, copies, src, dst, blockSize, p, b);
    }
  }

  // For "123" and "42", block by block, the differ copies nothing although '2' is in both.
  lemma LastWindowIsMissed(hash: seq<nat> -> nat, copies: seq<BlockCopy>, a: nat, b: nat, c: nat, d: nat)
    requires d != a && d != b && d != c && b != c
    requires AreCopies(copies, [a, b, c], [d, b], 1) && AreTaken(hash, copies, [a, b, c], [d, b], 1)
    ensures IsBlockAt([a, b, c], 1, 1) && Window([a, b, c], 1, 1) == Window([d, b], 1, 1)
    ensures WholePatch(copies, [a, b, c], [d, b], 1) == [Op.Delete(3), Op.Insert([d, b])]
  {
    hide AreCopies, AreTaken, CommonPrefix, CommonSuffix, Replacement;
    var src, dst := [a, b, c], [d, b];
    assert Window(src, 1, 1) == [b] == Window(dst, 1, 1);
    NothingIsTaken(hash, copies, src, dst);
    NothingInCommon(src, dst);
    assert src[0..] == src && dst[0..] == dst;
  }

  lemma NothingIsTaken(hash: seq<nat> -> nat, copies: seq<BlockCopy>, src: seq<nat>, dst: seq<nat>)
    requires AreCopies(copies, src, dst, 1) && AreTaken(hash, copies, src, dst, 1)
    requires |dst| == 2 && forall i :: 0 <= i < |src| ==> src[i] != dst[0]
    ensures copies == []
  {
    hide SameBlock, IsFirst;
    TakenBeforeEnd(hash, copies, src, dst, 1);
    if copies != [] {
      SameElement(copies[0], src, dst);
    }
  }

  lemma SameElement(c: BlockCopy, src: seq<nat>, dst: seq<nat>)
    requires SameBlock(c, src, dst, 1)
    ensures c.src < |src| && c.dst < |dst| && src[c.src] == dst[c.dst]
  {
    assert src[c.src..c.src + 1][0] == src[c.src] && dst[c.dst..c.dst + 1][0] == dst[c.dst];
  }

  lemma NothingInCommon(src: seq<nat>, dst: seq<nat>)
    requires src != [] && dst != [] && src[0] != dst[0] && src[|src| - 1] != dst[|dst| - 1]
    ensures Replacement(src, dst) == [Op.Delete(|src|), Op.Insert(dst)]
  {
    assert CommonPrefix(src, dst) == 0 && src[0..] == src && dst[0..] == dst;
    assert CommonSuffix(src, dst) == 0 && dst[0..|dst| - 0] == dst;
  }

  lemma {:induction false} FirstCandidate(hash: seq<nat> -> nat, src: seq<nat>, dst: seq<nat>, blockSize: nat, from: nat, p: nat, b: nat)
    returns (c: nat)
    requires blockSize > 0 && p + blockSize <= |dst| && IsCandidate(hash, src, dst, blockSize, from, p, b)
    ensures IsFirst(hash, src, dst, blockSize, from, p, c)
    decreases b
  {
    hide IsCandidate;
    if d: nat :| IsCandidate(hash, src, dst, blockSize, from, p, d) && d < b {
      c := FirstCandidate(hash, src, dst, blockSize, from, p, d);
    } else {
      c := b;
    }
  }
}
