/**
 coding::BWTCoder: blocks of bytes, compressed by the Burrows-Wheeler transform, move-to-front and a
 Huffman code.
 */
module BlockCodec {
  import opened Options
  import opened Bits
  import opened BitStreams
  import opened HuffmanTree
  import opened Frequencies
  import opened ShortestCodes
  import opened HuffmanCodes
  import opened Huffman
  import opened MoveToFrontCoding
  import Kraft
  import BwtOrder
  import Bwt

  // ----- One block

  // What is written for the bytes s: the row of the text, the codes and the coded text.
  ghost predicate IsBlockOf(block: seq<nat>, s: seq<nat>, sa: seq<nat>, r: seq<nat>, start: nat, list: seq<Entry>) {
    && BwtOrder.IsBytes(s) && BwtOrder.Transformed(s, sa, r, start)
    && BwtOrder.IsBytes(r) && Consistent(list)
    && Encodable(EncoderMap(list), Encoded(Identity(), r))
    && block == VarUint(start) + (EncodingBytes(list) +
                (VarUint(|s|) + PackAll(Message(EncoderMap(list), Encoded(Identity(), r)))))
  }

  ghost predicate IsBlock(block: seq<nat>, s: seq<nat>) {
    exists sa, r, start, list :: IsBlockOf(block, s, sa, r, start, list)
  }

  // No prefix-free code would have made the coded text of the block shorter.
  ghost predicate IsShortestBlock(block: seq<nat>, s: seq<nat>) {
    exists sa, r, start, list :: IsBlockOf(block, s, sa, r, start, list) && IsShortest(list, Encoded(Identity(), r))
  }

  // The block of a string, or failure when its code would be too long, which needs millions of bytes.
  method EncodeAndWriteBlock(sink: Sink, s: seq<nat>) returns (ok: bool, ghost block: seq<nat>)
    requires BwtOrder.IsBytes(s)
    modifies sink
    ensures ok ==> IsBlock(block, s) && sink.data == old(sink.data) + block
    ensures ok ==> IsShortestBlock(block, s)
    ensures |s| < 9227465 ==> ok
  {
    hide IsShortest, IsBlockOf, BwtOrder.Transformed, Encoded, Identity, VarUint, EncodingBytes, PackAll, Message, Consistent,
         Optimal, Heavy, Leaves, Height, Items, EncoderMap, DecoderMap, CountTable;
    var n := |s|;
    var bwtBuffer := new nat[n](_ => 0);
    ghost var sa;
    var start;
    start, sa := Bwt.Forward(n, s, bwtBuffer);
    assert bwtBuffer[..n] == bwtBuffer[..];
    ghost var r := bwtBuffer[..];
    TransformedAreBytes(s, sa, r, start);
    EncodeBuffer(bwtBuffer);
    var coded := bwtBuffer[..];
    WriteVarUint(sink, start);
    var huffman := new HuffmanCoder();
    var freqs := CountSymbols(coded);
    CountsArePositive(coded);
    ghost var tree;
    ok, tree := huffman.Init(freqs);
    ShortBlock(coded, tree, ok);
    block := [];
    if ok {
      ghost var list := huffman.WriteEncoding(sink);
      var sz := huffman.EncodeAndWrite(sink, coded);
      block := VarUint(start) + (EncodingBytes(list) + (VarUint(n) + PackAll(Message(huffman.encoderTable, coded))));
      assert IsBlockOf(block, s, sa, r, start, list) by { MakeBlock(block, s, sa, r, start, list, coded); }
      ShortestForTree(tree, coded, huffman.entries, list);
      assert sink.data == old(sink.data) + block;
    }
  }

  lemma TransformedAreBytes(s: seq<nat>, sa: seq<nat>, r: seq<nat>, start: nat)
    requires BwtOrder.IsBytes(s) && BwtOrder.Transformed(s, sa, r, start)
    ensures BwtOrder.IsBytes(r) && |r| == |s|
  {
    BwtOrder.TransformedBytes(s, sa, r, start);
  }

  // Fewer than Fib(35) bytes cannot need a code of more than 32 bits.
  lemma ShortBlock(coded: seq<nat>, tree: Option<Tree>, ok: bool)
    requires tree.Some? ==>
               && multiset(Leaves(tree.value)) == Items(CountTable(coded).Keys, CountTable(coded))
               && Heavy(tree.value) && (ok <==> Height(tree.value) <= MAX_DEPTH)
    requires tree.None? ==> ok
    ensures |coded| < 9227465 ==> ok
  {
    hide Leaves, Items, CountTable, Heavy, Height;
    if tree.Some? {
      CountsAddUp(coded, Leaves(tree.value));
      if |coded| < 9227465 {
        ShortCodes(tree.value);
      }
    }
  }

  lemma ShortestForTree(tree: Option<Tree>, coded: seq<nat>, entries: seq<Entry>, list: seq<Entry>)
    requires tree.None? ==> CountTable(coded) == map[]
    requires tree.Some? ==>
               && multiset(Leaves(tree.value)) == Items(CountTable(coded).Keys, CountTable(coded))
               && Optimal(tree.value) && entries == Entries(tree.value, [])
    requires Consistent(entries) && EncoderMap(list) == EncoderMap(entries) && Encodable(EncoderMap(list), coded)
    ensures IsShortest(list, coded)
  {
    hide Leaves, Items, CountTable, Optimal, Entries, Consistent, EncoderMap;
    if tree.Some? {
      OptimalIsShortest(tree.value, coded, list);
    } else {
      NothingCounted(coded);
    }
  }

  lemma NothingCounted(text: seq<nat>)
    ensures text != [] ==> text[0] in CountTable(text)
  {
  }

  lemma MakeBlock(block: seq<nat>, s: seq<nat>, sa: seq<nat>, r: seq<nat>, start: nat, list: seq<Entry>, coded: seq<nat>)
    requires BwtOrder.IsBytes(s) && BwtOrder.Transformed(s, sa, r, start) && BwtOrder.IsBytes(r) && Consistent(list)
    requires coded == Encoded(Identity(), r) && Encodable(EncoderMap(list), coded)
    requires block == VarUint(start) + (EncodingBytes(list) +
                        (VarUint(|s|) + PackAll(Message(EncoderMap(list), coded))))
    ensures IsBlockOf(block, s, sa, r, start, list)
  {
  }

  // What EncodeAndWriteBlock has written is read back, and no byte more.
  method ReadAndDecodeBlock(src: Source, ghost s: seq<nat>, ghost block: seq<nat>, ghost rest: seq<nat>) returns (out: seq<nat>)
    requires IsBlock(block, s) && src.Valid() && src.Left() == block + rest
    requires forall k :: 0 <= k < |rest| ==> rest[k] < 256
    modifies src
    ensures out == s && src.Valid() && src.Left() == rest
  {
    hide IsBlockOf, BwtOrder.Transformed, Encoded, Identity, VarUint, EncodingBytes, PackAll, Message, Consistent,
         EncoderMap, DecoderMap, Bwt.Reversible, BwtOrder.Walk, BwtOrder.FirstAt;
    ghost var sa, r, row, list :| IsBlockOf(block, s, sa, r, row, list);
    BlockParts(block, s, sa, r, row, list, rest);
    ghost var coded := Encoded(Identity(), r);
    ghost var text := VarUint(|coded|) + PackAll(Message(EncoderMap(list), coded));
    var start := ReadVarUint(src, row, EncodingBytes(list) + (text + rest));
    var huffman := new HuffmanCoder();
    huffman.ReadEncoding(src, list, text + rest);
    assert huffman.encoderTable == EncoderMap(list);
    var decoded := huffman.ReadAndDecode(src, coded, rest);
    var n := |decoded|;
    // The check on the row in the source: it never fires here.
    assert n != 0 ==> start < n;
    var bwtBuffer := new nat[n](i requires 0 <= i < n => decoded[i]);
    assert bwtBuffer[..] == decoded;
    DecodeBuffer(bwtBuffer, r);
    var revBuffer := new nat[n](_ => 0);
    ghost var starts := Bwt.Reverse(n, start, bwtBuffer[..], revBuffer);
    assert revBuffer[..] == s;
    out := revBuffer[..];
  }

  lemma BlockParts(block: seq<nat>, s: seq<nat>, sa: seq<nat>, r: seq<nat>, start: nat, list: seq<Entry>, rest: seq<nat>)
    requires IsBlockOf(block, s, sa, r, start, list)
    ensures |r| == |s| && BwtOrder.IsBytes(r) && Consistent(list) && Bwt.Reversible(r, start)
    ensures s != [] ==> start < |s|
    ensures Encodable(EncoderMap(list), Encoded(Identity(), r)) && |Encoded(Identity(), r)| == |s|
    ensures block + rest == VarUint(start) + (EncodingBytes(list) +
                              (VarUint(|s|) + PackAll(Message(EncoderMap(list), Encoded(Identity(), r))) + rest))
    ensures forall starts, i | BwtOrder.IsStarts(starts, r) && 0 <= i < |s| ::
              BwtOrder.FirstAt(starts, BwtOrder.Walk(r, starts, start, i)) == s[i]
  {
    hide Encoded, Identity, VarUint, EncodingBytes, PackAll, Message, Consistent, EncoderMap;
    Bwt.ReverseUndoesForward(s, sa, r, start);
  }

  // ----- A text in blocks

  function Flat<T>(parts: seq<seq<T>>): seq<T> {
    if parts == [] then [] else parts[0] + Flat(parts[1..])
  }

  lemma {:induction false} FlatPush<T>(parts: seq<seq<T>>, part: seq<T>)
    ensures Flat(parts + [part]) == Flat(parts) + part
  {
    if parts == [] {
      assert [part][1..] == [];
    } else {
      assert (parts + [part])[1..] == parts[1..] + [part];
      FlatPush(parts[1..], part);
    }
  }

  ghost predicate AreBlocks(blocks: seq<seq<nat>>, parts: seq<seq<nat>>) {
    |blocks| == |parts| && forall i :: 0 <= i < |blocks| ==> IsBlock(blocks[i], parts[i])
  }

  // Everything written is a byte.
  lemma {:induction false} VarUintBytes(v: nat)
    ensures BwtOrder.IsBytes(VarUint(v))
  {
    if v >= 128 {
      VarUintBytes(v / 128);
    }
  }

  lemma {:induction false} TableBytesAreBytes(es: seq<Entry>)
    ensures BwtOrder.IsBytes(TableBytes(es))
  {
    hide VarUint;
    if es != [] {
      VarUintBytes(ToNat(es[0].path));
      VarUintBytes(|es[0].path|);
      VarUintBytes(es[0].symbol);
      TableBytesAreBytes(es[1..]);
    }
  }

  lemma BlockIsBytes(block: seq<nat>, s: seq<nat>)
    requires IsBlock(block, s)
    ensures BwtOrder.IsBytes(block)
  {
    hide VarUint, TableBytes, PackAll, Message, BwtOrder.Transformed, Encoded, Consistent;
    var sa, r, start, list :| IsBlockOf(block, s, sa, r, start, list);
    VarUintBytes(start);
    VarUintBytes(|list|);
    TableBytesAreBytes(list);
    VarUintBytes(|s|);
    PackAllBytes(Message(EncoderMap(list), Encoded(Identity(), r)));
  }

  lemma {:induction false} BlocksAreBytes(blocks: seq<seq<nat>>, parts: seq<seq<nat>>)
    requires AreBlocks(blocks, parts)
    ensures BwtOrder.IsBytes(Flat(blocks))
  {
    hide IsBlock;
    if blocks != [] {
      BlockIsBytes(blocks[0], parts[0]);
      BlocksAreBytes(blocks[1..], parts[1..]);
    }
  }

  // One more block of m bytes behind the first i bytes.
  lemma AddPart(s: seq<nat>, i: nat, m: nat, parts: seq<seq<nat>>)
    requires i + m <= |s| && Flat(parts) == s[..i]
    ensures Flat(parts + [s[i..i + m]]) == s[..i + m]
  {
    FlatPush(parts, s[i..i + m]);
  }

  // Every part is full, except that the last one may be shorter.
  ghost predicate AreParts(parts: seq<seq<nat>>, blockSize: nat) {
    && (forall i :: 0 <= i < |parts| - 1 ==> |parts[i]| == blockSize)
    && (parts != [] ==> 0 < |parts[|parts| - 1]| <= blockSize)
  }

  ghost predicate AreShortest(blocks: seq<seq<nat>>, parts: seq<seq<nat>>) {
    |blocks| == |parts| && forall i :: 0 <= i < |blocks| ==> IsShortestBlock(blocks[i], parts[i])
  }

  // The text block by block; fails only if a block needs a code that is too long.
  method EncodeAndWrite(sink: Sink, blockSize: nat, s: seq<nat>)
    returns (ok: bool, ghost blocks: seq<seq<nat>>, ghost parts: seq<seq<nat>>)
    requires blockSize != 0 && BwtOrder.IsBytes(s)
    modifies sink
    ensures ok ==> AreBlocks(blocks, parts) && Flat(parts) == s
    ensures ok ==> AreParts(parts, blockSize) && AreShortest(blocks, parts)
    ensures ok ==> sink.data == old(sink.data) + VarUint(|blocks|) + Flat(blocks)
    ensures blockSize < 9227465 || |s| < 9227465 ==> ok
  {
    hide IsBlock, IsShortestBlock, VarUint, Flat;
    var n := |s|;
    var numBlocks := (n + blockSize - 1) / blockSize;
    WriteVarUint(sink, numBlocks);
    ghost var base := sink.data;
    blocks, parts := [], [];
    NothingFlat<nat>();
    var i := 0;
    assert blockSize * |blocks| == 0;
    while i < n
      invariant i < n ==> i == blockSize * |blocks|
      invariant i >= n ==> (i - n) + n == blockSize * |blocks| && i - blockSize < n
      invariant AreBlocks(blocks, parts) && AreShortest(blocks, parts) && AreParts(parts, blockSize)
      invariant i < n && parts != [] ==> |parts[|parts| - 1]| == blockSize
      invariant Flat(parts) == s[..if i < n then i else n]
      invariant sink.data == base + Flat(blocks)
      decreases n - i
    {
      var m := if n - i < blockSize then n - i else blockSize;
      ghost var block;
      ok, block := EncodeAndWriteBlock(sink, s[i..i + m]);
      if !ok {
        return;
      }
      AddPart(s, i, m, parts);
      FlatPush(blocks, block);
      NextMultiple(blockSize, |blocks|);
      blocks, parts := blocks + [block], parts + [s[i..i + m]];
      i := i + blockSize;
    }
    NumberOfBlocks(n, blockSize, |blocks|, i);
    assert s[..n] == s;
    ok := true;
  }

  lemma NothingFlat<T>()
    ensures Flat<T>([]) == []
  {
  }

  lemma NextMultiple(size: nat, k: nat)
    ensures size * (k + 1) == size * k + size
  {
  }

  lemma NumberOfBlocks(n: nat, blockSize: nat, k: nat, i: nat)
    requires blockSize > 0 && i == blockSize * k && n <= i < n + blockSize
    ensures (n + blockSize - 1) / blockSize == k
  {
    assert blockSize * k == k * blockSize;
    DivModUnique(n + blockSize - 1, blockSize, k, n + blockSize - 1 - i);
  }

  // Blocks one behind the other are read in order, and no byte more.
  method ReadAndDecode(src: Source, ghost blocks: seq<seq<nat>>, ghost parts: seq<seq<nat>>, ghost rest: seq<nat>)
    returns (out: seq<nat>)
    requires AreBlocks(blocks, parts) && src.Valid() && src.Left() == VarUint(|blocks|) + Flat(blocks) + rest
    requires BwtOrder.IsBytes(rest)
    modifies src
    ensures out == Flat(parts) && src.Valid() && src.Left() == rest
  {
    hide IsBlock, VarUint, Flat;
    assert src.Left() == VarUint(|blocks|) + (Flat(blocks) + rest);
    var numBlocks := ReadVarUint(src, |blocks|, Flat(blocks) + rest);
    out := [];
    NothingFlat<nat>();
    assert blocks[0..] == blocks;
    for i := 0 to numBlocks
      invariant src.Valid() && src.Left() == Flat(blocks[i..]) + rest
      invariant out == Flat(parts[..i])
    {
      FirstOfFlat(blocks, i);
      BlocksAreBytes(blocks[i + 1..], parts[i + 1..]);
      assert src.Left() == blocks[i] + (Flat(blocks[i + 1..]) + rest);
      var text := ReadAndDecodeBlock(src, parts[i], blocks[i], Flat(blocks[i + 1..]) + rest);
      FlatPush(parts[..i], parts[i]);
      assert parts[..i + 1] == parts[..i] + [parts[i]];
      out := out + text;
    }
    assert parts[..numBlocks] == parts && blocks[numBlocks..] == [];
    assert [] + rest == rest;
  }

  lemma FirstOfFlat<T>(blocks: seq<seq<T>>, i: nat)
    requires i < |blocks|
    ensures Flat(blocks[i..]) == blocks[i] + Flat(blocks[i + 1..])
  {
    assert blocks[i..][1..] == blocks[i + 1..];
  }

  // Writing a text and reading it again.
  method RoundTrip(blockSize: nat, s: seq<nat>) returns (ok: bool, out: seq<nat>)
    requires blockSize != 0 && BwtOrder.IsBytes(s)
    ensures blockSize < 9227465 || |s| < 9227465 ==> ok
    ensures ok ==> out == s
  {
    hide AreBlocks, VarUint, Flat;
    var sink := new Sink();
    out := [];
    ghost var blocks, parts;
    ok, blocks, parts := EncodeAndWrite(sink, blockSize, s);
    if ok {
      var src := new Source(sink.data);
      assert src.Left() == VarUint(|blocks|) + Flat(blocks) + [];
      out := ReadAndDecode(src, blocks, parts, []);
    }
  }
}
