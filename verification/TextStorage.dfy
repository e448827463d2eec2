/**
 Blocked text storage: strings in compressed blocks, an index of the blocks, and a reader that keeps
 the blocks it has decompressed.
 */
module TextStorage {
  import opened Options
  import opened BitStreams
  import opened BlockCodec
  import opened BwtOrder
  import opened HuffmanTree

  type Text = seq<nat>

  // ----- The format

  ghost predicate AreTexts(strings: seq<Text>) {
    forall i :: 0 <= i < |strings| ==> IsBytes(strings[i])
  }

  // The lengths of the strings of a block, in front of the compressed block.
  function LengthBytes(strings: seq<Text>): seq<nat> {
    if strings == [] then [] else VarUint(|strings[0]|) + LengthBytes(strings[1..])
  }

  ghost predicate IsChunk(chunk: seq<nat>, strings: seq<Text>) {
    exists block :: IsBlock(block, Flat(strings)) && chunk == LengthBytes(strings) + block
  }

  ghost predicate AreChunks(chunks: seq<seq<nat>>, groups: seq<seq<Text>>) {
    |chunks| == |groups| && forall i :: 0 <= i < |groups| ==> groups[i] != [] && IsChunk(chunks[i], groups[i])
  }

  // A row of the index: how far the block starts behind the previous one, and how many strings it has.
  function RowBytes(chunks: seq<seq<nat>>, groups: seq<seq<Text>>, i: nat): seq<nat>
    requires i < |chunks| == |groups|
  {
    VarUint(if i == 0 then 0 else |chunks[i - 1]|) + VarUint(|groups[i]|)
  }

  function IndexBytes(chunks: seq<seq<nat>>, groups: seq<seq<Text>>, i: nat): seq<nat>
    requires i <= |chunks| == |groups|
    decreases |chunks| - i
  {
    if i == |chunks| then [] else RowBytes(chunks, groups, i) + IndexBytes(chunks, groups, i + 1)
  }

  ghost predicate IsStorage(file: seq<nat>, chunks: seq<seq<nat>>, groups: seq<seq<Text>>) {
    && AreChunks(chunks, groups)
    && file == Fixed(8 + |Flat(chunks)|, 8) + Flat(chunks) + VarUint(|chunks|) + IndexBytes(chunks, groups, 0)
    && 8 + |Flat(chunks)| < Pow256(8)
  }

  lemma {:induction false} FlatConcat<T>(a: seq<seq<T>>, b: seq<seq<T>>)
    ensures Flat(a + b) == Flat(a) + Flat(b)
  {
    if a == [] {
      assert a + b == b;
    } else {
      assert (a + b)[1..] == a[1..] + b;
      FlatConcat(a[1..], b);
    }
  }

  // Where part i lies in the whole.
  lemma PartOfFlat<T>(parts: seq<seq<T>>, i: nat)
    requires i < |parts|
    ensures Flat(parts[..i + 1]) == Flat(parts[..i]) + parts[i]
    ensures Flat(parts) == Flat(parts[..i]) + (parts[i] + Flat(parts[i + 1..]))
  {
    hide Flat;
    SplitFlat(parts, i);
    FirstOfFlat(parts, i);
    assert parts[..i + 1] == parts[..i] + [parts[i]];
    FlatPush(parts[..i], parts[i]);
  }

  lemma SplitFlat<T>(parts: seq<seq<T>>, i: nat)
    requires i <= |parts|
    ensures Flat(parts) == Flat(parts[..i]) + Flat(parts[i..])
  {
    hide Flat;
    FlatConcat(parts[..i], parts[i..]);
    assert parts[..i] + parts[i..] == parts;
  }

  // ----- The index

  datatype BlockInfo = BlockInfo(offset: nat, from: nat, subs: nat) {
    function To(): nat { from + subs }
  }

  ghost predicate Contiguous(blocks: seq<BlockInfo>) {
    && (|blocks| > 0 ==> blocks[0].from == 0)
    && forall i :: 0 < i < |blocks| ==> blocks[i].from == blocks[i - 1].To()
  }

  // Every block of the storage is in the index, under its place in the file and its first string.
  ghost predicate Indexes(blocks: seq<BlockInfo>, chunks: seq<seq<nat>>, groups: seq<seq<Text>>) {
    && |blocks| == |chunks| == |groups|
    && forall i :: 0 <= i < |blocks| ==> blocks[i] == InfoOf(chunks, groups, i)
  }

  ghost function InfoOf(chunks: seq<seq<nat>>, groups: seq<seq<Text>>, i: nat): BlockInfo
    requires i < |chunks| == |groups|
  {
    BlockInfo(8 + |Flat(chunks[..i])|, |Flat(groups[..i])|, |groups[i]|)
  }

  lemma IndexIsContiguous(blocks: seq<BlockInfo>, chunks: seq<seq<nat>>, groups: seq<seq<Text>>)
    requires Indexes(blocks, chunks, groups)
    ensures Contiguous(blocks)
    ensures |Flat(groups)| == if blocks == [] then 0 else blocks[|blocks| - 1].To()
  {
    hide Flat;
    NothingFlat<Text>();
    if blocks == [] {
      assert groups == [];
    } else {
      assert groups[..0] == [] && groups[..|groups|] == groups;
      PartOfFlat(groups, |groups| - 1);
    }
    forall i | 0 < i < |blocks|
      ensures blocks[i].from == blocks[i - 1].To()
    {
      PartOfFlat(groups, i - 1);
    }
  }

  class BlockedTextStorageIndex {
    var blocks: seq<BlockInfo>

    constructor ()
      ensures blocks == []
    {
      blocks := [];
    }

    function GetNumStrings(): nat
      reads this
    {
      if blocks == [] then 0 else blocks[|blocks| - 1].To()
    }

    // The block a string belongs to, or the number of blocks if there is none.
    method GetBlockIx(stringIx: nat) returns (ix: nat)
      requires Contiguous(blocks)
      ensures ix <= |blocks| && (ix == |blocks| <==> stringIx >= GetNumStrings())
      ensures ix < |blocks| ==> blocks[ix].from <= stringIx < blocks[ix].To()
    {
      if |blocks| == 0 || stringIx >= blocks[|blocks| - 1].To() {
        return |blocks|;
      }
      if stringIx >= blocks[|blocks| - 1].from {
        return |blocks| - 1;
      }
      var lo, hi := 0, |blocks| - 1;
      while lo + 1 != hi
        invariant 0 <= lo < hi < |blocks|
        invariant blocks[lo].from <= stringIx < blocks[hi].from
        decreases hi - lo
      {
        var mi := lo + (hi - lo) / 2;
        if stringIx >= blocks[mi].from {
          lo := mi;
        } else {
          hi := mi;
        }
      }
      assert blocks[lo + 1].from == blocks[lo].To();
      return lo;
    }

    // Reads the index that the writer has left behind the blocks.
    method Read(file: seq<nat>, ghost chunks: seq<seq<nat>>, ghost groups: seq<seq<Text>>)
      requires IsStorage(file, chunks, groups)
      modifies this
      ensures Indexes(blocks, chunks, groups)
    {
      hide Flat, VarUint, Fixed, FixedValue, IndexBytes, IsStorage;
      HeaderOf(file, chunks, groups);
      var indexOffset := FixedValue(file[..8]);
      var source := new Source(file);
      source.Skip(indexOffset);
      blocks := ReadBlocks(source, chunks, groups);
    }
  }

  // The index itself: how many blocks there are, and a row for each of them.
  method ReadBlocks(source: Source, ghost chunks: seq<seq<nat>>, ghost groups: seq<seq<Text>>) returns (blocks: seq<BlockInfo>)
    requires |chunks| == |groups| && source.Valid() && source.Left() == VarUint(|chunks|) + IndexBytes(chunks, groups, 0)
    modifies source
    ensures Indexes(blocks, chunks, groups)
  {
    hide VarUint, IndexBytes, InfoOf;
    var numBlocks := ReadVarUint(source, |chunks|, IndexBytes(chunks, groups, 0));
    blocks := seq(numBlocks, i => BlockInfo(0, 0, 0));
    var prevOffset := 8;
    for i := 0 to numBlocks
      invariant |blocks| == numBlocks == |chunks| == |groups|
      invariant source.Valid() && source.Left() == IndexBytes(chunks, groups, i)
      invariant forall k :: 0 <= k < i ==> blocks[k] == InfoOf(chunks, groups, k)
      invariant prevOffset == if i == 0 then 8 else InfoOf(chunks, groups, i - 1).offset
    {
      var delta, subs := ReadRow(source, chunks, groups, i);
      prevOffset := prevOffset + delta;
      var from := if i == 0 then 0 else blocks[i - 1].To();
      NextInfo(chunks, groups, i);
      blocks := blocks[i := BlockInfo(prevOffset, from, subs)];
    }
  }

  // One row of the index: the distance of its block and the number of its strings.
  method ReadRow(source: Source, ghost chunks: seq<seq<nat>>, ghost groups: seq<seq<Text>>, ghost i: nat)
    returns (delta: nat, subs: nat)
    requires i < |chunks| == |groups| && source.Valid() && source.Left() == IndexBytes(chunks, groups, i)
    modifies source
    ensures delta == (if i == 0 then 0 else |chunks[i - 1]|) && subs == |groups[i]|
    ensures source.Valid() && source.Left() == IndexBytes(chunks, groups, i + 1)
  {
    hide VarUint, IndexBytes, RowBytes;
    ghost var gap, rest := if i == 0 then 0 else |chunks[i - 1]|, IndexBytes(chunks, groups, i + 1);
    NextRow(chunks, groups, i);
    delta := ReadVarUint(source, gap, VarUint(|groups[i]|) + rest);
    subs := ReadVarUint(source, |groups[i]|, rest);
  }

  lemma HeaderOf(file: seq<nat>, chunks: seq<seq<nat>>, groups: seq<seq<Text>>)
    requires IsStorage(file, chunks, groups)
    ensures |chunks| == |groups| && AreChunks(chunks, groups)
    ensures |file| >= 8 && FixedValue(file[..8]) == 8 + |Flat(chunks)| <= |file|
    ensures file[8 + |Flat(chunks)|..] == VarUint(|chunks|) + IndexBytes(chunks, groups, 0)
  {
    hide Flat, VarUint, IndexBytes, Fixed, FixedValue;
    var n := 8 + |Flat(chunks)|;
    var header := Fixed(n, 8);
    FixedIsExact(n, 8);
    assert file[..8] == header;
  }

  lemma NextRow(chunks: seq<seq<nat>>, groups: seq<seq<Text>>, i: nat)
    requires i < |chunks| == |groups|
    ensures IndexBytes(chunks, groups, i) ==
            VarUint(if i == 0 then 0 else |chunks[i - 1]|) + (VarUint(|groups[i]|) + IndexBytes(chunks, groups, i + 1))
  {
    hide VarUint;
    assert IndexBytes(chunks, groups, i) == RowBytes(chunks, groups, i) + IndexBytes(chunks, groups, i + 1);
  }

  lemma NextInfo(chunks: seq<seq<nat>>, groups: seq<seq<Text>>, i: nat)
    requires i < |chunks| == |groups|
    ensures InfoOf(chunks, groups, i).subs == |groups[i]|
    ensures InfoOf(chunks, groups, i).from == if i == 0 then 0 else InfoOf(chunks, groups, i - 1).To()
    ensures InfoOf(chunks, groups, i).offset ==
            (if i == 0 then 8 else InfoOf(chunks, groups, i - 1).offset + |chunks[i - 1]|)
  {
    hide Flat;
    if i == 0 {
      assert chunks[..0] == [] && groups[..0] == [];
      NothingFlat<nat>();
      NothingFlat<Text>();
    } else {
      PartOfFlat(chunks, i - 1);
      PartOfFlat(groups, i - 1);
    }
  }

  // ----- The writer

  datatype Block = Block(offset: nat, subs: nat)

  // The rows of the blocks written so far.
  ghost function BlockOf(chunks: seq<seq<nat>>, groups: seq<seq<Text>>, i: nat): Block
    requires i < |chunks| == |groups|
  {
    Block(|Flat(chunks[..i])|, |groups[i]|)
  }

  lemma {:induction false} LengthsPush(strings: seq<Text>, s: Text)
    ensures LengthBytes(strings + [s]) == LengthBytes(strings) + VarUint(|s|)
  {
    hide VarUint;
    if strings == [] {
      assert [s][1..] == [];
    } else {
      assert (strings + [s])[1..] == strings[1..] + [s];
      LengthsPush(strings[1..], s);
    }
  }

  lemma {:induction false} FlatBytes(strings: seq<Text>)
    requires AreTexts(strings)
    ensures IsBytes(Flat(strings))
  {
    if strings != [] {
      FlatBytes(strings[1..]);
    }
  }

  // The strings of a block reach the block size, and do so with the last one only.
  ghost predicate IsFull(group: seq<Text>, blockSize: nat) {
    |Flat(group)| >= blockSize && NoneTooMany(group, blockSize)
  }

  ghost predicate NoneTooMany(group: seq<Text>, blockSize: nat) {
    group != [] && |Flat(group[..|group| - 1])| < blockSize
  }

  ghost predicate AllFull(groups: seq<seq<Text>>, blockSize: nat) {
    forall i :: 0 <= i < |groups| ==> IsFull(groups[i], blockSize)
  }

  // What a storage is divided into: full blocks, and perhaps a shorter one at the end.
  ghost predicate Divided(groups: seq<seq<Text>>, blockSize: nat) {
    groups != [] ==> AllFull(groups[..|groups| - 1], blockSize) && NoneTooMany(groups[|groups| - 1], blockSize)
  }

  lemma FullGroup(pending: seq<Text>, s: Text, blockSize: nat)
    requires |Flat(pending)| < blockSize && |Flat(pending) + s| >= blockSize
    ensures IsFull(pending + [s], blockSize)
  {
    hide Flat;
    FlatPush(pending, s);
    assert (pending + [s])[..|pending + [s]| - 1] == pending;
  }

  lemma ShortGroup(pending: seq<Text>, blockSize: nat)
    requires pending != [] && |Flat(pending)| < blockSize
    ensures NoneTooMany(pending, blockSize)
  {
    hide Flat;
    var n := |pending| - 1;
    assert pending == pending[..n] + [pending[n]];
    FlatPush(pending[..n], pending[n]);
  }

  lemma OneFullMore(groups: seq<seq<Text>>, group: seq<Text>, blockSize: nat)
    requires AllFull(groups, blockSize)
    ensures IsFull(group, blockSize) ==> AllFull(groups + [group], blockSize)
    ensures NoneTooMany(group, blockSize) ==> Divided(groups + [group], blockSize)
    ensures Divided(groups, blockSize)
  {
    hide Flat;
    assert (groups + [group])[..|groups + [group]| - 1] == groups;
  }

  class BlockedTextStorageWriter {
    const writer: Sink
    const blockSize: nat
    const startOffset: nat
    const dataOffset: nat
    var blocks: seq<Block>
    var pool: seq<nat>
    var lengths: seq<nat>
    // What was written before, the blocks written so far, their strings and those in the pool.
    ghost const before: seq<nat>
    ghost var chunks: seq<seq<nat>>
    ghost var groups: seq<seq<Text>>
    ghost var pending: seq<Text>

    ghost predicate Valid()
      reads this, writer
    {
      && blockSize > 0 && startOffset == |before| && dataOffset == |before| + 8
      && AreChunks(chunks, groups) && AreTexts(pending)
      && writer.data == before + Fixed(0, 8) + Flat(chunks)
      && |blocks| == |groups| + 1
      && (forall i :: 0 <= i < |groups| ==> blocks[i] == BlockOf(chunks, groups, i))
      && blocks[|groups|] == Block(|Flat(chunks)|, |pending|)
      && Pooled() && AllFull(groups, blockSize)
    }

    // The pool is the pending strings, too short for a block of their own.
    ghost predicate Pooled()
      reads this
    {
      && pool == Flat(pending) && |pool| < blockSize
      && |lengths| == |pending| && forall i :: 0 <= i < |lengths| ==> lengths[i] == |pending[i]|
    }

    // All strings appended, in order.
    ghost function Contents(): seq<Text>
      reads this
    {
      Flat(groups) + pending
    }

    constructor (writer: Sink, blockSize: nat)
      requires blockSize != 0
      modifies writer
      ensures Valid() && Contents() == [] && this.writer == writer && this.blockSize == blockSize
      ensures before == old(writer.data)
    {
      this.writer, this.blockSize := writer, blockSize;
      startOffset, dataOffset := |writer.data|, |writer.data| + 8;
      before := writer.data;
      blocks, pool, lengths := [Block(0, 0)], [], [];
      chunks, groups, pending := [], [], [];
      new;
      hide Fixed;
      ghost var header := Fixed(0, 8);
      for i := 0 to 8
        invariant writer.data == before + header[..i]
        invariant blocks == [Block(0, 0)] && pool == [] && lengths == []
        invariant chunks == [] && groups == [] && pending == []
      {
        Zeros(8, i);
        writer.Write(0);
      }
      assert header[..8] == header;
    }

    method FlushPool() returns (ok: bool, ghost chunk: seq<nat>)
      requires AreTexts(pending)
      requires pool == Flat(pending)
      requires |lengths| == |pending| && forall i :: 0 <= i < |lengths| ==> lengths[i] == |pending[i]|
      modifies writer
      ensures ok ==> writer.data == old(writer.data) + chunk && IsChunk(chunk, pending)
      ensures |pool| < 9227465 ==> ok
    {
      hide Flat, VarUint, LengthBytes, IsBlock;
      ghost var base := writer.data;
      NoLengths();
      for i := 0 to |lengths|
        invariant writer.data == base + LengthBytes(pending[..i])
      {
        WriteVarUint(writer, lengths[i]);
        LengthsPush(pending[..i], pending[i]);
        assert pending[..i + 1] == pending[..i] + [pending[i]];
      }
      assert pending[..|lengths|] == pending;
      FlatBytes(pending);
      ghost var block;
      ok, block := EncodeAndWriteBlock(writer, pool);
      chunk := LengthBytes(pending) + block;
    }

    // Appends a string; aborts only if its block needs a code that is too long.
    method Append(s: Text) returns (ok: bool)
      requires Valid() && IsBytes(s)
      modifies this, writer
      ensures ok ==> Valid() && Contents() == old(Contents()) + [s]
      ensures blockSize + |s| <= 9227465 ==> ok
    {
      hide Flat, IsChunk, Fixed, AreTexts, AllFull, IsFull, BlockOf;
      ok := true;
      var last := |blocks| - 1;
      blocks := blocks[last := blocks[last].(subs := blocks[last].subs + 1)];
      pool := pool + s;
      lengths := lengths + [|s|];
      FlatPush(pending, s);
      OneMoreText(pending, s);
      pending := pending + [s];
      if |pool| >= blockSize {
        FullGroup(old(pending), s, blockSize);
        OneFullMore(groups, pending, blockSize);
        ghost var chunk;
        ok, chunk := FlushPool();
        if ok {
          FlatPush(chunks, chunk);
          FlatPush(groups, pending);
          PrefixBlocks(chunks, groups, chunk, pending);
          assert groups + [pending] != groups;
          chunks, groups := chunks + [chunk], groups + [pending];
          pending := [];
          NothingFlat<nat>();
          pool, lengths := [], [];
          NoTexts();
          blocks := blocks + [Block(|writer.data| - dataOffset, 0)];
        }
      }
    }

    // The destructor: the last block, the place of the index, and the index.
    method Close() returns (ok: bool)
      requires Valid()
      modifies this, writer
      ensures ok ==> Flat(groups) == old(Contents()) && AreChunks(chunks, groups)
      ensures ok ==> Divided(groups, blockSize)
      ensures ok && 8 + |Flat(chunks)| < Pow256(8) ==>
                exists file :: IsStorage(file, chunks, groups) && writer.data == before + file
      ensures blockSize <= 9227465 ==> ok
      ensures ok ==> |writer.data| >= |before| + 8 + |Flat(chunks)|
    {
      hide Flat, IsChunk, Fixed, AreTexts, VarUint, IndexBytes, RowBytes, Pow256, AllFull, Divided, NoneTooMany;
      ok := true;
      OneFullMore(groups, pending, blockSize);
      if lengths != [] {
        ShortGroup(pending, blockSize);
        ghost var chunk;
        ok, chunk := FlushPool();
        if !ok {
          return;
        }
        FlatPush(chunks, chunk);
        FlatPush(groups, pending);
        PrefixBlocks(chunks, groups, chunk, pending);
        chunks, groups := chunks + [chunk], groups + [pending];
      } else {
        assert pending == [];
        assert Flat(groups) + pending == Flat(groups);
      }
      if blocks[|blocks| - 1].subs == 0 {
        blocks := blocks[..|blocks| - 1];
      }
      assert |blocks| == |groups|;
      ghost var file := Fixed(8 + |Flat(chunks)|, 8) + Flat(chunks);
      var currentOffset := |writer.data|;
      writer.Overwrite(startOffset, Fixed(currentOffset - startOffset, 8));
      assert writer.data == before + file;
      WriteIndex();
      file := file + VarUint(|chunks|) + IndexBytes(chunks, groups, 0);
      assert writer.data == before + file;
      assert 8 + |Flat(chunks)| < Pow256(8) ==> IsStorage(file, chunks, groups);
    }

    method WriteIndex()
      requires |blocks| == |chunks| == |groups|
      requires forall i :: 0 <= i < |groups| ==> blocks[i] == BlockOf(chunks, groups, i)
      modifies writer
      ensures writer.data == old(writer.data) + VarUint(|chunks|) + IndexBytes(chunks, groups, 0)
    {
      hide Flat, VarUint, IndexBytes, RowBytes;
      ghost var base := writer.data + VarUint(|chunks|);
      WriteVarUint(writer, |blocks|);
      var prevOffset := 0;
      ghost var all := IndexBytes(chunks, groups, 0);
      for i := 0 to |blocks|
        invariant writer.data + IndexBytes(chunks, groups, i) == base + all
        invariant prevOffset == if i == 0 then 0 else BlockOf(chunks, groups, i - 1).offset
      {
        NextInfo(chunks, groups, i);
        NextRow(chunks, groups, i);
        WriteVarUint(writer, blocks[i].offset - prevOffset);
        WriteVarUint(writer, blocks[i].subs);
        prevOffset := blocks[i].offset;
      }
      NoRows(chunks, groups);
    }
  }

  lemma Zeros(n: nat, i: nat)
    requires i < n
    ensures Fixed(0, n)[..i + 1] == Fixed(0, n)[..i] + [0]
  {
    AllZero(n, i);
  }

  lemma {:induction false} AllZero(n: nat, i: nat)
    requires i < n
    ensures Fixed(0, n)[i] == 0
  {
    if i > 0 {
      AllZero(n - 1, i - 1);
    }
  }

  lemma NoLengths()
    ensures LengthBytes([]) == []
  {
  }

  lemma NoTexts()
    ensures AreTexts([])
  {
  }

  lemma NoRows(chunks: seq<seq<nat>>, groups: seq<seq<Text>>)
    requires |chunks| == |groups|
    ensures IndexBytes(chunks, groups, |chunks|) == []
  {
  }

  lemma OneMoreText(strings: seq<Text>, s: Text)
    requires AreTexts(strings) && IsBytes(s)
    ensures AreTexts(strings + [s])
  {
  }

  // The rows of earlier blocks do not depend on later ones.
  lemma PrefixBlocks(chunks: seq<seq<nat>>, groups: seq<seq<Text>>, chunk: seq<nat>, group: seq<Text>)
    requires |chunks| == |groups|
    ensures forall i :: 0 <= i < |groups| ==>
              BlockOf(chunks + [chunk], groups + [group], i) == BlockOf(chunks, groups, i)
    ensures BlockOf(chunks + [chunk], groups + [group], |groups|) == Block(|Flat(chunks)|, |group|)
  {
    forall i | 0 <= i < |groups|
      ensures BlockOf(chunks + [chunk], groups + [group], i) == BlockOf(chunks, groups, i)
    {
      assert (chunks + [chunk])[..i] == chunks[..i];
    }
    assert (chunks + [chunk])[..|chunks|] == chunks;
  }

  // ----- The reader

  datatype StringInfo = StringInfo(offset: nat, length: nat)

  datatype CacheEntry = CacheEntry(value: seq<nat>, subs: seq<StringInfo>, valid: bool)

  const NO_ENTRY: CacheEntry := CacheEntry([], [], false)

  // A decompressed block: its strings one behind the other, and where each of them lies.
  ghost predicate IsEntryFor(entry: CacheEntry, strings: seq<Text>) {
    && entry.value == Flat(strings) && |entry.subs| == |strings|
    && forall j :: 0 <= j < |strings| ==> entry.subs[j] == StringInfo(|Flat(strings[..j])|, |strings[j]|)
  }

  lemma LengthsAt(strings: seq<Text>, j: nat, rest: seq<nat>)
    requires j <= |strings|
    ensures j < |strings| ==> LengthBytes(strings[j..]) + rest == VarUint(|strings[j]|) + (LengthBytes(strings[j + 1..]) + rest)
    ensures j == |strings| ==> LengthBytes(strings[j..]) + rest == rest
  {
    hide VarUint;
    if j < |strings| {
      assert strings[j..][1..] == strings[j + 1..];
    }
  }

  lemma {:induction false} IndexIsBytes(chunks: seq<seq<nat>>, groups: seq<seq<Text>>, i: nat)
    requires i <= |chunks| == |groups|
    ensures IsBytes(IndexBytes(chunks, groups, i))
    decreases |chunks| - i
  {
    hide VarUint;
    if i < |chunks| {
      VarUintBytes(if i == 0 then 0 else |chunks[i - 1]|);
      VarUintBytes(|groups[i]|);
      IndexIsBytes(chunks, groups, i + 1);
    }
  }

  lemma {:induction false} LengthsAreBytes(strings: seq<Text>)
    ensures IsBytes(LengthBytes(strings))
  {
    hide VarUint;
    if strings != [] {
      VarUintBytes(|strings[0]|);
      LengthsAreBytes(strings[1..]);
    }
  }

  lemma {:induction false} ChunksAreBytes(chunks: seq<seq<nat>>, groups: seq<seq<Text>>)
    requires AreChunks(chunks, groups)
    ensures IsBytes(Flat(chunks))
  {
    hide LengthBytes, IsBlock;
    if chunks != [] {
      var block :| IsBlock(block, Flat(groups[0])) && chunks[0] == LengthBytes(groups[0]) + block;
      LengthsAreBytes(groups[0]);
      BlockIsBytes(block, Flat(groups[0]));
      ChunksAreBytes(chunks[1..], groups[1..]);
    }
  }

  // The file from the place of a block on.
  lemma BlockInFile(file: seq<nat>, chunks: seq<seq<nat>>, groups: seq<seq<Text>>, i: nat)
    returns (block: seq<nat>, rest: seq<nat>)
    requires IsStorage(file, chunks, groups) && i < |chunks|
    ensures |chunks| == |groups| && 8 + |Flat(chunks[..i])| <= |file|
    ensures file[8 + |Flat(chunks[..i])|..] == LengthBytes(groups[i]) + (block + rest)
    ensures IsBlock(block, Flat(groups[i])) && IsBytes(rest)
  {
    hide Flat, IsBlock, VarUint, IndexBytes, LengthBytes, Fixed, Pow256, IsBytes;
    block :| IsBlock(block, Flat(groups[i])) && chunks[i] == LengthBytes(groups[i]) + block;
    PartOfFlat(chunks, i);
    var tail := VarUint(|chunks|) + IndexBytes(chunks, groups, 0);
    rest := Flat(chunks[i + 1..]) + tail;
    var header := Fixed(8 + |Flat(chunks)|, 8);
    assert file == (header + Flat(chunks[..i])) + (chunks[i] + rest);
    assert |header| == 8;
    ChunksAreBytes(chunks[i + 1..], groups[i + 1..]);
    VarUintBytes(|chunks|);
    IndexIsBytes(chunks, groups, 0);
    BytesConcat(VarUint(|chunks|), IndexBytes(chunks, groups, 0));
    BytesConcat(Flat(chunks[i + 1..]), tail);
  }

  lemma BytesConcat(a: seq<nat>, b: seq<nat>)
    requires IsBytes(a) && IsBytes(b)
    ensures IsBytes(a + b)
  {
  }

  class BlockedTextStorageReader {
    const index: BlockedTextStorageIndex
    var cache: seq<CacheEntry>
    var initialized: bool

    // Whatever is marked valid in the cache is the block of its place in the storage.
    ghost predicate Valid(chunks: seq<seq<nat>>, groups: seq<seq<Text>>)
      reads this, index
    {
      && |chunks| == |groups|
      && (initialized ==> Indexes(index.blocks, chunks, groups))
      && |cache| <= |groups|
      && forall i :: 0 <= i < |cache| ==> (cache[i].valid ==> IsEntryFor(cache[i], groups[i]))
    }

    constructor (ghost chunks: seq<seq<nat>>, ghost groups: seq<seq<Text>>)
      requires |chunks| == |groups|
      ensures Valid(chunks, groups) && fresh(index) && !initialized && cache == []
    {
      index := new BlockedTextStorageIndex();
      cache, initialized := [], false;
    }

    method InitializeIfNeeded(file: seq<nat>, ghost chunks: seq<seq<nat>>, ghost groups: seq<seq<Text>>)
      requires IsStorage(file, chunks, groups) && Valid(chunks, groups)
      modifies this, index
      ensures Valid(chunks, groups) && initialized && cache == old(cache)
    {
      hide IsStorage, Indexes;
      if initialized {
        return;
      }
      index.Read(file, chunks, groups);
      initialized := true;
    }

    method GetNumStrings(ghost chunks: seq<seq<nat>>, ghost groups: seq<seq<Text>>) returns (n: nat)
      requires initialized && Valid(chunks, groups)
      ensures n == |Flat(groups)|
    {
      hide Indexes, Flat;
      IndexIsContiguous(index.blocks, chunks, groups);
      n := index.GetNumStrings();
    }

    // The string that was appended as the stringIx-th one, or none (the source aborts) if there is no such.
    method ExtractString(file: seq<nat>, stringIx: nat, ghost chunks: seq<seq<nat>>, ghost groups: seq<seq<Text>>)
      returns (r: Option<Text>)
      requires IsStorage(file, chunks, groups) && Valid(chunks, groups)
      modifies this, index
      ensures Valid(chunks, groups) && initialized
      ensures r == if stringIx < |Flat(groups)| then Some(Flat(groups)[stringIx]) else None
      // The block of the string is cached now, and what was cached stays.
      ensures r.Some? ==> exists b :: 0 <= b < |cache| && cache[b].valid && b < |index.blocks|
                                      && index.blocks[b].from <= stringIx < index.blocks[b].from + index.blocks[b].subs
      ensures |cache| >= |old(cache)|
      ensures forall i :: 0 <= i < |old(cache)| && old(cache)[i].valid ==> cache[i] == old(cache)[i]
    {
      hide Indexes, Flat, IsStorage, IsEntryFor;
      InitializeIfNeeded(file, chunks, groups);
      IndexIsContiguous(index.blocks, chunks, groups);
      var blockIx := index.GetBlockIx(stringIx);
      if blockIx >= |index.blocks| {
        return None;
      }
      if blockIx >= |cache| {
        cache := cache + seq(blockIx + 1 - |cache|, i => NO_ENTRY);
      }
      var bi := index.blocks[blockIx];
      IsInfo(index.blocks, chunks, groups, blockIx);
      if !cache[blockIx].valid {
        var entry := ReadBlock(file, bi, blockIx, chunks, groups);
        cache := cache[blockIx := entry];
      }
      StringInGroup(groups, blockIx, stringIx - bi.from, cache[blockIx]);
      var si := cache[blockIx].subs[stringIx - bi.from];
      r := Some(cache[blockIx].value[si.offset..si.offset + si.length]);
    }

    method ReadBlock(file: seq<nat>, bi: BlockInfo, ghost i: nat, ghost chunks: seq<seq<nat>>, ghost groups: seq<seq<Text>>)
      returns (entry: CacheEntry)
      requires IsStorage(file, chunks, groups) && i < |chunks| == |groups| && bi == InfoOf(chunks, groups, i)
      ensures entry.valid && IsEntryFor(entry, groups[i])
    {
      hide Flat, IsBlock, IsStorage, LengthBytes, VarUint;
      ghost var block, rest := BlockInFile(file, chunks, groups, i);
      ghost var strings := groups[i];
      var source := new Source(file);
      source.Skip(bi.offset);
      var subs: seq<StringInfo> := seq(bi.subs, k => StringInfo(0, 0));
      var offset := 0;
      assert strings[0..] == strings && strings[..0] == [];
      NothingFlat<nat>();
      for k := 0 to |subs|
        invariant |subs| == |strings| && source.Valid()
        invariant source.Left() == LengthBytes(strings[k..]) + (block + rest)
        invariant offset == |Flat(strings[..k])|
        invariant forall j :: 0 <= j < k ==> subs[j] == StringInfo(|Flat(strings[..j])|, |strings[j]|)
      {
        LengthsAt(strings, k, block + rest);
        var length := ReadVarUint(source, |strings[k]|, LengthBytes(strings[k + 1..]) + (block + rest));
        subs := subs[k := StringInfo(offset, length)];
        PartOfFlat(strings, k);
        offset := offset + length;
      }
      LengthsAt(strings, |subs|, block + rest);
      var value := ReadAndDecodeBlock(source, Flat(strings), block, rest);
      entry := CacheEntry(value, subs, true);
    }

    method ClearCache(ghost chunks: seq<seq<nat>>, ghost groups: seq<seq<Text>>)
      requires Valid(chunks, groups)
      modifies this`cache
      ensures Valid(chunks, groups) && cache == []
    {
      cache := [];
    }
  }

  lemma IsInfo(blocks: seq<BlockInfo>, chunks: seq<seq<nat>>, groups: seq<seq<Text>>, i: nat)
    requires Indexes(blocks, chunks, groups) && i < |blocks|
    ensures |blocks| == |chunks| == |groups| && blocks[i] == InfoOf(chunks, groups, i)
  {
  }

  // A string is found at its place in the block of its place.
  lemma StringInGroup(groups: seq<seq<Text>>, i: nat, j: nat, entry: CacheEntry)
    requires i < |groups| && j < |groups[i]| && IsEntryFor(entry, groups[i])
    ensures |Flat(groups[..i])| + j < |Flat(groups)|
    ensures j < |entry.subs| && entry.subs[j].offset + entry.subs[j].length <= |entry.value|
    ensures Flat(groups)[|Flat(groups[..i])| + j] ==
            entry.value[entry.subs[j].offset..entry.subs[j].offset + entry.subs[j].length]
  {
    hide Flat;
    PartOfFlat(groups, i);
    PartOfFlat(groups[i], j);
    assert Flat(groups)[|Flat(groups[..i])| + j] == groups[i][j];
  }

  // ----- Writing and reading

  datatype Request = Extract(stringIx: nat) | Clear

  function Answers(strings: seq<Text>, requests: seq<Request>): seq<Option<Text>> {
    if requests == [] then []
    else
      var first := requests[0];
      (if first.Clear? then []
       else [if first.stringIx < |strings| then Some(strings[first.stringIx]) else None])
      + Answers(strings, requests[1..])
  }

  // Any requests on a stored text, with the cache dropped at any time.
  method Serve(file: seq<nat>, requests: seq<Request>, ghost chunks: seq<seq<nat>>, ghost groups: seq<seq<Text>>)
    returns (answers: seq<Option<Text>>)
    requires IsStorage(file, chunks, groups)
    ensures answers == Answers(Flat(groups), requests)
  {
    hide IsStorage, Flat, IsEntryFor, Indexes, Answers;
    IsStorageSizes(file, chunks, groups);
    var reader := new BlockedTextStorageReader(chunks, groups);
    answers := [];
    assert requests[0..] == requests;
    for i := 0 to |requests|
      invariant reader.Valid(chunks, groups) && fresh(reader) && fresh(reader.index)
      invariant answers + Answers(Flat(groups), requests[i..]) == Answers(Flat(groups), requests)
    {
      NextAnswer(Flat(groups), requests, i);
      match requests[i]
      case Clear =>
        reader.ClearCache(chunks, groups);
      case Extract(ix) =>
        var answer := reader.ExtractString(file, ix, chunks, groups);
        ghost var rest := Answers(Flat(groups), requests[i + 1..]);
        assert answers + ([answer] + rest) == (answers + [answer]) + rest;
        answers := answers + [answer];
    }
    assert Answers(Flat(groups), requests[|requests|..]) == [] by { NoAnswers(Flat(groups), requests); }
  }

  lemma NextAnswer(strings: seq<Text>, requests: seq<Request>, i: nat)
    requires i < |requests|
    ensures requests[i].Clear? ==> Answers(strings, requests[i..]) == Answers(strings, requests[i + 1..])
    ensures requests[i].Extract? ==>
              var ix := requests[i].stringIx;
              Answers(strings, requests[i..]) ==
              [if ix < |strings| then Some(strings[ix]) else None] + Answers(strings, requests[i + 1..])
  {
    assert requests[i..][1..] == requests[i + 1..];
  }

  lemma NoAnswers(strings: seq<Text>, requests: seq<Request>)
    ensures Answers(strings, requests[|requests|..]) == []
  {
  }

  lemma IsStorageSizes(file: seq<nat>, chunks: seq<seq<nat>>, groups: seq<seq<Text>>)
    requires IsStorage(file, chunks, groups)
    ensures |chunks| == |groups|
  {
    hide Flat, IndexBytes, VarUint, Fixed, Pow256;
  }

  // The strings in one file, or failure when a block would need a code that is too long.
  method Store(strings: seq<Text>, blockSize: nat)
    returns (ok: bool, file: seq<nat>, ghost chunks: seq<seq<nat>>, ghost groups: seq<seq<Text>>)
    requires blockSize != 0 && AreTexts(strings)
    ensures (forall i :: 0 <= i < |strings| ==> blockSize + |strings[i]| <= 9227465) && blockSize <= 9227465 ==> ok
    ensures ok ==> Flat(groups) == strings && Divided(groups, blockSize)
    ensures ok && |file| < 0x1_0000_0000_0000_0000 ==> IsStorage(file, chunks, groups)
  {
    hide Flat, IsStorage, Pow256, IsBytes, Divided;
    var sink := new Sink();
    var writer := new BlockedTextStorageWriter(sink, blockSize);
    file, chunks, groups := [], [], [];
    for i := 0 to |strings|
      invariant writer.Valid() && fresh(writer) && sink == writer.writer && writer.blockSize == blockSize
      invariant writer.Contents() == strings[..i] && writer.before == []
    {
      ok := writer.Append(strings[i]);
      if !ok {
        return;
      }
      assert strings[..i + 1] == strings[..i] + [strings[i]];
    }
    ok := writer.Close();
    if ok {
      file, chunks, groups := sink.data, writer.chunks, writer.groups;
      assert strings[..|strings|] == strings;
      SixtyFourBits();
      if |file| < 0x1_0000_0000_0000_0000 {
        ghost var written :| IsStorage(written, chunks, groups) && file == writer.before + written;
        assert [] + written == written;
      }
    }
  }

  lemma SixtyFourBits()
    ensures Pow256(8) == 0x1_0000_0000_0000_0000
  {
    assert Pow256(4) == 0x1_0000_0000;
  }
}
