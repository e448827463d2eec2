/**
 ReaderCache over base::Cache: pages of a reader, kept in a table where every page has one slot.
 */
module ReaderCache {
  import opened Bits

  // ----- base/cache.hpp

  function Hash32(x0: bv32): bv32 {
    var x1: bv32 := (x0 ^ 61) ^ (x0 >> 16);
    var x2: bv32 := x1 + (x1 << 3);
    var x3: bv32 := x2 ^ (x2 >> 4);
    var x4: bv32 := x3 * 0x27d4_eb2d;
    x4 ^ (x4 >> 15)
  }

  // A key of 64 bits: its two halves together.
  function Word(v: nat): bv32
    requires v < 0x1_0000_0000
  {
    v as bv32
  }

  function Fold(key: nat): bv32 {
    Word(key % 0x1_0000_0000) ^ Word((key / 0x1_0000_0000) % 0x1_0000_0000)
  }

  function Hash(key: nat): nat {
    Hash32(Fold(key)) as nat
  }

  // The low bits of the hash, for a table of 2^logSize slots.
  function Index(key: nat, logSize: nat): (i: nat)
    ensures i < Pow2(logSize)
  {
    LowBits(Hash(key), logSize)
  }

  lemma FirstHashes()
    ensures Hash(0) % 2 == 0 && Hash(1) % 2 == 1
  {
    hide Hash32, Fold;
    FoldOfZero();
    FoldOfOne();
    HashOfZero();
    HashOfOne();
  }

  lemma FoldOfZero()
    ensures Fold(0) == 0
  {
    hide Word;
    SmallWords();
    assert Fold(0) == Word(0) ^ Word(0);
  }

  lemma FoldOfOne()
    ensures Fold(1) == 1
  {
    hide Word;
    SmallWords();
    assert Fold(1) == Word(1) ^ Word(0);
  }

  lemma SmallWords()
    ensures Word(0) == 0 && Word(1) == 1
  {
  }

  lemma HashOfZero()
    ensures (Hash32(0) as nat) % 2 == 0
  {
    assert Hash32(0) == 0xc0a9_496a;
  }

  lemma HashOfOne()
    ensures (Hash32(1) as nat) % 2 == 1
  {
    assert Hash32(1) == 0x2792_2c9d;
  }

  // Two keys that never share a slot, so that one of them lies outside any given one.
  lemma FirstKeysDiffer(logSize: nat)
    requires logSize > 0
    ensures Index(0, logSize) != Index(1, logSize)
  {
    hide Hash;
    FirstHashes();
    HalveMod(Hash(0), Pow2(logSize - 1));
    HalveMod(Hash(1), Pow2(logSize - 1));
  }

  // A table of one value per slot, under the key that was looked up last.
  class Cache {
    const logSize: nat
    const keys: array<nat>
    const values: array<seq<nat>>

    ghost predicate Valid()
      reads this
    {
      logSize > 0 && keys.Length == values.Length == Pow2(logSize)
    }

    constructor (logCacheSize: nat)
      requires logCacheSize > 0
      ensures Valid() && logSize == logCacheSize && fresh(keys) && fresh(values)
      ensures NothingCached() && forall i :: 0 <= i < values.Length ==> values[i] == []
    {
      logSize := logCacheSize;
      keys := new nat[Pow2(logCacheSize)](_ => 0);
      values := new seq<nat>[Pow2(logCacheSize)](_ => []);
      new;
      Reset();
    }

    // No slot holds a key that belongs there.
    ghost predicate NothingCached()
      requires Valid()
      reads this, keys
    {
      forall i :: 0 <= i < keys.Length ==> Index(keys[i], logSize) != i
    }

    // Puts into every slot a key that belongs elsewhere.
    method Reset()
      requires Valid()
      modifies keys
      ensures NothingCached()
    {
      hide Index;
      FirstKeysDiffer(logSize);
      for i := 0 to keys.Length
        invariant forall j :: 0 <= j < i ==> Index(keys[j], logSize) != j
      {
        var key := 0;
        while Index(key, logSize) == i
          invariant key <= 1 && (key == 1 ==> Index(0, logSize) == i)
          decreases 1 - key
        {
          key := key + 1;
        }
        keys[i] := key;
      }
    }

    // The slot of a key, which is the key's from now on.
    method Find(key: nat) returns (slot: nat, found: bool)
      requires Valid()
      modifies keys
      ensures slot == Index(key, logSize) && keys[..] == old(keys[..])[slot := key]
      ensures found <==> old(keys[..])[slot] == key
    {
      hide Index;
      slot := Index(key, logSize);
      found := keys[slot] == key;
      if !found {
        keys[slot] := key;
      }
    }
  }

  // ----- coding/reader_cache.hpp

  ghost function PageStart(page: nat, logPageSize: nat): nat { page * Pow2(logPageSize) }

  // The bytes of a page, which the end of the reader may cut short.
  ghost predicate IsPage(value: seq<nat>, reader: seq<nat>, page: nat, logPageSize: nat) {
    var start, size := PageStart(page, logPageSize), Pow2(logPageSize);
    && |value| == size
    && (start <= |reader| ==> var n := if start + size <= |reader| then size else |reader| - start;
                              value[..n] == reader[start..start + n])
  }

  class ReaderCache {
    const cache: Cache
    const logPageSize: nat

    // Whatever slot holds a key that belongs there holds that page.
    ghost predicate Valid(reader: seq<nat>)
      reads this, cache, cache.keys, cache.values
    {
      && cache.Valid()
      && (forall i :: 0 <= i < cache.keys.Length && Index(cache.keys[i], cache.logSize) == i ==>
            IsPage(cache.values[i], reader, cache.keys[i], logPageSize))
      && forall i :: 0 <= i < cache.values.Length ==> cache.values[i] == [] || |cache.values[i]| == Pow2(logPageSize)
    }

    constructor (logPageSize: nat, logPageCount: nat)
      requires logPageCount > 0
      ensures forall reader :: Valid(reader)
      ensures fresh(cache) && fresh(cache.keys) && fresh(cache.values) && this.logPageSize == logPageSize
    {
      cache := new Cache(logPageCount);
      this.logPageSize := logPageSize;
    }

    method ReadPage(reader: seq<nat>, page: nat) returns (value: seq<nat>)
      requires Valid(reader) && PageStart(page, logPageSize) < |reader|
      modifies cache.keys, cache.values
      ensures Valid(reader) && IsPage(value, reader, page, logPageSize)
      // The page is kept in its slot, where it may have been before.
      ensures var slot := Index(page, cache.logSize);
              && slot < cache.keys.Length && cache.keys[..] == old(cache.keys[..])[slot := page]
              && cache.values[..] == old(cache.values[..])[slot := value]
              && (old(cache.keys[..])[slot] == page ==> value == old(cache.values[..])[slot])
    {
      hide Index, Pow2, IsPage;
      var slot, found := cache.Find(page);
      if !found {
        var v := cache.values[slot];
        if v == [] {
          v := seq(Pow2(logPageSize), i => 0);
        }
        var pos := page * Pow2(logPageSize);
        var n := if Pow2(logPageSize) <= |reader| - pos then Pow2(logPageSize) else |reader| - pos;
        // Bytes behind the end of the reader stay as they were.
        v := reader[pos..pos + n] + v[n..];
        assert IsPage(v, reader, page, logPageSize) by { FreshPage(v, reader, page, logPageSize, n); }
        cache.values[slot] := v;
      }
      value := cache.values[slot];
    }

    // Some bytes of an unchanging reader, page by page.
    method Read(reader: seq<nat>, pos: nat, size: nat) returns (p: seq<nat>)
      requires Valid(reader) && pos + size <= |reader|
      modifies cache.keys, cache.values
      ensures Valid(reader) && p == reader[pos..pos + size]
    {
      hide Valid, IsPage, Pow2, ShiftRight, ShiftLeft, PageStart, Index;
      p := [];
      if size == 0 {
        return;
      }
      var pageSize := Pow2(logPageSize);
      var pageNum := ShiftRight(pos, logPageSize);
      FirstPage(pos, logPageSize);
      var firstPageOffset := pos - ShiftLeft(pageNum, logPageSize);
      var firstCopySize := if size <= pageSize - firstPageOffset then size else pageSize - firstPageOffset;
      var page := ReadPage(reader, pageNum);
      PartOfPage(page, reader, pageNum, logPageSize, firstPageOffset, firstCopySize);
      p := page[firstPageOffset..firstPageOffset + firstCopySize];
      var left, at := size - firstCopySize, pos + firstCopySize;
      NextPage(pageNum, logPageSize);
      pageNum := pageNum + 1;
      while left > 0
        invariant Valid(reader) && 0 <= left <= size && at + left == pos + size
        invariant left > 0 ==> at == PageStart(pageNum, logPageSize)
        invariant p == reader[pos..at]
        decreases left
      {
        var copySize := if left <= pageSize then left else pageSize;
        page := ReadPage(reader, pageNum);
        PartOfPage(page, reader, pageNum, logPageSize, 0, copySize);
        JoinParts(reader, pos, at, at + copySize);
        p := p + page[0..copySize];
        left, at := left - copySize, at + copySize;
        NextPage(pageNum, logPageSize);
        pageNum := pageNum + 1;
      }
    }
  }

  lemma FirstPage(pos: nat, logPageSize: nat)
    ensures var page := ShiftRight(pos, logPageSize);
            ShiftLeft(page, logPageSize) == PageStart(page, logPageSize) <= pos < PageStart(page, logPageSize) + Pow2(logPageSize)
  {
    hide ShiftRight, Pow2;
    ShiftRightDivides(pos, logPageSize);
  }

  lemma NextPage(page: nat, logPageSize: nat)
    ensures PageStart(page + 1, logPageSize) == PageStart(page, logPageSize) + Pow2(logPageSize)
  {
    hide Pow2;
  }

  lemma PartOfPage(value: seq<nat>, reader: seq<nat>, page: nat, logPageSize: nat, offset: nat, n: nat)
    requires IsPage(value, reader, page, logPageSize)
    requires offset + n <= Pow2(logPageSize) && PageStart(page, logPageSize) + offset + n <= |reader|
    ensures offset + n <= |value|
    ensures var at := PageStart(page, logPageSize) + offset;
            value[offset..offset + n] == reader[at..at + n]
  {
    hide Pow2, PageStart;
    var start, size := PageStart(page, logPageSize), Pow2(logPageSize);
    var m := if start + size <= |reader| then size else |reader| - start;
    forall j | 0 <= j < m
      ensures value[j] == reader[start + j]
    {
      assert value[..m][j] == reader[start..start + m][j];
    }
  }

  lemma JoinParts(s: seq<nat>, from: nat, mid: nat, to: nat)
    requires from <= mid <= to <= |s|
    ensures s[from..mid] + s[mid..to] == s[from..to]
  {
  }

  lemma FreshPage(v: seq<nat>, reader: seq<nat>, page: nat, logPageSize: nat, n: nat)
    requires |v| == Pow2(logPageSize)
    requires var pos := PageStart(page, logPageSize);
             && pos < |reader| && n == (if Pow2(logPageSize) <= |reader| - pos then Pow2(logPageSize) else |reader| - pos)
             && v[..n] == reader[pos..pos + n]
    ensures IsPage(v, reader, page, logPageSize)
  {
  }
}
