/**
 FixedBitsDDVector: small numbers in a fixed number of bits, large ones in a table of exceptions.
 */
module FixedBits {
  import opened Options
  import opened Bits
  import opened BitStreams

  // An element: a number, or undefined.
  type Element = Option<nat>

  datatype IndexValue = IndexValue(index: nat, value: nat)

  // Codes 0 to Mask - 2 stand for themselves, Mask - 1 for an exception and Mask for undefined.
  function Mask(bits: nat): nat { Pow2(bits) - 1 }

  function LargeValue(bits: nat): nat
    requires bits > 0
  {
    Mask(bits) - 1
  }

  function CodeOf(e: Element, bits: nat): nat
    requires bits > 0
  {
    if e.None? then Mask(bits) else if e.value >= LargeValue(bits) then LargeValue(bits) else e.value
  }

  // The place of an element among the bits.
  function BitOffset(index: nat, bits: nat): nat { index * bits }

  ghost function BitsOf(elements: seq<Element>, bits: nat): (r: seq<bool>)
    requires bits > 0
    ensures |r| == BitOffset(|elements|, bits)
  {
    if elements == [] then []
    else
      var n := |elements| - 1;
      PlaceOfElement(n, bits, n);
      BitsOf(elements[..n], bits) + FromNat(CodeOf(elements[n], bits), bits)
  }

  // The exceptions with their places, in order.
  ghost function ExceptsOf(elements: seq<Element>, bits: nat): seq<IndexValue>
    requires bits > 0
  {
    if elements == [] then []
    else
      var n := |elements| - 1;
      ExceptsOf(elements[..n], bits)
      + if elements[n].Some? && elements[n].value >= LargeValue(bits) then [IndexValue(n, elements[n].value)] else []
  }

  // Exceptions in the order of their places, each with the element at its place.
  ghost predicate AreExcepts(ex: seq<IndexValue>, elements: seq<Element>) {
    && (forall k :: 0 <= k < |ex| ==> ex[k].index < |elements| && elements[ex[k].index] == Some(ex[k].value))
    && (forall j, k :: 0 <= j < k < |ex| ==> ex[j].index < ex[k].index)
  }

  lemma {:induction false} ExceptsAreSorted(elements: seq<Element>, bits: nat)
    requires bits > 0
    ensures AreExcepts(ExceptsOf(elements, bits), elements)
  {
    hide AreExcepts;
    if elements == [] {
      NoExcepts();
    } else {
      var n := |elements| - 1;
      ExceptsAreSorted(elements[..n], bits);
      OneMoreElement(ExceptsOf(elements[..n], bits), elements);
    }
  }

  lemma NoExcepts()
    ensures AreExcepts([], [])
  {
  }

  lemma OneMoreElement(ex: seq<IndexValue>, elements: seq<Element>)
    requires elements != [] && AreExcepts(ex, elements[..|elements| - 1])
    ensures AreExcepts(ex, elements)
    ensures elements[|elements| - 1].Some? ==> AreExcepts(ex + [IndexValue(|elements| - 1, elements[|elements| - 1].value)], elements)
    ensures ex + [] == ex
  {
    var n := |elements| - 1;
    assert forall k :: 0 <= k < n ==> elements[..n][k] == elements[k];
  }

  lemma {:induction false} ExceptIsListed(elements: seq<Element>, bits: nat, i: nat)
    requires bits > 0 && i < |elements| && elements[i].Some? && elements[i].value >= LargeValue(bits)
    ensures IndexValue(i, elements[i].value) in ExceptsOf(elements, bits)
  {
    if i < |elements| - 1 {
      ExceptIsListed(elements[..|elements| - 1], bits, i);
    }
  }

  // The bits of one element among those of all.
  lemma {:induction false} BitsAt(elements: seq<Element>, bits: nat, i: nat)
    requires bits > 0 && i < |elements|
    ensures BitOffset(i, bits) + bits <= |BitsOf(elements, bits)|
    ensures BitsOf(elements, bits)[BitOffset(i, bits)..BitOffset(i, bits) + bits] == FromNat(CodeOf(elements[i], bits), bits)
  {
    hide CodeOf, BitsOf, BitOffset;
    var n := |elements| - 1;
    var front, last := BitsOf(elements[..n], bits), FromNat(CodeOf(elements[n], bits), bits);
    PlaceOfElement(i, bits, n);
    LastElement(elements, bits);
    if i < n {
      BitsAt(elements[..n], bits, i);
      SliceOfFront(front, last, BitOffset(i, bits), BitOffset(i, bits) + bits);
    } else {
      SliceOfBack(front, last);
    }
  }

  lemma LastElement(elements: seq<Element>, bits: nat)
    requires bits > 0 && elements != []
    ensures var n := |elements| - 1;
            BitsOf(elements, bits) == BitsOf(elements[..n], bits) + FromNat(CodeOf(elements[n], bits), bits)
  {
  }

  lemma SliceOfFront(a: seq<bool>, b: seq<bool>, i: nat, j: nat)
    requires i <= j <= |a|
    ensures (a + b)[i..j] == a[i..j]
  {
  }

  lemma SliceOfBack(a: seq<bool>, b: seq<bool>)
    ensures (a + b)[|a|..|a| + |b|] == b
  {
  }

  lemma PlaceOfElement(i: nat, bits: nat, n: nat)
    requires i <= n
    ensures BitOffset(i + 1, bits) == BitOffset(i, bits) + bits && (i < n ==> BitOffset(i, bits) + bits <= BitOffset(n, bits))
    ensures BitOffset(0, bits) == 0
  {
    if i < n {
      assert (n - i - 1) * bits == n * bits - i * bits - bits;
      if n - i - 1 > 0 {
        AtLeastOnce(n - i - 1, bits);
      }
    }
  }

  // ----- Building


  // The vector's table of exceptions: eight bytes for each.
  function ExceptBytes(excepts: seq<IndexValue>): (bytes: seq<nat>)
    ensures |bytes| == 8 * |excepts|
  {
    if excepts == [] then []
    else
      var n := |excepts| - 1;
      ExceptBytes(excepts[..n]) + (Fixed(excepts[n].index, 4) + Fixed(excepts[n].value, 4))
  }

  lemma {:induction false} ExceptAt(excepts: seq<IndexValue>, k: nat)
    requires k < |excepts|
    ensures ExceptBytes(excepts)[8 * k..8 * k + 4] == Fixed(excepts[k].index, 4)
    ensures ExceptBytes(excepts)[8 * k + 4..8 * k + 8] == Fixed(excepts[k].value, 4)
  {
    hide Fixed;
    var n := |excepts| - 1;
    var front, last := ExceptBytes(excepts[..n]), Fixed(excepts[n].index, 4) + Fixed(excepts[n].value, 4);
    if k < n {
      ExceptAt(excepts[..n], k);
      assert (front + last)[8 * k..8 * k + 4] == front[8 * k..8 * k + 4];
      assert (front + last)[8 * k + 4..8 * k + 8] == front[8 * k + 4..8 * k + 8];
    }
  }

  function AlignBytesCount(count: nat): nat {
    if count < 4 then 4 else count
  }

  function Aligned(data: seq<nat>): (r: seq<nat>)
    ensures |r| == AlignBytesCount(|data|) && data <= r
  {
    data + seq(AlignBytesCount(|data|) - |data|, i => 0)
  }

  // What is written for a vector.
  ghost function VectorBytes(elements: seq<Element>, bits: nat): seq<nat>
    requires bits > 0
  {
    Fixed(|elements|, 4) + Aligned(PackAll(BitsOf(elements, bits))) + ExceptBytes(ExceptsOf(elements, bits))
  }

  class Builder {
    const bits: nat
    const data: Sink
    const bitWriter: BitWriter
    const finalWriter: Sink
    var excepts: seq<IndexValue>
    var count: nat
    var optCount: nat
    ghost var elements: seq<Element>

    ghost predicate Valid()
      reads this, data, bitWriter
    {
      && HasBits() && data != finalWriter
      && excepts == ExceptsOf(elements, bits) && count == |elements| && optCount + |excepts| == count
    }

    // The bits of all elements are written or pending.
    ghost predicate HasBits()
      reads this, data, bitWriter
    {
      && 0 < bits <= 16 && bitWriter.Valid() && bitWriter.writer == data
      && data.data == Pack(BitsOf(elements, bits)) && bitWriter.Pending() == Rest(BitsOf(elements, bits))
    }

    constructor (writer: Sink, bits: nat)
      requires 0 < bits <= 16
      ensures Valid() && elements == [] && this.bits == bits && finalWriter == writer && fresh(data) && fresh(bitWriter)
    {
      this.bits := bits;
      finalWriter := writer;
      var sink := new Sink();
      data := sink;
      bitWriter := new BitWriter(sink);
      excepts, count, optCount, elements := [], 0, 0, [];
      new;
      NothingPacked();
    }

    // One element, by its code.
    method PushCode(code: nat, ghost e: Element)
      requires HasBits() && code == CodeOf(e, bits)
      modifies data, bitWriter
      ensures bitWriter.Valid() && data.data == Pack(BitsOf(elements + [e], bits))
      ensures bitWriter.Pending() == Rest(BitsOf(elements + [e], bits))
    {
      hide CodeOf, Pack, Rest, FromNat;
      assert (elements + [e])[..|elements|] == elements;
      WriteAtMost32Bits(bitWriter, code, bits, [], BitsOf(elements, bits));
      assert [] + Pack(BitsOf(elements + [e], bits)) == Pack(BitsOf(elements + [e], bits));
    }

    method PushBack(v: nat)
      requires Valid()
      modifies this, data, bitWriter
      ensures Valid() && elements == old(elements) + [Some(v)]
    {
      hide Pack, Rest, FromNat, BitsOf, Mask, LargeValue, CodeOf, ExceptsOf;
      ghost var e := Some(v);
      PushedElement(elements, e, bits);
      if v >= LargeValue(bits) {
        PushCode(LargeValue(bits), e);
        excepts := excepts + [IndexValue(count, v)];
      } else {
        optCount := optCount + 1;
        PushCode(v, e);
      }
      count := count + 1;
      elements := elements + [e];
    }

    method PushBackUndefined()
      requires Valid()
      modifies this, data, bitWriter
      ensures Valid() && elements == old(elements) + [None]
    {
      hide Pack, Rest, FromNat, BitsOf, Mask, LargeValue, CodeOf, ExceptsOf;
      ghost var e: Element := None;
      PushedElement(elements, e, bits);
      PushCode(Mask(bits), e);
      optCount := optCount + 1;
      count := count + 1;
      elements := elements + [e];
    }

    // The destructor writes everything.
    method Close()
      requires Valid()
      modifies this, data, bitWriter, finalWriter
      ensures finalWriter.data == old(finalWriter.data) + VectorBytes(old(elements), bits)
    {
      hide Pack, Rest, FromNat, BitsOf, Mask, Fixed, ExceptBytes, ExceptsOf, Aligned, ToNat;
      ghost var all := BitsOf(elements, bits);
      bitWriter.Flush();
      assert data.data == PackAll(all);
      finalWriter.data := finalWriter.data + Fixed(count, 4);
      finalWriter.data := finalWriter.data + Aligned(data.data);
      finalWriter.data := finalWriter.data + ExceptBytes(excepts);
    }
  }

  lemma PushedElement(elements: seq<Element>, e: Element, bits: nat)
    requires bits > 0
    ensures CodeOf(e, bits) == if e.None? then Mask(bits) else if e.value >= LargeValue(bits) then LargeValue(bits) else e.value
    ensures ExceptsOf(elements + [e], bits) == ExceptsOf(elements, bits)
              + if e.Some? && e.value >= LargeValue(bits) then [IndexValue(|elements|, e.value)] else []
  {
    hide LargeValue, Mask;
    assert (elements + [e])[..|elements|] == elements;
  }

  lemma NothingPacked()
    ensures Pack([]) == [] && Rest([]) == []
  {
  }

  // ----- Reading

  // A little-endian number of some bytes has the bits of the bytes.
  lemma {:induction false} ValueOfBytes(bytes: seq<nat>)
    requires forall k :: 0 <= k < |bytes| ==> bytes[k] < 256
    ensures FixedValue(bytes) == ToNat(Unpack(bytes))
  {
    if bytes != [] {
      ValueOfBytes(bytes[1..]);
      hide ToNat, FromNat;
      ToNatConcat(FromNat(bytes[0], 8), Unpack(bytes[1..]));
      PowersOfEight();
      SmallValue(bytes[0], 8);
    } else {
      EmptyValue();
    }
  }

  // A shift and a mask cut out the bits from a place on.
  lemma CutOut(all: seq<bool>, from: nat, n: nat)
    requires from + n <= |all|
    ensures LowBits(ShiftRight(ToNat(all), from), n) == ToNat(all[from..from + n])
  {
    hide ToNat, FromNat, Pow2, ShiftRight;
    var v := ToNat(all);
    RoundTrip(all);
    ShiftRightDivides(v, from);
    Bits.Split(v, from, |all|);
    Bits.Split(v / Pow2(from), n, |all| - from);
    assert all[from..][..n] == all[from..from + n];
    ValueOfBits(v / Pow2(from), n);
  }

  // Four bytes of the data are a window of 32 bits.
  lemma Window(data: seq<nat>, o: nat)
    requires o + 4 <= |data|
    ensures |Unpack(data)| == 8 * |data|
    ensures Unpack(data[o..o + 4]) == Unpack(data)[8 * o..8 * o + 32]
  {
    hide Unpack;
    var a, w, b := data[..o], data[o..o + 4], data[o + 4..];
    assert data == a + (w + b);
    UnpackConcat(a, w + b);
    UnpackConcat(w, b);
    UnpackLength(a);
    UnpackLength(w);
    UnpackLength(b);
  }

  // The whole bytes that the bits of a vector take.
  lemma BytesOfBits(all: seq<bool>)
    ensures |PackAll(all)| == (|all| + 7) / 8
    ensures all <= Unpack(Aligned(PackAll(all))) && forall k :: 0 <= k < |Aligned(PackAll(all))| ==> Aligned(PackAll(all))[k] < 256
  {
    hide PackAll, Unpack;
    PackAllBytes(all);
    UnpackPackAll(all);
    var data := PackAll(all);
    var padding := Aligned(data)[|data|..];
    assert Aligned(data) == data + padding;
    UnpackConcat(data, padding);
  }

  lemma CodeFits(e: Element, bits: nat)
    requires bits > 0
    ensures CodeOf(e, bits) < Pow2(bits) && ToNat(FromNat(CodeOf(e, bits), bits)) == CodeOf(e, bits)
  {
    hide ToNat, FromNat;
    SmallValue(CodeOf(e, bits), bits);
  }

  class FixedBitsDDVector {
    const bits: nat
    const size: nat
    const data: seq<nat>
    const vector: seq<nat>

    // Every element has its bits in the data, and every exception is in the table.
    ghost predicate Represents(elements: seq<Element>) {
      && 0 < bits <= 16 && size == |elements| && |data| >= 4
      && BitsOf(elements, bits) <= Unpack(data) && (forall k :: 0 <= k < |data| ==> data[k] < 256)
      && vector == ExceptBytes(ExceptsOf(elements, bits)) && FitIn32Bits(elements)
    }

    constructor Create(file: seq<nat>, bits: nat, ghost elements: seq<Element>)
      requires 0 < bits <= 16 && FitIn32Bits(elements) && file == VectorBytes(elements, bits)
      ensures this.bits == bits && Represents(elements)
    {
      ghost var all := BitsOf(elements, bits);
      VectorParts(file, bits, elements);
      var n := FixedValue(file[..4]);
      var off1 := 4;
      var off2 := AlignBytesCount((BitOffset(n, bits) + 7) / 8) + off1;
      this.bits, size := bits, n;
      data := file[off1..off2];
      vector := file[off2..];
      new;
      hide BitsOf, Unpack, PackAll, Aligned, ExceptBytes, ExceptsOf, Fixed, FixedValue;
      BytesOfBits(all);
    }

    method FindInVector(index: nat, ghost elements: seq<Element>) returns (value: nat)
      requires Represents(elements) && index < |elements| && elements[index].Some? && elements[index].value >= LargeValue(bits)
      ensures value == elements[index].value
    {
      hide BitsOf, Unpack, ExceptBytes, Mask, LargeValue, Fixed, FixedValue;
      ghost var ex := ExceptsOf(elements, bits);
      ExceptsAreSorted(elements, bits);
      ExceptIsListed(elements, bits, index);
      ghost var at :| 0 <= at < |ex| && ex[at] == IndexValue(index, elements[index].value);
      var lo, hi := 0, |vector| / 8;
      while lo < hi
        invariant 0 <= lo <= at <= hi <= |ex| == |vector| / 8
        invariant hi < |ex| ==> ex[hi].index >= index
      {
        var mid := (lo + hi) / 2;
        ReadExcept(elements, ex, mid);
        if FixedValue(vector[8 * mid..8 * mid + 4]) < index {
          assert ex[mid].index < index;
          lo := mid + 1;
        } else {
          hi := mid;
        }
      }
      ReadExcept(elements, ex, lo);
      value := FixedValue(vector[8 * lo + 4..8 * lo + 8]);
    }

    lemma ReadExcept(elements: seq<Element>, ex: seq<IndexValue>, k: nat)
      requires Represents(elements) && ex == ExceptsOf(elements, bits) && k < |ex|
      ensures |vector| == 8 * |ex|
      ensures FixedValue(vector[8 * k..8 * k + 4]) == ex[k].index && FixedValue(vector[8 * k + 4..8 * k + 8]) == ex[k].value
    {
      hide BitsOf, Unpack, ExceptBytes, Fixed, FixedValue, ExceptsOf;
      ExceptsAreSorted(elements, bits);
      ExceptAt(ex, k);
      assert elements[ex[k].index] == Some(ex[k].value);
      Words32();
      FixedIsExact(ex[k].index, 4);
      FixedIsExact(ex[k].value, 4);
    }

    // An element, or None if it is undefined.
    method Get(index: nat, ghost elements: seq<Element>) returns (r: Element)
      requires Represents(elements) && index < size
      ensures r == elements[index]
    {
      hide BitsOf, Unpack, ExceptBytes, Fixed, FixedValue, ExceptsOf, ShiftRight, LowBits, CodeOf;
      var bitsOffset := BitOffset(index, bits);
      var bytesOffset := bitsOffset / 8;
      if bytesOffset + 4 > |data| {
        bytesOffset := |data| - 4;
      }
      BitsAt(elements, bits, index);
      Window(data, bytesOffset);
      var shift := bitsOffset - bytesOffset * 8;
      assert shift >= 0 && shift + bits <= 32;
      var v := FixedValue(data[bytesOffset..bytesOffset + 4]);
      ReadCode(elements, index, bytesOffset, shift);
      v := ShiftRight(v, shift);
      v := LowBits(v, bits);
      PushedElement(elements[..index], elements[index], bits);
      if v == Mask(bits) {
        return None;
      }
      if v < LargeValue(bits) {
        return Some(v);
      }
      var value := FindInVector(index, elements);
      r := Some(value);
    }

    lemma ReadCode(elements: seq<Element>, index: nat, o: nat, shift: nat)
      requires Represents(elements) && index < |elements| && o + 4 <= |data| && BitOffset(index, bits) == 8 * o + shift && shift + bits <= 32
      ensures LowBits(ShiftRight(FixedValue(data[o..o + 4]), shift), bits) == CodeOf(elements[index], bits)
    {
      hide BitsOf, Unpack, ExceptBytes, FixedValue, ExceptsOf, ShiftRight, LowBits, CodeOf, FromNat, ToNat;
      Window(data, o);
      var all, window := Unpack(data), Unpack(data[o..o + 4]);
      ValueOfBytes(data[o..o + 4]);
      CutOut(window, shift, bits);
      BitsAt(elements, bits, index);
      CodeFits(elements[index], bits);
      SliceOfSlice(all, 8 * o, 8 * o + 32, shift, shift + bits);
      SliceOfPrefix(BitsOf(elements, bits), all, BitOffset(index, bits), BitOffset(index, bits) + bits);
    }
  }

  lemma SliceOfSlice(s: seq<bool>, from: nat, to: nat, i: nat, j: nat)
    requires from <= to <= |s| && i <= j <= to - from
    ensures s[from..to][i..j] == s[from + i..from + j]
  {
    forall k | 0 <= k < j - i
      ensures s[from..to][i..j][k] == s[from + i..from + j][k]
    {
      assert s[from..to][i + k] == s[from + (i + k)];
    }
  }

  lemma SliceOfPrefix(p: seq<bool>, s: seq<bool>, i: nat, j: nat)
    requires p <= s && i <= j <= |p|
    ensures p[i..j] == s[i..j]
  {
  }

  // Places and values are numbers of 32 bits.
  ghost predicate FitIn32Bits(elements: seq<Element>) {
    |elements| < 0x1_0000_0000 && forall i :: 0 <= i < |elements| && elements[i].Some? ==> elements[i].value < 0x1_0000_0000
  }

  lemma Words32()
    ensures Pow256(4) == 0x1_0000_0000
  {
    assert Pow256(2) == 0x1_0000;
  }

  lemma VectorParts(file: seq<nat>, bits: nat, elements: seq<Element>)
    requires 0 < bits <= 16 && FitIn32Bits(elements) && file == VectorBytes(elements, bits)
    ensures |file| >= 4 && FixedValue(file[..4]) == |elements|
    ensures var off2 := AlignBytesCount((BitOffset(|elements|, bits) + 7) / 8) + 4;
            && off2 <= |file| && file[4..off2] == Aligned(PackAll(BitsOf(elements, bits)))
            && file[off2..] == ExceptBytes(ExceptsOf(elements, bits))
  {
    hide BitsOf, PackAll, ExceptBytes, ExceptsOf, Fixed, FixedValue;
    Words32();
    FixedIsExact(|elements|, 4);
    BytesOfBits(BitsOf(elements, bits));
    var data := Aligned(PackAll(BitsOf(elements, bits)));
    assert file[..4] == Fixed(|elements|, 4);
    assert file[4..4 + |data|] == data;
    assert file[4 + |data|..] == ExceptBytes(ExceptsOf(elements, bits));
  }
}
