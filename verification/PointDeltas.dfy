/**
 Differences of points as single numbers: zig-zag coding and the interleaving of bits.
 */
module PointDeltas {

  // ----- base/bits.hpp

  function ZigZagEncode(x: bv32): bv32 {
    (x << 1) ^ (if x & 0x8000_0000 != 0 then 0xFFFF_FFFF else 0)
  }

  function ZigZagDecode(x: bv32): bv32 {
    (x >> 1) ^ (0 - (x & 1))
  }

  function PerfectShuffle(x0: bv32): bv32 {
    var x1: bv32 := ((x0 & 0x0000_FF00) << 8) | ((x0 >> 8) & 0x0000_FF00) | (x0 & 0xFF00_00FF);
    var x2: bv32 := ((x1 & 0x00F0_00F0) << 4) | ((x1 >> 4) & 0x00F0_00F0) | (x1 & 0xF00F_F00F);
    var x3: bv32 := ((x2 & 0x0C0C_0C0C) << 2) | ((x2 >> 2) & 0x0C0C_0C0C) | (x2 & 0xC3C3_C3C3);
    ((x3 & 0x2222_2222) << 1) | ((x3 >> 1) & 0x2222_2222) | (x3 & 0x9999_9999)
  }

  function PerfectUnshuffle(x0: bv32): bv32 {
    var x1: bv32 := ((x0 & 0x2222_2222) << 1) | ((x0 >> 1) & 0x2222_2222) | (x0 & 0x9999_9999);
    var x2: bv32 := ((x1 & 0x0C0C_0C0C) << 2) | ((x1 >> 2) & 0x0C0C_0C0C) | (x1 & 0xC3C3_C3C3);
    var x3: bv32 := ((x2 & 0x00F0_00F0) << 4) | ((x2 >> 4) & 0x00F0_00F0) | (x2 & 0xF00F_F00F);
    ((x3 & 0x0000_FF00) << 8) | ((x3 >> 8) & 0x0000_FF00) | (x3 & 0xFF00_00FF)
  }

  // The upper and the lower halves of two words, and two words as one of 64 bits.
  function UpperHalves(x: bv32, y: bv32): bv32 { (y & 0xFFFF_0000) | (x >> 16) }
  function LowerHalves(x: bv32, y: bv32): bv32 { ((y & 0xFFFF) << 16) | (x & 0xFFFF) }
  function Join(hi: bv32, lo: bv32): bv64 { ((hi as bv64) << 32) + lo as bv64 }
  function High(v: bv64): bv32 { (v >> 32) as bv32 }
  function Low(v: bv64): bv32 { (v & 0xFFFF_FFFF) as bv32 }

  function BitwiseMerge(x: bv32, y: bv32): bv64 {
    Join(PerfectShuffle(UpperHalves(x, y)), PerfectShuffle(LowerHalves(x, y)))
  }

  function FirstWord(hi: bv32, lo: bv32): bv32 { ((hi & 0xFFFF) << 16) | (lo & 0xFFFF) }
  function SecondWord(hi: bv32, lo: bv32): bv32 { (hi & 0xFFFF_0000) | (lo >> 16) }

  function BitwiseSplit(v: bv64): (bv32, bv32) {
    var hi := PerfectUnshuffle(High(v));
    var lo := PerfectUnshuffle(Low(v));
    (FirstWord(hi, lo), SecondWord(hi, lo))
  }

  lemma ZigZagRoundTrip(x: bv32)
    ensures ZigZagDecode(ZigZagEncode(x)) == x
  {
    hide ZigZagDecode;
    if x & 0x8000_0000 != 0 {
      OddEncoding(x);
      DecodeOdd((x << 1) ^ 0xFFFF_FFFF);
      NegativeBits(x);
    } else {
      EvenEncoding(x);
      DecodeEven(x << 1);
      PositiveBits(x);
    }
  }

  // What the code means: twice a number that is not negative, and twice the absolute value less one of
  // one that is.
  lemma ZigZagMeans(x: bv32)
    ensures x < 0x8000_0000 ==> ZigZagEncode(x) == x * 2
    ensures x >= 0x8000_0000 ==> ZigZagEncode(x) == (0 - x) * 2 - 1
  {
    SignBit(x);
    if x < 0x8000_0000 {
      EvenEncoding(x);
      TwiceIsShift(x);
    } else {
      OddEncoding(x);
      TwiceIsShift(0 - x);
      ComplementIsNegative(x);
    }
  }

  lemma SignBit(x: bv32)
    ensures x < 0x8000_0000 <==> x & 0x8000_0000 == 0
  {
  }

  lemma TwiceIsShift(x: bv32)
    ensures x * 2 == x << 1
  {
  }

  lemma ComplementIsNegative(x: bv32)
    ensures (x << 1) ^ 0xFFFF_FFFF == ((0 - x) << 1) - 1
  {
  }

  lemma ZigZagOnto(e: bv32)
    ensures ZigZagEncode(ZigZagDecode(e)) == e
  {
    hide ZigZagEncode;
    if e & 1 == 1 {
      DecodeOdd(e);
      OddIsNegative(e);
      OddEncoding((e >> 1) ^ 0xFFFF_FFFF);
    } else {
      DecodeEven(e);
      EvenIsPositive(e);
      EvenEncoding((e >> 1) ^ 0);
    }
  }

  lemma OddIsNegative(e: bv32)
    requires e & 1 == 1
    ensures ((e >> 1) ^ 0xFFFF_FFFF) & 0x8000_0000 != 0
    ensures (((e >> 1) ^ 0xFFFF_FFFF) << 1) ^ 0xFFFF_FFFF == e
  {
  }

  lemma EvenIsPositive(e: bv32)
    requires e & 1 != 1
    ensures e & 1 == 0 && ((e >> 1) ^ 0) & 0x8000_0000 == 0
    ensures ((e >> 1) ^ 0) << 1 == e
  {
  }

  lemma OddEncoding(x: bv32)
    requires x & 0x8000_0000 != 0
    ensures ZigZagEncode(x) == (x << 1) ^ 0xFFFF_FFFF && ((x << 1) ^ 0xFFFF_FFFF) & 1 == 1
  {
  }

  lemma EvenEncoding(x: bv32)
    requires x & 0x8000_0000 == 0
    ensures ZigZagEncode(x) == x << 1 && (x << 1) & 1 == 0
  {
  }

  lemma DecodeOdd(e: bv32)
    requires e & 1 == 1
    ensures ZigZagDecode(e) == (e >> 1) ^ 0xFFFF_FFFF
  {
  }

  lemma DecodeEven(e: bv32)
    requires e & 1 == 0
    ensures ZigZagDecode(e) == (e >> 1) ^ 0
  {
  }

  lemma NegativeBits(x: bv32)
    requires x & 0x8000_0000 != 0
    ensures (((x << 1) ^ 0xFFFF_FFFF) >> 1) ^ 0xFFFF_FFFF == x
  {
  }

  lemma PositiveBits(x: bv32)
    requires x & 0x8000_0000 == 0
    ensures ((x << 1) >> 1) ^ 0 == x
  {
  }

  lemma ShuffleRoundTrip(x: bv32)
    ensures PerfectUnshuffle(PerfectShuffle(x)) == x
  {
  }

  lemma SplitUndoesMerge(x: bv32, y: bv32)
    ensures BitwiseSplit(BitwiseMerge(x, y)) == (x, y)
  {
    hide PerfectShuffle, PerfectUnshuffle, UpperHalves, LowerHalves, Join, High, Low, FirstWord, SecondWord;
    var h, l := UpperHalves(x, y), LowerHalves(x, y);
    ShuffleRoundTrip(h);
    ShuffleRoundTrip(l);
    JoinRoundTrip(PerfectShuffle(h), PerfectShuffle(l));
    HalvesRoundTrip(x, y);
  }

  lemma MergeUndoesSplit(v: bv64)
    ensures BitwiseMerge(BitwiseSplit(v).0, BitwiseSplit(v).1) == v
  {
    hide PerfectShuffle, PerfectUnshuffle, UpperHalves, LowerHalves, Join, High, Low, FirstWord, SecondWord;
    var hi, lo := PerfectUnshuffle(High(v)), PerfectUnshuffle(Low(v));
    HalvesOnto(hi, lo);
    ShuffleOnto(High(v));
    ShuffleOnto(Low(v));
    JoinOnto(v);
  }

  lemma ShuffleOnto(x: bv32)
    ensures PerfectShuffle(PerfectUnshuffle(x)) == x
  {
  }

  lemma JoinOnto(v: bv64)
    ensures Join(High(v), Low(v)) == v
  {
  }

  lemma HalvesOnto(hi: bv32, lo: bv32)
    ensures UpperHalves(FirstWord(hi, lo), SecondWord(hi, lo)) == hi
    ensures LowerHalves(FirstWord(hi, lo), SecondWord(hi, lo)) == lo
  {
  }

  lemma JoinRoundTrip(hi: bv32, lo: bv32)
    ensures High(Join(hi, lo)) == hi && Low(Join(hi, lo)) == lo
  {
  }

  lemma HalvesRoundTrip(x: bv32, y: bv32)
    ensures FirstWord(UpperHalves(x, y), LowerHalves(x, y)) == x
    ensures SecondWord(UpperHalves(x, y), LowerHalves(x, y)) == y
  {
  }

  // ----- The order of the merged bits

  function BitOf(x: bv32, i: bv5): bool { (x >> i) & 1 == 1 }
  function BitOfTwo(v: bv64, i: bv6): bool { (v >> i) & 1 == 1 }

  // The bits of x are at the even places of the merged word, and those of y at the odd ones.
  lemma MergeInterleaves(x: bv32, y: bv32, i: bv5)
    ensures BitOfTwo(BitwiseMerge(x, y), 2 * (i as bv6)) == BitOf(x, i)
    ensures BitOfTwo(BitwiseMerge(x, y), 2 * (i as bv6) + 1) == BitOf(y, i)
  {
    hide PerfectShuffle, UpperHalves, LowerHalves, Join, BitOf, BitOfTwo;
    var h, l := UpperHalves(x, y), LowerHalves(x, y);
    var hi, lo := PerfectShuffle(h), PerfectShuffle(l);
    PlaceInHalf(i);
    if i < 16 {
      ShuffleInterleaves(l, i);
      LowerHalfBits(x, y, i);
      JoinBits(hi, lo, 2 * i);
      JoinBits(hi, lo, 2 * i + 1);
    } else {
      var k := i - 16;
      ShuffleInterleaves(h, k);
      UpperHalfBits(x, y, k);
      JoinBits(hi, lo, 2 * k);
      JoinBits(hi, lo, 2 * k + 1);
    }
  }

  lemma ShuffleInterleaves(x: bv32, i: bv5)
    requires i < 16
    ensures BitOf(PerfectShuffle(x), 2 * i) == BitOf(x, i) && BitOf(PerfectShuffle(x), 2 * i + 1) == BitOf(x, i + 16)
  {
  }

  lemma LowerHalfBits(x: bv32, y: bv32, i: bv5)
    requires i < 16
    ensures BitOf(LowerHalves(x, y), i) == BitOf(x, i) && BitOf(LowerHalves(x, y), i + 16) == BitOf(y, i)
  {
  }

  lemma UpperHalfBits(x: bv32, y: bv32, i: bv5)
    requires i < 16
    ensures BitOf(UpperHalves(x, y), i) == BitOf(x, i + 16) && BitOf(UpperHalves(x, y), i + 16) == BitOf(y, i + 16)
  {
  }

  lemma JoinBits(hi: bv32, lo: bv32, i: bv5)
    ensures BitOfTwo(Join(hi, lo), i as bv6) == BitOf(lo, i) && BitOfTwo(Join(hi, lo), (i as bv6) + 32) == BitOf(hi, i)
  {
  }

  lemma PlaceInHalf(i: bv5)
    ensures i < 16 ==> (2 * i) as bv6 == 2 * (i as bv6) && (2 * i + 1) as bv6 == 2 * (i as bv6) + 1
    ensures i >= 16 ==>
              var k := i - 16;
              k < 16 && k + 16 == i && (2 * k) as bv6 + 32 == 2 * (i as bv6) && (2 * k + 1) as bv6 + 32 == 2 * (i as bv6) + 1
  {
  }

  // ----- Points

  datatype Point = Point(x: bv32, y: bv32)

  // Coordinates are subtracted and added as 32-bit words.
  function Difference(a: bv32, p: bv32): bv32 { a - p }
  function Sum(p: bv32, d: bv32): bv32 { p + d }

  function EncodePointDeltaAsUint(actual: Point, prediction: Point): bv64 {
    BitwiseMerge(ZigZagEncode(Difference(actual.x, prediction.x)), ZigZagEncode(Difference(actual.y, prediction.y)))
  }

  function DecodePointDeltaFromUint(delta: bv64, prediction: Point): Point {
    var (x, y) := BitwiseSplit(delta);
    Point(Sum(prediction.x, ZigZagDecode(x)), Sum(prediction.y, ZigZagDecode(y)))
  }

  // A point is restored from its delta, whatever was predicted.
  lemma DeltaRoundTrip(actual: Point, prediction: Point)
    ensures DecodePointDeltaFromUint(EncodePointDeltaAsUint(actual, prediction), prediction) == actual
  {
    hide BitwiseMerge, BitwiseSplit, ZigZagEncode, ZigZagDecode, Difference, Sum;
    var dx, dy := Difference(actual.x, prediction.x), Difference(actual.y, prediction.y);
    SplitUndoesMerge(ZigZagEncode(dx), ZigZagEncode(dy));
    ZigZagRoundTrip(dx);
    ZigZagRoundTrip(dy);
    AddBack(actual.x, prediction.x);
    AddBack(actual.y, prediction.y);
  }

  lemma AddBack(a: bv32, p: bv32)
    ensures Sum(p, Difference(a, p)) == a
  {
    hide Sum;
    SumOfDifference(a, p);
  }

  lemma SumOfDifference(a: bv32, p: bv32)
    ensures Sum(p, a - p) == a
  {
  }

  // Every delta is that of the point it is decoded to.
  lemma DeltaOnto(delta: bv64, prediction: Point)
    ensures EncodePointDeltaAsUint(DecodePointDeltaFromUint(delta, prediction), prediction) == delta
  {
    hide BitwiseMerge, BitwiseSplit, ZigZagEncode, ZigZagDecode, Difference, Sum;
    var (x, y) := BitwiseSplit(delta);
    TakeAway(prediction.x, ZigZagDecode(x));
    TakeAway(prediction.y, ZigZagDecode(y));
    ZigZagOnto(x);
    ZigZagOnto(y);
    MergeUndoesSplit(delta);
  }

  lemma TakeAway(p: bv32, d: bv32)
    ensures Difference(Sum(p, d), p) == d
  {
    hide Difference;
    DifferenceOfSum(p, d);
  }

  lemma DifferenceOfSum(p: bv32, d: bv32)
    ensures Difference(p + d, p) == d
  {
  }

  // Bit 2i of a delta is bit i of the zig-zag code of the difference in x, bit 2i + 1 that in y.
  lemma DeltaBits(actual: Point, prediction: Point, i: bv5)
    ensures var delta := EncodePointDeltaAsUint(actual, prediction);
            && BitOfTwo(delta, 2 * (i as bv6)) == BitOf(ZigZagEncode(actual.x - prediction.x), i)
            && BitOfTwo(delta, 2 * (i as bv6) + 1) == BitOf(ZigZagEncode(actual.y - prediction.y), i)
  {
    hide BitwiseMerge, ZigZagEncode, BitOf, BitOfTwo, Difference;
    DifferenceIs(actual.x, prediction.x);
    DifferenceIs(actual.y, prediction.y);
    MergeInterleaves(ZigZagEncode(Difference(actual.x, prediction.x)), ZigZagEncode(Difference(actual.y, prediction.y)), i);
  }

  lemma DifferenceIs(a: bv32, p: bv32)
    ensures Difference(a, p) == a - p
  {
  }

  // The same for the point that any delta is decoded to.
  lemma DecodedBits(delta: bv64, prediction: Point, i: bv5)
    ensures var point := DecodePointDeltaFromUint(delta, prediction);
            && BitOf(ZigZagEncode(point.x - prediction.x), i) == BitOfTwo(delta, 2 * (i as bv6))
            && BitOf(ZigZagEncode(point.y - prediction.y), i) == BitOfTwo(delta, 2 * (i as bv6) + 1)
  {
    hide EncodePointDeltaAsUint, DecodePointDeltaFromUint, ZigZagEncode, BitOf, BitOfTwo;
    DeltaOnto(delta, prediction);
    DeltaBits(DecodePointDeltaFromUint(delta, prediction), prediction, i);
  }

  // The difference, as a signed number, is at least -2^30 and less than 2^30.
  predicate IsClose(a: bv32, p: bv32) {
    Difference(a, p) + 0x4000_0000 < 0x8000_0000
  }

  // A delta leaves two bits of the word free exactly when both coordinates are close to the predicted ones.
  lemma DeltaFitsIff(actual: Point, prediction: Point)
    ensures EncodePointDeltaAsUint(actual, prediction) >> 62 == 0 <==>
            IsClose(actual.x, prediction.x) && IsClose(actual.y, prediction.y)
  {
    hide BitwiseMerge, ZigZagEncode, Difference, IsClose;
    CloseZigZag(actual.x, prediction.x);
    CloseZigZag(actual.y, prediction.y);
    MergeFitsIff(ZigZagEncode(Difference(actual.x, prediction.x)), ZigZagEncode(Difference(actual.y, prediction.y)));
  }

  lemma CloseZigZag(a: bv32, p: bv32)
    ensures ZigZagEncode(Difference(a, p)) < 0x8000_0000 <==> IsClose(a, p)
  {
    hide Difference;
  }

  lemma MergeFitsIff(x: bv32, y: bv32)
    ensures BitwiseMerge(x, y) >> 62 == 0 <==> x < 0x8000_0000 && y < 0x8000_0000
  {
  }
}
