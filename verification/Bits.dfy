/**
 Numbers as lists of bits, the least significant first, and bit lists packed into bytes.
 */
module Bits {

  function Pow2(n: nat): (p: nat)
    ensures p > 0
  {
    if n == 0 then 1 else 2 * Pow2(n - 1)
  }

  // v << k, v >> k and the n low bits of v.
  function ShiftLeft(v: nat, k: nat): nat { v * Pow2(k) }
  function ShiftRight(v: nat, k: nat): nat { if k == 0 then v else ShiftRight(v / 2, k - 1) }
  function LowBits(v: nat, n: nat): nat { v % Pow2(n) }

  function ToNat(bits: seq<bool>): nat {
    if bits == [] then 0 else (if bits[0] then 1 else 0) + 2 * ToNat(bits[1..])
  }

  // The n least significant bits of v.
  function FromNat(v: nat, n: nat): (bits: seq<bool>)
    ensures |bits| == n
  {
    if n == 0 then [] else [v % 2 == 1] + FromNat(v / 2, n - 1)
  }

  lemma {:induction false} ToNatBound(bits: seq<bool>)
    ensures ToNat(bits) < Pow2(|bits|)
  {
    if bits != [] {
      ToNatBound(bits[1..]);
    }
  }

  lemma {:induction false} RoundTrip(bits: seq<bool>)
    ensures FromNat(ToNat(bits), |bits|) == bits
  {
    if bits != [] {
      RoundTrip(bits[1..]);
      var v := ToNat(bits);
      assert v / 2 == ToNat(bits[1..]) && (v % 2 == 1 <==> bits[0]);
    }
  }

  lemma {:induction false} ValueOfBits(v: nat, n: nat)
    ensures ToNat(FromNat(v, n)) == v % Pow2(n)
  {
    if n > 0 {
      ValueOfBits(v / 2, n - 1);
      var bits := FromNat(v, n);
      assert bits[1..] == FromNat(v / 2, n - 1);
      HalveMod(v, Pow2(n - 1));
    }
  }

  lemma HalveMod(v: nat, p: nat)
    requires p > 0
    ensures v % (2 * p) == v % 2 + 2 * ((v / 2) % p)
  {
    var h := v / 2;
    var q, r := h / p, h % p;
    assert v == v % 2 + 2 * (q * p + r);
    assert v == q * (2 * p) + (v % 2 + 2 * r);
    DivModUnique(v, 2 * p, q, v % 2 + 2 * r);
  }

  lemma DivModUnique(v: int, d: nat, q: int, r: nat)
    requires d > 0 && v == q * d + r && r < d
    ensures v / d == q && v % d == r
  {
    var q', r' := v / d, v % d;
    assert q' * d + r' == q * d + r;
    if q' < q {
      assert (q - q') * d == q * d - q' * d;
      AtLeastOnce(q - q', d);
    } else if q < q' {
      assert (q' - q) * d == q' * d - q * d;
      AtLeastOnce(q' - q, d);
    }
  }

  lemma {:induction false} AtLeastOnce(k: nat, d: nat)
    requires k > 0
    ensures k * d >= d
  {
    if k > 1 {
      AtLeastOnce(k - 1, d);
      assert k * d == (k - 1) * d + d;
    }
  }

  lemma {:induction false} ToNatConcat(a: seq<bool>, b: seq<bool>)
    ensures ToNat(a + b) == ToNat(a) + Pow2(|a|) * ToNat(b)
  {
    if a == [] {
      assert a + b == b;
    } else {
      assert (a + b)[1..] == a[1..] + b;
      ToNatConcat(a[1..], b);
      DoubleProduct(Pow2(|a| - 1), ToNat(b));
    }
  }

  lemma DoubleProduct(p: nat, v: nat)
    ensures (2 * p) * v == 2 * (p * v)
  {
  }

  // The low m bits and the rest.
  lemma {:induction false} Split(v: nat, m: nat, n: nat)
    requires m <= n
    ensures FromNat(v, n)[..m] == FromNat(v, m) && v / Pow2(m) >= 0
    ensures FromNat(v, n)[m..] == FromNat(v / Pow2(m), n - m)
  {
    if m > 0 {
      Split(v / 2, m - 1, n - 1);
      DivTwice(v, Pow2(m - 1));
      assert FromNat(v, n)[1..] == FromNat(v / 2, n - 1);
      assert FromNat(v, n)[..m] == [v % 2 == 1] + FromNat(v / 2, n - 1)[..m - 1];
      assert FromNat(v, n)[m..] == FromNat(v / 2, n - 1)[m - 1..];
    }
  }

  lemma DivTwice(v: nat, p: nat)
    requires p > 0
    ensures v / (2 * p) == (v / 2) / p
  {
    var h := v / 2;
    var q, r := h / p, h % p;
    assert v == q * (2 * p) + (v % 2 + 2 * r);
    DivModUnique(v, 2 * p, q, v % 2 + 2 * r);
  }

  lemma {:induction false} ShiftRightDivides(v: nat, k: nat)
    ensures ShiftRight(v, k) == v / Pow2(k)
  {
    if k > 0 {
      ShiftRightDivides(v / 2, k - 1);
      DivTwice(v, Pow2(k - 1));
    }
  }

  lemma {:induction false} Pow2Sum(a: nat, b: nat)
    ensures Pow2(a + b) == Pow2(a) * Pow2(b)
  {
    if a > 0 {
      Pow2Sum(a - 1, b);
    }
  }

  lemma PowersOfEight()
    ensures Pow2(8) == 256
  {
    assert Pow2(4) == 16;
  }

  // Bits beyond the n-th do not matter.
  lemma {:induction false} OnlyLowBits(v: nat, n: nat)
    ensures FromNat(v % Pow2(n), n) == FromNat(v, n)
  {
    ValueOfBits(v, n);
    RoundTrip(FromNat(v, n));
  }

  lemma SmallValue(v: nat, n: nat)
    requires v < Pow2(n)
    ensures ToNat(FromNat(v, n)) == v
  {
    ValueOfBits(v, n);
    DivModUnique(v, Pow2(n), 0, v);
  }

  // Dropping the m low bits of a number of n bits leaves one of n - m bits.
  lemma DropBits(v: nat, m: nat, n: nat)
    requires m <= n && v < Pow2(n)
    ensures v / Pow2(m) < Pow2(n - m)
  {
    hide Pow2, FromNat, ToNat;
    Split(v, m, n);
    SmallValue(v, n);
    var low, high := FromNat(v, n)[..m], FromNat(v, n)[m..];
    assert FromNat(v, n) == low + high;
    ToNatConcat(low, high);
    ToNatBound(low);
    ToNatBound(high);
    Commutes(Pow2(m), ToNat(high));
    DivModUnique(v, Pow2(m), ToNat(high), ToNat(low));
  }

  lemma Commutes(a: nat, b: nat)
    ensures a * b == b * a
  {
  }

  // Fewer than eight bits make no byte, eight make one.
  lemma PackShort(bits: seq<bool>)
    requires |bits| <= 8
    ensures |bits| < 8 ==> Pack(bits) == [] && Rest(bits) == bits
    ensures |bits| == 8 ==> Pack(bits) == [ToNat(bits)] && Rest(bits) == []
  {
    if |bits| == 8 {
      assert bits[..8] == bits && bits[8..] == [];
    }
  }

  // ----- Packing

  // The bytes that the bits fill completely.
  function Pack(bits: seq<bool>): seq<nat> {
    if |bits| < 8 then [] else [ToNat(bits[..8])] + Pack(bits[8..])
  }

  // The bits left over behind the last full byte.
  function Rest(bits: seq<bool>): (r: seq<bool>)
    ensures |r| == |bits| % 8
  {
    if |bits| < 8 then bits else Rest(bits[8..])
  }

  // All bits, the last byte filled up with zeros.
  function PackAll(bits: seq<bool>): seq<nat> {
    Pack(bits) + if Rest(bits) == [] then [] else [ToNat(Rest(bits))]
  }

  function Unpack(bytes: seq<nat>): seq<bool> {
    if bytes == [] then [] else FromNat(bytes[0], 8) + Unpack(bytes[1..])
  }

  lemma {:induction false} PackConcat(a: seq<bool>, b: seq<bool>)
    ensures Pack(a + b) == Pack(a) + Pack(Rest(a) + b)
    ensures Rest(a + b) == Rest(Rest(a) + b)
    decreases |a|
  {
    if |a| >= 8 {
      assert (a + b)[..8] == a[..8] && (a + b)[8..] == a[8..] + b;
      PackConcat(a[8..], b);
    }
  }

  lemma {:induction false} UnpackConcat(a: seq<nat>, b: seq<nat>)
    ensures Unpack(a + b) == Unpack(a) + Unpack(b)
  {
    if a == [] {
      assert a + b == b;
    } else {
      assert (a + b)[1..] == a[1..] + b;
      UnpackConcat(a[1..], b);
    }
  }

  lemma {:induction false} UnpackLength(bytes: seq<nat>)
    ensures |Unpack(bytes)| == 8 * |bytes|
  {
    if bytes != [] {
      UnpackLength(bytes[1..]);
    }
  }

  // Unpacking gives the bits back, followed by less than a byte of padding.
  lemma {:induction false} UnpackPackAll(bits: seq<bool>)
    ensures bits <= Unpack(PackAll(bits))
    ensures |Unpack(PackAll(bits))| - |bits| < 8
    decreases |bits|
  {
    if bits == [] {
    } else if |bits| < 8 {
      PadToByte(bits);
      assert PackAll(bits) == [ToNat(bits)];
      assert [ToNat(bits)][1..] == [];
      assert Unpack([ToNat(bits)]) == FromNat(ToNat(bits), 8) + [];
    } else {
      UnpackPackAll(bits[8..]);
      var first, tl := ToNat(bits[..8]), PackAll(bits[8..]);
      assert PackAll(bits) == [first] + tl;
      assert ([first] + tl)[1..] == tl;
      RoundTrip(bits[..8]);
      assert bits == bits[..8] + bits[8..];
    }
  }

  lemma PadToByte(bits: seq<bool>)
    requires |bits| <= 8
    ensures FromNat(ToNat(bits), 8)[..|bits|] == bits
  {
    Split(ToNat(bits), |bits|, 8);
    RoundTrip(bits);
  }

  lemma {:induction false} PackLength(bits: seq<bool>)
    ensures |Pack(bits)| == |bits| / 8
    decreases |bits|
  {
    if |bits| >= 8 {
      PackLength(bits[8..]);
    }
  }

  lemma {:induction false} PackedBytes(bits: seq<bool>)
    ensures forall k :: 0 <= k < |Pack(bits)| ==> Pack(bits)[k] < 256
    decreases |bits|
  {
    PowersOfEight();
    if |bits| >= 8 {
      ToNatBound(bits[..8]);
      PackedBytes(bits[8..]);
    }
  }

  lemma {:induction false} PackAllBytes(bits: seq<bool>)
    ensures forall k :: 0 <= k < |PackAll(bits)| ==> PackAll(bits)[k] < 256
    ensures 8 * |PackAll(bits)| - 8 < |bits| <= 8 * |PackAll(bits)|
  {
    PackedBytes(bits);
    PackLength(bits);
    ToNatBound(Rest(bits));
    PowersOfEight();
    Pow2Grows(|Rest(bits)|, 8);
  }

  lemma {:induction false} Pow2Grows(a: nat, b: nat)
    requires a <= b
    ensures Pow2(a) <= Pow2(b)
    decreases b - a
  {
    if a < b {
      Pow2Grows(a, b - 1);
    }
  }

  // ----- Which bit of which byte

  lemma DivideTwice(v: nat, a: nat, b: nat)
    requires a > 0 && b > 0
    ensures a * b > 0 && (v / a) / b == v / (a * b)
  {
    var w, r := v / a, v % a;
    Nested(v, a, b, w, r, w / b, w % b);
    DivModUnique(v, a * b, w / b, a * (w % b) + r);
  }

  lemma Nested(v: nat, a: nat, b: nat, w: nat, r: nat, q: nat, r': nat)
    requires v == a * w + r && r < a && w == b * q + r' && r' < b
    ensures v == q * (a * b) + (a * r' + r) && a * r' + r < a * b
  {
    Distribute(a, b * q, r');
    Exchange(a, b, q);
    AtMostTimes(a, r' + 1, b);
    Distribute(a, r', 1);
  }

  lemma Distribute(a: nat, x: nat, y: nat)
    ensures a * (x + y) == a * x + a * y
  {
  }

  lemma Exchange(a: nat, b: nat, q: nat)
    ensures a * (b * q) == q * (a * b)
  {
  }

  lemma AtMostTimes(a: nat, x: nat, y: nat)
    requires x <= y
    ensures a * x <= a * y
  {
  }

  lemma {:induction false} BitOf(v: nat, n: nat, k: nat)
    requires k < n
    ensures FromNat(v, n)[k] <==> (v / Pow2(k)) % 2 == 1
  {
    if k > 0 {
      BitOf(v / 2, n - 1, k - 1);
      DivideTwice(v, 2, Pow2(k - 1));
    }
  }

  lemma {:induction false} UnpackedBit(bytes: seq<nat>, k: nat)
    requires k < 8 * |bytes|
    ensures |Unpack(bytes)| == 8 * |bytes|
    ensures Unpack(bytes)[k] <==> (bytes[k / 8] / Pow2(k % 8)) % 2 == 1
  {
    hide Pow2, FromNat;
    UnpackLength(bytes);
    if k < 8 {
      BitOf(bytes[0], 8, k);
    } else {
      UnpackedBit(bytes[1..], k - 8);
      assert k / 8 == 1 + (k - 8) / 8 && k % 8 == (k - 8) % 8;
    }
  }

  // Bit k of the list is bit k % 8 of byte k / 8.
  lemma PackedBit(bits: seq<bool>, k: nat)
    requires k < |bits|
    ensures k / 8 < |PackAll(bits)|
    ensures bits[k] <==> (PackAll(bits)[k / 8] / Pow2(k % 8)) % 2 == 1
  {
    hide Pow2, Unpack, PackAll;
    UnpackPackAll(bits);
    UnpackLength(PackAll(bits));
    UnpackedBit(PackAll(bits), k);
  }

  // The bits behind the last one are zeros.
  lemma PaddingIsZero(bits: seq<bool>, k: nat)
    requires |bits| <= k < 8 * |PackAll(bits)|
    ensures (PackAll(bits)[k / 8] / Pow2(k % 8)) % 2 == 0
  {
    hide Pow2, Pack, Rest;
    PackLength(bits);
    PackAllBytes(bits);
    assert k / 8 == |bits| / 8 && k % 8 >= |Rest(bits)|;
    ToNatBound(Rest(bits));
    Pow2Grows(|Rest(bits)|, k % 8);
    DivModUnique(ToNat(Rest(bits)), Pow2(k % 8), 0, ToNat(Rest(bits)));
  }
}
