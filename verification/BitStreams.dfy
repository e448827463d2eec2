/**
 BitWriter and BitReader over a byte sink and a byte source, and the numbers written between the bits.
 */
module BitStreams {
  import opened Bits

  // What a writer appends to.
  class Sink {
    var data: seq<nat>

    constructor ()
      ensures data == []
    {
      data := [];
    }

    method Write(byte: nat)
      modifies this
      ensures data == old(data) + [byte]
    {
      data := data + [byte];
    }

    // Goes back to an earlier place, writes there and returns to the end.
    method Overwrite(at: nat, bytes: seq<nat>)
      requires at + |bytes| <= |data|
      modifies this
      ensures data == old(data)[..at] + bytes + old(data)[at + |bytes|..]
    {
      data := data[..at] + bytes + data[at + |bytes|..];
    }
  }

  // What a reader consumes, byte by byte.
  class Source {
    const data: seq<nat>
    var pos: nat

    ghost predicate Valid()
      reads this
    {
      pos <= |data|
    }

    ghost function Left(): seq<nat>
      requires Valid()
      reads this
    {
      data[pos..]
    }

    constructor (data: seq<nat>)
      ensures Valid() && this.data == data && pos == 0 && Left() == data
    {
      this.data, pos := data, 0;
    }

    method Read() returns (byte: nat)
      requires Valid() && Left() != []
      modifies this
      ensures Valid() && byte == old(Left())[0] && Left() == old(Left())[1..] && pos == old(pos) + 1
    {
      byte := data[pos];
      pos := pos + 1;
    }

    method Skip(n: nat)
      requires Valid() && n <= |Left()|
      modifies this
      ensures Valid() && Left() == old(Left())[n..] && pos == old(pos) + n
    {
      pos := pos + n;
    }
  }

  // ----- Variable-length numbers: seven bits a byte, the least significant first

  function VarUint(v: nat): (bytes: seq<nat>)
    ensures bytes != []
  {
    if v < 128 then [v] else [128 + v % 128] + VarUint(v / 128)
  }

  // Seven bits of the number in each byte, the low ones first; all bytes but the last have bit 7 set.
  lemma {:induction false} VarUintMeans(v: nat, i: nat)
    requires i < |VarUint(v)|
    ensures VarUint(v)[i] % 128 == (v / Pow2(7 * i)) % 128 && VarUint(v)[i] < 256
    ensures VarUint(v)[i] >= 128 <==> i + 1 < |VarUint(v)|
  {
    if i > 0 {
      var p := Pow2(7 * (i - 1));
      VarUintMeans(v / 128, i - 1);
      SevenMore(i - 1);
      DivideTwice(v, 128, p);
    }
  }

  lemma SevenMore(i: nat)
    ensures Pow2(7 * (i + 1)) == 128 * Pow2(7 * i)
  {
    assert Pow2(7 * i + 2) == 4 * Pow2(7 * i);
    assert Pow2(7 * i + 4) == 4 * Pow2(7 * i + 2);
    assert Pow2(7 * i + 6) == 4 * Pow2(7 * i + 4);
  }

  // No shorter form would do.
  lemma {:induction false} VarUintIsShort(v: nat)
    ensures v < Pow2(7 * |VarUint(v)|) && (|VarUint(v)| > 1 ==> v >= Pow2(7 * (|VarUint(v)| - 1)))
    decreases v
  {
    hide Pow2;
    var n := |VarUint(v)|;
    SevenMore(n - 1);
    NoBits();
    if v >= 128 {
      VarUintIsShort(v / 128);
      assert n == 1 + |VarUint(v / 128)|;
      SevenMore(n - 2);
    }
  }

  lemma NoBits()
    ensures Pow2(0) == 1 && Pow2(7 * 0) == 1
  {
  }

  method WriteVarUint(sink: Sink, v: nat)
    modifies sink
    ensures sink.data == old(sink.data) + VarUint(v)
  {
    var rest := v;
    ghost var before := sink.data;
    while rest >= 128
      invariant sink.data + VarUint(rest) == before + VarUint(v)
    {
      sink.Write(128 + rest % 128);
      rest := rest / 128;
    }
    sink.Write(rest);
  }

  // The number is read back, whatever follows it.
  method ReadVarUint(src: Source, ghost v: nat, ghost rest: seq<nat>) returns (r: nat)
    requires src.Valid() && src.Left() == VarUint(v) + rest
    modifies src
    ensures r == v && src.Valid() && src.Left() == rest
  {
    r := 0;
    var scale := 1;
    ghost var todo := v;
    var byte := src.Read();
    while byte >= 128
      invariant src.Valid() && r + scale * todo == v
      invariant [byte] + src.Left() == VarUint(todo) + rest
      decreases todo
    {
      FirstOf(byte, src.Left(), VarUint(todo), rest);
      assert todo >= 128;
      SplitSeven(r, scale, todo);
      r := r + scale * (byte - 128);
      scale := scale * 128;
      assert src.Left() == ([byte] + src.Left())[1..];
      assert (VarUint(todo) + rest)[1..] == VarUint(todo / 128) + rest;
      todo := todo / 128;
      byte := src.Read();
    }
    FirstOf(byte, src.Left(), VarUint(todo), rest);
    assert todo == byte;
    assert src.Left() == ([byte] + src.Left())[1..];
    assert ([todo] + rest)[1..] == rest;
    r := r + scale * byte;
  }

  lemma FirstOf(byte: nat, left: seq<nat>, a: seq<nat>, b: seq<nat>)
    requires [byte] + left == a + b && a != []
    ensures byte == a[0]
  {
    assert ([byte] + left)[0] == byte && (a + b)[0] == a[0];
  }

  lemma SplitSeven(r: nat, scale: nat, todo: nat)
    ensures r + scale * todo == (r + scale * (todo % 128)) + (scale * 128) * (todo / 128)
  {
    assert todo == todo % 128 + 128 * (todo / 128);
    assert scale * todo == scale * (todo % 128) + scale * (128 * (todo / 128));
    assert scale * (128 * (todo / 128)) == (scale * 128) * (todo / 128);
  }

  // ----- Numbers of a fixed number of bytes, little-endian

  function Fixed(v: nat, n: nat): (bytes: seq<nat>)
    ensures |bytes| == n && forall k :: 0 <= k < |bytes| ==> bytes[k] < 256
  {
    if n == 0 then [] else [v % 256] + Fixed(v / 256, n - 1)
  }

  function FixedValue(bytes: seq<nat>): nat {
    if bytes == [] then 0 else bytes[0] + 256 * FixedValue(bytes[1..])
  }

  function Pow256(n: nat): nat {
    if n == 0 then 1 else 256 * Pow256(n - 1)
  }

  // Byte i of the number, the lowest first.
  lemma {:induction false} FixedMeans(v: nat, n: nat, i: nat)
    requires i < n
    ensures Pow256(i) > 0 && Fixed(v, n)[i] == (v / Pow256(i)) % 256
  {
    if i > 0 {
      FixedMeans(v / 256, n - 1, i - 1);
      DivideTwice(v, 256, Pow256(i - 1));
    }
  }

  lemma {:induction false} FixedIsExact(v: nat, n: nat)
    requires v < Pow256(n)
    ensures FixedValue(Fixed(v, n)) == v
  {
    if n > 0 {
      FixedIsExact(v / 256, n - 1);
      assert Fixed(v, n)[1..] == Fixed(v / 256, n - 1);
    }
  }

  // ----- Bits

  lemma EmptyBits()
    ensures FromNat(0, 0) == [] && Pow2(0) == 1
  {
  }

  // Two groups of bits side by side, as one number.
  lemma SideBySide(a: nat, k: nat, b: nat, n: nat)
    requires a < Pow2(k) && b < Pow2(n)
    ensures ToNat(FromNat(a, k) + FromNat(b, n)) == a + Pow2(k) * b
    ensures a + Pow2(k) * b < Pow2(k + n)
    ensures FromNat(a + Pow2(k) * b, k + n) == FromNat(a, k) + FromNat(b, n)
  {
    var both := FromNat(a, k) + FromNat(b, n);
    SmallValue(a, k);
    SmallValue(b, n);
    ToNatConcat(FromNat(a, k), FromNat(b, n));
    ToNatBound(both);
    RoundTrip(both);
  }

  // A byte and what is left of the n bits of b when only some of them fit behind the k bits of a.
  lemma Overflow(a: nat, k: nat, b: nat, n: nat)
    requires a < Pow2(k) && b < Pow2(n) && k < 8 && n <= 8 < k + n
    ensures var all := FromNat(a, k) + FromNat(b, n);
            && Pack(all) == [ShiftLeft(b, k) % 256 + a]
            && Rest(all) == FromNat(ShiftRight(b, 8 - k), k + n - 8)
    ensures ShiftRight(b, 8 - k) < Pow2(k + n - 8)
  {
    hide ShiftRight, Pow2, FromNat, ToNat, Pack, Rest;
    var all, fit := FromNat(a, k) + FromNat(b, n), 8 - k;
    ShiftRightDivides(b, 8 - k);
    Split(b, fit, n);
    DropBits(b, fit, n);
    assert all[..8] == FromNat(a, k) + FromNat(b, fit);
    assert all[8..] == FromNat(b, n)[fit..];
    OnlyLowBits(b, fit);
    SideBySide(a, k, b % Pow2(fit), fit);
    FittingPart(b, k);
    PackShort(all[8..]);
    OneByte(all);
  }

  lemma OneByte(all: seq<bool>)
    requires |all| >= 8
    ensures Pack(all) == [ToNat(all[..8])] + Pack(all[8..]) && Rest(all) == Rest(all[8..])
  {
  }

  lemma FittingPart(b: nat, k: nat)
    requires k < 8
    ensures (b * Pow2(k)) % 256 == Pow2(k) * (b % Pow2(8 - k))
  {
    hide Pow2;
    Pow2Sum(8 - k, k);
    PowersOfEight();
    ScaledMod(b, Pow2(8 - k), Pow2(k));
    Commutes(b % Pow2(8 - k), Pow2(k));
  }

  lemma ScaledMod(b: nat, q: nat, p: nat)
    requires q > 0 && p > 0
    ensures q * p > 0 && (b * p) % (q * p) == (b % q) * p
  {
    var h, r := b / q, b % q;
    ScaledSum(h, q, r, p);
    ScaledLess(r, q, p);
    DivModUnique(b * p, q * p, h, r * p);
  }

  lemma ScaledSum(h: nat, q: nat, r: nat, p: nat)
    ensures (h * q + r) * p == h * (q * p) + r * p
  {
  }

  lemma {:induction false} ScaledLess(r: nat, q: nat, p: nat)
    requires r < q && p > 0
    ensures r * p < q * p
  {
    AtLeastOnce(q - r, p);
    assert (q - r) * p == q * p - r * p;
  }

  lemma NewBuffered(written: nat, n: nat)
    requires n <= 8
    ensures (written + n) % 8 == if written % 8 + n >= 8 then written % 8 + n - 8 else written % 8 + n
  {
  }

  lemma LowBitsFit(v: nat, n: nat)
    ensures LowBits(v, n) < Pow2(n) && FromNat(LowBits(v, n), n) == FromNat(v, n)
  {
    OnlyLowBits(v, n);
  }

  // No more than a byte in all.
  lemma Together(a: nat, k: nat, b: nat, n: nat)
    requires a < Pow2(k) && b < Pow2(n) && k + n <= 8
    ensures var all := FromNat(a, k) + FromNat(b, n);
            && ShiftLeft(b, k) + a < Pow2(k + n) && FromNat(ShiftLeft(b, k) + a, k + n) == all
            && (k + n < 8 ==> Pack(all) == [] && Rest(all) == all)
            && (k + n == 8 ==> Pack(all) == [ShiftLeft(b, k) + a] && Rest(all) == [])
  {
    hide Pow2, Pack, Rest, FromNat, ToNat;
    SideBySide(a, k, b, n);
    PackShort(FromNat(a, k) + FromNat(b, n));
    Commutes(b, Pow2(k));
  }

  class BitWriter {
    const writer: Sink
    var buf: nat
    var bitsWritten: nat

    // The bits that do not fill a byte yet are in the buffer.
    ghost predicate Valid()
      reads this
    {
      buf < Pow2(bitsWritten % 8)
    }

    ghost function Pending(): (bits: seq<bool>)
      reads this
      ensures |bits| == bitsWritten % 8
    {
      FromNat(buf, bitsWritten % 8)
    }

    constructor (writer: Sink)
      ensures Valid() && Pending() == [] && bitsWritten == 0 && this.writer == writer
    {
      this.writer, buf, bitsWritten := writer, 0, 0;
    }

    // Writes n bits, starting with the least significant one; bits beyond the n-th are ignored.
    method Write(value: nat, n: nat)
      requires Valid() && n <= 8
      modifies this, writer
      ensures Valid() && bitsWritten == old(bitsWritten) + n
      ensures writer.data == old(writer.data) + Pack(old(Pending()) + FromNat(value, n))
      ensures Pending() == Rest(old(Pending()) + FromNat(value, n))
    {
      hide Pow2, Pack, Rest, FromNat, ToNat, ShiftLeft, ShiftRight, LowBits;
      ghost var pending, added := Pending(), FromNat(value, n);
      var bufferedBits := bitsWritten % 8;
      if n == 0 {
        assert pending + added == pending;
        PackShort(pending);
        return;
      }
      var bits := LowBits(value, n);
      LowBitsFit(value, n);
      NewBuffered(bitsWritten, n);
      bitsWritten := bitsWritten + n;
      if n + bufferedBits > 8 {
        Overflow(buf, bufferedBits, bits, n);
        var b := ShiftLeft(bits, bufferedBits) % 256 + buf;
        writer.Write(b);
        buf := ShiftRight(bits, 8 - bufferedBits);
      } else {
        Together(buf, bufferedBits, bits, n);
        bits := ShiftLeft(bits, bufferedBits) + buf;
        if n + bufferedBits == 8 {
          writer.Write(bits);
          bits := 0;
          EmptyBits();
        }
        buf := bits;
      }
    }

    // Pads the last bits with zeros; nothing may be written afterwards.
    method Flush()
      requires Valid()
      modifies writer
      ensures writer.data == old(writer.data) + if Pending() == [] then [] else [ToNat(Pending())]
    {
      hide Pow2, FromNat, ToNat;
      if bitsWritten % 8 != 0 {
        SmallValue(buf, bitsWritten % 8);
        writer.Write(buf);
      }
    }
  }

  class BitReader {
    const src: Source
    var bufferedBits: nat
    var buf: nat

    ghost predicate Valid()
      reads this, src
    {
      src.Valid() && bufferedBits < 8 && buf < Pow2(bufferedBits)
    }

    // All bits that are still to come, the last byte of the source included.
    ghost function Stream(): seq<bool>
      requires src.Valid()
      reads this, src
    {
      FromNat(buf, bufferedBits) + Unpack(src.Left())
    }

    constructor (src: Source)
      requires src.Valid()
      ensures Valid() && this.src == src && bufferedBits == 0 && Stream() == Unpack(src.Left())
    {
      this.src, bufferedBits, buf := src, 0, 0;
    }

    // Reads n bits, the first one as the least significant.
    method Read(n: nat) returns (result: nat)
      requires Valid() && n <= 8 && n <= |Stream()|
      requires forall k :: 0 <= k < |src.Left()| ==> src.Left()[k] < 256
      modifies this, src
      ensures Valid() && result == ToNat(old(Stream())[..n]) && Stream() == old(Stream())[n..]
      ensures src.pos >= old(src.pos)
    {
      hide Pow2, Unpack, FromNat, ToNat, ShiftLeft, ShiftRight, LowBits;
      ghost var stream, left := Stream(), src.Left();
      if n == 0 {
        assert stream[..0] == [] && stream[0..] == stream;
        assert ToNat([]) == 0 by { EmptyValue(); }
        return 0;
      }
      if n <= bufferedBits {
        ReadBuffered(buf, bufferedBits, n, Unpack(left));
        result := LowBits(buf, n);
        bufferedBits := bufferedBits - n;
        buf := ShiftRight(buf, n);
      } else {
        UnpackFirst(left);
        var nextByte := src.Read();
        var low := n - bufferedBits;
        PowersOfEight();
        ReadAcross(buf, bufferedBits, n, nextByte, 8, Unpack(left[1..]));
        assert stream == FromNat(buf, bufferedBits) + (FromNat(nextByte, 8) + Unpack(left[1..]));
        result := ShiftLeft(LowBits(nextByte, low), bufferedBits) + buf;
        buf := ShiftRight(nextByte, low);
        bufferedBits := 8 - low;
      }
    }
  }

  lemma EmptyValue()
    ensures ToNat([]) == 0
  {
  }

  lemma UnpackFirst(bytes: seq<nat>)
    ensures bytes == [] ==> Unpack(bytes) == []
    ensures bytes != [] ==> Unpack(bytes) == FromNat(bytes[0], 8) + Unpack(bytes[1..])
  {
  }

  lemma ReadBuffered(buf: nat, k: nat, n: nat, tail: seq<bool>)
    requires n <= k && buf < Pow2(k)
    ensures var stream := FromNat(buf, k) + tail;
            && ToNat(stream[..n]) == LowBits(buf, n)
            && stream[n..] == FromNat(ShiftRight(buf, n), k - n) + tail
    ensures ShiftRight(buf, n) < Pow2(k - n)
  {
    hide ShiftRight, Pow2;
    var stream := FromNat(buf, k) + tail;
    ShiftRightDivides(buf, n);
    Split(buf, n, k);
    ValueOfBits(buf, n);
    DropBits(buf, n, k);
    assert stream[..n] == FromNat(buf, k)[..n];
    assert stream[n..] == FromNat(buf, k)[n..] + tail;
  }

  lemma ReadAcross(buf: nat, k: nat, n: nat, nextByte: nat, w: nat, tail: seq<bool>)
    requires k < n <= w && buf < Pow2(k) && nextByte < Pow2(w)
    ensures var stream, low := FromNat(buf, k) + (FromNat(nextByte, w) + tail), n - k;
            && ToNat(stream[..n]) == ShiftLeft(LowBits(nextByte, low), k) + buf
            && stream[n..] == FromNat(ShiftRight(nextByte, low), w - low) + tail
    ensures ShiftRight(nextByte, n - k) < Pow2(w - (n - k))
  {
    hide FromNat, ToNat, Pow2, ShiftRight;
    ShiftRightDivides(nextByte, n - k);
    var stream, low := FromNat(buf, k) + (FromNat(nextByte, w) + tail), n - k;
    Commutes(Pow2(k), nextByte % Pow2(low));
    Split(nextByte, low, w);
    DropBits(nextByte, low, w);
    OnlyLowBits(nextByte, low);
    SideBySide(buf, k, nextByte % Pow2(low), low);
    assert stream[..n] == FromNat(buf, k) + FromNat(nextByte, w)[..low];
    assert stream[n..] == FromNat(nextByte, w)[low..] + tail;
  }

  // ----- More than eight bits

  // The first byte of some bits.
  lemma FirstByte(v: nat, n: nat)
    requires n >= 8
    ensures FromNat(v, n) == FromNat(v % 256, 8) + FromNat(v / 256, n - 8)
  {
    hide FromNat;
    Split(v, 8, n);
    OnlyLowBits(v, 8);
    PowersOfEight();
    assert FromNat(v, n) == FromNat(v, n)[..8] + FromNat(v, n)[8..];
  }

  // At most 32 bits, byte by byte.
  method WriteAtMost32Bits(writer: BitWriter, value: nat, n: nat, ghost base: seq<nat>, ghost bits: seq<bool>)
    requires writer.Valid() && n <= 32
    requires writer.writer.data == base + Pack(bits) && writer.Pending() == Rest(bits)
    modifies writer, writer.writer
    ensures writer.Valid()
    ensures writer.writer.data == base + Pack(bits + FromNat(value, n)) && writer.Pending() == Rest(bits + FromNat(value, n))
  {
    hide Pack, Rest, FromNat;
    var v, left := value, n;
    ghost var written: seq<bool> := [];
    assert bits + written == bits;
    assert written + FromNat(v, left) == FromNat(value, n);
    while left > 8
      invariant writer.Valid() && 0 <= left <= n
      invariant written + FromNat(v, left) == FromNat(value, n)
      invariant writer.writer.data == base + Pack(bits + written) && writer.Pending() == Rest(bits + written)
      decreases left
    {
      FirstByte(v, left);
      PackConcat(bits + written, FromNat(v % 256, 8));
      writer.Write(v % 256, 8);
      ghost var before := written;
      written := written + FromNat(v % 256, 8);
      assert bits + written == bits + before + FromNat(v % 256, 8);
      left := left - 8;
      v := v / 256;
    }
    PackConcat(bits + written, FromNat(v, left));
    writer.Write(v, left);
    assert bits + written + FromNat(v, left) == bits + (written + FromNat(v, left));
  }
}
