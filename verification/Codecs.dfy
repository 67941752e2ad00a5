/**
 The fixed-width integer codecs of the object dictionary, including the 24, 40, 48
 and 56 bit widths that borrow the next larger machine format, and the reader of
 signed literals in EDS files.
 */
module Codecs {
  import opened Bits
  import opened Wrappers

  /** A width the codec classes accept; their constructors raise for any other. */
  type Width = w: nat | w % 8 == 0 && 8 <= w <= 64 witness 8

  datatype Codec = Codec(width: Width, signed: bool) {
    function Size(): nat {
      width / 8
    }

    /** Size of the struct format underneath: B, H, L or Q. */
    function StructSize(): nat {
      if width <= 8 then 1 else if width <= 16 then 2 else if width <= 32 then 4 else 8
    }

    /** Encode, or None where struct raises. Only the struct format checks the range. */
    function Pack(v: int): Option<seq<Byte>> {
      if Fits(v, 8 * StructSize(), signed)
      then Some(ToBytes(v, StructSize())[..Size()])
      else None
    }

    /** Decode, or None where struct (or the sign-byte lookup) raises. */
    function Unpack(buffer: seq<Byte>): Option<int> {
      if signed && |buffer| < Size() then None
      else
        var negative := signed && Bit(buffer[Size() - 1], 7);
        var padded := buffer + seq(StructSize() - Size(), _ => if negative then 255 else 0);
        if |padded| != StructSize() then None
        else Some(if signed then SignedFromBytes(padded) else FromBytes(padded))
    }

    predicate InRange(v: int) {
      Fits(v, width, signed)
    }
  }

  predicate Fits(v: int, bits: nat, signed: bool)
    requires bits >= 1
  {
    if signed then -Pow2(bits - 1) <= v < Pow2(bits - 1) else 0 <= v < Pow2(bits)
  }

  /** Two's complement value of a little-endian byte string. */
  function SignedFromBytes(bs: seq<Byte>): int
    requires |bs| > 0
  {
    if Bit(bs[|bs| - 1], 7) then FromBytes(bs) - Pow2(8 * |bs|) else FromBytes(bs)
  }

  // ----- The signed value, bit by bit -----

  lemma {:induction false} ShlMinusOne(n: nat)
    ensures Shl(-1, n) == -Pow2(n)
  {
    if n > 0 {
      ShlMinusOne(n - 1);
    }
  }

  lemma BitOfSigned(bs: seq<Byte>, k: nat)
    requires |bs| > 0
    ensures Bit(SignedFromBytes(bs), k) == BufferBit(bs, if k < 8 * |bs| then k else 8 * |bs| - 1)
  {
    var n := 8 * |bs|;
    assert BufferBit(bs, n - 1) == Bit(bs[|bs| - 1], 7);
    BitOfFromBytes(bs, k);
    if Bit(bs[|bs| - 1], 7) {
      FromBytesRange(bs);
      ShlMinusOne(n);
      BitAboveShift(FromBytes(bs), -1, n, k);
      if k >= n {
        BitOfConstant(k - n);
      }
    }
  }

  lemma SignedRange(bs: seq<Byte>)
    requires |bs| > 0
    ensures Fits(SignedFromBytes(bs), 8 * |bs|, true)
  {
    forall k: nat | k >= 8 * |bs| - 1
      ensures Bit(SignedFromBytes(bs), k) == Bit(SignedFromBytes(bs), 8 * |bs| - 1)
    {
      BitOfSigned(bs, k);
      BitOfSigned(bs, 8 * |bs| - 1);
    }
    SignBitsAgree(SignedFromBytes(bs), 8 * |bs|);
  }

  lemma SignedRoundTrip(v: int, n: nat)
    requires n > 0 && Fits(v, 8 * n, true)
    ensures SignedFromBytes(ToBytes(v, n)) == v
  {
    var bs := ToBytes(v, n);
    forall k: nat ensures Bit(SignedFromBytes(bs), k) == Bit(v, k) {
      BitOfSigned(bs, k);
      BitOfToBytes(v, n, if k < 8 * n then k else 8 * n - 1);
      if k >= 8 * n {
        SignedHighBits(v, 8 * n, k);
        SignedHighBits(v, 8 * n, 8 * n - 1);
      }
    }
    SameBits(SignedFromBytes(bs), v);
  }

  // ----- Truncating and padding -----

  lemma {:induction false} ToBytesPrefix(x: int, n: nat, m: nat)
    requires m <= n
    ensures ToBytes(x, n)[..m] == ToBytes(x, m)
    decreases m
  {
    if m > 0 {
      ToBytesPrefix(x / 256, n - 1, m - 1);
      assert ToBytes(x, n)[..m] == [x % 256] + ToBytes(x / 256, n - 1)[..m - 1];
    }
  }

  /** Extending by copies of the sign byte (or by zeros) keeps the value. */
  lemma PaddingKeepsValue(bs: seq<Byte>, n: nat, signed: bool)
    requires 0 < |bs| <= n
    ensures
      var negative := signed && Bit(bs[|bs| - 1], 7);
      var padded := bs + seq(n - |bs|, _ => if negative then 255 else 0);
      if signed then SignedFromBytes(padded) == SignedFromBytes(bs) else FromBytes(padded) == FromBytes(bs)
  {
    var negative := signed && Bit(bs[|bs| - 1], 7);
    var fill: Byte := if negative then 255 else 0;
    var padded := bs + seq(n - |bs|, _ => if negative then 255 else 0);
    FillByte();
    assert forall i :: |bs| <= i < n ==> padded[i] == fill;
    if signed {
      assert BufferBit(bs, 8 * |bs| - 1) == negative;
      forall k: nat ensures Bit(SignedFromBytes(padded), k) == Bit(SignedFromBytes(bs), k) {
        BitOfSigned(padded, k);
        BitOfSigned(bs, k);
      }
      SameBits(SignedFromBytes(padded), SignedFromBytes(bs));
    } else {
      forall k: nat ensures Bit(FromBytes(padded), k) == Bit(FromBytes(bs), k) {
        BitOfFromBytes(padded, k);
        BitOfFromBytes(bs, k);
      }
      SameBits(FromBytes(padded), FromBytes(bs));
    }
  }

  lemma FillByte()
    ensures forall j: nat :: j < 8 ==> Bit(255, j) && !Bit(0, j)
  {
    forall j: nat | j < 8 ensures Bit(255, j) && !Bit(0, j) {
      ByteIsShift(0, 0);
      ShlOneIsPow2(8);
      BitOfMask(8, j);
      BitOfConstant(j);
    }
  }

  // ----- Main results -----

  /** Decoding fails exactly on a byte string of the wrong size. */
  lemma UnpackAcceptsItsSize(c: Codec, bs: seq<Byte>)
    ensures c.Unpack(bs).Some? <==> |bs| == c.Size()
  {
  }

  /** Every byte string of the right size decodes to an in-range number that encodes back to it. */
  lemma UnpackThenPack(c: Codec, bs: seq<Byte>)
    requires |bs| == c.Size()
    ensures c.Unpack(bs).Some? && c.InRange(c.Unpack(bs).value)
    ensures c.Pack(c.Unpack(bs).value) == Some(bs)
  {
    hide Bit;
    hide FromBytes;
    var v := c.Unpack(bs).value;
    PaddingKeepsValue(bs, c.StructSize(), c.signed);
    if c.signed {
      SignedRange(bs);
    } else {
      FromBytesRange(bs);
    }
    WideFits(v, c.width, 8 * c.StructSize(), c.signed);
    ToBytesPrefix(v, c.StructSize(), c.Size());
    forall k: nat | k < c.width ensures BufferBit(ToBytes(v, c.Size()), k) == BufferBit(bs, k) {
      BitOfToBytes(v, c.Size(), k);
      if c.signed {
        BitOfSigned(bs, k);
      } else {
        BitOfFromBytes(bs, k);
      }
    }
    SameBufferBits(ToBytes(v, c.Size()), bs);
  }

  lemma WideFits(v: int, m: nat, n: nat, signed: bool)
    requires 1 <= m <= n && Fits(v, m, signed)
    ensures Fits(v, n, signed)
  {
    Pow2Monotone(m, n);
    Pow2Monotone(m - 1, n - 1);
  }

  /**
   Encoding followed by decoding is the identity exactly on the numbers of the codec's own
   width. A number that only fits the wider struct format is encoded without complaint but
   comes back as something else.
   */
  lemma PackThenUnpack(c: Codec, v: int)
    ensures c.InRange(v) <==> (c.Pack(v).Some? && c.Unpack(c.Pack(v).value) == Some(v))
  {
    hide FromBytes;
    hide ToBytes;
    hide SignedFromBytes;
    hide Pow2;
    if c.Pack(v).Some? {
      var bs := c.Pack(v).value;
      ToBytesPrefix(v, c.StructSize(), c.Size());
      UnpackThenPack(c, bs);
      PaddingKeepsValue(bs, c.StructSize(), c.signed);
      if c.InRange(v) {
        if c.signed {
          SignedRoundTrip(v, c.Size());
        } else {
          NumberRoundTrip(v, c.Size());
        }
      }
    }
    if c.InRange(v) {
      WideFits(v, c.width, 8 * c.StructSize(), c.signed);
    }
  }

  lemma FormatRanges()
    ensures Pow2(7) == 0x80 && Pow2(8) == 0x100 && Pow2(15) == 0x8000 && Pow2(16) == 0x1_0000
    ensures Pow2(31) == 0x8000_0000 && Pow2(32) == 0x1_0000_0000
    ensures Pow2(63) == 0x8000_0000_0000_0000 && Pow2(64) == 0x1_0000_0000_0000_0000
  {
    assert Pow2(0) == 1;
    hide Pow2;
    NextPowers(0);
    NextPowers(8);
    NextPowers(16);
    NextPowers(24);
    NextPowers(32);
    NextPowers(40);
    NextPowers(48);
    NextPowers(56);
  }

  lemma NextPowers(n: nat)
    ensures Pow2(n + 7) == 0x80 * Pow2(n) && Pow2(n + 8) == 0x100 * Pow2(n)
  {
    assert Pow2(n + 7) == 2 * Pow2(n + 6) == 4 * Pow2(n + 5) == 8 * Pow2(n + 4);
    assert Pow2(n + 4) == 2 * Pow2(n + 3) == 4 * Pow2(n + 2) == 8 * Pow2(n + 1) == 16 * Pow2(n);
  }

  /** Encoding raises exactly for the numbers outside the next format of 8, 16, 32 or 64 bits. */
  lemma PackRaisesIff(c: Codec, v: int)
    ensures c.Pack(v).Some? <==>
      if c.width == 8 then if c.signed then -0x80 <= v < 0x80 else 0 <= v < 0x100
      else if c.width == 16 then if c.signed then -0x8000 <= v < 0x8000 else 0 <= v < 0x1_0000
      else if c.width in {24, 32} then if c.signed then -0x8000_0000 <= v < 0x8000_0000 else 0 <= v < 0x1_0000_0000
      else if c.signed then -0x8000_0000_0000_0000 <= v < 0x8000_0000_0000_0000
      else 0 <= v < 0x1_0000_0000_0000_0000
    ensures c.Pack(v).Some? ==> 8 * |c.Pack(v).value| == c.width
  {
    hide Pow2;
    FormatRanges();
  }

  /**
   What comes back from a number the struct format takes: the number of the codec's own range that
   agrees with it modulo 2^width, so a number that is too large is silently truncated.
   */
  lemma PackTruncates(c: Codec, v: int)
    requires c.Pack(v).Some?
    ensures c.Unpack(c.Pack(v).value).Some?
    ensures var r := c.Unpack(c.Pack(v).value).value;
      c.InRange(r) && (v - r) % Pow2(c.width) == 0
    ensures c.Unpack(c.Pack(v).value).value == Wrapped(v, c.width, c.signed)
  {
    hide Pow2;
    hide FromBytes;
    hide SignedFromBytes;
    var bs := c.Pack(v).value;
    ToBytesPrefix(v, c.StructSize(), c.Size());
    UnpackThenPack(c, bs);
    var r := c.Unpack(bs).value;
    ToBytesPrefix(r, c.StructSize(), c.Size());
    assert ToBytes(r, c.Size()) == ToBytes(v, c.Size());
    LowBytesAgree(v, r, c.Size());
    WrappedIsUnique(v, r, c.width, c.signed);
  }

  /** The number of so many bits, unsigned or in two's complement, that agrees with v modulo 2^bits. */
  function Wrapped(v: int, bits: nat, signed: bool): int
    requires bits >= 1
  {
    var low := v % Pow2(bits);
    if signed && low >= Pow2(bits - 1) then low - Pow2(bits) else low
  }

  /** Numbers with the same low bytes differ by a multiple. */
  lemma {:induction false} LowBytesAgree(v: int, r: int, n: nat)
    requires ToBytes(v, n) == ToBytes(r, n)
    ensures (v - r) % Pow2(8 * n) == 0
    decreases n
  {
    if n > 0 {
      assert ToBytes(v, n)[0] == ToBytes(r, n)[0] && ToBytes(v, n)[1..] == ToBytes(r, n)[1..];
      LowBytesAgree(v / 256, r / 256, n - 1);
      PowOfBytes(n);
      var m := Pow2(8 * (n - 1));
      assert v - r == 256 * (v / 256 - r / 256);
      MultipleTimes256(v / 256 - r / 256, m);
    } else {
      assert Pow2(0) == 1;
    }
  }

  lemma PowOfBytes(n: nat)
    requires n > 0
    ensures Pow2(8 * n) == 256 * Pow2(8 * (n - 1))
  {
    hide Pow2;
    var k := 8 * (n - 1);
    FourTimes(k);
    FourTimes(k + 2);
    FourTimes(k + 4);
    FourTimes(k + 6);
  }

  lemma FourTimes(k: nat)
    ensures Pow2(k + 2) == 4 * Pow2(k)
  {
    assert Pow2(k + 2) == 2 * Pow2(k + 1);
  }

  lemma MultipleTimes256(x: int, m: nat)
    requires m > 0 && x % m == 0
    ensures (256 * x) % (256 * m) == 0
  {
    var q := x / m;
    assert x == q * m;
    assert 256 * x == q * (256 * m);
    RestOfSum(q, 0, 256 * m);
  }

  lemma WrappedIsUnique(v: int, r: int, bits: nat, signed: bool)
    requires bits >= 1 && Fits(r, bits, signed) && (v - r) % Pow2(bits) == 0
    ensures r == Wrapped(v, bits, signed)
  {
    assert Pow2(bits) == 2 * Pow2(bits - 1);
    hide Pow2;
    RestOfAgreeing(v, r, Pow2(bits));
  }

  lemma RestOfAgreeing(v: int, r: int, m: nat)
    requires m > 0 && (v - r) % m == 0 && 0 <= r + m && r < m
    ensures v % m == if r >= 0 then r else r + m
  {
    var q := (v - r) / m;
    MultipleOfDivisor(v - r, m);
    if r >= 0 {
      RestOfSum(q, r, m);
    } else {
      assert q * m == (q - 1) * m + m;
      RestOfSum(q - 1, r + m, m);
    }
  }

  lemma MultipleOfDivisor(x: int, m: nat)
    requires m > 0 && x % m == 0
    ensures x == x / m * m
  {
  }

  lemma RestOfSum(q: int, r: nat, m: nat)
    requires r < m
    ensures (q * m + r) % m == r
  {
    var x := q * m + r;
    var k := x / m - q;
    assert x == (x / m) * m + x % m;
    assert (x / m) * m - q * m == k * m;
    if k != 0 {
      NonzeroMultiple(k, m);
    }
  }

  lemma NonzeroMultiple(k: int, m: int)
    requires m > 0 && k != 0
    ensures k * m >= m || k * m <= -m
  {
    if k > 0 {
      assert (k - 1) * m >= 0;
    } else {
      assert (-k - 1) * m >= 0;
    }
  }

  // ----- Signed literals of EDS files -----

  /** The value a literal denotes for an n-bit signed object, or None where the reader raises. */
  function SignedIntFromHex(number: int, bits: nat): Option<int>
    requires bits >= 1
  {
    var minSigned := -Shl(1, bits - 1);
    var maxSigned := Shl(1, bits - 1) - 1;
    var maxUnsigned := Shl(1, bits) - 1;
    if number < minSigned then None
    else if number < 0 then Some(number)
    else if number > maxUnsigned then None
    else if number > maxSigned then Some(number - Shl(1, bits))
    else Some(number)
  }

  /**
   The EDS reader and the wire codec agree: an accepted literal denotes what the device would
   decode from the literal's bytes, and exactly the literals of n signed or n unsigned bits
   are accepted.
   */
  lemma LiteralAgreesWithWire(number: int, c: Codec)
    requires c.signed
    ensures SignedIntFromHex(number, c.width).Some? <==> -Pow2(c.width - 1) <= number < Pow2(c.width)
    ensures SignedIntFromHex(number, c.width).Some? ==>
      SignedIntFromHex(number, c.width) == c.Unpack(ToBytes(number, c.Size()))
  {
    var n: nat := c.width;
    ShlOneIsPow2(n);
    ShlOneIsPow2(n - 1);
    if SignedIntFromHex(number, n).Some? {
      var v := SignedIntFromHex(number, n).value;
      var bs := ToBytes(v, c.Size());
      SignedRoundTrip(v, c.Size());
      PaddingKeepsValue(bs, c.StructSize(), true);
      if v != number {
        SameLowBytes(v, number, c.Size());
      }
    }
  }

  lemma SameLowBytes(v: int, number: int, n: nat)
    requires n > 0 && 0 <= number < Pow2(8 * n) && v == number - Pow2(8 * n)
    ensures ToBytes(v, n) == ToBytes(number, n)
  {
    forall k: nat | k < 8 * n ensures BufferBit(ToBytes(v, n), k) == BufferBit(ToBytes(number, n), k) {
      BitOfToBytes(v, n, k);
      BitOfToBytes(number, n, k);
      ShlMinusOne(8 * n);
      BitAboveShift(number, -1, 8 * n, k);
    }
    SameBufferBits(ToBytes(v, n), ToBytes(number, n));
  }
}
