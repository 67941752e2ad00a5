/** The checksum of block transfers: CrcXmodem over binascii.crc_hqx. */
module Crc {
  import opened Bits
  import opened CrcBits
  import opened CrcDivision
  import opened CrcWords

  /** Fold one byte into the checksum. */
  function Step(crc: bv16, b: Byte): bv16 {
    ShiftBits(crc ^ High(b), 8)
  }

  /** binascii.crc_hqx(data, crc) */
  function CrcHqx(data: seq<Byte>, crc: bv16): bv16 {
    if data == [] then crc else CrcHqx(data[1..], Step(crc, data[0]))
  }

  /** Checksums accumulate: feeding two pieces in turn is feeding their concatenation. */
  lemma {:induction false} CrcOfConcatenation(a: seq<Byte>, b: seq<Byte>, crc: bv16)
    ensures CrcHqx(a + b, crc) == CrcHqx(b, CrcHqx(a, crc))
    decreases |a|
  {
    if a == [] {
      assert a + b == b;
    } else {
      assert (a + b)[1..] == a[1..] + b;
      CrcOfConcatenation(a[1..], b, Step(crc, a[0]));
    }
  }

  // ----- The checksum is the remainder of a division -----

  /** The bits of a message, byte by byte, the highest of each first. */
  function MessageBits(data: seq<Byte>): (bits: seq<bool>)
    ensures |bits| == 8 * |data|
  {
    if data == [] then [] else ByteBits(data[0]) + MessageBits(data[1..])
  }

  lemma StepIsRest(crc: bv16, b: Byte)
    ensures WordBits(Step(crc, b)) == Rest(WordBits(crc), ByteBits(b))
  {
    hide WordBits;
    hide ByteBits;
    hide High;
    hide ShiftBits;
    hide Shifts;
    hide Rest;
    StepIsShifts(crc, b);
    ShiftBitsAreShifts(Plus(crc, High(b)), 8);
    WordOfPlus(crc, High(b));
    HighIsByte(b);
    ShiftsAreRest(WordBits(crc), ByteBits(b));
  }

  lemma StepIsShifts(crc: bv16, b: Byte)
    ensures Step(crc, b) == ShiftBits(Plus(crc, High(b)), 8)
  {
    hide ShiftBits;
    hide High;
  }

  lemma {:induction false} CrcIsRest(data: seq<Byte>, crc: bv16)
    ensures WordBits(CrcHqx(data, crc)) == Rest(WordBits(crc), MessageBits(data))
    decreases |data|
  {
    hide WordBits;
    hide ByteBits;
    hide Step;
    hide Next;
    if data != [] {
      StepIsRest(crc, data[0]);
      CrcIsRest(data[1..], Step(crc, data[0]));
      RestOfConcatenation(WordBits(crc), ByteBits(data[0]), MessageBits(data[1..]));
    }
  }

  /**
   The checksum of a message is the one word that is left when the message times x^16 is divided by
   x^16 + x^12 + x^5 + 1.
   */
  lemma CrcIsRemainder(data: seq<Byte>, crc: bv16)
    ensures crc == CrcHqx(data, 0) <==> exists factor :: Divides(MessageBits(data), factor, WordBits(crc))
  {
    hide Divides;
    hide WordBits;
    NothingDivided();
    var factor := RestDivides([], [], Zeros(16), MessageBits(data));
    assert [] + MessageBits(data) == MessageBits(data);
    CrcIsRest(data, 0);
    if exists factor1 :: Divides(MessageBits(data), factor1, WordBits(crc)) {
      var factor1 :| Divides(MessageBits(data), factor1, WordBits(crc));
      RestIsUnique(MessageBits(data), factor, WordBits(CrcHqx(data, 0)), factor1, WordBits(crc));
      SameWordBits(crc, CrcHqx(data, 0));
    }
  }

  lemma NothingDivided()
    ensures Divides([], [], Zeros(16)) && WordBits(0) == Zeros(16)
  {
    BitsOfZero(16);
    assert [] + Zeros(16) == Sum(Zeros(16), Zeros(0) + Zeros(16));
  }

  /** The check value of this checksum is that of the digits from 1 to 9; and that of a single one is the divisor's. */
  lemma CheckValues()
    ensures CrcHqx([0x31, 0x32, 0x33, 0x34, 0x35, 0x36, 0x37, 0x38, 0x39], 0) == 0x31C3
    ensures CrcHqx([1], 0) == 0x1021
  {
    StepsOfDigits();
    hide Step;
    var digits: seq<Byte> := [0x31, 0x32, 0x33, 0x34, 0x35, 0x36, 0x37, 0x38, 0x39];
    assert CrcHqx(digits[9..], 0x31C3) == 0x31C3;
    assert CrcHqx(digits[8..], 0x9015) == 0x31C3;
    assert CrcHqx(digits[7..], 0x86D6) == 0x31C3;
    assert CrcHqx(digits[6..], 0x20E4) == 0x31C3;
    assert CrcHqx(digits[5..], 0x546C) == 0x31C3;
    assert CrcHqx(digits[4..], 0xD789) == 0x31C3;
    assert CrcHqx(digits[3..], 0x9752) == 0x31C3;
    assert CrcHqx(digits[2..], 0x20B5) == 0x31C3;
    assert CrcHqx(digits[1..], 0x2672) == 0x31C3;
    assert CrcHqx(digits[0..], 0x0000) == 0x31C3;
  }

  lemma StepsOfDigits()
    ensures Step(0, 1) == 0x1021
    ensures Step(0x0000, 0x31) == 0x2672
    ensures Step(0x2672, 0x32) == 0x20B5
    ensures Step(0x20B5, 0x33) == 0x9752
    ensures Step(0x9752, 0x34) == 0xD789
    ensures Step(0xD789, 0x35) == 0x546C
    ensures Step(0x546C, 0x36) == 0x20E4
    ensures Step(0x20E4, 0x37) == 0x86D6
    ensures Step(0x86D6, 0x38) == 0x9015
    ensures Step(0x9015, 0x39) == 0x31C3
  {
    EightShifts(0x0100);
    EightShifts(0x3100);
    EightShifts(0x1472);
    EightShifts(0x13B5);
    EightShifts(0xA352);
    EightShifts(0xE289);
    EightShifts(0x626C);
    EightShifts(0x17E4);
    EightShifts(0xBED6);
    EightShifts(0xA915);
  }

  lemma EightShifts(x: bv16)
    ensures ShiftBits(x, 8) == ShiftBit(ShiftBit(ShiftBit(ShiftBit(ShiftBit(ShiftBit(ShiftBit(ShiftBit(x))))))))
  {
    hide ShiftBit;
    var x4 := ShiftBit(ShiftBit(ShiftBit(ShiftBit(x))));
    assert ShiftBits(x, 8) == ShiftBits(x4, 4);
    assert ShiftBits(x4, 4) == ShiftBit(ShiftBit(ShiftBit(ShiftBit(x4))));
  }

  /** A checksum survives its two bytes in a frame. */
  lemma CrcRoundTrip(crc: bv16)
    ensures FromBytes(ToBytes(crc as int, 2)) == crc as int
  {
    ByteIsShift(0, 0);
    assert Pow2(12) == 16 * Pow2(8) && Pow2(16) == 16 * Pow2(12);
    NumberRoundTrip(crc as int, 2);
  }

  /** Different checksums are different numbers. */
  lemma DifferentNumbers(x: bv16, y: bv16)
    ensures x != y ==> x as int != y as int
  {
    assert (x as int) as bv16 == x && (y as int) as bv16 == y;
  }

  // ----- Parity -----

  /** The bytes have an odd number of one bits. */
  predicate OddBytes(data: seq<Byte>) {
    data != [] && Odd(High(data[0])) != OddBytes(data[1..])
  }

  lemma StepKeepsParity(crc: bv16, b: Byte)
    ensures Odd(Step(crc, b)) == (Odd(crc) != Odd(High(b)))
  {
    hide Odd;
    hide ShiftBits;
    hide High;
    OddOfXor(crc, High(b));
    ShiftBitsKeepParity(crc ^ High(b), 8);
  }

  /** The polynomial keeps parity, so checksums of data with different parities differ. */
  lemma {:induction false} CrcKeepsParity(data: seq<Byte>, crc: bv16)
    ensures Odd(CrcHqx(data, crc)) == (Odd(crc) != OddBytes(data))
    decreases |data|
  {
    hide Odd;
    hide Step;
    hide High;
    if data != [] {
      StepKeepsParity(crc, data[0]);
      CrcKeepsParity(data[1..], Step(crc, data[0]));
    }
  }

  lemma {:induction false} OddBytesOfConcatenation(a: seq<Byte>, b: seq<Byte>)
    ensures OddBytes(a + b) == (OddBytes(a) != OddBytes(b))
    decreases |a|
  {
    hide Odd;
    if a == [] {
      assert a + b == b;
    } else {
      assert (a + b)[1..] == a[1..] + b;
      OddBytesOfConcatenation(a[1..], b);
    }
  }

  /** Zero bytes do not change a zero checksum, however many there are. */
  lemma {:induction false} CrcOfZeros(data: seq<Byte>)
    requires forall b :: b in data ==> b == 0
    ensures CrcHqx(data, 0) == 0
    decreases |data|
  {
    if data != [] {
      assert data[0] in data && forall b :: b in data[1..] ==> b in data;
      ZeroStep();
      CrcOfZeros(data[1..]);
    }
  }

  lemma ZeroStep()
    ensures Step(0, 0) == 0
  {
    ShiftBitsOfZero(8);
    assert (0 as bv16) ^ ((0 as bv16) << 8) == 0;
  }

  class CrcXmodem {
    var value: bv16
    ghost var processed: seq<Byte>

    ghost predicate Valid()
      reads this
    {
      value == CrcHqx(processed, 0)
    }

    constructor ()
      ensures Valid() && processed == []
    {
      value := 0;
      processed := [];
    }

    method Process(data: seq<Byte>)
      requires Valid()
      modifies this
      ensures Valid() && processed == old(processed) + data
    {
      value := CrcHqx(data, value);
      CrcOfConcatenation(processed, data, 0);
      processed := processed + data;
    }

    method Final() returns (crc: bv16)
      requires Valid()
      ensures crc == CrcHqx(processed, 0)
    {
      crc := value;
    }
  }
}
