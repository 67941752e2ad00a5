/** The checksum register as a polynomial: shifting and adding words is shifting and adding coefficients. */
module CrcWords {
  import opened Bits
  import opened CrcBits
  import opened CrcDivision

  /** The n highest bits, the highest first. */
  function HighestBits(x: bv16, n: nat): (bits: seq<bool>)
    ensures |bits| == n
    decreases n
  {
    if n == 0 then [] else [TopBit(x)] + HighestBits(Shifted(x), n - 1)
  }

  function WordBits(x: bv16): (bits: seq<bool>)
    ensures |bits| == 16
  {
    HighestBits(x, 16)
  }

  lemma {:induction false} HighestOfPlus(x: bv16, y: bv16, n: nat)
    ensures HighestBits(Plus(x, y), n) == Sum(HighestBits(x, n), HighestBits(y, n))
    decreases n
  {
    hide TopBit;
    hide Shifted;
    hide Plus;
    if n > 0 {
      ShiftedPlus(x, y);
      HighestOfPlus(Shifted(x), Shifted(y), n - 1);
    }
  }

  lemma WordOfPlus(x: bv16, y: bv16)
    ensures WordBits(Plus(x, y)) == Sum(WordBits(x), WordBits(y))
  {
    hide Plus;
    HighestOfPlus(x, y, 16);
  }

  lemma {:induction false} OneMoreBit(x: bv16, n: nat)
    ensures HighestBits(x, n + 1) == HighestBits(x, n) + [TopBit(ShiftedLeft(x, n))]
    decreases n
  {
    hide TopBit;
    hide Shifted;
    if n > 0 {
      OneMoreBit(Shifted(x), n - 1);
    }
  }

  lemma ShiftedIsTimesX(x: bv16)
    ensures WordBits(Shifted(x)) == WordBits(x)[1..] + [false] && WordBits(x)[0] == TopBit(x)
  {
    hide Shifted;
    hide ShiftedLeft;
    NothingIsLeft(x);
    OneMoreBit(Shifted(x), 15);
    FirstBit(x);
    hide HighestBits;
    hide TopBit;
    ZeroHasNoTop();
  }

  lemma FirstBit(x: bv16)
    ensures HighestBits(x, 16) == [TopBit(x)] + HighestBits(Shifted(x), 15)
  {
    hide TopBit;
    hide Shifted;
  }

  lemma ZeroHasNoTop()
    ensures !TopBit(0) && Shifted(0) == 0
  {
  }

  lemma {:induction false} BitsOfZero(n: nat)
    ensures HighestBits(0, n) == Zeros(n)
    decreases n
  {
    if n > 0 {
      ZeroHasNoTop();
      hide TopBit;
      hide Shifted;
      BitsOfZero(n - 1);
    }
  }

  /** A word is known by its bits. */
  lemma {:induction false} NoBitsIsZero(x: bv16, n: nat)
    requires HighestBits(x, n) == Zeros(n) && ShiftedLeft(x, n) == 0
    ensures x == 0
    decreases n
  {
    if n > 0 {
      hide TopBit;
      hide Shifted;
      assert HighestBits(x, n)[0] == TopBit(x) && HighestBits(x, n)[1..] == HighestBits(Shifted(x), n - 1);
      assert Zeros(n)[1..] == Zeros(n - 1);
      NoBitsIsZero(Shifted(x), n - 1);
      NoTopAndNoRest(x);
    }
  }

  lemma NoTopAndNoRest(x: bv16)
    requires !TopBit(x) && Shifted(x) == 0
    ensures x == 0
  {
  }

  lemma SameWordBits(x: bv16, y: bv16)
    requires WordBits(x) == WordBits(y)
    ensures x == y
  {
    hide HighestBits;
    hide Shifted;
    hide Plus;
    hide ShiftedLeft;
    HighestOfPlus(x, y, 16);
    assert Sum(WordBits(x), WordBits(y)) == Zeros(16);
    NothingIsLeft(Plus(x, y));
    LeftFromStart(Plus(x, y));
    NoBitsIsZero(Plus(x, y), 16);
    EqualIfSumIsZero(x, y);
  }

  lemma LeftFromStart(x: bv16)
    ensures ShiftedLeft(x, 16) == ShiftedLeft(Shifted(x), 15)
  {
    hide Shifted;
  }

  lemma EqualIfSumIsZero(x: bv16, y: bv16)
    requires Plus(x, y) == 0
    ensures x == y
  {
  }

  // ----- One step of the register -----

  function FourHighest(x: bv16): (bits: seq<bool>)
    ensures |bits| == 4
  {
    [x & 0x8000 != 0, x & 0x4000 != 0, x & 0x2000 != 0, x & 0x1000 != 0]
  }

  function FourUp(x: bv16): bv16 {
    x << 4
  }

  lemma FourTops(x: bv16)
    ensures FourHighest(x) ==
      [TopBit(x), TopBit(Shifted(x)), TopBit(Shifted(Shifted(x))), TopBit(Shifted(Shifted(Shifted(x))))]
    ensures Shifted(Shifted(Shifted(Shifted(x)))) == FourUp(x)
  {
  }

  lemma FourBits(x: bv16, n: nat)
    ensures HighestBits(x, n + 4) == FourHighest(x) + HighestBits(FourUp(x), n)
  {
    FourTops(x);
    hide HighestBits;
    hide TopBit;
    hide Shifted;
    hide FourHighest;
    hide FourUp;
    TwoBits(x, n + 2);
    TwoBits(Shifted(Shifted(x)), n);
  }

  lemma TwoBits(x: bv16, n: nat)
    ensures HighestBits(x, n + 2) == [TopBit(x), TopBit(Shifted(x))] + HighestBits(Shifted(Shifted(x)), n)
  {
    hide TopBit;
    hide Shifted;
    assert HighestBits(x, n + 2) == [TopBit(x)] + HighestBits(Shifted(x), n + 1);
  }

  lemma PolynomialIsDivisor()
    ensures WordBits(0x1021) == Divisor()[1..]
  {
    FourBits(0x1021, 12);
    FourBits(0x0210, 8);
    FourBits(0x2100, 4);
    FourBits(0x1000, 0);
  }

  lemma ShiftBitIsPlus(x: bv16)
    ensures ShiftBit(x) == if TopBit(x) then Plus(Shifted(x), 0x1021) else Shifted(x)
  {
  }

  /** One shift of the register is one step of the division. */
  lemma ShiftBitIsShift(x: bv16)
    ensures WordBits(ShiftBit(x)) == Shift(WordBits(x))
  {
    hide HighestBits;
    hide Plus;
    hide Shifted;
    hide TopBit;
    hide ShiftBit;
    ShiftBitIsPlus(x);
    ShiftedIsTimesX(x);
    HighestOfPlus(Shifted(x), 0x1021, 16);
    PolynomialIsDivisor();
    assert !TopBit(x) ==> Sum(WordBits(Shifted(x)), Zeros(16)) == WordBits(Shifted(x));
  }

  lemma {:induction false} ShiftBitsAreShifts(x: bv16, n: nat)
    ensures WordBits(ShiftBits(x, n)) == Shifts(WordBits(x), n)
    decreases n
  {
    hide WordBits;
    hide ShiftBit;
    hide Shift;
    if n > 0 {
      ShiftBitIsShift(x);
      ShiftBitsAreShifts(ShiftBit(x), n - 1);
    }
  }

  // ----- Bytes -----

  /** The bits of a byte, the highest first. */
  function ByteBits(b: Byte): (bits: seq<bool>)
    ensures |bits| == 8
  {
    [b / 128 % 2 == 1, b / 64 % 2 == 1, b / 32 % 2 == 1, b / 16 % 2 == 1,
     b / 8 % 2 == 1, b / 4 % 2 == 1, b / 2 % 2 == 1, b % 2 == 1]
  }

  /** A byte at the upper end of the register. */
  function High(b: Byte): bv16 {
    (b as bv16) << 8
  }

  lemma NibblesOfHigh(b: Byte)
    ensures FourHighest(High(b)) == ByteBits(b)[..4] && FourHighest(FourUp(High(b))) == ByteBits(b)[4..]
    ensures FourUp(FourUp(High(b))) == 0
  {
    HighNibble(b);
    LowNibble(b);
  }

  lemma HighNibble(b: Byte)
    ensures var x := (b as bv16) << 8;
      && (x & 0x8000 != 0) == (b / 128 % 2 == 1) && (x & 0x4000 != 0) == (b / 64 % 2 == 1)
      && (x & 0x2000 != 0) == (b / 32 % 2 == 1) && (x & 0x1000 != 0) == (b / 16 % 2 == 1)
  {
  }

  lemma LowNibble(b: Byte)
    ensures var x := ((b as bv16) << 8) << 4;
      && (x & 0x8000 != 0) == (b / 8 % 2 == 1) && (x & 0x4000 != 0) == (b / 4 % 2 == 1)
      && (x & 0x2000 != 0) == (b / 2 % 2 == 1) && (x & 0x1000 != 0) == (b % 2 == 1)
      && x << 4 == 0
  {
  }

  lemma HighIsByte(b: Byte)
    ensures WordBits(High(b)) == ByteBits(b) + Zeros(8)
  {
    NibblesOfHigh(b);
    FourBits(High(b), 12);
    FourBits(FourUp(High(b)), 8);
    BitsOfZero(8);
    hide HighestBits;
    hide High;
    hide FourHighest;
    hide FourUp;
    hide ByteBits;
    hide Zeros;
    assert ByteBits(b) == ByteBits(b)[..4] + ByteBits(b)[4..];
  }
}
