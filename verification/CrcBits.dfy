/** The division by the CRC-CCITT polynomial, bit by bit, and what it does to parity. */
module CrcBits {
  /** One bit of the division, polynomial 0x1021. */
  function ShiftBit(crc: bv16): bv16 {
    if crc & 0x8000 != 0 then (crc << 1) ^ 0x1021 else crc << 1
  }

  function ShiftBits(crc: bv16, n: nat): bv16
    decreases n
  {
    if n == 0 then crc else ShiftBits(ShiftBit(crc), n - 1)
  }

  lemma {:induction false} ShiftBitsOfZero(n: nat)
    ensures ShiftBits(0, n) == 0
    decreases n
  {
    if n > 0 {
      assert ShiftBit(0) == 0;
      ShiftBitsOfZero(n - 1);
    }
  }

  // ----- Parity -----

  predicate TopBit(x: bv16) {
    x & 0x8000 != 0
  }

  function Shifted(x: bv16): bv16 {
    x << 1
  }

  function Plus(x: bv16, y: bv16): bv16 {
    x ^ y
  }

  /** The n highest bits have an odd number of ones. */
  predicate OddTop(x: bv16, n: nat)
    decreases n
  {
    n > 0 && TopBit(x) != OddTop(Shifted(x), n - 1)
  }

  /** The word has an odd number of one bits. */
  predicate Odd(x: bv16) {
    OddTop(x, 16)
  }

  lemma {:induction false} OddTopOfPlus(x: bv16, y: bv16, n: nat)
    ensures OddTop(Plus(x, y), n) == (OddTop(x, n) != OddTop(y, n))
    decreases n
  {
    hide TopBit;
    hide Shifted;
    hide Plus;
    if n > 0 {
      ShiftedPlus(x, y);
      OddTopOfPlus(Shifted(x), Shifted(y), n - 1);
    }
  }

  lemma ShiftedPlus(x: bv16, y: bv16)
    ensures Shifted(Plus(x, y)) == Plus(Shifted(x), Shifted(y))
    ensures TopBit(Plus(x, y)) == (TopBit(x) != TopBit(y))
  {
    XorIsShifted(x, y);
    XorOfTops(x, y);
  }

  lemma XorIsShifted(x: bv16, y: bv16)
    ensures (x ^ y) << 1 == (x << 1) ^ (y << 1)
  {
  }

  lemma XorOfTops(x: bv16, y: bv16)
    ensures TopBit(x ^ y) == (TopBit(x) != TopBit(y))
  {
  }

  lemma OddOfXor(x: bv16, y: bv16)
    ensures Odd(x ^ y) == (Odd(x) != Odd(y))
  {
    hide OddTop;
    OddTopOfPlus(x, y, 16);
  }

  /** Shifted n times. */
  function ShiftedLeft(x: bv16, n: nat): bv16
    decreases n
  {
    if n == 0 then x else ShiftedLeft(Shifted(x), n - 1)
  }

  /** A bit that has been shifted in does not count. */
  lemma {:induction false} OddTopOfShifted(x: bv16, n: nat)
    requires ShiftedLeft(x, n) == 0
    ensures OddTop(x, n + 1) == OddTop(x, n)
    decreases n
  {
    if n > 0 {
      hide TopBit;
      hide Shifted;
      OddTopOfShifted(Shifted(x), n - 1);
    }
  }

  lemma NothingIsLeft(x: bv16)
    ensures ShiftedLeft(Shifted(x), 15) == 0
  {
    hide Shifted;
    ShiftedByFour(Shifted(x), 11);
    ShiftedByFour(Shifted(x) << 4, 7);
    ShiftedByFour(Shifted(x) << 8, 3);
    ThreeLeft(Shifted(x) << 12);
    assert (Shifted(x) << 4) << 4 == Shifted(x) << 8 && (Shifted(x) << 8) << 4 == Shifted(x) << 12;
    LastShift(x);
  }

  lemma LastShift(x: bv16)
    ensures (Shifted(x) << 12) << 3 == 0
  {
  }

  lemma ThreeLeft(x: bv16)
    ensures ShiftedLeft(x, 3) == x << 3
  {
    assert ShiftedLeft(x, 3) == ((x << 1) << 1) << 1;
  }

  lemma ShiftedByFour(x: bv16, n: nat)
    ensures ShiftedLeft(x, n + 4) == ShiftedLeft(x << 4, n)
  {
    assert ShiftedLeft(x, n + 4) == ShiftedLeft((x << 1) << 1, n + 2);
    assert (((x << 1) << 1) << 1) << 1 == x << 4;
  }

  /** The bit shifted out is replaced by the three bits of the polynomial. */
  lemma ShiftBitKeepsParity(crc: bv16)
    ensures Odd(ShiftBit(crc)) == Odd(crc)
  {
    hide TopBit;
    hide Shifted;
    hide ShiftedLeft;
    hide ShiftBit;
    ShiftBitCases(crc);
    NothingIsLeft(crc);
    OddTopOfShifted(Shifted(crc), 15);
    TopOrRest(crc);
    OddOfXor(Shifted(crc), 0x1021);
    PolynomialIsOdd();
    hide OddTop;
  }

  lemma TopOrRest(x: bv16)
    ensures OddTop(x, 16) == (TopBit(x) != OddTop(Shifted(x), 15))
  {
    hide TopBit;
    hide Shifted;
  }

  lemma ShiftBitCases(crc: bv16)
    ensures ShiftBit(crc) == if TopBit(crc) then Shifted(crc) ^ 0x1021 else Shifted(crc)
  {
  }

  lemma PolynomialIsOdd()
    ensures Odd(0x1021)
  {
    assert OddTop(0x1021, 16) == OddTop(0x4084, 14);
    assert OddTop(0x4084, 14) == !OddTop(0x0210, 12) by { assert OddTop(0x4084, 14) == OddTop(0x8108, 13); }
  }

  lemma {:induction false} ShiftBitsKeepParity(crc: bv16, n: nat)
    ensures Odd(ShiftBits(crc, n)) == Odd(crc)
    decreases n
  {
    hide Odd;
    hide ShiftBit;
    if n > 0 {
      ShiftBitKeepsParity(crc);
      ShiftBitsKeepParity(ShiftBit(crc), n - 1);
    }
  }
}
