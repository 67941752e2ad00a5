/** The packed words of a process data object's configuration: COB-ID with flags, and mapping entries. */
module PdoWords {
  import opened Bits
  import opened PdoLayout
  import Codecs

  const PDO_NOT_VALID_BIT := 31
  const RTR_NOT_ALLOWED_BIT := 30

  // ----- The words -----

  /** Python's x | y << n on naturals. */
  function Join(x: nat, y: nat, n: nat): nat {
    ShlIsNatural(y, n);
    OrIsNatural(x, Shl(y, n));
    Or(x, Shl(y, n))
  }

  /** The word of the COB-ID register. */
  function CobWord(cobId: nat, valid: bool, rtrAllowed: bool): nat {
    var word := if valid then cobId else Join(cobId, 1, PDO_NOT_VALID_BIT);
    if rtrAllowed then word else Join(word, 1, RTR_NOT_ALLOWED_BIT)
  }

  /** The word of a mapping entry, in the standard or the swapped field order. */
  function EntryWord(v: Variable, swapped: bool): nat {
    if swapped then Join(Join(v.index, v.subindex, 16), v.length, 24)
    else Join(Join(v.length, v.subindex, 8), v.index, 16)
  }

  /** Index, subindex and length of a mapping entry. */
  function EntryFields(word: nat, swapped: bool): (nat, nat, nat) {
    FieldsAreNatural(word);
    if swapped then (And(word, 0xFFFF), And(Shr(word, 16), 0xFF), And(Shr(word, 24), 0x7F))
    else (Shr(word, 16), And(Shr(word, 8), 0xFF), And(word, 0x7F))
  }

  // ----- Operators on naturals -----

  lemma {:induction false} AndIsNatural(x: int, y: int)
    requires y >= 0
    ensures And(x, y) >= 0
    decreases Magnitude(x)
  {
    if x != 0 && x != -1 {
      AndIsNatural(x / 2, y / 2);
    }
  }

  lemma {:induction false} AndIsNegative(x: int, y: int)
    requires x < 0 && y < 0
    ensures And(x, y) < 0
    decreases Magnitude(x)
  {
    if x != -1 {
      AndIsNegative(x / 2, y / 2);
    }
  }

  lemma OrIsNatural(x: nat, y: nat)
    ensures Or(x, y) >= 0
  {
    AndIsNegative(Not(x), Not(y));
  }

  lemma {:induction false} ShlIsNatural(x: nat, n: nat)
    ensures Shl(x, n) >= 0
  {
    if n > 0 {
      ShlIsNatural(x, n - 1);
    }
  }

  lemma {:induction false} ShrIsNatural(x: int, n: nat)
    requires x >= 0
    ensures Shr(x, n) >= 0
    decreases n
  {
    if n > 0 {
      ShrIsNatural(x / 2, n - 1);
    }
  }

  lemma FieldsAreNatural(word: nat)
    ensures Shr(word, 16) >= 0 && And(Shr(word, 8), 0xFF) >= 0 && And(word, 0x7F) >= 0
    ensures And(word, 0xFFFF) >= 0 && And(Shr(word, 16), 0xFF) >= 0 && And(Shr(word, 24), 0x7F) >= 0
  {
    ShrIsNatural(word, 16);
    AndIsNatural(Shr(word, 8), 0xFF);
    AndIsNatural(word, 0x7F);
    AndIsNatural(word, 0xFFFF);
    AndIsNatural(Shr(word, 16), 0xFF);
    AndIsNatural(Shr(word, 24), 0x7F);
  }

  // ----- Round trips -----

  lemma MaskConstants()
    ensures Mask(7) == 0x7F && Mask(8) == 0xFF && Mask(16) == 0xFFFF && Mask(29) == 0x1FFF_FFFF
    ensures Pow2(7) == 128 && Pow2(8) == 256 && Pow2(16) == 65536
  {
    ByteIsShift(0, 0);
    ShlOneIsPow2(7);
    ShlOneIsPow2(8);
    ShlOneIsPow2(16);
    ShlOneIsPow2(29);
    assert Pow2(8) == 2 * Pow2(7);
    assert Pow2(12) == 16 * Pow2(8);
    assert Pow2(16) == 16 * Pow2(12);
    assert Pow2(20) == 16 * Pow2(16);
    assert Pow2(24) == 16 * Pow2(20);
    assert Pow2(28) == 16 * Pow2(24);
    assert Pow2(29) == 2 * Pow2(28);
  }

  /** n bits of a word, from bit s on. */
  lemma FieldOfWord(word: int, s: nat, n: nat, x: int)
    requires 0 <= x < Pow2(n) && forall k: nat :: k < n ==> Bit(word, s + k) == Bit(x, k)
    ensures And(Shr(word, s), Mask(n)) == x
  {
    forall k: nat ensures Bit(And(Shr(word, s), Mask(n)), k) == Bit(x, k) {
      BitOfAnd(Shr(word, s), Mask(n), k);
      BitOfShr(word, s, k);
      BitOfMask(n, k);
      if k >= n {
        SmallHasNoHighBits(x, n, k);
      }
    }
    SameBits(And(Shr(word, s), Mask(n)), x);
  }

  lemma MaskedIsSmall(x: int, n: nat)
    ensures 0 <= And(x, Mask(n)) < Pow2(n)
  {
    forall k: nat | k >= n ensures !Bit(And(x, Mask(n)), k) {
      BitOfAnd(x, Mask(n), k);
      BitOfMask(n, k);
    }
    NoHighBitsIsSmall(And(x, Mask(n)), n);
  }

  lemma BitOfJoin(x: nat, y: nat, n: nat, k: nat)
    ensures Bit(Join(x, y, n), k) == (Bit(x, k) || (k >= n && Bit(y, k - n)))
  {
    BitOfOr(x, Shl(y, n), k);
    BitOfShl(y, n, k);
  }

  /** Numbers below 2^16 and 2^8, the addresses an entry has room for. */
  predicate FitsEntry(v: Variable, swapped: bool) {
    v.subindex < 256 && v.length < 128 && (swapped ==> v.index < 65536)
  }

  /**
   A mapping entry gives back its three fields exactly when each has room; in the standard order the
   index is not cut off.
   */
  lemma EntryRoundTrip(v: Variable, swapped: bool)
    ensures EntryFields(EntryWord(v, swapped), swapped) == (v.index, v.subindex, v.length) <==> FitsEntry(v, swapped)
  {
    MaskConstants();
    var word := EntryWord(v, swapped);
    if FitsEntry(v, swapped) {
      if swapped {
        SwappedFields(v);
      } else {
        StandardFields(v);
      }
    }
    if swapped {
      MaskedIsSmall(word, 16);
      MaskedIsSmall(Shr(word, 16), 8);
      MaskedIsSmall(Shr(word, 24), 7);
    } else {
      MaskedIsSmall(Shr(word, 8), 8);
      MaskedIsSmall(word, 7);
    }
  }

  lemma BitOfStandardEntry(v: Variable, k: nat)
    requires FitsEntry(v, false)
    ensures Bit(EntryWord(v, false), k) ==
      if k < 8 then Bit(v.length, k) else if k < 16 then Bit(v.subindex, k - 8) else Bit(v.index, k - 16)
  {
    MaskConstants();
    BitOfJoin(Join(v.length, v.subindex, 8), v.index, 16, k);
    BitOfJoin(v.length, v.subindex, 8, k);
    if k >= 8 {
      SmallHasNoHighBits(v.length, 7, k);
    }
    if k >= 16 {
      SmallHasNoHighBits(v.subindex, 8, k - 8);
    }
  }

  lemma BitOfSwappedEntry(v: Variable, k: nat)
    requires FitsEntry(v, true)
    ensures Bit(EntryWord(v, true), k) ==
      if k < 16 then Bit(v.index, k) else if k < 24 then Bit(v.subindex, k - 16) else Bit(v.length, k - 24)
  {
    MaskConstants();
    BitOfJoin(Join(v.index, v.subindex, 16), v.length, 24, k);
    BitOfJoin(v.index, v.subindex, 16, k);
    if k >= 16 {
      SmallHasNoHighBits(v.index, 16, k);
    }
    if k >= 24 {
      SmallHasNoHighBits(v.subindex, 8, k - 16);
    }
  }

  lemma StandardFields(v: Variable)
    requires FitsEntry(v, false)
    ensures EntryFields(EntryWord(v, false), false) == (v.index, v.subindex, v.length)
  {
    hide EntryWord;
    MaskConstants();
    var word := EntryWord(v, false);
    forall k: nat ensures Bit(Shr(word, 16), k) == Bit(v.index, k) {
      BitOfShr(word, 16, k);
      BitOfStandardEntry(v, 16 + k);
    }
    SameBits(Shr(word, 16), v.index);
    forall k: nat {
      BitOfStandardEntry(v, k);
    }
    FieldOfWord(word, 8, 8, v.subindex);
    FieldOfWord(word, 0, 7, v.length);
  }

  lemma SwappedFields(v: Variable)
    requires FitsEntry(v, true)
    ensures EntryFields(EntryWord(v, true), true) == (v.index, v.subindex, v.length)
  {
    hide EntryWord;
    MaskConstants();
    var word := EntryWord(v, true);
    forall k: nat {
      BitOfSwappedEntry(v, k);
    }
    FieldOfWord(word, 0, 16, v.index);
    FieldOfWord(word, 16, 8, v.subindex);
    FieldOfWord(word, 24, 7, v.length);
  }

  /** An entry that has room for its fields is a 32-bit word, if the index has 16 bits. */
  lemma EntryWordFits(v: Variable, swapped: bool)
    requires FitsEntry(v, swapped) && v.index < 65536
    ensures EntryWord(v, swapped) < Pow2(32)
  {
    hide EntryWord;
    MaskConstants();
    forall k: nat | k >= 32 ensures !Bit(EntryWord(v, swapped), k) {
      if swapped {
        BitOfSwappedEntry(v, k);
        SmallHasNoHighBits(v.length, 7, k - 24);
      } else {
        BitOfStandardEntry(v, k);
        SmallHasNoHighBits(v.index, 16, k - 16);
      }
    }
    NoHighBitsIsSmall(EntryWord(v, swapped), 32);
  }

  lemma ZeroHasNoBits(word: nat, n: nat)
    ensures And(word, Shl(1, n)) == 0 <==> !Bit(word, n)
  {
    forall k: nat ensures Bit(And(word, Shl(1, n)), k) == (k == n && Bit(word, n)) {
      BitOfAnd(word, Shl(1, n), k);
      BitOfShl(1, n, k);
      if k > n {
        BitOfConstant(k - n - 1);
      }
    }
    if !Bit(word, n) {
      forall k: nat ensures Bit(And(word, Shl(1, n)), k) == Bit(0, k) {
        BitOfConstant(k);
      }
      SameBits(And(word, Shl(1, n)), 0);
    } else {
      BitOfConstant(n);
      assert Bit(And(word, Shl(1, n)), n);
    }
  }

  lemma BitOfCobWord(cobId: nat, valid: bool, rtrAllowed: bool, k: nat)
    ensures Bit(CobWord(cobId, valid, rtrAllowed), k) ==
      (Bit(cobId, k) || (!valid && k == 31) || (!rtrAllowed && k == 30))
  {
    BitOfOne(cobId, PDO_NOT_VALID_BIT, k);
    BitOfOne(if valid then cobId else Join(cobId, 1, PDO_NOT_VALID_BIT), RTR_NOT_ALLOWED_BIT, k);
  }

  lemma CobWordFits(cobId: nat, valid: bool, rtrAllowed: bool)
    requires cobId < Pow2(29)
    ensures CobWord(cobId, valid, rtrAllowed) < Pow2(32)
  {
    forall k: nat | k >= 32 ensures !Bit(CobWord(cobId, valid, rtrAllowed), k) {
      BitOfCobWord(cobId, valid, rtrAllowed, k);
      SmallHasNoHighBits(cobId, 29, k);
    }
    NoHighBitsIsSmall(CobWord(cobId, valid, rtrAllowed), 32);
  }

  /** The COB-ID word gives back the identifier exactly when it has at most 29 bits, and then both flags too. */
  lemma CobRoundTrip(cobId: nat, valid: bool, rtrAllowed: bool)
    ensures var word := CobWord(cobId, valid, rtrAllowed);
      && (And(word, 0x1FFF_FFFF) == cobId <==> cobId < Pow2(29))
      && (cobId < Pow2(29) ==> Bit(word, 31) == !valid && Bit(word, 30) == !rtrAllowed)
      && (!valid ==> Bit(word, 31))
  {
    MaskConstants();
    var word := CobWord(cobId, valid, rtrAllowed);
    forall k: nat {
      BitOfCobWord(cobId, valid, rtrAllowed, k);
    }
    MaskedIsSmall(word, 29);
    if cobId < Pow2(29) {
      FieldOfWord(word, 0, 29, cobId);
      SmallHasNoHighBits(cobId, 29, 31);
      SmallHasNoHighBits(cobId, 29, 30);
    }
  }

  lemma BitOfOne(x: nat, n: nat, k: nat)
    ensures Bit(Join(x, 1, n), k) == (Bit(x, k) || k == n)
  {
    BitOfJoin(x, 1, n, k);
    if k > n {
      BitOfConstant(k - n - 1);
    }
  }

  // ----- The words as numbers -----

  lemma {:induction false} ShlIsProduct(y: int, n: nat)
    ensures Shl(y, n) == y * Pow2(n)
  {
    if n > 0 {
      ShlIsProduct(y, n - 1);
      assert 2 * (y * Pow2(n - 1)) == y * (2 * Pow2(n - 1));
    }
  }

  /** x | y << n, where x ends below bit n. */
  lemma JoinIsSum(x: nat, y: nat, n: nat)
    requires x < Pow2(n)
    ensures Join(x, y, n) == x + y * Pow2(n)
  {
    ShlIsProduct(y, n);
    forall k: nat ensures Bit(Join(x, y, n), k) == Bit(x + Shl(y, n), k) {
      BitOfJoin(x, y, n, k);
      BitAboveShift(x, y, n, k);
      if k >= n {
        SmallHasNoHighBits(x, n, k);
      }
    }
    SameBits(Join(x, y, n), x + Shl(y, n));
  }

  lemma WordSizes()
    ensures Pow2(7) == 0x80 && Pow2(8) == 0x100 && Pow2(16) == 0x1_0000 && Pow2(24) == 0x100_0000
    ensures Pow2(29) == 0x2000_0000 && Pow2(30) == 0x4000_0000 && Mask(7) == 0x7F && Mask(8) == 0xFF
    ensures Mask(16) == 0xFFFF && Mask(29) == 0x1FFF_FFFF
  {
    MaskConstants();
    assert Pow2(20) == 16 * Pow2(16);
    assert Pow2(24) == 16 * Pow2(20);
    assert Pow2(28) == 16 * Pow2(24);
    assert Pow2(29) == 2 * Pow2(28);
    assert Pow2(30) == 2 * Pow2(29);
  }

  /** The COB-ID word of 29 bits, the not-valid flag in bit 31 and the no-RTR flag in bit 30. */
  lemma CobWordIsSum(cobId: nat, valid: bool, rtrAllowed: bool)
    requires cobId < 0x2000_0000
    ensures CobWord(cobId, valid, rtrAllowed) ==
      cobId + (if valid then 0 else 0x8000_0000) + (if rtrAllowed then 0 else 0x4000_0000)
  {
    WordSizes();
    var flags := (if valid then 0 else 2) + (if rtrAllowed then 0 else 1);
    var word := CobWord(cobId, valid, rtrAllowed);
    hide CobWord;
    ShlIsProduct(flags, 30);
    forall k: nat ensures Bit(word, k) == Bit(cobId + Shl(flags, 30), k) {
      BitOfCobWord(cobId, valid, rtrAllowed, k);
      BitAboveShift(cobId, flags, 30, k);
      if k >= 30 {
        SmallHasNoHighBits(cobId, 29, k);
        BitsOfFlags(flags, k - 30);
      }
    }
    SameBits(word, cobId + Shl(flags, 30));
  }

  lemma BitsOfFlags(flags: nat, k: nat)
    requires flags < 4
    ensures Bit(flags, k) == ((k == 0 && flags % 2 == 1) || (k == 1 && flags >= 2))
  {
    if k > 1 {
      assert Bit(flags, k) == Bit(flags / 2, k - 1) == Bit(flags / 4, k - 2);
      BitOfConstant(k - 2);
    }
  }

  /** The word of a mapping entry: index, subindex and length, or in the swapped order length, subindex and index. */
  lemma EntryWordIsSum(v: Variable, swapped: bool)
    requires FitsEntry(v, swapped)
    ensures EntryWord(v, swapped) ==
      if swapped then 0x100_0000 * v.length + 0x1_0000 * v.subindex + v.index
      else 0x1_0000 * v.index + 0x100 * v.subindex + v.length
  {
    WordSizes();
    if swapped {
      JoinIsSum(v.index, v.subindex, 16);
      JoinIsSum(v.index + v.subindex * 0x1_0000, v.length, 24);
    } else {
      JoinIsSum(v.length, v.subindex, 8);
      JoinIsSum(v.length + v.subindex * 0x100, v.index, 16);
    }
  }

  /** A mask keeps the remainder. */
  lemma {:induction false} MaskIsRemainder(x: nat, n: nat)
    ensures And(x, Mask(n)) == x % Pow2(n)
  {
    if n == 0 {
      MaskedIsSmall(x, 0);
    } else {
      MaskIsRemainder(x / 2, n - 1);
      RemainderOfDouble(x, Pow2(n - 1));
      assert Mask(n) == 2 * Mask(n - 1) + 1;
      hide Mask;
      OddMask(x, Mask(n));
    }
  }

  lemma OddMask(x: nat, mask: int)
    requires mask % 2 == 1
    ensures And(x, mask) == 2 * And(x / 2, mask / 2) + x % 2
  {
  }

  lemma RemainderOfDouble(x: nat, p: nat)
    requires p > 0
    ensures x % (2 * p) == 2 * (x / 2 % p) + x % 2
  {
    var q, r := x / 2 / p, x / 2 % p;
    assert x / 2 == q * p + r && x == 2 * (x / 2) + x % 2;
    assert 2 * (q * p) == q * (2 * p);
    Codecs.RestOfSum(q, 2 * r + x % 2, 2 * p);
  }

  lemma ShrIsQuotient(x: nat)
    ensures Shr(x, 8) == x / 0x100 && Shr(x, 16) == x / 0x1_0000 && Shr(x, 24) == x / 0x100_0000
  {
    EightDown(x, 0);
    EightDown(x, 8);
    EightDown(x / 0x100, 0);
    EightDown(x, 16);
    EightDown(x / 0x100, 8);
    EightDown(x / 0x1_0000, 0);
  }

  lemma EightDown(x: nat, n: nat)
    ensures Shr(x, n + 8) == Shr(x / 0x100, n) && Shr(x, 0) == x
  {
    assert Shr(x, n + 8) == Shr(x / 2, n + 7) == Shr(x / 4, n + 6) == Shr(x / 8, n + 5) == Shr(x / 16, n + 4);
    assert Shr(x / 16, n + 4) == Shr(x / 32, n + 3) == Shr(x / 64, n + 2) == Shr(x / 128, n + 1) == Shr(x / 256, n);
  }

  /** The fields of every word, whoever wrote it; the highest bit of the length is ignored. */
  lemma EntryFieldsAreDigits(word: nat, swapped: bool)
    ensures EntryFields(word, swapped) ==
      if swapped then (word % 0x1_0000, word / 0x1_0000 % 0x100, word / 0x100_0000 % 0x80)
      else (word / 0x1_0000, word / 0x100 % 0x100, word % 0x80)
  {
    WordSizes();
    ShrIsQuotient(word);
    MaskIsRemainder(word, 16);
    MaskIsRemainder(word / 0x1_0000, 8);
    MaskIsRemainder(word / 0x100_0000, 7);
    MaskIsRemainder(word / 0x100, 8);
    MaskIsRemainder(word, 7);
  }
}
