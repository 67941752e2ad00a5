/**
 Python's unbounded integers seen as two's complement bit strings: shifts, masks,
 bitwise operators, and the little-endian byte strings of the struct module.
 A negative number has infinitely many leading ones, so every definition below
 also covers negative operands.
 */
module Bits {

  type Byte = x: int | 0 <= x < 256

  /** Bit k of x, least significant first. */
  predicate Bit(x: int, k: nat)
    decreases k
  {
    if k == 0 then x % 2 == 1 else Bit(x / 2, k - 1)
  }

  /** x << n */
  function Shl(x: int, n: nat): int {
    if n == 0 then x else 2 * Shl(x, n - 1)
  }

  /** x >> n */
  function Shr(x: int, n: nat): int
    decreases n
  {
    if n == 0 then x else Shr(x / 2, n - 1)
  }

  function Pow2(n: nat): (p: int)
    ensures p >= 1
  {
    if n == 0 then 1 else 2 * Pow2(n - 1)
  }

  /** ~x */
  function Not(x: int): int {
    -x - 1
  }

  function Magnitude(x: int): nat {
    if x >= 0 then x else -x - 1
  }

  /** x & y */
  function And(x: int, y: int): int
    decreases Magnitude(x)
  {
    if x == 0 then 0
    else if x == -1 then y
    else 2 * And(x / 2, y / 2) + if x % 2 == 1 && y % 2 == 1 then 1 else 0
  }

  /** x | y */
  function Or(x: int, y: int): int {
    Not(And(Not(x), Not(y)))
  }

  /** (1 << n) - 1 */
  function Mask(n: nat): int {
    Shl(1, n) - 1
  }

  function Min(a: nat, b: nat): nat {
    if a <= b then a else b
  }

  // ----- Each operator, bit by bit -----

  lemma {:induction false} BitOfNot(x: int, k: nat)
    ensures Bit(Not(x), k) == !Bit(x, k)
    decreases k
  {
    if k > 0 {
      assert Not(x) / 2 == Not(x / 2);
      BitOfNot(x / 2, k - 1);
    }
  }

  lemma {:induction false} BitOfConstant(k: nat)
    ensures !Bit(0, k) && Bit(-1, k)
  {
    if k > 0 {
      BitOfConstant(k - 1);
    }
  }

  lemma {:induction false} BitOfAnd(x: int, y: int, k: nat)
    ensures Bit(And(x, y), k) == (Bit(x, k) && Bit(y, k))
    decreases k
  {
    BitOfConstant(k);
    if x != 0 && x != -1 {
      var low := if x % 2 == 1 && y % 2 == 1 then 1 else 0;
      assert And(x, y) / 2 == And(x / 2, y / 2) && And(x, y) % 2 == low;
      if k > 0 {
        BitOfAnd(x / 2, y / 2, k - 1);
      }
    }
  }

  lemma BitOfOr(x: int, y: int, k: nat)
    ensures Bit(Or(x, y), k) == (Bit(x, k) || Bit(y, k))
  {
    BitOfNot(And(Not(x), Not(y)), k);
    BitOfAnd(Not(x), Not(y), k);
    BitOfNot(x, k);
    BitOfNot(y, k);
  }

  lemma {:induction false} BitOfShl(x: int, n: nat, k: nat)
    ensures Bit(Shl(x, n), k) == (k >= n && Bit(x, k - n))
    decreases n
  {
    if n > 0 {
      if k > 0 {
        BitOfShl(x, n - 1, k - 1);
        assert Shl(x, n) / 2 == Shl(x, n - 1);
      }
    }
  }

  lemma {:induction false} BitOfShr(x: int, n: nat, k: nat)
    ensures Bit(Shr(x, n), k) == Bit(x, n + k)
    decreases n
  {
    if n > 0 {
      BitOfShr(x / 2, n - 1, k);
    }
  }

  lemma {:induction false} BitOfMask(n: nat, k: nat)
    ensures Bit(Mask(n), k) == (k < n)
    decreases n
  {
    if n == 0 {
      BitOfConstant(k);
    } else {
      assert Mask(n) == 2 * Mask(n - 1) + 1;
      if k > 0 {
        BitOfMask(n - 1, k - 1);
      }
    }
  }

  lemma {:induction false} ShlOneIsPow2(n: nat)
    ensures Shl(1, n) == Pow2(n)
  {
    if n > 0 {
      ShlOneIsPow2(n - 1);
    }
  }

  lemma {:induction false} Pow2Monotone(m: nat, n: nat)
    requires m <= n
    ensures Pow2(m) <= Pow2(n)
    ensures m < n ==> Pow2(m) < Pow2(n)
    decreases n
  {
    if m < n {
      Pow2Monotone(m, n - 1);
    }
  }

  // ----- Bits determine the number -----

  /** Two integers with the same bits are equal. */
  lemma {:induction false} SameBits(x: int, y: int)
    requires forall k: nat :: Bit(x, k) == Bit(y, k)
    ensures x == y
    decreases Magnitude(x) + Magnitude(y)
  {
    assert Bit(x, 0) == Bit(y, 0);
    forall k: nat ensures Bit(x / 2, k) == Bit(y / 2, k) {
      assert Bit(x, k + 1) == Bit(y, k + 1);
    }
    if Magnitude(x) + Magnitude(y) > 0 {
      SameBits(x / 2, y / 2);
    }
  }

  /** A non-negative number below 2^n has no bit at or above n. */
  lemma {:induction false} SmallHasNoHighBits(x: int, n: nat, k: nat)
    requires 0 <= x < Pow2(n) && k >= n
    ensures !Bit(x, k)
    decreases n
  {
    if n == 0 {
      BitOfConstant(k);
    } else {
      SmallHasNoHighBits(x / 2, n - 1, k - 1);
    }
  }

  /** In an n-bit signed range, every bit from n-1 upwards is the sign. */
  lemma {:induction false} SignedHighBits(x: int, n: nat, k: nat)
    requires n >= 1 && -Pow2(n - 1) <= x < Pow2(n - 1) && k >= n - 1
    ensures Bit(x, k) == (x < 0)
    decreases n
  {
    if n == 1 {
      BitOfConstant(k);
    } else {
      SignedHighBits(x / 2, n - 1, k - 1);
    }
  }

  /** Only the bits below n are set: the number is in [0, 2^n). */
  lemma {:induction false} NoHighBitsIsSmall(x: int, n: nat)
    requires forall k: nat :: k >= n ==> !Bit(x, k)
    ensures 0 <= x < Pow2(n)
    decreases n
  {
    if n == 0 {
      forall k: nat ensures Bit(x, k) == Bit(0, k) {
        BitOfConstant(k);
      }
      SameBits(x, 0);
    } else {
      forall k: nat | k >= n - 1 ensures !Bit(x / 2, k) {
        assert !Bit(x, k + 1);
      }
      NoHighBitsIsSmall(x / 2, n - 1);
    }
  }

  /** The bits from n-1 upwards all agree: the number is in the n-bit signed range. */
  lemma {:induction false} SignBitsAgree(x: int, n: nat)
    requires n >= 1
    requires forall k: nat :: k >= n - 1 ==> Bit(x, k) == Bit(x, n - 1)
    ensures -Pow2(n - 1) <= x < Pow2(n - 1)
    ensures Bit(x, n - 1) == (x < 0)
    decreases n
  {
    if n == 1 {
      var c := if Bit(x, 0) then -1 else 0;
      forall k: nat ensures Bit(x, k) == Bit(c, k) {
        BitOfConstant(k);
        assert Bit(x, k) == Bit(x, n - 1);
      }
      SameBits(x, c);
    } else {
      forall k: nat | k >= n - 2 ensures Bit(x / 2, k) == Bit(x / 2, n - 2) {
        assert Bit(x, k + 1) == Bit(x, n - 1);
      }
      SignBitsAgree(x / 2, n - 1);
    }
  }

  // ----- Little-endian byte strings -----

  /** The value of a little-endian byte string. */
  function FromBytes(bs: seq<Byte>): nat {
    if bs == [] then 0 else bs[0] + 256 * FromBytes(bs[1..])
  }

  /** The low n bytes of x, least significant first. */
  function ToBytes(x: int, n: nat): (bs: seq<Byte>)
    ensures |bs| == n
    decreases n
  {
    if n == 0 then [] else [x % 256] + ToBytes(x / 256, n - 1)
  }

  /** Bit k of a byte string, counting from the first byte's least significant bit. */
  predicate BufferBit(bs: seq<Byte>, k: nat)
    requires k < 8 * |bs|
  {
    Bit(bs[k / 8], k % 8)
  }

  lemma {:induction false} BitAboveShift(low: int, high: int, n: nat, k: nat)
    requires 0 <= low < Pow2(n)
    ensures Bit(low + Shl(high, n), k) == if k < n then Bit(low, k) else Bit(high, k - n)
    decreases n
  {
    if n > 0 {
      assert (low + Shl(high, n)) / 2 == low / 2 + Shl(high, n - 1);
      if k > 0 {
        BitAboveShift(low / 2, high, n - 1, k - 1);
      }
    }
  }

  lemma ByteIsShift(low: int, high: int)
    ensures Pow2(8) == 256 && low + Shl(high, 8) == low + 256 * high
  {
    assert Shl(high, 8) == 2 * Shl(high, 7) == 4 * Shl(high, 6) == 8 * Shl(high, 5) == 16 * Shl(high, 4);
    assert Shl(high, 4) == 2 * Shl(high, 3) == 4 * Shl(high, 2) == 8 * Shl(high, 1) == 16 * high;
    assert Pow2(8) == 2 * Pow2(7) == 4 * Pow2(6) == 8 * Pow2(5) == 16 * Pow2(4);
    assert Pow2(4) == 2 * Pow2(3) == 4 * Pow2(2) == 8 * Pow2(1) == 16;
  }

  lemma BitOfBytePair(low: Byte, high: int, k: nat)
    ensures Bit(low + 256 * high, k) == if k < 8 then Bit(low, k) else Bit(high, k - 8)
  {
    ByteIsShift(low, high);
    BitAboveShift(low, high, 8, k);
  }

  lemma {:induction false} BitOfFromBytes(bs: seq<Byte>, k: nat)
    ensures Bit(FromBytes(bs), k) == (k < 8 * |bs| && BufferBit(bs, k))
    decreases |bs|
  {
    if bs == [] {
      BitOfConstant(k);
    } else {
      BitOfBytePair(bs[0], FromBytes(bs[1..]), k);
      if k >= 8 {
        BitOfFromBytes(bs[1..], k - 8);
      }
    }
  }

  lemma {:induction false} BitOfToBytes(x: int, n: nat, k: nat)
    requires k < 8 * n
    ensures BufferBit(ToBytes(x, n), k) == Bit(x, k)
    decreases n
  {
    BitOfBytePair(x % 256, x / 256, k);
    if k >= 8 {
      BitOfToBytes(x / 256, n - 1, k - 8);
    }
  }

  /** Byte strings of the same length with the same bits are equal. */
  lemma SameBufferBits(a: seq<Byte>, b: seq<Byte>)
    requires |a| == |b|
    requires forall k: nat :: k < 8 * |a| ==> BufferBit(a, k) == BufferBit(b, k)
    ensures a == b
  {
    forall i | 0 <= i < |a| ensures a[i] == b[i] {
      forall k: nat ensures Bit(a[i], k) == Bit(b[i], k) {
        if k < 8 {
          assert BufferBit(a, 8 * i + k) == BufferBit(b, 8 * i + k);
        } else {
          ByteIsShift(0, 0);
          SmallHasNoHighBits(a[i], 8, k);
          SmallHasNoHighBits(b[i], 8, k);
        }
      }
      SameBits(a[i], b[i]);
    }
  }

  /** Encoding a decoded byte string gives it back. */
  lemma {:induction false} BytesRoundTrip(bs: seq<Byte>)
    ensures ToBytes(FromBytes(bs), |bs|) == bs
  {
    if bs != [] {
      BytesRoundTrip(bs[1..]);
      assert FromBytes(bs) / 256 == FromBytes(bs[1..]);
    }
  }

  /** Decoding an encoded number gives it back, provided it fits. */
  lemma NumberRoundTrip(x: int, n: nat)
    requires 0 <= x < Pow2(8 * n)
    ensures FromBytes(ToBytes(x, n)) == x
  {
    forall k: nat ensures Bit(FromBytes(ToBytes(x, n)), k) == Bit(x, k) {
      BitOfFromBytes(ToBytes(x, n), k);
      if k < 8 * n {
        BitOfToBytes(x, n, k);
      } else {
        SmallHasNoHighBits(x, 8 * n, k);
      }
    }
    SameBits(FromBytes(ToBytes(x, n)), x);
  }

  lemma FromBytesRange(bs: seq<Byte>)
    ensures 0 <= FromBytes(bs) < Pow2(8 * |bs|)
  {
    forall k: nat | k >= 8 * |bs| ensures !Bit(FromBytes(bs), k) {
      BitOfFromBytes(bs, k);
    }
    NoHighBitsIsSmall(FromBytes(bs), 8 * |bs|);
  }

  lemma Pow2Is32()
    ensures Pow2(32) == 0x1_0000_0000
  {
    ByteIsShift(0, 0);
    assert Pow2(12) == 16 * Pow2(8);
    assert Pow2(16) == 16 * Pow2(12);
    assert Pow2(20) == 16 * Pow2(16);
    assert Pow2(24) == 16 * Pow2(20);
    assert Pow2(28) == 16 * Pow2(24);
    assert Pow2(32) == 16 * Pow2(28);
  }

  /** Four bytes, the least significant first, hold a number below 2^32. */
  lemma FourBytes(x: nat)
    ensures ToBytes(x, 4) == [x % 256, x / 0x100 % 256, x / 0x1_0000 % 256, x / 0x100_0000 % 256]
    ensures x < 0x1_0000_0000 ==>
      x == x % 256 + 0x100 * (x / 0x100 % 256) + 0x1_0000 * (x / 0x1_0000 % 256) + 0x100_0000 * (x / 0x100_0000 % 256)
  {
    var q1 := x / 256;
    var q2 := q1 / 256;
    var q3 := q2 / 256;
    assert q2 == x / 0x1_0000 && q3 == x / 0x100_0000;
    assert x == x % 256 + 256 * q1 && q1 == q1 % 256 + 256 * q2 && q2 == q2 % 256 + 256 * q3;
    assert ToBytes(x, 4) == [x % 256] + ToBytes(q1, 3) && ToBytes(q1, 3) == [q1 % 256] + ToBytes(q2, 2);
    assert ToBytes(q2, 2) == [q2 % 256] + ToBytes(q3, 1) && ToBytes(q3, 1) == [q3 % 256];
  }
}
