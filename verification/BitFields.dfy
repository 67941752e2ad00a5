/**
 Sparse bit fields of object dictionary variables: ODVariable.decode_bits and
 ODVariable.encode_bits with a list of bit offsets, gaps and repeats allowed.
 */
module BitFields {
  import opened Bits

  /** The lowest offset of a non-empty list: Python's min(). */
  function Lowest(bits: seq<nat>): (m: nat)
    requires bits != []
    ensures m in bits && forall b :: b in bits ==> m <= b
  {
    if |bits| == 1 then bits[0]
    else
      var m := Lowest(bits[1..]);
      assert bits == [bits[0]] + bits[1..];
      if bits[0] <= m then bits[0] else m
  }

  /** r holds the listed bits of value, shifted down to the lowest listed offset, and nothing else. */
  ghost predicate IsDecoding(r: int, value: int, bits: seq<nat>)
    requires bits != []
  {
    forall k: nat :: Bit(r, k) <==> k + Lowest(bits) in bits && Bit(value, k + Lowest(bits))
  }

  /** r is the original with each listed bit b replaced by bit b - min of the pattern. */
  ghost predicate IsEncoding(r: int, original: int, bits: seq<nat>, pattern: int)
    requires bits != []
  {
    forall k: nat :: Bit(r, k) <==> if k in bits then Bit(pattern, k - Lowest(bits)) else Bit(original, k)
  }

  /** The pattern has no bit in a gap of the field or beyond it. */
  ghost predicate FitsField(pattern: int, bits: seq<nat>)
    requires bits != []
  {
    forall k: nat :: Bit(pattern, k) ==> k + Lowest(bits) in bits
  }

  method BuildMask(bits: seq<nat>) returns (mask: int)
    ensures forall k: nat :: Bit(mask, k) <==> k in bits
  {
    mask := 0;
    forall k: nat ensures !Bit(mask, k) {
      BitOfConstant(k);
    }
    for i := 0 to |bits|
      invariant forall k: nat :: Bit(mask, k) <==> k in bits[..i]
    {
      var next := Or(mask, Shl(1, bits[i]));
      forall k: nat ensures Bit(next, k) <==> k in bits[..i + 1] {
        BitOfOr(mask, Shl(1, bits[i]), k);
        BitOfShl(1, bits[i], k);
        if k > bits[i] {
          BitOfConstant(k - bits[i] - 1);
        }
        assert bits[..i + 1] == bits[..i] + [bits[i]];
      }
      mask := next;
    }
    assert bits[..|bits|] == bits;
  }

  method DecodeBits(value: int, bits: seq<nat>) returns (r: int)
    requires bits != []
    ensures IsDecoding(r, value, bits)
  {
    var mask := BuildMask(bits);
    r := Shr(And(value, mask), Lowest(bits));
    forall k: nat ensures Bit(r, k) <==> k + Lowest(bits) in bits && Bit(value, k + Lowest(bits)) {
      BitOfShr(And(value, mask), Lowest(bits), k);
      BitOfAnd(value, mask, Lowest(bits) + k);
    }
  }

  method EncodeBits(original: int, bits: seq<nat>, bitValue: int) returns (r: int)
    requires bits != []
    ensures IsEncoding(r, original, bits, bitValue)
  {
    var temp := original;
    var mask := BuildMask(bits);
    temp := And(temp, Not(mask));
    var shifted := Shl(bitValue, Lowest(bits));
    r := Or(temp, And(shifted, mask));
    forall k: nat
      ensures Bit(r, k) <==> if k in bits then Bit(bitValue, k - Lowest(bits)) else Bit(original, k)
    {
      BitOfOr(temp, And(shifted, mask), k);
      BitOfAnd(original, Not(mask), k);
      BitOfNot(mask, k);
      BitOfAnd(shifted, mask, k);
      BitOfShl(bitValue, Lowest(bits), k);
    }
  }

  // ----- Properties spanning the two operations -----

  /** The bit-by-bit contract of decoding leaves no freedom. */
  lemma DecodingIsDetermined(r: int, s: int, value: int, bits: seq<nat>)
    requires bits != [] && IsDecoding(r, value, bits) && IsDecoding(s, value, bits)
    ensures r == s
  {
    SameBits(r, s);
  }

  /** Nor does that of encoding. */
  lemma EncodingIsDetermined(r: int, s: int, original: int, bits: seq<nat>, pattern: int)
    requires bits != [] && IsEncoding(r, original, bits, pattern) && IsEncoding(s, original, bits, pattern)
    ensures r == s
  {
    SameBits(r, s);
  }

  /**
   Reading back a written field returns the pattern restricted to the listed offsets, and so the
   pattern itself exactly when it has no bit in a gap or beyond the field.
   */
  lemma DecodeAfterEncode(encoded: int, decoded: int, original: int, bits: seq<nat>, pattern: int)
    requires bits != []
    requires IsEncoding(encoded, original, bits, pattern) && IsDecoding(decoded, encoded, bits)
    ensures forall k: nat :: Bit(decoded, k) <==> k + Lowest(bits) in bits && Bit(pattern, k)
    ensures decoded == pattern <==> FitsField(pattern, bits)
  {
    forall k: nat ensures Bit(decoded, k) <==> k + Lowest(bits) in bits && Bit(pattern, k) {
      var b := k + Lowest(bits);
      assert Bit(encoded, b) <==> if b in bits then Bit(pattern, b - Lowest(bits)) else Bit(original, b);
    }
    if FitsField(pattern, bits) {
      SameBits(decoded, pattern);
    }
  }

  /** Writing back what was read changes nothing. */
  lemma EncodeAfterDecode(encoded: int, decoded: int, original: int, bits: seq<nat>)
    requires bits != []
    requires IsDecoding(decoded, original, bits) && IsEncoding(encoded, original, bits, decoded)
    ensures encoded == original
  {
    forall k: nat ensures Bit(encoded, k) == Bit(original, k) {
      if k in bits {
        assert Bit(decoded, k - Lowest(bits)) <==> Bit(original, k);
      }
    }
    SameBits(encoded, original);
  }

  /** Writes to fields without a common offset do not disturb one another and commute. */
  lemma DisjointFieldsCommute(v: int, a: seq<nat>, p: int, b: seq<nat>, q: int,
                              va: int, vab: int, vb: int, vba: int)
    requires a != [] && b != [] && forall k :: k in a ==> k !in b
    requires IsEncoding(va, v, a, p) && IsEncoding(vab, va, b, q)
    requires IsEncoding(vb, v, b, q) && IsEncoding(vba, vb, a, p)
    ensures vab == vba
    ensures forall d :: IsDecoding(d, vab, a) <==> IsDecoding(d, va, a)
  {
    forall k: nat ensures Bit(vab, k) == Bit(vba, k) && (k in a ==> Bit(vab, k) == Bit(va, k)) {
      assert Bit(va, k) <==> if k in a then Bit(p, k - Lowest(a)) else Bit(v, k);
      assert Bit(vb, k) <==> if k in b then Bit(q, k - Lowest(b)) else Bit(v, k);
    }
    SameBits(vab, vba);
  }
}
