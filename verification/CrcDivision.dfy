/**
 Polynomials over the field of two elements, as their coefficients with the highest power first, and
 the remainder of a division by x^16 + x^12 + x^5 + 1.
 */
module CrcDivision {
  function Zeros(n: nat): (p: seq<bool>)
    ensures |p| == n && forall i :: 0 <= i < n ==> !p[i]
  {
    seq(n, _ => false)
  }

  function Sum(p: seq<bool>, q: seq<bool>): (r: seq<bool>)
    requires |p| == |q|
    ensures |r| == |p| && forall i :: 0 <= i < |p| ==> r[i] == (p[i] != q[i])
  {
    seq(|p|, i requires 0 <= i < |p| => p[i] != q[i])
  }

  /** x^16 + x^12 + x^5 + 1; the coefficient of x^16 comes first, that of 1 last. */
  function Divisor(): (p: seq<bool>)
    ensures |p| == 17 && p[0]
  {
    seq(17, i => 16 - i in {16, 12, 5, 0})
  }

  /** A multiple of the divisor: schoolbook multiplication, one coefficient of the factor at a time. */
  function Multiple(factor: seq<bool>): (p: seq<bool>)
    ensures |p| == |factor| + 16
  {
    if factor == [] then Zeros(16)
    else
      var n := |factor| - 1;
      Sum(Multiple(factor[..n]) + [false], Zeros(n) + if factor[n] then Divisor() else Zeros(17))
  }

  /** The polynomial times x^16 is a multiple of the divisor and a rest of degree below 16. */
  predicate Divides(p: seq<bool>, factor: seq<bool>, rest: seq<bool>) {
    |factor| == |p| && |rest| == 16 && p + Zeros(16) == Sum(Multiple(factor), Zeros(|p|) + rest)
  }

  /** Factor and rest of a division are determined. */
  lemma RestIsUnique(p: seq<bool>, factor: seq<bool>, rest: seq<bool>, factor1: seq<bool>, rest1: seq<bool>)
    requires Divides(p, factor, rest) && Divides(p, factor1, rest1)
    ensures factor == factor1 && rest == rest1
  {
    var n := |p|;
    forall i | 0 <= i < n ensures Multiple(factor)[i] == Multiple(factor1)[i] {
      assert (p + Zeros(16))[i] == Sum(Multiple(factor), Zeros(n) + rest)[i];
      assert (p + Zeros(16))[i] == Sum(Multiple(factor1), Zeros(n) + rest1)[i];
    }
    FactorIsUnique(factor, factor1);
    forall i | 0 <= i < 16 ensures rest[i] == rest1[i] {
      assert (p + Zeros(16))[n + i] == Sum(Multiple(factor), Zeros(n) + rest)[n + i];
      assert (p + Zeros(16))[n + i] == Sum(Multiple(factor1), Zeros(n) + rest1)[n + i];
    }
  }

  lemma {:induction false} FactorIsUnique(factor: seq<bool>, factor1: seq<bool>)
    requires |factor| == |factor1|
    requires forall i :: 0 <= i < |factor| ==> Multiple(factor)[i] == Multiple(factor1)[i]
    ensures factor == factor1
    decreases |factor|
  {
    hide Multiple;
    if factor != [] {
      var n := |factor| - 1;
      FirstCoefficients(factor);
      FirstCoefficients(factor1);
      FactorIsUnique(factor[..n], factor1[..n]);
      assert factor == factor[..n] + [factor[n]] && factor1 == factor1[..n] + [factor1[n]];
    }
  }

  lemma FirstCoefficients(factor: seq<bool>)
    requires factor != []
    ensures var n := |factor| - 1;
      && (forall i :: 0 <= i < n ==> Multiple(factor)[i] == Multiple(factor[..n])[i])
      && Multiple(factor)[n] == (Multiple(factor[..n])[n] != factor[n])
  {
  }

  // ----- One more coefficient -----

  /** The rest times x, with the divisor subtracted if that has degree 16. */
  function Shift(rest: seq<bool>): (r: seq<bool>)
    requires |rest| == 16
    ensures |r| == 16
  {
    Sum(rest[1..] + [false], if rest[0] then Divisor()[1..] else Zeros(16))
  }

  /** The rest after one more coefficient of the dividend. */
  function Next(rest: seq<bool>, b: bool): (r: seq<bool>)
    requires |rest| == 16
    ensures |r| == 16
  {
    Shift(Sum(rest, [b] + Zeros(15)))
  }

  lemma DividesNext(p: seq<bool>, factor: seq<bool>, rest: seq<bool>, b: bool)
    requires Divides(p, factor, rest)
    ensures Divides(p + [b], factor + [rest[0] != b], Next(rest, b))
  {
    var n, f := |p|, rest[0] != b;
    assert (factor + [f])[..n] == factor;
    var multiple := Multiple(factor + [f]);
    assert multiple == Sum(Multiple(factor) + [false], Zeros(n) + if f then Divisor() else Zeros(17));
    forall i | 0 <= i < n + 17
      ensures (p + [b] + Zeros(16))[i] == Sum(multiple, Zeros(n + 1) + Next(rest, b))[i]
    {
      if i < n + 16 {
        assert (p + Zeros(16))[i] == Sum(Multiple(factor), Zeros(n) + rest)[i];
      }
    }
  }

  /** The rest after more coefficients, one at a time. */
  function Rest(rest: seq<bool>, bits: seq<bool>): (r: seq<bool>)
    requires |rest| == 16
    ensures |r| == 16
    decreases |bits|
  {
    if bits == [] then rest else Rest(Next(rest, bits[0]), bits[1..])
  }

  lemma {:induction false} RestOfConcatenation(rest: seq<bool>, a: seq<bool>, b: seq<bool>)
    requires |rest| == 16
    ensures Rest(rest, a + b) == Rest(Rest(rest, a), b)
    decreases |a|
  {
    if a == [] {
      assert a + b == b;
    } else {
      assert (a + b)[1..] == a[1..] + b;
      RestOfConcatenation(Next(rest, a[0]), a[1..], b);
    }
  }

  lemma {:induction false} RestDivides(p: seq<bool>, factor: seq<bool>, rest: seq<bool>, bits: seq<bool>)
    returns (all: seq<bool>)
    requires Divides(p, factor, rest)
    ensures Divides(p + bits, all, Rest(rest, bits))
    decreases |bits|
  {
    if bits == [] {
      assert p + bits == p;
      return factor;
    }
    DividesNext(p, factor, rest, bits[0]);
    all := RestDivides(p + [bits[0]], factor + [rest[0] != bits[0]], Next(rest, bits[0]), bits[1..]);
    assert p + [bits[0]] + bits[1..] == p + bits;
  }

  // ----- Several coefficients at once -----

  function Shifts(rest: seq<bool>, n: nat): (r: seq<bool>)
    requires |rest| == 16
    ensures |r| == 16
    decreases n
  {
    if n == 0 then rest else Shifts(Shift(rest), n - 1)
  }

  /** Coefficients may be added together before shifting. */
  lemma {:induction false} ShiftsAreRest(rest: seq<bool>, bits: seq<bool>)
    requires |rest| == 16 && |bits| <= 16
    ensures Shifts(Sum(rest, bits + Zeros(16 - |bits|)), |bits|) == Rest(rest, bits)
    decreases |bits|
  {
    if bits == [] {
      assert Sum(rest, [] + Zeros(16)) == rest;
    } else {
      ShiftsFirst(rest, bits);
      hide Shift;
      ShiftsAreRest(Next(rest, bits[0]), bits[1..]);
    }
  }

  lemma ShiftsFirst(rest: seq<bool>, bits: seq<bool>)
    requires |rest| == 16 && 1 <= |bits| <= 16
    ensures Shift(Sum(rest, bits + Zeros(16 - |bits|))) == Sum(Next(rest, bits[0]), bits[1..] + Zeros(17 - |bits|))
  {
    hide Divisor;
    var sum, first := Sum(rest, bits + Zeros(16 - |bits|)), Sum(rest, [bits[0]] + Zeros(15));
    assert sum[0] == first[0];
    forall i | 0 <= i < 16 ensures Shift(sum)[i] == Sum(Shift(first), bits[1..] + Zeros(17 - |bits|))[i] {
      if i < 15 {
        assert first[i + 1] == rest[i + 1] && sum[i + 1] == (rest[i + 1] != (bits + Zeros(16 - |bits|))[i + 1]);
      }
    }
  }
}
