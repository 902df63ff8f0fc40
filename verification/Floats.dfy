/**
 Binary64 numbers as their bit patterns (section 3.4 of IEEE 754-2019): sign, eleven exponent
 bits, fifty-two fraction bits. `Scaled` is the exact numeric value in units of the smallest
 subnormal, so comparing it is comparing the numbers; infinities lie beyond all others.
 */
module Floats {
  import opened Basics

  const TOP: nat := 0x8000_0000_0000_0000
  const ALL: nat := 0x1_0000_0000_0000_0000
  const FRACTION: nat := 0x10_0000_0000_0000

  function Pow2(k: nat): (r: nat)
    ensures r > 0
  {
    if k == 0 then 1 else 2 * Pow2(k - 1)
  }

  predicate IsNaN(bits: nat) {
    bits % TOP > 2047 * FRACTION
  }

  /** The exponent's eleven bits are ones, and the fraction is not zero. */
  lemma NaNIff(bits: nat)
    requires bits < ALL
    ensures IsNaN(bits) <==>
              bits / 0x10_0000_0000_0000 % 2048 == 2047 && bits % 0x10_0000_0000_0000 != 0
  {
  }

  function Magnitude(m: nat): nat {
    var e, f := m / FRACTION, m % FRACTION;
    if e == 0 then f else (FRACTION + f) * Pow2(e - 1)
  }

  /** Up to the first doubling a magnitude is its pattern, and the next exponent doubles it. */
  lemma MagnitudeIs(m: nat)
    ensures m < 0x20_0000_0000_0000 ==> Magnitude(m) == m
    ensures m >= 0x10_0000_0000_0000 ==> Magnitude(m + 0x10_0000_0000_0000) == 2 * Magnitude(m)
  {
    var e, f := m / FRACTION, m % FRACTION;
    assert Pow2(0) == 1;
    if m >= 0x10_0000_0000_0000 {
      assert (m + FRACTION) / FRACTION == e + 1 && (m + FRACTION) % FRACTION == f;
      assert Pow2(e) == 2 * Pow2(e - 1);
      Twice(FRACTION + f, Pow2(e - 1));
    }
  }

  lemma Twice(a: nat, p: nat)
    ensures a * (2 * p) == 2 * (a * p)
  {
  }

  function Scaled(bits: nat): int {
    var m: int := if bits < TOP then Magnitude(bits) else Magnitude(bits - TOP);
    if bits < TOP then m else -m
  }

  lemma {:induction false} Pow2Mono(a: nat, b: nat)
    requires a <= b
    ensures Pow2(a) <= Pow2(b)
    decreases b
  {
    if a < b {
      Pow2Mono(a, b - 1);
    }
  }

  /** A value with exponent `e` is below two to the 52 + e, and one with a larger exponent is not. */
  lemma MagnitudeRange(m: nat)
    ensures Magnitude(m) < FRACTION * Pow2(m / FRACTION)
    ensures m / FRACTION > 0 ==> Magnitude(m) >= FRACTION * Pow2(m / FRACTION - 1)
  {
    var e, f := m / FRACTION, m % FRACTION;
    if e > 0 {
      var p := Pow2(e - 1);
      assert (FRACTION + f) * p == FRACTION * p + f * p;
      MulLess(f, FRACTION, p);
      assert FRACTION * Pow2(e) == FRACTION * p + FRACTION * p;
    }
  }

  lemma MulLess(a: nat, b: nat, c: nat)
    requires a < b && c > 0
    ensures a * c < b * c
  {
  }

  /** The numeric value grows with the bit pattern. */
  lemma MagnitudeMono(m: nat, n: nat)
    requires m < n
    ensures Magnitude(m) < Magnitude(n)
  {
    var e, f := m / FRACTION, m % FRACTION;
    var e', f' := n / FRACTION, n % FRACTION;
    if e == e' {
      assert f < f';
      if e > 0 {
        MulLess(FRACTION + f, FRACTION + f', Pow2(e - 1));
      }
    } else {
      MagnitudeRange(m);
      MagnitudeRange(n);
      Pow2Mono(e, e' - 1);
      MulLessEq(FRACTION, Pow2(e), Pow2(e' - 1));
    }
  }

  lemma ScaledOrder(a: nat, b: nat)
    requires a < ALL && b < ALL && a != TOP && b != TOP
    ensures Scaled(a) < Scaled(b) <==>
              if a < TOP then b < TOP && a < b else b < TOP || b < a
    ensures Scaled(a) == Scaled(b) <==> a == b
  {
    var m, n := if a < TOP then a else a - TOP, if b < TOP then b else b - TOP;
    assert Magnitude(0) == 0;
    if m > 0 { MagnitudeMono(0, m); }
    if n > 0 { MagnitudeMono(0, n); }
    if m < n { MagnitudeMono(m, n); }
    if n < m { MagnitudeMono(n, m); }
  }
}
