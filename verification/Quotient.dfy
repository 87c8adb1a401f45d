/**
  The division family of utils/math/prec_dec.go. Each quotient multiplies by P twice, divides with
  truncation and then chops 27 digits, so every result is rounded twice. This module states how
  far two roundings may be from one: where they agree exactly, and the exact inputs where not.
 */
module Quotient {
  import opened BigArith
  import opened Rounding

  /** squaredPrecisionReuse */
  const SQUARED: int := P * P

  /** The value QuoMut leaves before its range test. */
  function QuoHalfEven(d: int, d2: int): int
    requires d2 != 0
  {
    HalfEven(Quo(d * SQUARED, d2))
  }

  /** The value QuoTruncateMut leaves before its range test. */
  function QuoTruncated(d: int, d2: int): int
    requires d2 != 0
  {
    Truncate(Quo(d * SQUARED, d2))
  }

  /** The value QuoRoundupMut leaves before its range test. */
  function QuoRoundedUp(d: int, d2: int): int
    requires d2 != 0
  {
    RoundUp(Quo(d * SQUARED, d2))
  }

  /** The exact quotient, in units of the 27th decimal place, is Numerator / Abs(d2). */
  function Numerator(d: int, d2: int): int {
    if d2 < 0 then -(d * P) else d * P
  }

  // ---------- the exact quotient split in whole part and remainder ----------

  /** The intermediate value holds the whole part of n / m above its 27 low digits. */
  lemma TwoStage(n: nat, m: int)
    requires m > 0
    ensures var t := n * P / m;
            && t / P == n / m
            && t % P == (n % m) * P / m
            && 0 <= (n % m) * P / m < P
  {
    var a, b := n / m, n % m;
    var u := b * P / m;
    assert b * P == m * u + (b * P) % m;
    assert 0 <= b * P < m * P;
    assert u >= 0 by {
      if u <= -1 { MulMono(m, u, -1); }
    }
    MulCancelStrict(m, u, P);
    assert n * P == a * P * m + b * P by {
      assert n == m * a + b;
      assert (m * a) * P == a * P * m;
    }
    assert (a * P + u) * m == a * P * m + m * u;
    assert (a * P + u + 1) * m == a * P * m + m * u + m;
    DivUnique(n * P, m, a * P + u);
  }

  /** w with the sign of n. */
  function Signed(n: int, w: int): int {
    if n >= 0 then w else -w
  }

  lemma SignedDistance(n: int, m: int, w: int)
    ensures Abs(n - Signed(n, w) * m) == Abs(Abs(n) - w * m)
  {
    assert (-w) * m == -(w * m);
  }

  lemma DivNotNegative(a: nat, m: int)
    requires m > 0
    ensures a / m >= 0
  {
    var q := a / m;
    assert a == m * q + a % m;
    if q <= -1 { MulMono(m, q, -1); }
  }

  /** A truncated quotient is that of the magnitudes, with the sign of the exact one. */
  lemma QuoMagnitude(x: int, b: int)
    requires b != 0
    ensures Quo(x, b) == if (x >= 0) == (b > 0) then Abs(x) / Abs(b) else 0 - Abs(x) / Abs(b)
  {
    var a: nat := Abs(x);
    if b < 0 {
      QuoNegDivisor(a, b);
      assert Abs(b) == -b;
    }
  }

  lemma ScaledNumerator(d: int, d2: int)
    ensures Abs(d * SQUARED) == Abs(Numerator(d, d2)) * P
    ensures d * SQUARED >= 0 <==> d >= 0
    ensures Numerator(d, d2) >= 0 <==> (d >= 0 && d2 >= 0) || (d <= 0 && d2 < 0)
  {
  }

  /** The magnitude of the intermediate quotient does not depend on the signs. */
  lemma MagnitudeFirst(d: int, d2: int)
    requires d2 != 0
    ensures var n, m := Numerator(d, d2), Abs(d2);
            Quo(d * SQUARED, d2) == Signed(n, Abs(n) * P / m) && Abs(n) * P / m >= 0
  {
    ScaledNumerator(d, d2);
    QuoMagnitude(d * SQUARED, d2);
    DivNotNegative(Abs(d * SQUARED), Abs(d2));
    if d == 0 { ZeroQuotient(Abs(d2)); }
  }

  lemma ZeroQuotient(m: int)
    requires m > 0
    ensures 0 / m == 0
  {
  }

  // ---------- truncation ----------

  /** Truncating twice is truncating once: QuoTruncate is exactly d * P / d2 rounded toward zero. */
  lemma QuoTruncateExact(d: int, d2: int)
    requires d2 != 0
    ensures QuoTruncated(d, d2) == Quo(d * P, d2)
  {
    var n, m := Numerator(d, d2), Abs(d2);
    MagnitudeFirst(d, d2);
    var t := Abs(n) * P / m;
    assert QuoTruncated(d, d2) == Signed(n, t / P);
    assert t / P == Abs(n) / m by { TwoStage(Abs(n), m); }
    assert Quo(d * P, d2) == Signed(n, Abs(n) / m) by { QuoNegDivisor(Abs(d * P), d2); }
  }

  // ---------- bankers rounding ----------

  lemma QuoHalfEvenOfMagnitude(d: int, d2: int)
    requires d2 != 0
    ensures var n, m := Numerator(d, d2), Abs(d2);
            QuoHalfEven(d, d2) == Signed(n, HalfEven(Abs(n) * P / m))
  {
    MagnitudeFirst(d, d2);
    HalfEvenOdd(Abs(Numerator(d, d2)) * P / Abs(d2));
  }

  /** Quo is closer than 1/2 + 1/P of a unit to the exact quotient. */
  lemma QuoError(d: int, d2: int)
    requires d2 != 0
    ensures var n, m, v := Numerator(d, d2), Abs(d2), QuoHalfEven(d, d2);
            2 * P * Abs(n - v * m) < (P + 2) * m
  {
    var n, m := Numerator(d, d2), Abs(d2);
    QuoHalfEvenOfMagnitude(d, d2);
    MagnitudeError(Abs(n), m);
    SignedDistance(n, m, HalfEven(Abs(n) * P / m));
  }

  lemma MagnitudeError(a: nat, m: int)
    requires m > 0
    ensures 2 * P * Abs(a - HalfEven(a * P / m) * m) < (P + 2) * m
  {
    var t := a * P / m;
    HalfEvenIsNearestEven(t);
    ErrorAdds(a, m, t, HalfEven(t), a * P % m);
  }

  /** A truncation error below 1 and a rounding error of at most P/2, both over P, add up. */
  lemma ErrorAdds(a: int, m: int, t: int, w: int, rem: int)
    requires a * P == m * t + rem && 0 <= rem < m
    requires -P <= 2 * (t - w * P) <= P
    ensures 2 * P * Abs(a - w * m) < (P + 2) * m
  {
    var e, wm := t - w * P, w * m;
    assert P * (a - wm) == m * e + rem by {
      assert m * e == m * t - m * (w * P);
      assert P * wm == m * (w * P);
    }
    MulMono(m, 2 * e, P);
    MulMono(m, -P, 2 * e);
    assert m * (2 * e) == 2 * (m * e);
  }

  /**
    The inputs on which double rounding shows: the exact quotient lies above a midpoint by less than
    1/P of a unit, and the whole part is even, so the truncated value looks like a tie.
   */
  predicate LooksLikeTie(d: int, d2: int)
    requires d2 != 0
  {
    var n, m := Abs(d) * P, Abs(d2);
    && (n / m) % 2 == 0
    && 0 < (2 * (n % m) - m) * P < 2 * m
  }

  /** Quo is the correctly rounded quotient if and only if the inputs do not look like a tie. */
  lemma QuoIsNearestEvenIff(d: int, d2: int)
    requires d2 != 0
    ensures IsNearestEven(Numerator(d, d2), Abs(d2), QuoHalfEven(d, d2)) <==> !LooksLikeTie(d, d2)
  {
    var n, m := Numerator(d, d2), Abs(d2);
    var a := Abs(n);
    QuoHalfEvenOfMagnitude(d, d2);
    SignedNearest(n, m, HalfEven(a * P / m));
    assert a == Abs(d) * P;
    NearestEvenIff(a, m);
  }

  /** 10^-27 divided by 2 - 10^-27 is just above half a unit, and Quo gives 0 where 1 is nearest. */
  lemma RoundsDownAboveHalf()
    ensures QuoHalfEven(1, 2 * P - 1) == 0
    ensures LooksLikeTie(1, 2 * P - 1)
    ensures IsNearestEven(Numerator(1, 2 * P - 1), 2 * P - 1, 1)
  {
    assert SQUARED / (2 * P - 1) == HALF;
  }

  lemma SignedNearest(n: int, m: int, w: int)
    requires m > 0
    ensures IsNearestEven(n, m, Signed(n, w)) <==> IsNearestEven(Abs(n), m, w)
  {
    SignedDistance(n, m, w);
    SignedParity(n, w);
    assert Abs(Abs(n) - w * m) == Abs(n - Signed(n, w) * m);
  }

  lemma SignedParity(n: int, w: int)
    ensures Signed(n, w) % 2 == 0 <==> w % 2 == 0
  {
  }

  lemma NearestEvenIff(a: nat, m: int)
    requires m > 0
    ensures IsNearestEven(a, m, HalfEven(a * P / m))
            <==> !((a / m) % 2 == 0 && 0 < (2 * (a % m) - m) * P < 2 * m)
  {
    var t, b := a * P / m, a % m;
    TwoStage(a, m);
    NearestIsLowOrHigh(a, m);
    CompareWithHalf(b, m);
    assert t / P == a / m && t % P == b * P / m;
  }

  /** Which of the two integers around a / m is the nearest even one. */
  lemma NearestIsLowOrHigh(a: nat, m: int)
    requires m > 0
    ensures var q, b := a / m, a % m;
            && (IsNearestEven(a, m, q) <==> 2 * b < m || (2 * b == m && q % 2 == 0))
            && (IsNearestEven(a, m, q + 1) <==> 2 * b > m || (2 * b == m && q % 2 == 1))
  {
    var q, b := a / m, a % m;
    assert a == q * m + b;
    assert (q + 1) * m == q * m + m;
  }

  /** The remaining digits compare with HALF as 2b compares with m, except just above the midpoint. */
  lemma CompareWithHalf(b: nat, m: int)
    requires b < m
    ensures b * P / m < HALF <==> 2 * b < m
    ensures b * P / m > HALF <==> (2 * b - m) * P >= 2 * m
  {
    var u := b * P / m;
    var mu := m * u;
    assert mu <= b * P < mu + m;
    if u < HALF { MulMono(m, u, HALF - 1); }
    if u <= HALF { MulMono(m, u, HALF); }
    if u >= HALF { MulMono(m, HALF, u); }
    if u > HALF { MulMono(m, HALF + 1, u); }
  }

  // ---------- rounding up ----------

  /** The inputs on which rounding up is missed: the positive quotient exceeds a whole unit by less than 1/P. */
  predicate FractionLost(d: int, d2: int)
    requires d2 != 0
  {
    var n := Numerator(d, d2);
    n > 0 && 0 < (n % Abs(d2)) * P < Abs(d2)
  }

  /** QuoRoundUp is the ceiling of the exact quotient if and only if no fraction was lost. */
  lemma QuoRoundUpIsCeilingIff(d: int, d2: int)
    requires d2 != 0
    ensures IsCeiling(Numerator(d, d2), Abs(d2), QuoRoundedUp(d, d2)) <==> !FractionLost(d, d2)
  {
    var n, m := Numerator(d, d2), Abs(d2);
    MagnitudeFirst(d, d2);
    var t := Abs(n) * P / m;
    if n > 0 {
      CeilingIff(n, m);
    } else {
      assert QuoRoundedUp(d, d2) == -(t / P);
      CeilingOfNonPositive(-n, m);
    }
  }

  lemma CeilingIff(a: nat, m: int)
    requires m > 0
    ensures IsCeiling(a, m, RoundUp(a * P / m)) <==> !(0 < (a % m) * P < m)
  {
    TwoStage(a, m);
    var q, b := a / m, a % m;
    var u := b * P / m;
    assert b * P == m * u + b * P % m;
    assert a == q * m + b;
    assert (q + 1) * m == q * m + m && (q - 1) * m == q * m - m;
    if u > 0 { MulMono(m, 1, u); }
  }

  lemma CeilingOfNonPositive(a: int, m: int)
    requires a >= 0 && m > 0
    ensures IsCeiling(-a, m, -(a * P / m / P))
  {
    TwoStage(a, m);
    var q := a / m;
    assert (-q - 1) * m == -(q * m) - m && (-q) * m == -(q * m);
  }

  /** Non-positive quotients and divisors of magnitude at most 1 never lose a fraction. */
  lemma NoFractionLost(d: int, d2: int)
    requires d2 != 0
    requires Numerator(d, d2) <= 0 || Abs(d2) <= P
    ensures !FractionLost(d, d2)
  {
    var n, m := Numerator(d, d2), Abs(d2);
    if n > 0 && n % m > 0 { MulMono(P, 1, n % m); }
  }

  /** In every case the rounded-up quotient is above x - 1/P and below x + 1, for x the exact quotient. */
  lemma QuoRoundUpBounds(d: int, d2: int)
    requires d2 != 0
    ensures var n, m, v := Numerator(d, d2), Abs(d2), QuoRoundedUp(d, d2);
            P * n - m < P * (v * m) && (v - 1) * m < n
  {
    var n, m, v := Numerator(d, d2), Abs(d2), QuoRoundedUp(d, d2);
    QuoRoundUpIsCeilingIff(d, d2);
    assert (v - 1) * m == v * m - m;
    if FractionLost(d, d2) {
      MagnitudeFirst(d, d2);
      TwoStage(n, m);
      assert (n % m) * P / m == 0 by { DivUnique((n % m) * P, m, 0); }
      assert v == n / m;
      assert n == m * v + n % m;
    } else {
      MulMono(P, n, v * m);
    }
  }

  /** 10^-27 divided by 2 * 10^27 and rounded up gives 0, though the quotient is positive. */
  lemma RoundUpToZero()
    ensures QuoRoundedUp(1, 2 * SQUARED) == 0
    ensures FractionLost(1, 2 * SQUARED)
  {
  }
}
