/**
  The three ways utils/math/prec_dec.go drops the 27 decimal places of a raw value: bankers
  rounding, rounding up and truncation.
 */
module Rounding {
  import opened BigArith

  const PRECISION: nat := 27

  /** 10^27, the raw value of the decimal 1. */
  const P: int := 1_000_000_000_000_000_000_000_000_000

  /** fivePrecision, exactly half of P. */
  const HALF: int := 500_000_000_000_000_000_000_000_000

  lemma PrecisionIsPower()
    ensures P == Pow(10, PRECISION)
    ensures P == 2 * HALF
  {
    assert Pow(10, 9) == 1_000_000_000;
    PowAdd(10, 9, 9);
    PowAdd(10, 18, 9);
  }

  /** chopPrecisionAndRound on values: the sign is removed first and put back last. */
  function HalfEven(x: int): int
    decreases x < 0
  {
    if x < 0 then -HalfEven(-x)
    else
      var quo, rem := x / P, x % P;
      if rem < HALF then quo
      else if rem > HALF then quo + 1
      else if quo % 2 == 0 then quo
      else quo + 1
  }

  /** chopPrecisionAndTruncate on values. */
  function Truncate(x: int): int {
    Quo(x, P)
  }

  /** chopPrecisionAndRoundUp on values: away from zero above 0, toward zero below it. */
  function RoundUp(x: int): int {
    if x < 0 then -Truncate(-x)
    else if x % P == 0 then x / P
    else x / P + 1
  }

  // ---------- what the results mean, without the code ----------

  /**
    roundTiesToEven of section 4.3.1 of IEEE 754-2008: q is at most half a unit from n / m, and in a
    tie q is even.
   */
  ghost predicate IsNearestEven(n: int, m: int, q: int)
    requires m > 0
  {
    && 2 * Abs(n - q * m) <= m
    && (2 * Abs(n - q * m) == m ==> q % 2 == 0)
  }

  /** q is the smallest integer that is not below n / m. */
  ghost predicate IsCeiling(n: int, m: int, q: int)
    requires m > 0
  {
    (q - 1) * m < n <= q * m
  }

  /** Two numbers cannot both be the nearest even one. */
  lemma NearestEvenUnique(n: int, m: int, q: int, q': int)
    requires m > 0 && IsNearestEven(n, m, q) && IsNearestEven(n, m, q')
    ensures q == q'
  {
    if q < q' { NearestEvenOrdered(n, m, q, q'); }
    if q' < q { NearestEvenOrdered(n, m, q', q); }
  }

  lemma NearestEvenOrdered(n: int, m: int, q: int, q': int)
    requires m > 0 && IsNearestEven(n, m, q) && IsNearestEven(n, m, q')
    ensures q' <= q
  {
    if q < q' {
      assert q' * m - q * m == (q' - q) * m;
      MulMono(m, 1, q' - q);
      if q' - q >= 2 { MulMono(m, 2, q' - q); }
    }
  }

  lemma {:induction false} HalfEvenIsNearestEven(x: int)
    ensures IsNearestEven(x, P, HalfEven(x))
    decreases x < 0
  {
    if x < 0 {
      HalfEvenIsNearestEven(-x);
    }
  }

  /** The chop commutes with negation. */
  lemma HalfEvenOdd(x: int)
    ensures HalfEven(-x) == -HalfEven(x)
  {
  }

  /** A larger value never rounds to a smaller one. */
  lemma HalfEvenMonotone(x: int, y: int)
    requires x <= y
    ensures HalfEven(x) <= HalfEven(y)
  {
    HalfEvenIsNearestEven(x);
    HalfEvenIsNearestEven(y);
    var q, r := HalfEven(x), HalfEven(y);
    if r < q && x == y {
      NearestEvenUnique(x, P, q, r);
    }
  }

  /** Whole multiples of P lose nothing. */
  lemma HalfEvenExact(k: int)
    ensures HalfEven(k * P) == k
  {
    HalfEvenIsNearestEven(k * P);
    NearestEvenUnique(k * P, P, HalfEven(k * P), k);
  }

  lemma RoundUpIsCeiling(x: int)
    ensures IsCeiling(x, P, RoundUp(x))
  {
  }
}
