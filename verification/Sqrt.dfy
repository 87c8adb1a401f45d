/**
  The square root of utils/math/prec_dec.go converges on every positive in-range decimal: the
  Newton loop ends by its delta test, long before the iteration cap and without any overflow, and
  the result is one of the two integers next to the exact root.
 */
module Sqrt {
  import opened Prelude
  import opened BigArith
  import opened Rounding
  import opened Quotient
  import opened FixedPoint
  import opened Newton

  // ---------- one round without panics ----------

  /** A round on in-range values ends at the floored average of the guess and the quotient. */
  lemma RoundIsAverage(d: int, g: int, iter: nat)
    requires d > 0 && 0 < g < LIMIT && QuoHalfEven(d, g) < LIMIT
    ensures var q := QuoHalfEven(d, g);
            var next := NewtonStep(d, 2, g, iter);
            && q >= 0
            && next == Run(next.guess, next.guess - g, iter + 1, false)
            && 2 * next.guess <= g + q <= 2 * next.guess + 1
            && 0 <= next.guess < LIMIT
  {
    var q := QuoHalfEven(d, g);
    assert q >= 0 by { QuotientNotNegative(d, g); }
    InRangeIff(q);
    assert QuoOf(d, g) == Returned(q);
    InRangeIff(q - g);
    assert Divisor(2, g) == Returned(g);
    assert Correction(d, 2, g) == Returned((q - g) / 2);
    InRangeIff(g + (q - g) / 2);
  }

  lemma QuotientNotNegative(d: int, g: int)
    requires d > 0 && g > 0
    ensures QuoHalfEven(d, g) >= 0
  {
    MagnitudeFirst(d, g);
    HalfEvenSign(Quo(d * SQUARED, g));
  }

  /** From a guess not below the root the quotient is not much above it. */
  lemma QuotientSmall(n: int, r: int, g: int, q: int)
    requires IsFloorSqrt(n, r) && NearQuotient(n, g, q) && g >= r >= 1
    ensures q <= r + 4
  {
    SquareOfDifference(g, r);
    MulMono(r + 4, r, g);
    assert (r + 4) * r == r * r + 4 * r && (r + 4) * g == g * r + 4 * g;
    SmallProducts(n, r, g, g * q, g * r, r * r);
    assert g * (r + 5) == g * r + 5 * g;
    MulCancelStrict(g, q, r + 5);
  }

  lemma SmallProducts(n: int, r: int, g: int, gq: int, gr: int, rr: int)
    requires n < rr + 2 * r + 1 && 4 * Abs(n - gq) < 3 * g && rr + 4 * r <= gr + 4 * g && g >= r >= 1
    ensures gq < gr + 5 * g
  {
  }

  // ---------- the excess over the root, round by round ----------

  /**
    What is known before round iter + 1 when the loop goes on: for 132 rounds the excess halves,
    then it shrinks eightfold, and after 206 rounds nothing is left of it.
   */
  ghost predicate Settling(r: int, g: int, iter: int) {
    && 1 <= iter <= 206 && g >= r
    && (iter <= 132 ==> (g - r - 2) * Pow(2, iter - 1) <= Pow(2, 128) * (r + 1))
    && (iter >= 132 ==> 4 * (g - r) <= r && (g - r - 2) * Pow(8, iter - 132) <= r)
    && (iter == 206 ==> g == r)
  }

  /** Halving a bounded quantity doubles the factor it may carry. */
  lemma Shift(b: int, k: nat, x: int, y: int, bound: int)
    requires b > 0 && b * y <= x && x * Pow(b, k) <= bound
    ensures y * Pow(b, k + 1) <= bound
  {
    PowPositive(b, k);
    MulMono(Pow(b, k), b * y, x);
    assert y * Pow(b, k + 1) == (b * y) * Pow(b, k);
  }

  lemma PhaseChange(r: int, x: int)
    requires r >= 100 && x * Pow(2, 131) <= Pow(2, 128) * (r + 1)
    ensures 8 * x <= r + 1
  {
    PowAdd(2, 3, 128);
    assert Pow(2, 3) == 8;
    PowPositive(2, 128);
    assert x * Pow(2, 131) == Pow(2, 128) * (8 * x);
    MulCancel(Pow(2, 128), 8 * x, r + 1);
  }

  lemma {:induction false} EightIsThreeTwos(k: nat)
    ensures Pow(8, k) == Pow(2, 3 * k)
  {
    if k == 0 {
    } else {
      EightIsThreeTwos(k - 1);
      PowAdd(2, 3, 3 * (k - 1));
      assert Pow(2, 3) == 8;
    }
  }

  lemma NothingLeft(r: int, x: int)
    requires r < Pow(2, 219) && x * Pow(8, 73) <= r
    ensures x <= 0
  {
    EightIsThreeTwos(73);
    if x >= 1 { PowPositive(2, 219); MulMono(Pow(2, 219), 1, x); }
  }

  lemma SettlingFirstPhase(n: int, r: int, g: int, q: int, g': int, iter: int)
    requires IsFloorSqrt(n, r) && NearQuotient(n, g, q) && r >= 100
    requires 2 * g' <= g + q <= 2 * g' + 1
    requires Settling(r, g, iter) && iter < 132
    ensures Settling(r, g', iter + 1)
  {
    ExcessHalves(n, r, g, q, g');
    Shift(2, iter - 1, g - r - 2, g' - r - 2, Pow(2, 128) * (r + 1));
    if iter == 131 { PhaseChange(r, g' - r - 2); }
  }

  lemma SettlingSecondPhase(n: int, r: int, g: int, q: int, g': int, iter: int)
    requires IsFloorSqrt(n, r) && NearQuotient(n, g, q) && 100 <= r < Pow(2, 219)
    requires 2 * g' <= g + q <= 2 * g' + 1 && g' - g < -1
    requires Settling(r, g, iter) && iter >= 132
    ensures Settling(r, g', iter + 1)
  {
    StepNotBelow(n, r, g, q, g');
    ExcessCollapses(n, r, g, q, g');
    Shift(8, iter - 132, g - r - 2, g' - r - 2, r);
    if iter == 205 { NothingLeft(r, g - r - 2); }
  }

  // ---------- the whole loop ----------

  /** The loop ends by its delta test within 207 rounds, on the integer root or one above it. */
  ghost predicate EndsAtRoot(r: int, end: Run) {
    !end.failed && Abs(end.delta) <= 1 && end.iter <= 207 && r <= end.guess <= r + 1
  }

  lemma RootFits(r: int)
    requires r < Pow(2, 219)
    ensures r + 4 < LIMIT
  {
    PowMono(2, 219, MAX_BIT_LEN - 1);
    PowMono(2, 3, MAX_BIT_LEN - 1);
    assert Pow(2, 3) == 8;
    assert LIMIT == 2 * Pow(2, MAX_BIT_LEN - 1);
  }

  /** One round of a settling loop either ends at the root or goes on settling. */
  lemma SettlingRound(d: int, r: int, g: int, iter: nat)
    requires d > 0 && IsFloorSqrt(d * P, r) && 100 <= r < Pow(2, 219)
    requires g < LIMIT && Settling(r, g, iter)
    ensures var next := NewtonStep(d, 2, g, iter);
            && next == Run(next.guess, next.guess - g, iter + 1, false) && next.guess < LIMIT
            && (if Abs(next.delta) <= 1 then r <= next.guess <= r + 1 else Settling(r, next.guess, iter + 1))
  {
    var q := QuoHalfEven(d, g);
    QuotientIsNear(d, g);
    QuotientSmall(d * P, r, g, q);
    RootFits(r);
    RoundIsAverage(d, g, iter);
    SettlingAverage(d * P, r, g, q, NewtonStep(d, 2, g, iter).guess, iter);
  }

  lemma SettlingAverage(n: int, r: int, g: int, q: int, g': int, iter: nat)
    requires IsFloorSqrt(n, r) && NearQuotient(n, g, q) && 100 <= r < Pow(2, 219)
    requires 2 * g' <= g + q <= 2 * g' + 1 && Settling(r, g, iter)
    ensures if Abs(g' - g) <= 1 then r <= g' <= r + 1 else Settling(r, g', iter + 1)
  {
    ExcessHalves(n, r, g, q, g');
    if Abs(g' - g) <= 1 {
      ExcessSettles(n, r, g, q, g');
    } else if iter < 132 {
      SettlingFirstPhase(n, r, g, q, g', iter);
    } else {
      SettlingSecondPhase(n, r, g, q, g', iter);
    }
  }

  lemma {:induction false} LoopSettles(d: int, r: int, run: Run)
    requires d > 0 && IsFloorSqrt(d * P, r) && 100 <= r < Pow(2, 219)
    requires !run.failed && Abs(run.delta) > 1 && run.guess < LIMIT
    requires Settling(r, run.guess, run.iter)
    ensures EndsAtRoot(r, NewtonLoop(d, 2, run))
    decreases MAX_ITERATIONS - run.iter
  {
    SettlingRound(d, r, run.guess, run.iter);
    var next := NewtonStep(d, 2, run.guess, run.iter);
    if Abs(next.delta) <= 1 {
    } else {
      LoopSettles(d, r, next);
    }
  }

  lemma RootSize(d: int, r: int)
    requires 0 < d < LIMIT && IsFloorSqrt(d * P, r)
    ensures 100 <= r < Pow(2, 219)
  {
    assert r >= 100 by {
      if r < 100 { MulMono(r + 1, r + 1, 100); }
    }
    assert d * P < Pow(2, 438) by {
      LimitFacts();
      PowAdd(2, 345, 93);
      PowMono(2, 90, 93);
      PowPositive(2, 93);
      MulMono(P, d, LIMIT);
      MulMono(LIMIT, P, Pow(2, 93));
    }
    PowAdd(2, 219, 219);
    if r >= Pow(2, 219) {
      PowPositive(2, 219);
      MulMono(r, Pow(2, 219), r);
      MulMono(Pow(2, 219), Pow(2, 219), r);
    }
  }

  /** Squares bounded by 2^256 times d * P have roots bounded by 2^128 times the integer root. */
  lemma StartingExcess(x: int, n: int, r: int)
    requires x >= 0 && IsFloorSqrt(n, r) && x * x <= Pow(2, 256) * n
    ensures x <= Pow(2, 128) * (r + 1)
  {
    var c := Pow(2, 128) * (r + 1);
    PowAdd(2, 128, 128);
    PowPositive(2, 256);
    PowPositive(2, 128);
    assert c * c == Pow(2, 256) * ((r + 1) * (r + 1)) by {
      assert c * c == (Pow(2, 128) * Pow(2, 128)) * ((r + 1) * (r + 1));
    }
    MulMono(Pow(2, 256), n, (r + 1) * (r + 1));
    if x > c {
      MulMono(x, c, x);
      MulMonoStrict(c, c, x);
    }
  }

  lemma StartIsBounded(d: int, r: int)
    requires 0 < d < LIMIT && IsFloorSqrt(d * P, r)
    ensures d <= Pow(2, 128) * (r + 1) && P <= Pow(2, 128) * (r + 1)
  {
    var c := Pow(2, 256);
    assert c >= P && d <= c * P by {
      LimitFacts();
      PowPositive(2, 256);
      PowMono(2, 90, 256);
      MulMono(c, Pow(2, 89), P);
    }
    SquareBelow(c, d, P);
    StartingExcess(d, d * P, r);
    StartingExcess(P, d * P, r);
  }

  lemma SquareBelow(c: int, d: int, p: int)
    requires 1 <= d <= c * p && 0 <= p <= c
    ensures d * d <= c * (d * p) && p * p <= c * (d * p)
  {
    MulMono(d, d, c * p);
    assert d * (c * p) == c * (d * p);
    assert p * p <= c * p by { MulMono(p, p, c); }
    assert p <= d * p by { MulMono(p, 1, d); }
    MulMono(c, p, d * p);
  }

  /** The first round, from the guess 1, averages 1 and d exactly. */
  lemma FirstRound(d: int, r: int)
    requires 0 < d < LIMIT && d != P && IsFloorSqrt(d * P, r)
    ensures var first := NewtonStep(d, 2, P, 0);
            && first == Run(first.guess, first.guess - P, 1, false)
            && first.guess < LIMIT
            && Settling(r, first.guess, 1)
            && (Abs(first.delta) <= 1 ==> r <= first.guess <= r + 1)
  {
    var first := NewtonStep(d, 2, P, 0);
    assert QuoHalfEven(d, P) == d by { FirstQuotient(d); }
    LimitFacts();
    RoundIsAverage(d, P, 0);
    assert NearQuotient(d * P, P, d);
    StepNotBelow(d * P, r, P, d, first.guess);
    StartIsBounded(d, r);
    if Abs(first.delta) <= 1 {
      RootSize(d, r);
      NearOne(d, r);
      ExcessSettles(d * P, r, P, d, first.guess);
    }
  }

  lemma FirstQuotient(d: int)
    requires d > 0
    ensures QuoHalfEven(d, P) == d
  {
    DivUnique(d * SQUARED, P, d * P);
    HalfEvenExact(d);
  }

  lemma NearOne(d: int, r: int)
    requires P - 2 <= d <= P + 3 && IsFloorSqrt(d * P, r)
    ensures -2 <= P - r <= 4
  {
    if r <= P - 5 { MulMono(r + 1, r + 1, P - 4); MulMono(P - 4, r + 1, P - 4); }
    if r >= P + 3 { MulMono(r, P + 3, r); MulMono(P + 3, P + 3, r); }
  }

  /**
    For every in-range d > 0 other than 1, the loop of ApproxRoot(2) leaves by its delta test after at
    most 207 of the 300 rounds and never panics; its guess is the integer square root of d * P or one more.
   */
  lemma SqrtLoopConverges(d: int)
    requires 0 < d && InRange(d) && d != P
    ensures EndsAtRoot(FloorSqrt(d * P), NewtonLoop(d, 2, START))
  {
    InRangeIff(d);
    var r := FloorSqrt(d * P);
    RootSize(d, r);
    FirstRound(d, r);
    var first := NewtonStep(d, 2, P, 0);
    if Abs(first.delta) > 1 {
      LoopSettles(d, r, first);
    }
  }

  /** g is less than one unit, or exactly one unit, away from the exact square root of n. */
  ghost predicate WithinOneUnit(n: int, g: int) {
    g >= 0 && (g == 0 || (g - 1) * (g - 1) <= n) && n < (g + 1) * (g + 1)
  }

  lemma SqrtOfNonNegative(d: int)
    requires 0 <= d && InRange(d)
    ensures !RootOf(d, 2).failed && WithinOneUnit(d * P, RootOf(d, 2).value)
  {
    if d > 0 && d != P {
      SqrtLoopConverges(d);
      NextToRoot(d * P, FloorSqrt(d * P), NewtonLoop(d, 2, START).guess);
    }
  }

  lemma NextToRoot(n: int, r: int, g: int)
    requires IsFloorSqrt(n, r) && r <= g <= r + 1
    ensures WithinOneUnit(n, g)
  {
    if g == r + 1 {
      assert (g + 1) * (g + 1) == (r + 1) * (r + 1) + 2 * r + 3;
    } else if g > 0 {
      assert (g - 1) * (g - 1) == r * r - 2 * r + 1;
    }
  }

  /**
    ApproxRoot(2) succeeds on every in-range decimal and its raw result is within one unit of the
    exact root of |d| * P, with the sign of d.
   */
  lemma SqrtWithinOneUnit(d: int)
    requires InRange(d)
    ensures !RootOf(d, 2).failed
    ensures WithinOneUnit(Abs(d) * P, if d < 0 then -RootOf(d, 2).value else RootOf(d, 2).value)
  {
    SqrtOfNonNegative(Abs(d));
  }
}
