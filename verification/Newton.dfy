/**
  ApproxRoot on values: Newton's iteration for the n-th root with its iteration cap and its
  recovered panics, and the convergence of the square root.
 */
module Newton {
  import opened Prelude
  import opened BigArith
  import opened Rounding
  import opened Quotient
  import opened FixedPoint
  import opened Power

  /** maxApproxRootIterations. The source's comment speaks of 100; the constant is 300. */
  const MAX_ITERATIONS: nat := 300

  /** Go's conversion int64(x) of an unsigned 64-bit value. */
  function AsInt64(x: uint64): int {
    if x < TWO_63 then x else x - TWO_64
  }

  /** prev: the guess raised to root - 1, and the smallest decimal in place of zero. */
  function Divisor(root: uint64, guess: int): Outcome<int>
    requires root >= 2
  {
    var prev :- if root != 2 then PowerOf(guess, root - 1) else Returned(guess);
    Returned(if prev == 0 then 1 else prev)
  }

  /** delta after one round: (d / prev - guess) / root, shifted right when root is 2. */
  function Correction(d: int, root: uint64, guess: int): Outcome<int>
    requires root >= 2
  {
    var prev :- Divisor(root, guess);
    var quotient :- QuoOf(d, prev);
    var difference :- Checked(quotient - guess);
    Returned(if root == 2 then difference / 2 else Quo(difference, AsInt64(root)))
  }

  /** The state of the loop: after a recovered panic the guess is whatever was last stored in it. */
  datatype Run = Run(guess: int, delta: int, iter: nat, failed: bool)

  function NewtonStep(d: int, root: uint64, guess: int, iter: nat): Run
    requires root >= 2
  {
    match Correction(d, root, guess)
    case Panicked => Run(guess, 0, iter, true)
    case Returned(c) => Run(guess + c, c, iter + 1, !InRange(guess + c))
  }

  /** The loop test replaces delta by its magnitude before it compares. */
  function NewtonLoop(d: int, root: uint64, run: Run): Run
    requires root >= 2
    decreases MAX_ITERATIONS - run.iter
  {
    if !run.failed && Abs(run.delta) > 1 && run.iter < MAX_ITERATIONS then
      var next := NewtonStep(d, root, run.guess, run.iter);
      if next.failed then next else NewtonLoop(d, root, next)
    else
      run.(delta := Abs(run.delta))
  }

  /** One turn of the loop, with the loop test's AbsMut on the new delta. */
  lemma LoopTurn(d: int, root: uint64, guess: int, delta: int, iter: nat)
    requires root >= 2 && delta > 1 && iter < MAX_ITERATIONS
    ensures var next := NewtonStep(d, root, guess, iter);
            NewtonLoop(d, root, Run(guess, delta, iter, false))
            == if next.failed then next else NewtonLoop(d, root, next.(delta := Abs(next.delta)))
  {
  }

  lemma LoopDone(d: int, root: uint64, guess: int, delta: int, iter: nat)
    requires root >= 2 && delta >= 0 && (delta <= 1 || iter >= MAX_ITERATIONS)
    ensures NewtonLoop(d, root, Run(guess, delta, iter, false)) == Run(guess, delta, iter, false)
  {
  }

  const START: Run := Run(P, P, 0, false)

  /** The value and the error flag that ApproxRoot returns. */
  datatype Root = Root(value: int, failed: bool)

  function RootOf(d: int, root: uint64): Root
    decreases d < 0
  {
    if d < 0 then
      var r := RootOf(-d, root);
      Root(-r.value, r.failed)
    else if root == 1 || d == 0 || d == P then
      Root(d, false)
    else if root == 0 then
      Root(P, false)
    else
      var run := NewtonLoop(d, root, START);
      Root(run.guess, run.failed)
  }

  // ---------- the integer square root ----------

  ghost predicate IsFloorSqrt(n: int, r: int) {
    0 <= r && r * r <= n < (r + 1) * (r + 1)
  }

  ghost function FloorSqrt(n: nat): (r: nat)
    ensures IsFloorSqrt(n, r)
  {
    if n == 0 then 0
    else
      var r := FloorSqrt(n - 1);
      if (r + 1) * (r + 1) <= n then r + 1 else r
  }

  // ---------- one round, with n = d * P and q within 3/4 of n / g ----------

  /** The rounded quotient is off by less than 3/4. */
  ghost predicate NearQuotient(n: int, g: int, q: int) {
    g > 0 && 4 * Abs(n - q * g) < 3 * g
  }

  lemma QuotientIsNear(d: int, g: int)
    requires d > 0 && g > 0
    ensures NearQuotient(d * P, g, QuoHalfEven(d, g))
  {
    QuoError(d, g);
  }

  lemma SquareOfDifference(g: int, r: int)
    ensures (g - r) * (g - r) == g * g - 2 * (g * r) + r * r
    ensures (r + 1) * (r + 1) == r * r + 2 * r + 1
  {
  }

  lemma AverageScaled(g: int, q: int, g': int, r: int)
    requires g > 0 && 2 * g' <= g + q <= 2 * g' + 1
    ensures 4 * (g * g) + 4 * (q * g) - 4 * g <= 8 * (g * g') <= 4 * (g * g) + 4 * (q * g)
    ensures g * (g' - r) == g * g' - g * r
  {
    MulMono(g, 2 * g', g + q);
    MulMono(g, g + q, 2 * g' + 1);
    assert g * (2 * g') == 2 * (g * g');
    assert g * (2 * g' + 1) == 2 * (g * g') + g;
    assert g * (g + q) == g * g + q * g;
  }

  /** One round in products only: the scaled excess after it, against the squared excess before it. */
  lemma StepBounds(n: int, r: int, g: int, q: int, g': int)
    requires IsFloorSqrt(n, r) && NearQuotient(n, g, q)
    requires 2 * g' <= g + q <= 2 * g' + 1
    ensures 4 * ((g - r) * (g - r)) - 7 * g < 8 * (g * (g' - r)) < 4 * ((g - r) * (g - r)) + 8 * r + 3 * g
  {
    SquareOfDifference(g, r);
    AverageScaled(g, q, g', r);
    Combine(n, r, g, (g - r) * (g - r), g * g, g * r, r * r, q * g, g * g', g * (g' - r));
  }

  lemma Combine(n: int, r: int, g: int, ee: int, gg: int, gr: int, rr: int, qg: int, gg': int, ge': int)
    requires rr <= n < rr + 2 * r + 1 && 4 * Abs(n - qg) < 3 * g
    requires ee == gg - 2 * gr + rr && ge' == gg' - gr
    requires 4 * gg + 4 * qg - 4 * g <= 8 * gg' <= 4 * gg + 4 * qg
    ensures 4 * ee - 7 * g < 8 * ge' < 4 * ee + 8 * r + 3 * g
  {
  }

  /** The average of guess and quotient is never below the integer square root. */
  lemma StepNotBelow(n: int, r: int, g: int, q: int, g': int)
    requires IsFloorSqrt(n, r) && NearQuotient(n, g, q)
    requires 2 * g' <= g + q <= 2 * g' + 1
    ensures g' >= r
  {
    StepBounds(n, r, g, q, g');
    SquareNonNegative(g - r);
    CancelGuess(g, -7, g' - r);
  }

  lemma SquareNonNegative(x: int)
    ensures x * x >= 0
  {
  }

  lemma CancelGuess(g: int, c: int, e': int)
    requires g > 0
    ensures 8 * (g * e') < c * g ==> 8 * e' < c
    ensures c * g < 8 * (g * e') ==> c < 8 * e'
  {
    assert g * (8 * e') == 8 * (g * e');
    if 8 * (g * e') < c * g { MulCancelStrict(g, 8 * e', c); }
    if c * g < 8 * (g * e') { MulCancelStrict(g, c, 8 * e'); }
  }

  /** The bound of a round with the squared excess replaced by a multiple of the guess, cancelled. */
  lemma CancelExcess(r: int, g: int, c: int, ee: int, e': int)
    requires g > 0 && r <= g && 4 * ee <= c * g && 8 * (g * e') < 4 * ee + 8 * r + 3 * g
    ensures 8 * e' < c + 11
  {
    assert (c + 11) * g == c * g + 11 * g;
    CancelGuess(g, c + 11, e');
  }

  lemma ScaledSquare(e: int, k: int, g: int)
    requires 0 <= e && k * e <= g
    ensures k * (e * e) <= e * g
  {
    MulMono(e, k * e, g);
    assert e * (k * e) == k * (e * e);
  }

  /** From above the root, a round halves the excess. */
  lemma ExcessHalves(n: int, r: int, g: int, q: int, g': int)
    requires IsFloorSqrt(n, r) && NearQuotient(n, g, q) && g >= r
    requires 2 * g' <= g + q <= 2 * g' + 1
    ensures 0 <= g' - r && 2 * (g' - r) <= g - r + 2
  {
    StepNotBelow(n, r, g, q, g');
    StepBounds(n, r, g, q, g');
    HalvedExcess(r, g, g - r, g' - r);
  }

  lemma HalvedExcess(r: int, g: int, e: int, e': int)
    requires g > 0 && r <= g && 0 <= e <= g && 8 * (g * e') < 4 * (e * e) + 8 * r + 3 * g
    ensures 2 * e' <= e + 2
  {
    ScaledSquare(e, 1, g);
    assert (4 * e) * g == 4 * (e * g);
    CancelExcess(r, g, 4 * e, e * e, e');
  }

  /** Once the excess is at most a quarter of the root, a round divides it by eight. */
  lemma ExcessCollapses(n: int, r: int, g: int, q: int, g': int)
    requires IsFloorSqrt(n, r) && NearQuotient(n, g, q) && g >= r
    requires 2 * g' <= g + q <= 2 * g' + 1
    requires 4 * (g - r) <= r
    ensures 8 * (g' - r) <= g - r + 10
  {
    var e := g - r;
    StepBounds(n, r, g, q, g');
    ScaledSquare(e, 4, g);
    CancelExcess(r, g, e, e * e, g' - r);
  }

  /** An excess of at most 4 becomes at most 1. */
  lemma ExcessSettles(n: int, r: int, g: int, q: int, g': int)
    requires IsFloorSqrt(n, r) && NearQuotient(n, g, q) && -2 <= g - r <= 4 && r >= 100
    requires 2 * g' <= g + q <= 2 * g' + 1
    ensures g' - r <= 1
  {
    var e := g - r;
    StepBounds(n, r, g, q, g');
    assert e * e <= 16 by {
      if e >= 0 { MulMono(e, e, 4); } else { MulMono(-e, -e, 2); }
    }
    CancelGuess(g, 16, g' - r);
  }
}
