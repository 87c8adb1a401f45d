/**
  What ApproxRoot promises for every root: when its loop ends by the delta test, the last guess and the
  quotient by its power agree up to about the root itself.
 */
module Residual {
  import opened Prelude
  import opened BigArith
  import opened Rounding
  import opened Quotient
  import opened FixedPoint
  import opened Power
  import opened Newton

  /** A round that moved the guess by at most one unit. */
  ghost predicate LastRound(d: int, root: uint64, g: int, end: int)
    requires root >= 2
  {
    Abs(end - g) <= 1 && Correction(d, root, g) == Returned(end - g)
  }

  /** A loop that ends by the delta test ends with such a round. */
  lemma {:induction false} LoopEndsWith(d: int, root: uint64, run: Run) returns (g: int)
    requires root >= 2 && !run.failed && Abs(run.delta) > 1
    requires !NewtonLoop(d, root, run).failed && NewtonLoop(d, root, run).delta <= 1
    ensures LastRound(d, root, g, NewtonLoop(d, root, run).guess)
    decreases MAX_ITERATIONS - run.iter
  {
    var next := NewtonStep(d, root, run.guess, run.iter);
    if Abs(next.delta) > 1 && next.iter < MAX_ITERATIONS {
      g := LoopEndsWith(d, root, next);
    } else {
      g := run.guess;
    }
  }

  /** The magnitude of int64(root). */
  function Magnitude(root: uint64): nat {
    if root < TWO_63 then root else TWO_64 - root
  }

  lemma SmallQuotient(x: int, root: uint64, q: int)
    requires root >= 2 && Abs(q) <= 1 && q == Quo(x, AsInt64(root))
    ensures Abs(x) < 2 * Magnitude(root)
  {
    QuoRem(x, AsInt64(root));
    if q == 0 {
    } else if q == 1 {
    } else {
      assert q == -1;
    }
  }

  /** The power that divides, with the smallest decimal in place of zero. */
  function OrSmallest(x: int): int {
    if x == 0 then 1 else x
  }

  lemma RoundResidual(d: int, root: uint64, g: int, end: int)
    requires root >= 3 && LastRound(d, root, g, end)
    ensures PowerOf(g, root - 1).Returned?
    ensures Abs(QuoHalfEven(d, OrSmallest(PowerOf(g, root - 1).value)) - g) < 2 * Magnitude(root)
  {
    var p := OrSmallest(PowerOf(g, root - 1).value);
    assert Divisor(root, g) == Returned(p);
    SmallQuotient(QuoHalfEven(d, p) - g, root, end - g);
  }

  /**
    For roots above 2, a loop that ends without failure by its delta test is at most one unit from a guess
    g for which d divided by g to the power root - 1 differs from g by less than twice the root.
   */
  lemma RootResidual(d: int, root: uint64) returns (g: int)
    requires root >= 3 && !NewtonLoop(d, root, START).failed && NewtonLoop(d, root, START).delta <= 1
    ensures Abs(NewtonLoop(d, root, START).guess - g) <= 1
    ensures PowerOf(g, root - 1).Returned?
    ensures Abs(QuoHalfEven(d, OrSmallest(PowerOf(g, root - 1).value)) - g) < 2 * Magnitude(root)
  {
    g := LoopEndsWith(d, root, START);
    RoundResidual(d, root, g, NewtonLoop(d, root, START).guess);
  }
}
