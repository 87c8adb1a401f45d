/**
  Integer powers by square-and-multiply with a rounding after every product: what the loop of
  PowerMut returns, how far that is from the true power, and where it is exact.
 */
module Power {
  import opened Prelude
  import opened BigArith
  import opened Rounding
  import opened FixedPoint

  /** The loop of PowerMut with its final product; i counts down to 1. */
  function PowerLoop(d: int, tmp: int, i: nat): Outcome<int>
    decreases i
  {
    if i <= 1 then Mul(d, tmp)
    else
      var tmp' :- if i % 2 != 0 then Mul(tmp, d) else Returned(tmp);
      var d' :- Mul(d, d);
      PowerLoop(d', tmp', i / 2)
  }

  /** What the receiver of PowerMut holds at the end, also when a product on the way panics. */
  function PowerLeft(d: int, tmp: int, i: nat): int
    decreases i
  {
    if i <= 1 then HalfEven(d * tmp)
    else if i % 2 != 0 && Mul(tmp, d).Panicked? then d
    else if Mul(d, d).Panicked? then HalfEven(d * d)
    else PowerLeft(Mul(d, d).value, if i % 2 != 0 then Mul(tmp, d).value else tmp, i / 2)
  }

  /** A power that returns is what the receiver holds. */
  lemma {:induction false} PowerLeftIs(d: int, tmp: int, i: nat)
    ensures PowerLoop(d, tmp, i).Returned? ==> PowerLeft(d, tmp, i) == PowerLoop(d, tmp, i).value
    decreases i
  {
    if i <= 1 {
    } else if Mul(d, d).Returned? && (i % 2 == 0 || Mul(tmp, d).Returned?) {
      PowerLeftIs(Mul(d, d).value, if i % 2 != 0 then Mul(tmp, d).value else tmp, i / 2);
    }
  }

  /** PowerMut on values. */
  function PowerOf(d: int, power: nat): Outcome<int> {
    if power == 0 then Returned(P) else PowerLoop(d, P, power)
  }

  // ---------- the error of the power of a decimal of magnitude at most 1 ----------

  /** r differs from the true m-th power of x by at most (m - 1) / 2 units of the 27th decimal place. */
  ghost predicate Approximates(r: int, x: int, m: nat)
    requires m >= 1
  {
    2 * Abs(r * Pow(P, m - 1) - Pow(x, m)) <= (m - 1) * Pow(P, m - 1)
  }

  /** Two factors within their bounds have a rounded product within its bound. */
  lemma ProductApproximates(a: int, m: nat, b: int, k: nat, x: int)
    requires m >= 1 && k >= 1
    requires Abs(a) <= P && Abs(x) <= P
    requires Approximates(a, x, m) && Approximates(b, x, k)
    ensures Approximates(HalfEven(a * b), x, m + k)
  {
    var pm, pk := Pow(P, m - 1), Pow(P, k - 1);
    PowPositive(P, m - 1);
    PowPositive(P, k - 1);
    PowAbsBound(x, P, k);
    HalfEvenIsNearestEven(a * b);
    ErrorsAdd(HalfEven(a * b), a, m, b, k, pm, pk, Pow(x, m), Pow(x, k));
    PowAdd(x, m, k);
    PowAdd(P, m - 1, k - 1);
    assert Pow(P, m + k - 1) == P * Pow(P, m - 1 + (k - 1));
  }

  /** The rounding error and the errors of the two factors, each against the common unit P * pm * pk. */
  lemma ErrorsAdd(r: int, a: int, m: nat, b: int, k: nat, pm: int, pk: int, xm: int, xk: int)
    requires m >= 1 && k >= 1 && pm > 0 && pk > 0
    requires 2 * Abs(a * b - r * P) <= P
    requires Abs(a) <= P && Abs(xk) <= P * pk
    requires 2 * Abs(a * pm - xm) <= (m - 1) * pm
    requires 2 * Abs(b * pk - xk) <= (k - 1) * pk
    ensures 2 * Abs(r * (P * (pm * pk)) - xm * xk) <= (m + k - 1) * (P * (pm * pk))
  {
    ScaledError(pm * pk, pm * pk, r * P - a * b, P);
    FactorError(a, pm, b * pk - xk, k - 1, pk);
    ScaledError(xk, P * pk, a * pm - xm, (m - 1) * pm);
    Regroup(pk, pm, m - 1);
    ErrorSplit(r, a, b, pm, pk, xm, xk);
    SumOfErrors((r * P - a * b) * (pm * pk), (a * pm) * (b * pk - xk), xk * (a * pm - xm), P * (pm * pk), k, m);
  }

  lemma FactorError(a: int, pm: int, e: int, c: int, pk: int)
    requires pm > 0 && Abs(a) <= P && 2 * Abs(e) <= c * pk
    ensures 2 * Abs((a * pm) * e) <= c * (P * (pm * pk))
  {
    AbsMul(a, pm);
    MulMono(pm, Abs(a), P);
    ScaledError(a * pm, P * pm, e, c * pk);
    Regroup(pm, pk, c);
  }

  lemma SumOfErrors(e1: int, e2: int, e3: int, u: int, k: int, m: int)
    requires 2 * Abs(e1) <= u && 2 * Abs(e2) <= (k - 1) * u && 2 * Abs(e3) <= (m - 1) * u
    ensures 2 * Abs(e1 + e2 + e3) <= (m + k - 1) * u
  {
    assert (m + k - 1) * u == u + (k - 1) * u + (m - 1) * u;
  }

  lemma Regroup(x: int, y: int, c: int)
    ensures (P * x) * (c * y) == c * (P * (x * y)) == c * (P * (y * x))
  {
    assert (P * x) * (c * y) == P * (x * (c * y));
    assert x * (c * y) == c * (x * y);
  }

  lemma ScaledError(s: int, bound: int, e: int, twice: int)
    requires Abs(s) <= bound && 2 * Abs(e) <= twice
    ensures 2 * Abs(s * e) <= bound * twice
    ensures 2 * Abs(e * s) <= twice * bound
  {
    AbsMul(s, e);
    MulMono(Abs(s), 2 * Abs(e), twice);
    MulMono(twice, Abs(s), bound);
    assert s * e == e * s && bound * twice == twice * bound;
  }

  lemma ErrorSplit(r: int, a: int, b: int, pm: int, pk: int, xm: int, xk: int)
    ensures r * (P * (pm * pk)) - xm * xk
            == (r * P - a * b) * (pm * pk) + (a * pm) * (b * pk - xk) + xk * (a * pm - xm)
  {
    assert r * (P * (pm * pk)) == (r * P) * (pm * pk);
    assert (r * P - a * b) * (pm * pk) == (r * P) * (pm * pk) - (a * b) * (pm * pk);
    assert (a * b) * (pm * pk) == (a * pm) * (b * pk);
    assert (a * pm) * (b * pk - xk) == (a * pm) * (b * pk) - (a * pm) * xk;
    assert xk * (a * pm - xm) == (a * pm) * xk - xm * xk;
  }

  /** Products of magnitudes at most 1 stay there, so they never overflow. */
  lemma UnitProduct(a: int, b: int)
    requires Abs(a) <= P && Abs(b) <= P
    ensures Abs(HalfEven(a * b)) <= P
    ensures Mul(a, b) == Returned(HalfEven(a * b))
  {
    AbsMul(a, b);
    MulMono(Abs(a), Abs(b), P);
    HalfEvenMonotone(a * b, P * P);
    HalfEvenMonotone(-(P * P), a * b);
    HalfEvenExact(P);
    HalfEvenOdd(P * P);
    LimitFacts();
    InRangeIff(HalfEven(a * b));
  }

  /** The accumulator holds the product of the powers split off so far; k counts them. */
  ghost predicate AccumulatorHolds(tmp: int, x: int, k: nat) {
    Abs(tmp) <= P && if k == 0 then tmp == P else Approximates(tmp, x, k)
  }

  lemma AccumulatorProduct(d: int, m: nat, tmp: int, k: nat, x: int)
    requires m >= 1 && Abs(x) <= P && Abs(d) <= P
    requires Approximates(d, x, m) && AccumulatorHolds(tmp, x, k)
    ensures Mul(d, tmp) == Mul(tmp, d)
    ensures Mul(d, tmp).Returned? && Abs(Mul(d, tmp).value) <= P
    ensures Approximates(Mul(d, tmp).value, x, m + k)
  {
    assert d * tmp == tmp * d;
    UnitProduct(d, tmp);
    if k == 0 {
      HalfEvenExact(d);
    } else {
      ProductApproximates(d, m, tmp, k, x);
    }
  }

  /** One round of the loop keeps the exponent k + m * i it works toward. */
  lemma Halve(k: nat, m: nat, i: nat)
    ensures i % 2 != 0 ==> k + m * i == k + m + (m + m) * (i / 2)
    ensures i % 2 == 0 ==> k + m * i == k + (m + m) * (i / 2)
  {
    var j := i / 2;
    assert m * (2 * j) == (m + m) * j;
    if i % 2 != 0 { assert m * (2 * j + 1) == m * (2 * j) + m; }
  }

  lemma {:induction false} LoopApproximates(d: int, m: nat, tmp: int, k: nat, i: nat, x: int, n: nat)
    requires m >= 1 && i >= 1 && n == k + m * i
    requires Abs(x) <= P && Abs(d) <= P
    requires Approximates(d, x, m) && AccumulatorHolds(tmp, x, k)
    ensures n >= 1
    ensures PowerLoop(d, tmp, i).Returned?
    ensures Approximates(PowerLoop(d, tmp, i).value, x, n)
    decreases i
  {
    MulMono(m, 1, i);
    AccumulatorProduct(d, m, tmp, k, x);
    if i > 1 {
      UnitProduct(d, d);
      ProductApproximates(d, m, d, m, x);
      Halve(k, m, i);
      if i % 2 != 0 {
        LoopApproximates(HalfEven(d * d), m + m, Mul(tmp, d).value, k + m, i / 2, x, n);
      } else {
        LoopApproximates(HalfEven(d * d), m + m, tmp, k, i / 2, x, n);
      }
    }
  }

  /**
    For every decimal of magnitude at most 1, Power(n) returns and is at most (n - 1) / 2 units of
    the 27th decimal place away from the true power.
   */
  lemma PowerError(x: int, n: nat)
    requires Abs(x) <= P && n >= 1
    ensures PowerOf(x, n).Returned?
    ensures 2 * Abs(PowerOf(x, n).value * Pow(P, n - 1) - Pow(x, n)) <= (n - 1) * Pow(P, n - 1)
  {
    assert Pow(x, 1) == x * Pow(x, 0) == x;
    assert Approximates(x, x, 1);
    LoopApproximates(x, 1, P, 0, n, x, n);
  }

  // ---------- whole numbers ----------

  lemma {:induction false} LoopWhole(k: int, m: nat, a: nat, i: nat, n: nat)
    requires m >= 1 && i >= 1 && n == a + m * i
    ensures PowerLoop(Pow(k, m) * P, Pow(k, a) * P, i) == Checked(Pow(k, n) * P)
    decreases i
  {
    WholeProduct(k, m, a);
    if i > 1 {
      WholeProduct(k, m, m);
      WholeProduct(k, a, m);
      Halve(a, m, i);
      MulMono(m, 2, i);
      OverflowPersists(k, a + m, n);
      OverflowPersists(k, m + m, n);
      if i % 2 != 0 {
        LoopWhole(k, m + m, a + m, i / 2, n);
      } else {
        LoopWhole(k, m + m, a, i / 2, n);
      }
    }
  }

  lemma WholeProduct(k: int, m: nat, a: nat)
    ensures Mul(Pow(k, m) * P, Pow(k, a) * P) == Checked(Pow(k, m + a) * P)
  {
    MulWhole(Pow(k, m), Pow(k, a));
    PowAdd(k, m, a);
  }

  /** If a power of a whole number overflows, so does every higher one. */
  lemma OverflowPersists(k: int, m: nat, n: nat)
    requires m <= n
    ensures InRange(Pow(k, n) * P) ==> InRange(Pow(k, m) * P)
  {
    if k == 0 {
      LimitFacts();
      InRangeIff(Pow(k, m) * P);
      ZeroPower(m);
    } else {
      PowAdd(k, m, n - m);
      PowNonZero(k, n - m);
      AbsMul(Pow(k, m), Pow(k, n - m));
      MulMono(Abs(Pow(k, m)), 1, Abs(Pow(k, n - m)));
      if InRange(Pow(k, n) * P) {
        InRangeMagnitude(Pow(k, m) * P, Pow(k, n) * P);
      }
    }
  }

  lemma ZeroPower(m: nat)
    ensures 0 <= Pow(0, m) <= 1
  {
  }

  lemma {:induction false} PowNonZero(k: int, e: nat)
    requires k != 0
    ensures Abs(Pow(k, e)) >= 1
    decreases e
  {
    if e == 0 {
    } else {
      PowNonZero(k, e - 1);
      AbsMul(k, Pow(k, e - 1));
      MulMono(Abs(k), 1, Abs(Pow(k, e - 1)));
    }
  }

  /**
    On whole numbers Power is exact: it returns k^n when that is in range and panics when it is not,
    whatever the intermediate products are.
   */
  lemma PowerOfWhole(k: int, n: nat)
    ensures PowerOf(k * P, n) == Checked(Pow(k, n) * P)
  {
    if n == 0 {
      LimitFacts();
      InRangeIff(P);
    } else {
      assert Pow(k, 1) == k * Pow(k, 0) == k;
      LoopWhole(k, 1, 0, n, n);
    }
  }

  // ---------- monotonicity ----------

  lemma {:induction false} LoopMonotone(d: int, d': int, tmp: int, tmp': int, i: nat)
    requires 0 <= d <= d' && 0 <= tmp <= tmp'
    requires PowerLoop(d', tmp', i).Returned?
    ensures PowerLoop(d, tmp, i).Returned?
    ensures 0 <= PowerLoop(d, tmp, i).value <= PowerLoop(d', tmp', i).value
    decreases i
  {
    if i <= 1 {
      MulMonotone(d, d', tmp, tmp');
    } else {
      MulMonotone(d, d', d, d');
      if i % 2 != 0 {
        MulMonotone(tmp, tmp', d, d');
        LoopMonotone(Mul(d, d).value, Mul(d', d').value, Mul(tmp, d).value, Mul(tmp', d').value, i / 2);
      } else {
        LoopMonotone(Mul(d, d).value, Mul(d', d').value, tmp, tmp', i / 2);
      }
    }
  }

  /** On non-negatives a smaller base never panics when the larger one returns, and has the smaller power. */
  lemma PowerMonotone(d: int, d': int, n: nat)
    requires 0 <= d <= d' && PowerOf(d', n).Returned?
    ensures PowerOf(d, n).Returned?
    ensures 0 <= PowerOf(d, n).value <= PowerOf(d', n).value
  {
    if n > 0 { LoopMonotone(d, d', P, P, n); }
  }
}
