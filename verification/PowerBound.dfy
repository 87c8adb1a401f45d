/**
  The error of Power on decimals of any size: rounding after every product moves the result by at most
  (n - 1) / 2 times (|x| + 1)^(n - 1) units of the 27th decimal place.
 */
module PowerBound {
  import opened Prelude
  import opened BigArith
  import opened Rounding
  import opened FixedPoint
  import opened Power

  /** r is the m-th power of x up to the error that m - 1 rounded products can bring. */
  ghost predicate Near(r: int, x: int, m: nat)
    requires m >= 1
  {
    2 * Abs(r * Pow(P, m - 1) - Pow(x, m)) <= (m - 1) * Pow(Abs(x) + P, m - 1)
  }

  // ---------- one product ----------

  lemma RegroupBy(w: int, x: int, y: int, c: int)
    ensures (w * x) * (c * y) == c * (w * (x * y)) == c * (w * (y * x))
  {
    assert (w * x) * (c * y) == w * (x * (c * y));
    assert x * (c * y) == c * (x * y);
    assert w * (c * (x * y)) == c * (w * (x * y));
  }

  /** The rounding error and the errors of the two factors, each against y * ym * yk. */
  lemma NearErrors(r: int, a: int, m: nat, b: int, k: nat, pm: int, pk: int, xm: int, xk: int, ym: int, yk: int, y: int)
    requires m >= 1 && k >= 1 && 0 < pm <= ym && 0 < pk <= yk && P <= y
    requires 2 * Abs(a * b - r * P) <= P
    requires Abs(a * pm) <= y * ym && Abs(xk) <= y * yk
    requires 2 * Abs(a * pm - xm) <= (m - 1) * ym
    requires 2 * Abs(b * pk - xk) <= (k - 1) * yk
    ensures 2 * Abs(r * (P * (pm * pk)) - xm * xk) <= (m + k - 1) * (y * (ym * yk))
  {
    RoundingTerm(r * P - a * b, pm, pk, ym, yk, y);
    ScaledError(a * pm, y * ym, b * pk - xk, (k - 1) * yk);
    RegroupBy(y, ym, yk, k - 1);
    ScaledError(xk, y * yk, a * pm - xm, (m - 1) * ym);
    RegroupBy(y, yk, ym, m - 1);
    ErrorSplit(r, a, b, pm, pk, xm, xk);
    SumOfErrors((r * P - a * b) * (pm * pk), (a * pm) * (b * pk - xk), xk * (a * pm - xm), y * (ym * yk), k, m);
  }

  lemma RoundingTerm(e: int, pm: int, pk: int, ym: int, yk: int, y: int)
    requires 0 < pm <= ym && 0 < pk <= yk && P <= y && 2 * Abs(e) <= P
    ensures 2 * Abs(e * (pm * pk)) <= y * (ym * yk)
  {
    MulMono(pm, pk, yk);
    MulMono(yk, pm, ym);
    assert 0 < pm * pk by { MulMono(pm, 1, pk); }
    ScaledError(pm * pk, ym * yk, e, y);
  }

  /** A near power is not larger than the power of |x| + P. */
  lemma NearMagnitude(a: int, x: int, m: nat)
    requires 1 <= m <= 2 * P && Near(a, x, m)
    ensures Abs(a * Pow(P, m - 1)) <= (Abs(x) + P) * Pow(Abs(x) + P, m - 1)
  {
    PowPositive(Abs(x) + P, m - 1);
    PowerMagnitude(x, m);
    Magnitudes(a * Pow(P, m - 1), Pow(x, m), Abs(x), Pow(Abs(x) + P, m - 1), m - 1);
  }

  lemma Magnitudes(a: int, t: int, x: nat, y: nat, e: nat)
    requires 2 * Abs(a - t) <= e * y && e <= 2 * P && Abs(t) <= x * y
    ensures Abs(a) <= (x + P) * y
  {
    MulMono(y, e, 2 * P);
    assert (x + P) * y == x * y + P * y;
  }

  lemma PowerMagnitude(x: int, m: nat)
    requires m >= 1
    ensures Abs(Pow(x, m)) <= Abs(x) * Pow(Abs(x) + P, m - 1)
  {
    PowAbsBound(x, Abs(x) + P, m - 1);
    AbsMul(x, Pow(x, m - 1));
    MulMono(Abs(x), Abs(Pow(x, m - 1)), Pow(Abs(x) + P, m - 1));
  }

  lemma NearProduct(a: int, m: nat, b: int, k: nat, x: int)
    requires m >= 1 && k >= 1 && m + k <= 2 * P && Near(a, x, m) && Near(b, x, k)
    ensures Near(HalfEven(a * b), x, m + k)
  {
    var y: int := Abs(x) + P;
    var pm, pk, ym, yk := Pow(P, m - 1), Pow(P, k - 1), Pow(y, m - 1), Pow(y, k - 1);
    PowPositive(P, m - 1);
    PowPositive(P, k - 1);
    PowPositive(y, k - 1);
    PowAbsBound(P, y, m - 1);
    PowAbsBound(P, y, k - 1);
    HalfEvenIsNearestEven(a * b);
    NearMagnitude(a, x, m);
    PowerMagnitude(x, k);
    assert Abs(Pow(x, k)) <= y * yk by { MulMono(yk, Abs(x), y); }
    NearErrors(HalfEven(a * b), a, m, b, k, pm, pk, Pow(x, m), Pow(x, k), ym, yk, y);
    PowAdd(x, m, k);
    PowTimes(P, m - 1, k - 1);
    PowTimes(y, m - 1, k - 1);
  }

  lemma PowTimes(b: int, m: nat, k: nat)
    ensures Pow(b, m + k + 1) == b * (Pow(b, m) * Pow(b, k))
  {
    PowAdd(b, m, k);
  }

  // ---------- the loop ----------

  ghost predicate AccumulatorNear(tmp: int, x: int, k: nat) {
    if k == 0 then tmp == P else Near(tmp, x, k)
  }

  lemma NearAccumulated(d: int, m: nat, tmp: int, k: nat, x: int)
    requires m >= 1 && m + k <= 2 * P && Near(d, x, m) && AccumulatorNear(tmp, x, k)
    ensures Mul(d, tmp) == Mul(tmp, d)
    ensures Mul(d, tmp).Returned? ==> Near(Mul(d, tmp).value, x, m + k)
  {
    assert d * tmp == tmp * d;
    if k == 0 {
      HalfEvenExact(d);
    } else {
      NearProduct(d, m, tmp, k, x);
    }
  }

  lemma {:induction false} LoopNear(d: int, m: nat, tmp: int, k: nat, i: nat, x: int, n: nat)
    requires m >= 1 && i >= 1 && n == k + m * i && n <= 2 * P
    requires Near(d, x, m) && AccumulatorNear(tmp, x, k)
    ensures n >= 1
    ensures PowerLoop(d, tmp, i).Returned? ==> Near(PowerLoop(d, tmp, i).value, x, n)
    decreases i
  {
    MulMono(m, 1, i);
    NearAccumulated(d, m, tmp, k, x);
    if i <= 1 {
    } else {
      MulMono(m, 2, i);
      NearProduct(d, m, d, m, x);
      Halve(k, m, i);
      if Mul(d, d).Returned? && (i % 2 == 0 || Mul(tmp, d).Returned?) {
        if i % 2 != 0 {
          LoopNear(HalfEven(d * d), m + m, Mul(tmp, d).value, k + m, i / 2, x, n);
        } else {
          LoopNear(HalfEven(d * d), m + m, tmp, k, i / 2, x, n);
        }
      }
    }
  }

  /** Every power that returns, of a decimal of any size and either sign, is that close to the true power. */
  lemma PowerErrorAnySize(x: int, n: uint64)
    requires n >= 1 && PowerOf(x, n).Returned?
    ensures 2 * Abs(PowerOf(x, n).value * Pow(P, n - 1) - Pow(x, n)) <= (n - 1) * Pow(Abs(x) + P, n - 1)
  {
    assert Pow(x, 1) == x * Pow(x, 0) == x;
    assert Near(x, x, 1);
    LoopNear(x, 1, P, 0, n, x, n);
  }
}
