/**
  Integer arithmetic as Go's math/big performs it: truncated division, powers and bit lengths.
  Dafny's own `/` and `%` are Euclidean, so the truncating quotient is written out.
 */
module BigArith {

  function Abs(x: int): nat {
    if x < 0 then -x else x
  }

  function Pow(b: int, e: nat): int
    decreases e
  {
    if e == 0 then 1 else b * Pow(b, e - 1)
  }

  /** big.Int.Quo: the quotient rounded toward zero. */
  function Quo(a: int, b: int): int
    requires b != 0
  {
    if a >= 0 then a / b else -((-a) / b)
  }

  /** The number of binary digits of x, and 0 for 0. */
  function BitLen(x: nat): nat {
    if x == 0 then 0 else 1 + BitLen(x / 2)
  }

  // ---------- multiplication ----------

  lemma MulMono(a: int, x: int, y: int)
    requires 0 <= a && x <= y
    ensures a * x <= a * y
  {
  }

  lemma MulMonoStrict(a: int, x: int, y: int)
    requires 0 < a && x < y
    ensures a * x < a * y
  {
  }

  /** A positive factor may be cancelled from an inequality. */
  lemma MulCancel(a: int, x: int, y: int)
    requires 0 < a && a * x <= a * y
    ensures x <= y
  {
    if y < x { MulMonoStrict(a, y, x); }
  }

  lemma MulCancelStrict(a: int, x: int, y: int)
    requires 0 < a && a * x < a * y
    ensures x < y
  {
    if y <= x { MulMono(a, y, x); }
  }

  lemma AbsMul(x: int, y: int)
    ensures Abs(x * y) == Abs(x) * Abs(y)
  {
    if x >= 0 && y >= 0 {
    } else if x < 0 && y < 0 {
      assert x * y == (-x) * (-y);
    } else if x < 0 {
      assert x * y == -((-x) * y);
      assert (-x) * y >= 0;
    } else {
      assert x * y == -(x * (-y));
      assert x * (-y) >= 0;
    }
  }

  // ---------- division ----------

  /** The truncated quotient is the one whose remainder is smaller than the divisor and has the dividend's sign. */
  lemma QuoRem(a: int, b: int)
    requires b != 0
    ensures Abs(a - Quo(a, b) * b) < Abs(b)
    ensures a >= 0 ==> a - Quo(a, b) * b >= 0
    ensures a <= 0 ==> a - Quo(a, b) * b <= 0
  {
    assert Abs(a) == b * (Abs(a) / b) + Abs(a) % b;
    RemainderSign(a, b, Abs(a) / b, Abs(a) % b);
  }

  lemma RemainderSign(a: int, b: int, q: int, m: int)
    requires Abs(a) == b * q + m
    ensures a - (if a < 0 then -q else q) * b == if a < 0 then -m else m
  {
    assert (-q) * b == -(b * q);
  }

  lemma DivUnique(a: int, b: int, q: int)
    requires 0 < b && q * b <= a < (q + 1) * b
    ensures a / b == q
  {
    var d := a / b;
    assert a == b * d + a % b;
    if d < q { MulMono(b, d + 1, q); }
    if d > q { MulMono(b, q + 1, d); }
  }

  lemma QuoNegDivisor(a: nat, b: int)
    requires b != 0
    ensures a / (-b) == -(a / b)
  {
    var q, m := a / b, Abs(b);
    assert a == b * q + a % b;
    var q' := a / (-b);
    assert a == (-b) * q' + a % (-b);
    var s := if b > 0 then q + q' else -(q + q');
    assert b * (q + q') == m * s;
    assert m * s == a % (-b) - a % b;
    if s >= 1 { MulMono(m, 1, s); }
    if s <= -1 { MulMono(m, s, -1); }
  }

  // ---------- powers ----------

  lemma {:induction false} PowAdd(b: int, m: nat, n: nat)
    ensures Pow(b, m + n) == Pow(b, m) * Pow(b, n)
    decreases m
  {
    if m == 0 {
    } else {
      PowAdd(b, m - 1, n);
      assert Pow(b, m + n) == b * Pow(b, m - 1 + n);
      assert b * (Pow(b, m - 1) * Pow(b, n)) == (b * Pow(b, m - 1)) * Pow(b, n);
    }
  }

  lemma {:induction false} PowPositive(b: int, e: nat)
    requires b > 0
    ensures Pow(b, e) > 0
    decreases e
  {
    if e == 0 {
    } else {
      PowPositive(b, e - 1);
    }
  }

  lemma {:induction false} PowMono(b: int, m: nat, n: nat)
    requires b > 0 && m <= n
    ensures Pow(b, m) <= Pow(b, n)
    decreases n
  {
    if m == n {
    } else {
      PowMono(b, m, n - 1);
      PowPositive(b, n - 1);
      MulMono(Pow(b, n - 1), 1, b);
    }
  }

  lemma {:induction false} PowAbsBound(b: int, m: int, e: nat)
    requires Abs(b) <= m
    ensures Abs(Pow(b, e)) <= Pow(m, e)
    decreases e
  {
    if e == 0 {
    } else {
      PowAbsBound(b, m, e - 1);
      AbsMul(b, Pow(b, e - 1));
      MulMono(Abs(b), Abs(Pow(b, e - 1)), Pow(m, e - 1));
      MulMono(Pow(m, e - 1), Abs(b), m);
    }
  }

  // ---------- bit lengths ----------

  /** A bit length of at most k is the same as being below 2^k. */
  lemma {:induction false} BitLenBelow(x: nat, k: nat)
    ensures BitLen(x) <= k <==> x < Pow(2, k)
    decreases k
  {
    PowPositive(2, k);
    if k == 0 || x == 0 {
    } else {
      BitLenBelow(x / 2, k - 1);
      assert Pow(2, k) == 2 * Pow(2, k - 1);
    }
  }
}
