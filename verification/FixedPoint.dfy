/**
  Decimals on raw values. A decimal is an integer scaled by P; every operation that the source
  range-checks either returns an in-range integer or panics.
 */
module FixedPoint {
  import opened Prelude
  import opened BigArith
  import opened Rounding
  import opened Quotient

  /** maxPrecDecBitLen, 256 plus the 89 bits a truncation removes at least. */
  const MAX_BIT_LEN: nat := 345

  /** The first magnitude that no longer fits. */
  ghost const LIMIT: int := Pow(2, MAX_BIT_LEN)

  predicate InRange(x: int) {
    BitLen(Abs(x)) <= MAX_BIT_LEN
  }

  lemma InRangeIff(x: int)
    ensures InRange(x) <==> -LIMIT < x < LIMIT
  {
    BitLenBelow(Abs(x), MAX_BIT_LEN);
  }

  lemma PowersOfTwo()
    ensures Pow(2, 40) == 1_099_511_627_776
    ensures Pow(2, 9) == 512
  {
    assert Pow(2, 10) == 1024;
    PowAdd(2, 10, 10);
    PowAdd(2, 20, 20);
  }

  lemma PrecisionBits()
    ensures Pow(2, 89) < P < Pow(2, 90)
  {
    PowersOfTwo();
    PowAdd(2, 40, 40);
    PowAdd(2, 80, 9);
    assert Pow(2, 90) == 2 * Pow(2, 89);
  }

  /** P has 90 bits, and the largest in-range decimal is below 2^256. */
  lemma LimitFacts()
    ensures Pow(2, 89) < P < Pow(2, 90)
    ensures LIMIT == Pow(2, 256) * Pow(2, 89)
    ensures P < LIMIT
  {
    PrecisionBits();
    PowAdd(2, 256, 89);
    PowMono(2, 90, MAX_BIT_LEN);
  }

  function Checked(x: int): Outcome<int> {
    if InRange(x) then Returned(x) else Panicked
  }

  // ---------- multiplication ----------

  function Mul(a: int, b: int): Outcome<int> {
    Checked(HalfEven(a * b))
  }

  /** Mul returns the half-even rounded product whenever that fits, and panics otherwise. */
  lemma MulIsNearestEven(a: int, b: int)
    ensures Mul(a, b).Returned? ==> IsNearestEven(a * b, P, Mul(a, b).value)
    ensures Mul(a, b).Panicked? ==> forall q :: IsNearestEven(a * b, P, q) ==> !InRange(q)
  {
    HalfEvenIsNearestEven(a * b);
    forall q | IsNearestEven(a * b, P, q)
      ensures q == HalfEven(a * b)
    {
      NearestEvenUnique(a * b, P, q, HalfEven(a * b));
    }
  }

  lemma InRangeMagnitude(x: int, y: int)
    requires Abs(x) <= Abs(y) && InRange(y)
    ensures InRange(x)
  {
    InRangeIff(x);
    InRangeIff(y);
  }

  lemma HalfEvenSign(x: int)
    ensures x >= 0 ==> HalfEven(x) >= 0
    ensures x <= 0 ==> HalfEven(x) <= 0
    ensures HalfEven(0) == 0
  {
  }

  /** On non-negatives a smaller factor never overflows first and never gives a larger product. */
  lemma MulMonotone(a: int, a': int, b: int, b': int)
    requires 0 <= a <= a' && 0 <= b <= b'
    requires Mul(a', b').Returned?
    ensures Mul(a, b).Returned?
    ensures 0 <= Mul(a, b).value <= Mul(a', b').value
  {
    assert 0 <= a * b <= a' * b' by {
      MulMono(a, b, b');
      MulMono(b', a, a');
    }
    HalfEvenMonotone(a * b, a' * b');
    HalfEvenSign(a * b);
    InRangeMagnitude(HalfEven(a * b), HalfEven(a' * b'));
  }

  /** Multiplying whole numbers is exact. */
  lemma MulWhole(j: int, k: int)
    ensures Mul(j * P, k * P) == Checked(j * k * P)
  {
    assert (j * P) * (k * P) == (j * k * P) * P;
    HalfEvenExact(j * k * P);
  }

  // ---------- division ----------

  function QuoOf(a: int, b: int): Outcome<int> {
    if b == 0 then Panicked else Checked(QuoHalfEven(a, b))
  }

  function QuoTruncateOf(a: int, b: int): Outcome<int> {
    if b == 0 then Panicked else Checked(QuoTruncated(a, b))
  }

  function QuoRoundUpOf(a: int, b: int): Outcome<int> {
    if b == 0 then Panicked else Checked(QuoRoundedUp(a, b))
  }
}
