/**
  utils/math/prec_dec.go in its own form: a PrecDec is a pointer to a big integer, and the Mut
  methods change the integer behind the pointer. Two decimals alias when their pointers are equal.
 */
module PrecDecimals {
  import opened Prelude
  import opened BigArith
  import opened Rounding
  import opened Quotient
  import opened FixedPoint
  import opened Power
  import opened Newton
  import opened DecimalText

  class BigInt {
    var v: int

    constructor (v: int)
      ensures this.v == v
    {
      this.v := v;
    }
  }

  // ---------- chopping in place ----------

  /** chopPrecisionAndRound returns its own argument, which then holds the nearest-even quotient by P. */
  method ChopPrecisionAndRound(d: BigInt) returns (chopped: BigInt)
    modifies d
    ensures chopped == d
    ensures d.v == HalfEven(old(d.v))
    decreases d.v < 0
  {
    if d.v < 0 {
      d.v := -d.v;
      chopped := ChopPrecisionAndRound(d);
      chopped.v := -chopped.v;
      return;
    }
    var quo := d;
    var rem := d.v % P;
    quo.v := d.v / P;
    if rem == 0 || rem < HALF {
      return quo;
    }
    if rem > HALF {
      quo.v := quo.v + 1;
      return quo;
    }
    if quo.v % 2 == 0 {
      return quo;
    }
    quo.v := quo.v + 1;
    return quo;
  }

  method ChopPrecisionAndTruncate(d: BigInt)
    modifies d
    ensures d.v == Truncate(old(d.v))
  {
    d.v := Quo(d.v, P);
  }

  method ChopPrecisionAndRoundUp(d: BigInt) returns (chopped: BigInt)
    modifies d
    ensures chopped == d
    ensures d.v == RoundUp(old(d.v))
  {
    if d.v < 0 {
      d.v := -d.v;
      ChopPrecisionAndTruncate(d);
      d.v := -d.v;
      return d;
    }
    var quo := d;
    var rem := d.v % P;
    quo.v := d.v / P;
    if rem == 0 {
      return quo;
    }
    quo.v := quo.v + 1;
    return quo;
  }

  /** What a divisor has become once the dividend was scaled in place: itself, unless the two alias. */
  function ScaledDivisor(aliased: bool, d: int, d2: int): int {
    if aliased then d * SQUARED else d2
  }

  /** A decimal scaled twice and divided by itself is 1 scaled twice, and by its scaled self is 1. */
  lemma SelfQuotient(d: int)
    requires d != 0
    ensures BigArith.Quo(d * SQUARED, d) == SQUARED
    ensures BigArith.Quo(d * SQUARED, d * SQUARED) == 1
  {
    QuoOfMultiple(d, SQUARED);
    QuoOfMultiple(d * SQUARED, 1);
  }

  lemma QuoOfMultiple(d: int, k: int)
    requires d != 0 && k > 0
    ensures BigArith.Quo(d * k, d) == k
  {
    var q := BigArith.Quo(d * k, d);
    QuoRem(d * k, d);
    assert d * k - q * d == (k - q) * d;
    SmallMultiple(k - q, d);
  }

  lemma SmallMultiple(x: int, d: int)
    requires Abs(x * d) < Abs(d)
    ensures x == 0
  {
    AbsMul(x, d);
    if x != 0 { MulMono(Abs(d), 1, Abs(x)); }
  }

  /**
    The in-place quotients give the quotient of their operands if and only if the operands do not
    alias; d divided by itself in place becomes 0, 0 or the smallest decimal instead of 1.
   */
  lemma InPlaceQuotientIff(d: int, d2: int, aliased: bool)
    requires d2 != 0 && (aliased ==> d2 == d)
    ensures var b := ScaledDivisor(aliased, d, d2);
            && b != 0
            && (HalfEven(BigArith.Quo(d * SQUARED, b)) == QuoHalfEven(d, d2) <==> !aliased)
            && (Truncate(BigArith.Quo(d * SQUARED, b)) == QuoTruncated(d, d2) <==> !aliased)
            && (RoundUp(BigArith.Quo(d * SQUARED, b)) == QuoRoundedUp(d, d2) <==> !aliased)
    ensures aliased ==> QuoHalfEven(d, d2) == P && HalfEven(BigArith.Quo(d * SQUARED, d * SQUARED)) == 0
  {
    if aliased {
      SelfQuotient(d);
      HalfEvenExact(P);
    }
  }

  /** Go's copy(dst[at:], src) for a source that fits. */
  method CopyBytes(dst: array<char>, at: nat, src: string)
    requires at + |src| <= dst.Length
    modifies dst
    ensures dst[..at + |src|] == old(dst[..at]) + src
    ensures dst[at + |src|..] == old(dst[at + |src|..])
  {
    for k := 0 to |src|
      invariant dst[..at + k] == old(dst[..at]) + src[..k]
      invariant dst[at + k..] == old(dst[at + k..])
    {
      dst[at + k] := src[k];
    }
  }

  /** The loop that writes n zeros from a position on. */
  method WriteZeros(dst: array<char>, at: nat, n: nat)
    requires at + n <= dst.Length
    modifies dst
    ensures dst[..at + n] == old(dst[..at]) + Zeros(n)
    ensures dst[at + n..] == old(dst[at + n..])
  {
    for k := 0 to n
      invariant dst[..at + k] == old(dst[..at]) + Zeros(k)
      invariant dst[at + k..] == old(dst[at + k..])
    {
      dst[at + k] := '0';
    }
  }

  /** The printer's byte buffer: a short number behind "0." and zeros, a long one around its point. */
  method FillBuffer(bzInt: string) returns (bzStr: array<char>)
    ensures fresh(bzStr) && bzStr[..] == PlacePoint(bzInt)
  {
    var inputSize := |bzInt|;
    if inputSize <= PRECISION {
      bzStr := new char[PRECISION + 2](_ => '\0');
      bzStr[0] := '0';
      bzStr[1] := '.';
      assert bzStr[..2] == "0.";
      WriteZeros(bzStr, 2, PRECISION - inputSize);
      CopyBytes(bzStr, 2 + (PRECISION - inputSize), bzInt);
      assert bzStr[..] == bzStr[..2 + PRECISION];
    } else {
      bzStr := new char[inputSize + 1](_ => '\0');
      var decPointPlace := inputSize - PRECISION;
      CopyBytes(bzStr, 0, bzInt[..decPointPlace]);
      bzStr[decPointPlace] := '.';
      assert bzStr[..decPointPlace + 1] == bzInt[..decPointPlace] + ".";
      CopyBytes(bzStr, decPointPlace + 1, bzInt[decPointPlace..]);
      assert bzStr[..] == bzStr[..inputSize + 1];
    }
  }

  datatype PrecDec = PrecDec(i: BigInt) {

    // ---------- copies and signs ----------

    method Clone() returns (r: PrecDec)
      ensures fresh(r.i) && r.i.v == i.v
    {
      var n := new BigInt(i.v);
      return PrecDec(n);
    }

    method Set(d2: PrecDec) returns (r: PrecDec)
      modifies i
      ensures r == this && i.v == old(d2.i.v)
    {
      i.v := d2.i.v;
      return this;
    }

    method Neg() returns (r: PrecDec)
      ensures fresh(r.i) && r.i.v == -i.v
    {
      var n := new BigInt(-i.v);
      return PrecDec(n);
    }

    method NegMut() returns (r: PrecDec)
      modifies i
      ensures r == this && i.v == -old(i.v)
    {
      i.v := -i.v;
      return this;
    }

    method AbsMut() returns (r: PrecDec)
      modifies i
      ensures r == this && i.v == Abs(old(i.v))
    {
      i.v := Abs(i.v);
      return this;
    }

    // ---------- sums ----------

    method AddMut(d2: PrecDec) returns (r: Outcome<PrecDec>)
      modifies i
      ensures i.v == old(i.v) + old(d2.i.v)
      ensures r == if InRange(i.v) then Returned(this) else Panicked
    {
      i.v := i.v + d2.i.v;
      return if BitLen(Abs(i.v)) > MAX_BIT_LEN then Panicked else Returned(this);
    }

    method SubMut(d2: PrecDec) returns (r: Outcome<PrecDec>)
      modifies i
      ensures i.v == old(i.v) - old(d2.i.v)
      ensures r == if InRange(i.v) then Returned(this) else Panicked
    {
      i.v := i.v - d2.i.v;
      return if BitLen(Abs(i.v)) > MAX_BIT_LEN then Panicked else Returned(this);
    }

    // ---------- products ----------

    /** The rounded product is in the receiver, also when the operands alias and when the call panics. */
    method MulMut(d2: PrecDec) returns (r: Outcome<PrecDec>)
      modifies i
      ensures i.v == HalfEven(old(i.v) * old(d2.i.v))
      ensures r == if InRange(i.v) then Returned(this) else Panicked
    {
      i.v := i.v * d2.i.v;
      var chopped := ChopPrecisionAndRound(i);
      if BitLen(Abs(chopped.v)) > MAX_BIT_LEN {
        return Panicked;
      }
      i.v := chopped.v;
      return Returned(this);
    }

    /** The immutable product works on a copy: neither operand changes, even when they alias. */
    method Mul(d2: PrecDec) returns (r: Outcome<PrecDec>)
      ensures r.Returned? <==> FixedPoint.Mul(i.v, d2.i.v).Returned?
      ensures r.Returned? ==> fresh(r.value.i) && r.value.i.v == FixedPoint.Mul(i.v, d2.i.v).value
      ensures i.v == old(i.v) && d2.i.v == old(d2.i.v)
    {
      var copy := Clone();
      r := copy.MulMut(d2);
    }

    // ---------- quotients ----------

    /** d.QuoMut(d) divides by the already scaled d, so aliasing changes the result; the immutable Quo copies first. */
    method QuoMut(d2: PrecDec) returns (r: Outcome<PrecDec>)
      modifies i
      ensures var b := ScaledDivisor(d2.i == i, old(i.v), old(d2.i.v));
              if b == 0 then
                r == Panicked && i.v == old(i.v) * SQUARED
              else
                && i.v == HalfEven(BigArith.Quo(old(i.v) * SQUARED, b))
                && r == if InRange(i.v) then Returned(this) else Panicked
    {
      i.v := i.v * SQUARED;
      if d2.i.v == 0 {
        return Panicked;
      }
      i.v := BigArith.Quo(i.v, d2.i.v);
      var _ := ChopPrecisionAndRound(i);
      return if BitLen(Abs(i.v)) > MAX_BIT_LEN then Panicked else Returned(this);
    }

    method QuoTruncateMut(d2: PrecDec) returns (r: Outcome<PrecDec>)
      modifies i
      ensures var b := ScaledDivisor(d2.i == i, old(i.v), old(d2.i.v));
              if b == 0 then
                r == Panicked && i.v == old(i.v) * SQUARED
              else
                && i.v == Truncate(BigArith.Quo(old(i.v) * SQUARED, b))
                && r == if InRange(i.v) then Returned(this) else Panicked
    {
      i.v := i.v * SQUARED;
      if d2.i.v == 0 {
        return Panicked;
      }
      i.v := BigArith.Quo(i.v, d2.i.v);
      ChopPrecisionAndTruncate(i);
      return if BitLen(Abs(i.v)) > MAX_BIT_LEN then Panicked else Returned(this);
    }

    method QuoRoundupMut(d2: PrecDec) returns (r: Outcome<PrecDec>)
      modifies i
      ensures var b := ScaledDivisor(d2.i == i, old(i.v), old(d2.i.v));
              if b == 0 then
                r == Panicked && i.v == old(i.v) * SQUARED
              else
                && i.v == RoundUp(BigArith.Quo(old(i.v) * SQUARED, b))
                && r == if InRange(i.v) then Returned(this) else Panicked
    {
      i.v := i.v * SQUARED;
      if d2.i.v == 0 {
        return Panicked;
      }
      i.v := BigArith.Quo(i.v, d2.i.v);
      var _ := ChopPrecisionAndRoundUp(i);
      return if BitLen(Abs(i.v)) > MAX_BIT_LEN then Panicked else Returned(this);
    }

    /** The immutable quotient divides a copy, so an aliased pair still divides to what QuoOf says. */
    method Quo(d2: PrecDec) returns (r: Outcome<PrecDec>)
      ensures r.Returned? <==> QuoOf(i.v, d2.i.v).Returned?
      ensures r.Returned? ==> fresh(r.value.i) && r.value.i.v == QuoOf(i.v, d2.i.v).value
      ensures i.v == old(i.v) && d2.i.v == old(d2.i.v)
    {
      var copy := Clone();
      r := copy.QuoMut(d2);
    }

    method QuoTruncate(d2: PrecDec) returns (r: Outcome<PrecDec>)
      ensures r.Returned? <==> QuoTruncateOf(i.v, d2.i.v).Returned?
      ensures r.Returned? ==> fresh(r.value.i) && r.value.i.v == QuoTruncateOf(i.v, d2.i.v).value
      ensures i.v == old(i.v) && d2.i.v == old(d2.i.v)
    {
      var copy := Clone();
      r := copy.QuoTruncateMut(d2);
    }

    method QuoRoundUp(d2: PrecDec) returns (r: Outcome<PrecDec>)
      ensures r.Returned? <==> QuoRoundUpOf(i.v, d2.i.v).Returned?
      ensures r.Returned? ==> fresh(r.value.i) && r.value.i.v == QuoRoundUpOf(i.v, d2.i.v).value
      ensures i.v == old(i.v) && d2.i.v == old(d2.i.v)
    {
      var copy := Clone();
      r := copy.QuoRoundupMut(d2);
    }

    // ---------- powers ----------

    /** Square-and-multiply in place; d.MulMut(d) squares the receiver through its own alias. */
    method PowerMut(power: uint64) returns (r: Outcome<PrecDec>)
      modifies i
      ensures r.Returned? <==> PowerOf(old(i.v), power).Returned?
      ensures r.Returned? ==> r.value == this && i.v == PowerOf(old(i.v), power).value
      ensures i.v == if power == 0 then P else PowerLeft(old(i.v), P, power)
    {
      if power == 0 {
        i.v := P;
        return Returned(this);
      }
      var one := new BigInt(P);
      var tmp := PrecDec(one);
      var k: nat := power;
      while k > 1
        invariant k >= 1
        invariant PowerLoop(i.v, tmp.i.v, k) == PowerOf(old(i.v), power)
        invariant PowerLeft(i.v, tmp.i.v, k) == PowerLeft(old(i.v), P, power)
        decreases k
      {
        if k % 2 != 0 {
          var _ :- tmp.MulMut(this);
        }
        k := k / 2;
        var _ :- MulMut(this);
      }
      r := MulMut(tmp);
    }

    method Power(power: uint64) returns (r: Outcome<PrecDec>)
      ensures r.Returned? <==> PowerOf(i.v, power).Returned?
      ensures r.Returned? ==> fresh(r.value.i) && r.value.i.v == PowerOf(i.v, power).value
    {
      var res := new BigInt(i.v);
      r := PrecDec(res).PowerMut(power);
    }

    // ---------- roots ----------

    /** One round of the Newton loop; prev is the guess itself when root is 2. */
    method NewtonRound(root: uint64, guess: PrecDec, delta: PrecDec, smallest: PrecDec, ghost iter: nat)
      returns (r: Outcome<PrecDec>)
      requires root >= 2
      requires delta.i != guess.i && delta.i != smallest.i && delta.i != i
      requires guess.i != smallest.i && guess.i != i && smallest.i.v == 1
      modifies guess.i, delta.i
      ensures var next := NewtonStep(old(i.v), root, old(guess.i.v), iter);
              && guess.i.v == next.guess
              && (r.Panicked? <==> next.failed)
              && (r.Returned? ==> delta.i.v == next.delta)
    {
      var prev := guess;
      if root != 2 {
        prev :- guess.Power(root - 1);
      }
      if prev.i.v == 0 {
        prev := smallest;
      }
      var _ := delta.Set(this);
      var _ :- delta.QuoMut(prev);
      var _ :- delta.SubMut(guess);
      if root == 2 {
        delta.i.v := delta.i.v / 2;
      } else {
        delta.i.v := BigArith.Quo(delta.i.v, AsInt64(root));
      }
      r := guess.AddMut(delta);
    }

    /** One turn of the loop and the next loop test's AbsMut: the rest of the loop still ends in result. */
    method NewtonTurn(root: uint64, guess: PrecDec, delta: PrecDec, smallest: PrecDec, ghost iter: nat, ghost result: Run)
      returns (failed: bool)
      requires root >= 2 && delta.i.v > 1 && iter < MAX_ITERATIONS
      requires delta.i != guess.i && delta.i != smallest.i && delta.i != i
      requires guess.i != smallest.i && guess.i != i && smallest.i.v == 1
      requires NewtonLoop(i.v, root, Run(guess.i.v, delta.i.v, iter, false)) == result
      modifies guess.i, delta.i
      ensures failed ==> guess.i.v == result.guess && result.failed
      ensures !failed ==> delta.i.v >= 0
      ensures !failed ==> NewtonLoop(i.v, root, Run(guess.i.v, delta.i.v, iter + 1, false)) == result
    {
      LoopTurn(i.v, root, guess.i.v, delta.i.v, iter);
      var round := NewtonRound(root, guess, delta, smallest, iter);
      if round.Panicked? {
        return true;
      }
      var _ := delta.AbsMut();
      failed := false;
    }

    /** The Newton loop, from any guess. */
    method NewtonIterate(root: uint64, guess: PrecDec, delta: PrecDec, smallest: PrecDec, ghost start: Run)
      returns (failed: bool)
      requires root >= 2 && delta.i != guess.i && delta.i != smallest.i && delta.i != i
      requires guess.i != smallest.i && guess.i != i && smallest.i.v == 1
      requires start == Run(guess.i.v, delta.i.v, 0, false) && delta.i.v >= 0
      modifies guess.i, delta.i
      ensures var run := NewtonLoop(i.v, root, start); guess.i.v == run.guess && failed == run.failed
    {
      var _ := delta.AbsMut();
      var iter: nat := 0;
      ghost var result := NewtonLoop(i.v, root, start);
      while delta.i.v > smallest.i.v && iter < MAX_ITERATIONS
        invariant iter <= MAX_ITERATIONS && delta.i.v >= 0
        invariant NewtonLoop(i.v, root, Run(guess.i.v, delta.i.v, iter, false)) == result
        decreases MAX_ITERATIONS - iter
      {
        failed := NewtonTurn(root, guess, delta, smallest, iter, result);
        if failed {
          return;
        }
        iter := iter + 1;
      }
      LoopDone(i.v, root, guess.i.v, delta.i.v, iter);
      failed := false;
    }

    /** guess and delta start as two separate integers with the value 1. */
    method NewtonFromOne(root: uint64) returns (guess: PrecDec, failed: bool)
      requires root >= 2
      ensures fresh(guess.i)
      ensures var run := NewtonLoop(i.v, root, START); guess.i.v == run.guess && failed == run.failed
    {
      var one := new BigInt(P);
      var second := new BigInt(P);
      var unit := new BigInt(1);
      guess := PrecDec(one);
      failed := NewtonIterate(root, guess, PrecDec(second), PrecDec(unit), START);
    }

    /**
      ApproxRoot leaves the receiver alone. The result is a new integer, except in the early exits
      that return the receiver itself.
     */
    method ApproxRoot(root: uint64) returns (guess: PrecDec, failed: bool)
      ensures Root(guess.i.v, failed) == RootOf(i.v, root)
      ensures fresh(guess.i) || (guess.i == i && i.v >= 0)
      ensures i.v == old(i.v)
      decreases i.v < 0
    {
      if i.v < 0 {
        var positive := Neg();
        guess, failed := positive.ApproxRoot(root);
        guess := guess.NegMut();
        return;
      }
      if root == 1 || i.v == 0 || i.v == P {
        return this, false;
      }
      if root == 0 {
        var one := new BigInt(P);
        return PrecDec(one), false;
      }
      guess, failed := NewtonFromOne(root);
    }

    /** The smallest whole decimal that is not below the receiver, in a new integer. */
    method Ceil() returns (r: PrecDec)
      ensures fresh(r.i) && r.i.v % P == 0 && i.v <= r.i.v < i.v + P
    {
      var quo := BigArith.Quo(i.v, P);
      var rem := i.v - quo * P;
      if rem > 0 {
        quo := quo + 1;
      }
      var n := new BigInt(quo * P);
      return PrecDec(n);
    }

    // ---------- text ----------

    method String() returns (s: string)
      ensures s == Format(i.v)
    {
      var isNeg := i.v < 0;
      var d := this;
      if isNeg {
        d := Neg();
      }
      var bzStr := FillBuffer(Digits(d.i.v));
      s := if isNeg then "-" + bzStr[..] else bzStr[..];
    }
  }
}
