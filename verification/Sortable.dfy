/** SortablePrecDecBytes of utils/math/prec_dec.go, and the order its bytes really have. */
module Sortable {
  import opened Prelude
  import opened BigArith
  import opened Rounding
  import opened Quotient
  import opened FixedPoint
  import opened DecimalText
  import opened ByteOrder

  /** The width 2 * Precision + 1 of a padded decimal. */
  const WIDTH: nat := 2 * PRECISION + 1

  /** fmt's %0<width>s: zeros on the left up to the width. */
  function PadZeros(width: nat, s: string): string {
    if |s| >= width then s else Zeros(width - |s|) + s
  }

  /** MaxSortablePrecDec. */
  const MAX_SORTABLE: int := SQUARED

  function SortableBytes(d: int): Outcome<string> {
    if Abs(d) > MAX_SORTABLE then Panicked
    else if d == MAX_SORTABLE then Returned("max")
    else if d == -MAX_SORTABLE then Returned("--")
    else if d < 0 then Returned("-" + PadZeros(WIDTH, Format(-d)))
    else Returned(PadZeros(WIDTH, Format(d)))
  }

  /** The bound is 1 divided by the smallest decimal. */
  lemma MaxSortableIsReciprocal()
    ensures QuoOf(P, 1) == Returned(MAX_SORTABLE)
  {
    assert Quo(P * SQUARED, 1) == P * SQUARED;
    HalfEvenExact(SQUARED);
    LimitFacts();
    PowAdd(2, 90, 90);
    PowMono(2, 180, MAX_BIT_LEN);
    MulMono(P, P, Pow(2, 90));
    MulMono(Pow(2, 90), P, Pow(2, 90));
    InRangeIff(SQUARED);
  }

  // ---------- a point inside the digits ----------

  function WithPoint(x: string, k: nat): string
    requires k <= |x|
  {
    x[..k] + "." + x[k..]
  }

  /** A point at the same place in both keeps the order. */
  lemma {:induction false} LessWithPoint(x: string, y: string, k: nat)
    requires |x| == |y| && k <= |x| && Less(x, y)
    ensures Less(WithPoint(x, k), WithPoint(y, k))
  {
    if k == 0 {
      assert WithPoint(x, 0) == "." + x && WithPoint(y, 0) == "." + y;
      LessAfterPrefix(".", x, y);
    } else {
      assert WithPoint(x, k)[1..] == WithPoint(x[1..], k - 1);
      assert WithPoint(y, k)[1..] == WithPoint(y[1..], k - 1);
      if x[0] == y[0] { LessWithPoint(x[1..], y[1..], k - 1); }
    }
  }

  // ---------- numbers of fixed width ----------

  function Fixed(n: nat, w: nat): (s: string)
    ensures |s| == w
    decreases w
  {
    if w == 0 then [] else Fixed(n / 10, w - 1) + [Digit(n % 10)]
  }

  lemma {:induction false} FixedZero(w: nat)
    ensures Fixed(0, w) == Zeros(w)
    decreases w
  {
    if w == 0 {
    } else {
      FixedZero(w - 1);
    }
  }

  lemma {:induction false} FixedIsPadded(n: nat, w: nat)
    requires w >= 1 && n < Pow(10, w)
    ensures |Digits(n)| <= w && Fixed(n, w) == Zeros(w - |Digits(n)|) + Digits(n)
    decreases w
  {
    if n < 10 {
      FixedZero(w - 1);
      assert Fixed(n, w) == Zeros(w - 1) + [Digit(n)];
    } else {
      assert w > 1 by { assert Pow(10, 1) == 10; }
      assert Pow(10, w) == 10 * Pow(10, w - 1);
      FixedIsPadded(n / 10, w - 1);
    }
  }

  /** Numbers of one width sort as numbers. */
  lemma {:induction false} FixedOrder(a: nat, b: nat, w: nat)
    requires a < b < Pow(10, w)
    ensures Less(Fixed(a, w), Fixed(b, w))
    decreases w
  {
    assert w > 0 && Pow(10, w) == 10 * Pow(10, w - 1);
    if a / 10 < b / 10 {
      FixedOrder(a / 10, b / 10, w - 1);
      LessExtends(Fixed(a / 10, w - 1), Fixed(b / 10, w - 1), [Digit(a % 10)], [Digit(b % 10)]);
    } else {
      LessAfterPrefix(Fixed(a / 10, w - 1), [Digit(a % 10)], [Digit(b % 10)]);
    }
  }

  // ---------- the padding ----------

  lemma WidthCapacity()
    ensures Pow(10, 2 * PRECISION) == MAX_SORTABLE
  {
    PrecisionIsPower();
    PowAdd(10, PRECISION, PRECISION);
  }

  lemma PaddedShort(bz: string)
    requires 1 <= |bz| <= PRECISION
    ensures PadZeros(WIDTH, "0." + Zeros(PRECISION - |bz|) + bz)
            == WithPoint(Zeros(2 * PRECISION - |bz|) + bz, PRECISION)
  {
    var s := Zeros(2 * PRECISION - |bz|) + bz;
    var tail := Zeros(PRECISION - |bz|) + bz;
    assert s[..PRECISION] == Zeros(26) + "0";
    assert s[PRECISION..] == tail;
    assert PadZeros(WIDTH, "0." + Zeros(PRECISION - |bz|) + bz) == Zeros(26) + "0" + "." + tail;
  }

  lemma PaddedLong(bz: string)
    requires PRECISION < |bz| <= 2 * PRECISION
    ensures PadZeros(WIDTH, bz[..|bz| - PRECISION] + "." + bz[|bz| - PRECISION..])
            == WithPoint(Zeros(2 * PRECISION - |bz|) + bz, PRECISION)
  {
    var k, zeros := |bz| - PRECISION, Zeros(2 * PRECISION - |bz|);
    assert (zeros + bz)[..PRECISION] == zeros + bz[..k];
    assert (zeros + bz)[PRECISION..] == bz[k..];
    assert zeros + (bz[..k] + "." + bz[k..]) == zeros + bz[..k] + "." + bz[k..];
  }

  lemma PaddedDigits(bz: string)
    requires 1 <= |bz| <= 2 * PRECISION
    ensures PadZeros(WIDTH, PlacePoint(bz)) == WithPoint(Zeros(2 * PRECISION - |bz|) + bz, PRECISION)
  {
    if |bz| <= PRECISION { PaddedShort(bz); } else { PaddedLong(bz); }
  }

  /** Below the bound the padded text is 27 digits, the point and 27 digits. */
  lemma PaddedText(n: nat)
    requires n < MAX_SORTABLE
    ensures PadZeros(WIDTH, Format(n)) == WithPoint(Fixed(n, 2 * PRECISION), PRECISION)
  {
    WidthCapacity();
    FixedIsPadded(n, 2 * PRECISION);
    DigitsRead(n);
    PaddedDigits(Digits(n));
  }

  lemma PaddedOrder(a: nat, b: nat)
    requires a < b < MAX_SORTABLE
    ensures Less(PadZeros(WIDTH, Format(a)), PadZeros(WIDTH, Format(b)))
  {
    PaddedText(a);
    PaddedText(b);
    WidthCapacity();
    FixedOrder(a, b, 2 * PRECISION);
    LessWithPoint(Fixed(a, 2 * PRECISION), Fixed(b, 2 * PRECISION), PRECISION);
  }

  lemma PaddedStartsWithDigit(n: nat)
    requires n < MAX_SORTABLE
    ensures var s := PadZeros(WIDTH, Format(n)); s != [] && IsDigit(s[0])
  {
    PaddedText(n);
    WidthCapacity();
    FixedIsPadded(n, 2 * PRECISION);
    DigitsRead(n);
    ToNatZeros(2 * PRECISION - |Digits(n)|);
  }

  // ---------- the order of the encoding ----------

  predicate ValidSortable(d: int) {
    -MAX_SORTABLE <= d <= MAX_SORTABLE
  }

  /** A number has at most w digits exactly when it is below 10^w. */
  lemma {:induction false} DigitsLength(n: nat, w: nat)
    requires w >= 1
    ensures |Digits(n)| <= w <==> n < Pow(10, w)
    decreases n
  {
    assert Pow(10, w) == 10 * Pow(10, w - 1);
    PowPositive(10, w - 1);
    if n < 10 {
      assert |Digits(n)| == 1;
    } else {
      assert |Digits(n)| == |Digits(n / 10)| + 1;
      DigitsRead(n / 10);
      if w == 1 {
        assert Pow(10, 0) == 1;
      } else {
        DigitsLength(n / 10, w - 1);
      }
    }
  }

  /** The encoder returns exactly for the decimals whose magnitude prints within the padded width, and for the two bounds. */
  lemma EncodesIffTextFits(d: int)
    ensures SortableBytes(d).Returned? <==> |FormatMagnitude(Abs(d))| <= WIDTH || Abs(d) == MAX_SORTABLE
  {
    WidthCapacity();
    DigitsLength(Abs(d), 2 * PRECISION);
  }

  /**
    For a below b, the bytes of a sort before the bytes of b if and only if a is the least decimal or
    b is not negative. Otherwise, both being negative, the bytes sort the other way round.
   */
  lemma EncodingOrder(a: int, b: int)
    requires ValidSortable(a) && ValidSortable(b) && a < b
    ensures var x, y := SortableBytes(a).value, SortableBytes(b).value;
            && (Less(x, y) <==> a == -MAX_SORTABLE || b >= 0)
            && (Less(y, x) <==> !(a == -MAX_SORTABLE || b >= 0))
  {
    var x, y := SortableBytes(a).value, SortableBytes(b).value;
    if a == -MAX_SORTABLE || b >= 0 {
      EncodedBefore(a, b);
      LessAsymmetric(x, y);
    } else {
      PaddedOrder(-b, -a);
      LessAfterPrefix("-", PadZeros(WIDTH, Format(-b)), PadZeros(WIDTH, Format(-a)));
      LessAsymmetric(y, x);
    }
  }

  lemma EncodedBefore(a: int, b: int)
    requires ValidSortable(a) && ValidSortable(b) && a < b && (a == -MAX_SORTABLE || b >= 0)
    ensures Less(SortableBytes(a).value, SortableBytes(b).value)
  {
    if 0 <= b < MAX_SORTABLE { PaddedStartsWithDigit(b); }
    if a >= 0 {
      PaddedStartsWithDigit(a);
      if b < MAX_SORTABLE { PaddedOrder(a, b); }
    } else if b < 0 {
      PaddedStartsWithDigit(-b);
      LessAfterPrefix("-", "-", PadZeros(WIDTH, Format(-b)));
    }
  }

  /** Distinct valid decimals have distinct bytes. */
  lemma EncodingInjective(a: int, b: int)
    requires ValidSortable(a) && ValidSortable(b) && SortableBytes(a) == SortableBytes(b)
    ensures a == b
  {
    if a < b { EncodingOrder(a, b); }
    if b < a { EncodingOrder(b, a); }
    LessIrreflexive(SortableBytes(a).value);
  }

  // ---------- the bytes say the number ----------

  lemma FixedReads(n: nat)
    requires n < MAX_SORTABLE
    ensures AllDigits(Fixed(n, 2 * PRECISION)) && ToNat(Fixed(n, 2 * PRECISION)) == n
  {
    WidthCapacity();
    FixedIsPadded(n, 2 * PRECISION);
    DigitsRead(n);
    LeadingZeros(2 * PRECISION - |Digits(n)|, Digits(n));
  }

  lemma SortableInRange(d: int)
    requires Abs(d) < MAX_SORTABLE
    ensures InRange(d)
  {
    MaxSortableIsReciprocal();
    assert InRange(MAX_SORTABLE);
    InRangeMagnitude(d, MAX_SORTABLE);
  }

  lemma PaddedParses(n: nat, negative: bool)
    requires n < MAX_SORTABLE
    ensures Parse(SignedText(negative, PadZeros(WIDTH, Format(n)))) == Ok(if negative then 0 - n else n)
    ensures |PadZeros(WIDTH, Format(n))| == WIDTH
  {
    var x := Fixed(n, 2 * PRECISION);
    PaddedText(n);
    FixedReads(n);
    var whole, fraction := x[..PRECISION], x[PRECISION..];
    assert x == whole + fraction;
    MeaningOfFull(whole, fraction);
    SortableInRange(n);
    ParsePlain(negative, whole, fraction);
  }

  /** Between the bounds the bytes are a text of the decimal itself, 55 characters long and 56 with a sign. */
  lemma EncodingParses(d: int)
    requires Abs(d) < MAX_SORTABLE
    ensures SortableBytes(d).Returned?
    ensures Parse(SortableBytes(d).value) == Ok(d)
    ensures |SortableBytes(d).value| == if d < 0 then 56 else 55
  {
    PaddedParses(Abs(d), d < 0);
  }
}
