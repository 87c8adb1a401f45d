/**
  The decimal text of utils/math/prec_dec.go: the layout String prints and the grammar
  NewPrecDecFromStr reads. Text is a sequence of bytes, written as characters.
 */
module DecimalText {
  import opened BigArith
  import opened Rounding
  import opened FixedPoint

  // ---------- digits ----------

  predicate IsDigit(c: char) {
    '0' <= c <= '9'
  }

  predicate AllDigits(s: string) {
    forall k :: 0 <= k < |s| ==> IsDigit(s[k])
  }

  function Digit(k: nat): char
    requires k < 10
  {
    '0' + (k as char)
  }

  function DigitValue(c: char): nat
    requires IsDigit(c)
  {
    (c - '0') as nat
  }

  /** big.Int.MarshalText of a non-negative integer: no leading zero, and "0" for zero. */
  function Digits(n: nat): string {
    if n < 10 then [Digit(n)] else Digits(n / 10) + [Digit(n % 10)]
  }

  function Zeros(k: nat): string {
    seq(k, _ => '0')
  }

  function ToNat(s: string): nat
    requires AllDigits(s)
  {
    if s == [] then 0 else 10 * ToNat(s[..|s| - 1]) + DigitValue(s[|s| - 1])
  }

  /** At least one digit, and no leading zero except in "0". */
  predicate Canonical(s: string) {
    AllDigits(s) && |s| >= 1 && (|s| > 1 ==> s[0] != '0')
  }

  lemma {:induction false} DigitsRead(n: nat)
    ensures Canonical(Digits(n)) && ToNat(Digits(n)) == n
    ensures n > 0 ==> Digits(n)[0] != '0'
  {
    if n >= 10 {
      DigitsRead(n / 10);
      var s := Digits(n);
      assert s[..|s| - 1] == Digits(n / 10);
    } else {
      assert Digits(n)[..0] == [];
    }
  }

  /** A canonical text is the one that is printed for its number. */
  lemma {:induction false} DigitsUnique(s: string)
    requires Canonical(s)
    ensures s == Digits(ToNat(s))
    ensures s[0] != '0' ==> ToNat(s) >= 1
    decreases |s|
  {
    var n := |s| - 1;
    assert s == s[..n] + [s[n]];
    if n == 0 {
      assert s[..0] == [];
      assert ToNat(s) == DigitValue(s[0]);
    } else {
      DigitsUnique(s[..n]);
      assert ToNat(s) == 10 * ToNat(s[..n]) + DigitValue(s[n]);
      assert ToNat(s) / 10 == ToNat(s[..n]) && ToNat(s) % 10 == DigitValue(s[n]);
    }
  }

  lemma {:induction false} ToNatBound(s: string)
    requires AllDigits(s)
    ensures ToNat(s) < Pow(10, |s|)
    decreases |s|
  {
    if s == [] {
    } else {
      ToNatBound(s[..|s| - 1]);
    }
  }

  lemma TenTimes(x: int, k: nat)
    ensures x * Pow(10, k + 1) == 10 * (x * Pow(10, k))
  {
  }

  lemma {:induction false} ToNatAppend(a: string, b: string)
    requires AllDigits(a) && AllDigits(b)
    ensures AllDigits(a + b) && ToNat(a + b) == ToNat(a) * Pow(10, |b|) + ToNat(b)
  {
    if b == [] {
      assert a + b == a;
    } else {
      var b' := b[..|b| - 1];
      ToNatAppend(a, b');
      assert (a + b)[..|a + b| - 1] == a + b';
      assert (a + b)[|a + b| - 1] == b[|b| - 1];
      TenTimes(ToNat(a), |b'|);
    }
  }

  lemma {:induction false} ToNatZeros(k: nat)
    ensures AllDigits(Zeros(k)) && ToNat(Zeros(k)) == 0
  {
    if k == 0 {
    } else {
      ToNatZeros(k - 1);
      assert Zeros(k)[..k - 1] == Zeros(k - 1);
    }
  }

  // ---------- printing ----------

  /** Digits with a point before the last 27 of them. */
  function PlacePoint(bz: string): string {
    if |bz| <= PRECISION then "0." + Zeros(PRECISION - |bz|) + bz
    else bz[..|bz| - PRECISION] + "." + bz[|bz| - PRECISION..]
  }

  function FormatMagnitude(n: nat): string {
    PlacePoint(Digits(n))
  }

  function SignedText(negative: bool, body: string): string {
    if negative then "-" + body else body
  }

  /** The text of a raw value. */
  function Format(d: int): string {
    SignedText(d < 0, FormatMagnitude(Abs(d)))
  }

  // ---------- parsing ----------

  datatype ParseError = EmptyText | InvalidLength | InvalidText | TooPrecise | NotANumber | OutOfRange

  datatype Parsed = Ok(value: int) | Err(error: ParseError)

  /** strings.Split. */
  function Split(s: string, sep: char): (parts: seq<string>)
    ensures |parts| >= 1
  {
    if s == [] then [[]]
    else
      var rest := Split(s[1..], sep);
      if s[0] == sep then [[]] + rest else [[s[0]] + rest[0]] + rest[1..]
  }

  /** big.Int.SetString in base 10: one optional sign, then at least one digit and nothing else. */
  function SetString(s: string): Parsed {
    var digits := if s != [] && s[0] in {'+', '-'} then s[1..] else s;
    if digits == [] || !AllDigits(digits) then Err(NotANumber)
    else if s[0] == '-' then Ok(0 - ToNat(digits))
    else Ok(ToNat(digits))
  }

  /** The text around the decimal point. */
  datatype Layout = Parts(head: string, fraction: string) | Malformed(error: ParseError)

  function LayoutOf(str: string): Layout {
    if str == [] then Malformed(EmptyText)
    else
      var strs := Split(str, '.');
      if |strs| > 2 then Malformed(InvalidText)
      else if |strs| == 2 && (strs[1] == [] || strs[0] == []) then Malformed(InvalidLength)
      else Parts(strs[0], if |strs| == 2 then strs[1] else [])
  }

  /** The digits filled up to 27 decimals and read as one integer. */
  function Combine(head: string, fraction: string): Parsed {
    if |fraction| > PRECISION then Err(TooPrecise)
    else
      var combined := SetString(head + (fraction + Zeros(PRECISION - |fraction|)));
      if combined.Err? then combined
      else if BitLen(Abs(combined.value)) > MAX_BIT_LEN then Err(OutOfRange)
      else combined
  }

  /** NewPrecDecFromStr after a leading minus sign was taken off. */
  function ParseUnsigned(str: string): Parsed {
    match LayoutOf(str)
    case Malformed(e) => Err(e)
    case Parts(head, fraction) => Combine(head, fraction)
  }

  function Parse(str: string): Parsed {
    if str != [] && str[0] == '-' then
      var r := ParseUnsigned(str[1..]);
      if r.Ok? then Ok(-r.value) else r
    else
      ParseUnsigned(str)
  }

  // ---------- what the parser reads ----------

  lemma {:induction false} SplitNone(s: string, sep: char)
    requires sep !in s
    ensures Split(s, sep) == [s]
  {
    if s == [] {
    } else {
      SplitNone(s[1..], sep);
      assert [s[0]] + s[1..] == s;
    }
  }

  lemma {:induction false} SplitOnce(a: string, b: string, sep: char)
    requires sep !in a && sep !in b
    ensures Split(a + [sep] + b, sep) == [a, b]
  {
    var s := a + [sep] + b;
    if a == [] {
      assert s[1..] == b;
      SplitNone(b, sep);
    } else {
      assert s[1..] == a[1..] + [sep] + b;
      SplitOnce(a[1..], b, sep);
      assert [a[0]] + a[1..] == a;
    }
  }

  /** Splitting in one or two parts loses nothing. */
  lemma {:induction false} SplitParts(s: string, sep: char)
    ensures var parts := Split(s, sep);
            && (|parts| == 1 ==> parts[0] == s && sep !in s)
            && (|parts| == 2 ==> s == parts[0] + [sep] + parts[1] && sep !in parts[0] && sep !in parts[1])
  {
    if s == [] {
    } else {
      SplitParts(s[1..], sep);
      assert s == [s[0]] + s[1..];
      var rest := Split(s[1..], sep);
      if s[0] != sep && |rest| == 2 {
        assert s == [s[0]] + (rest[0] + [sep] + rest[1]) == ([s[0]] + rest[0]) + [sep] + rest[1];
      } else if s[0] == sep && |rest| == 1 {
        assert s == [] + [sep] + rest[0];
      }
    }
  }

  /** The text of a whole part and a fraction, without sign. */
  function Written(whole: string, fraction: string): string {
    if fraction == [] then whole else whole + "." + fraction
  }

  /** The raw value the written digits stand for. */
  function Meaning(whole: string, fraction: string): (n: int)
    requires AllDigits(whole) && AllDigits(fraction) && |fraction| <= PRECISION
    ensures n >= 0
  {
    PowPositive(10, PRECISION - |fraction|);
    assert AllDigits(whole + fraction);
    ToNat(whole + fraction) * Pow(10, PRECISION - |fraction|)
  }

  predicate IsSign(sign: string) {
    sign == "" || sign == "+" || sign == "-"
  }

  function Flip(negative: bool, r: Parsed): Parsed {
    if negative && r.Ok? then Ok(-r.value) else r
  }

  lemma LayoutOfWritten(head: string, fraction: string)
    requires head != [] && '.' !in head && '.' !in fraction
    ensures LayoutOf(Written(head, fraction)) == Parts(head, fraction)
  {
    if fraction == [] {
      SplitNone(head, '.');
    } else {
      SplitOnce(head, fraction, '.');
    }
  }

  lemma WrittenOfLayout(str: string)
    requires LayoutOf(str).Parts?
    ensures var l := LayoutOf(str); l.head != [] && str == Written(l.head, l.fraction) && str[0] == l.head[0]
  {
    SplitParts(str, '.');
  }

  lemma SetStringOfDigits(sign: string, digits: string)
    requires IsSign(sign) && digits != [] && AllDigits(digits)
    ensures SetString(sign + digits) == Flip(sign == "-", Ok(ToNat(digits)))
  {
    if sign == "" {
      assert sign + digits == digits;
    } else {
      assert (sign + digits)[1..] == digits;
    }
  }

  /** The digits filled with zeros read as the meaning of the unfilled ones. */
  lemma MeaningReads(whole: string, fraction: string)
    requires AllDigits(whole) && AllDigits(fraction) && |fraction| <= PRECISION
    ensures var digits := whole + (fraction + Zeros(PRECISION - |fraction|));
            |digits| >= PRECISION && AllDigits(digits) && ToNat(digits) == Meaning(whole, fraction)
  {
    var zeros := Zeros(PRECISION - |fraction|);
    ToNatZeros(PRECISION - |fraction|);
    assert AllDigits(whole + fraction);
    ToNatAppend(whole + fraction, zeros);
    assert whole + (fraction + zeros) == whole + fraction + zeros;
  }

  /** What a sign, a whole part and a fraction are read as; the whole part may be empty after a sign. */
  lemma CombineReads(sign: string, whole: string, fraction: string)
    requires IsSign(sign) && AllDigits(whole) && AllDigits(fraction)
    ensures Combine(sign + whole, fraction) ==
              if |fraction| > PRECISION then Err(TooPrecise)
              else if !InRange(Meaning(whole, fraction)) then Err(OutOfRange)
              else Flip(sign == "-", Ok(Meaning(whole, fraction)))
  {
    if |fraction| <= PRECISION {
      var filled := fraction + Zeros(PRECISION - |fraction|);
      MeaningReads(whole, fraction);
      assert sign + whole + filled == sign + (whole + filled);
      CombineDigits(sign + whole, fraction, sign, whole + filled);
    }
  }

  lemma CombineDigits(head: string, fraction: string, sign: string, digits: string)
    requires |fraction| <= PRECISION && head + (fraction + Zeros(PRECISION - |fraction|)) == sign + digits
    requires IsSign(sign) && digits != [] && AllDigits(digits)
    ensures Combine(head, fraction) ==
              if !InRange(ToNat(digits)) then Err(OutOfRange) else Flip(sign == "-", Ok(ToNat(digits)))
  {
    SetStringOfDigits(sign, digits);
  }

  /** s is an optional minus, an optional further sign, digits, and at most 27 decimals, with value v in range. */
  ghost predicate Denotes(s: string, v: int) {
    exists negative: bool, sign: string, whole: string, fraction: string ::
      DenotesAs(s, v, negative, sign, whole, fraction)
  }

  ghost predicate DenotesAs(s: string, v: int, negative: bool, sign: string, whole: string, fraction: string) {
    && IsSign(sign) && sign + whole != [] && (sign == "-" ==> negative)
    && AllDigits(whole) && AllDigits(fraction) && |fraction| <= PRECISION
    && s == SignedText(negative, Written(sign + whole, fraction))
    && InRange(Meaning(whole, fraction))
    && v == if negative != (sign == "-") then -Meaning(whole, fraction) else Meaning(whole, fraction)
  }

  /** The accepted language and its meaning, in both directions. */
  lemma ParseAcceptsIff(s: string, v: int)
    ensures Parse(s) == Ok(v) <==> Denotes(s, v)
  {
    if Denotes(s, v) {
      var negative, sign, whole, fraction :| DenotesAs(s, v, negative, sign, whole, fraction);
      DenotedAccepted(s, v, negative, sign, whole, fraction);
    }
    if Parse(s) == Ok(v) {
      AcceptedDenotes(s, v);
    }
  }

  lemma DenotedAccepted(s: string, v: int, negative: bool, sign: string, whole: string, fraction: string)
    requires DenotesAs(s, v, negative, sign, whole, fraction)
    ensures Parse(s) == Ok(v)
  {
    ParseSigned(negative, sign, whole, fraction);
    FlipTwice(negative, sign == "-", Meaning(whole, fraction));
  }

  lemma FlipTwice(a: bool, b: bool, n: int)
    ensures Flip(a, Flip(b, Ok(n))) == Ok(if a != b then -n else n)
  {
  }

  lemma AcceptedDenotes(s: string, v: int)
    requires Parse(s) == Ok(v)
    ensures Denotes(s, v)
  {
    var negative := s != [] && s[0] == '-';
    var body := if negative then s[1..] else s;
    assert s == SignedText(negative, body);
    assert Parse(s) == Flip(negative, ParseUnsigned(body));
    var sign, whole, fraction := PartsOf(body);
    assert DenotesAs(s, v, negative, sign, whole, fraction);
  }

  lemma ParseSigned(negative: bool, sign: string, whole: string, fraction: string)
    requires IsSign(sign) && sign + whole != [] && (sign == "-" ==> negative)
    requires AllDigits(whole) && AllDigits(fraction)
    ensures var text := SignedText(negative, Written(sign + whole, fraction));
            Parse(text) ==
              if |fraction| > PRECISION then Err(TooPrecise)
              else if !InRange(Meaning(whole, fraction)) then Err(OutOfRange)
              else Flip(negative, Flip(sign == "-", Ok(Meaning(whole, fraction))))
  {
    var body := Written(sign + whole, fraction);
    LayoutOfWritten(sign + whole, fraction);
    CombineReads(sign, whole, fraction);
    assert body[0] == (sign + whole)[0];
    if negative {
      assert ("-" + body)[1..] == body;
    }
  }

  /** The parts of an accepted text. */
  lemma PartsOf(body: string) returns (sign: string, whole: string, fraction: string)
    requires ParseUnsigned(body).Ok?
    ensures IsSign(sign) && sign + whole != [] && (sign == "-" ==> body[0] == '-')
    ensures AllDigits(whole) && AllDigits(fraction) && |fraction| <= PRECISION
    ensures body == Written(sign + whole, fraction)
    ensures InRange(Meaning(whole, fraction))
    ensures ParseUnsigned(body) == Flip(sign == "-", Ok(Meaning(whole, fraction)))
  {
    var head := LayoutOf(body).head;
    fraction := LayoutOf(body).fraction;
    WrittenOfLayout(body);
    var filled := fraction + Zeros(PRECISION - |fraction|);
    sign, whole := HeadParts(head, filled);
    assert forall k :: 0 <= k < |fraction| ==> fraction[k] == filled[k];
    CombineReads(sign, whole, fraction);
  }

  lemma HeadParts(head: string, filled: string) returns (sign: string, whole: string)
    requires head != [] && SetString(head + filled).Ok?
    ensures IsSign(sign) && head == sign + whole && (sign == "-" ==> head[0] == '-')
    ensures AllDigits(whole) && AllDigits(filled)
  {
    var signed := head[0] == '+' || head[0] == '-';
    sign, whole := if signed then [head[0]] else "", if signed then head[1..] else head;
    assert (head + filled)[0] == head[0];
    if signed {
      assert (head + filled)[1..] == whole + filled;
    } else {
      assert head + filled == whole + filled;
    }
    DigitsSplit(whole, filled);
  }

  lemma DigitsSplit(a: string, b: string)
    requires AllDigits(a + b)
    ensures AllDigits(a) && AllDigits(b)
  {
    var digits := a + b;
    assert forall k :: 0 <= k < |a| ==> a[k] == digits[k];
    assert forall k :: 0 <= k < |b| ==> b[k] == digits[|a| + k];
  }

  /** More is accepted than the documented form: a second minus sign is read as a plus. */
  lemma DoubleMinusIsPlus(whole: string, fraction: string)
    requires whole != [] && AllDigits(whole) && AllDigits(fraction)
    ensures Parse(SignedText(true, Written("-" + whole, fraction))) == Parse(Written(whole, fraction))
  {
    ParseSigned(true, "-", whole, fraction);
    ParsePlain(false, whole, fraction);
  }

  /** The documented form, a minus sign or none. */
  lemma ParsePlain(negative: bool, whole: string, fraction: string)
    requires whole != [] && AllDigits(whole) && AllDigits(fraction)
    ensures Parse(SignedText(negative, Written(whole, fraction))) ==
              if |fraction| > PRECISION then Err(TooPrecise)
              else if !InRange(Meaning(whole, fraction)) then Err(OutOfRange)
              else Flip(negative, Ok(Meaning(whole, fraction)))
  {
    assert "" + whole == whole;
    ParseSigned(negative, "", whole, fraction);
  }

  // ---------- the round trip ----------

  lemma MeaningOfFull(whole: string, fraction: string)
    requires AllDigits(whole) && AllDigits(fraction) && |fraction| == PRECISION
    ensures AllDigits(whole + fraction) && Meaning(whole, fraction) == ToNat(whole + fraction)
  {
    assert Pow(10, 0) == 1;
  }

  lemma LeadingZeros(k: nat, s: string)
    requires AllDigits(s)
    ensures AllDigits(Zeros(k) + s) && ToNat(Zeros(k) + s) == ToNat(s)
  {
    ToNatZeros(k);
    ToNatAppend(Zeros(k), s);
  }

  /**
    A printed magnitude is the whole number of decimals, printed without leading zeros, and exactly 27
    digits that read as the remaining raw units.
   */
  lemma FormatParts(n: nat) returns (whole: string, fraction: string)
    ensures whole == Digits(n / P) && AllDigits(whole) && whole != []
    ensures AllDigits(fraction) && |fraction| == PRECISION && ToNat(fraction) == n % P
    ensures FormatMagnitude(n) == Written(whole, fraction)
    ensures Meaning(whole, fraction) == n
  {
    whole, fraction := PlacedParts(Digits(n), n);
    PartsDivide(whole, fraction, n);
    DigitsUnique(whole);
    MeaningOfFull(whole, fraction);
  }

  lemma PlacedParts(bz: string, n: nat) returns (whole: string, fraction: string)
    requires bz == Digits(n)
    ensures Canonical(whole) && AllDigits(fraction) && |fraction| == PRECISION
    ensures PlacePoint(bz) == Written(whole, fraction)
    ensures AllDigits(whole + fraction) && ToNat(whole + fraction) == n
  {
    DigitsRead(n);
    if |bz| <= PRECISION {
      var k := PRECISION - |bz|;
      whole, fraction := "0", Zeros(k) + bz;
      LeadingZeros(k, bz);
      LeadingZeros(k + 1, bz);
      assert whole + fraction == Zeros(k + 1) + bz;
      assert "0." + Zeros(k) + bz == "0" + "." + fraction;
    } else {
      whole, fraction := bz[..|bz| - PRECISION], bz[|bz| - PRECISION..];
      assert whole + fraction == bz;
    }
  }

  lemma PartsDivide(whole: string, fraction: string, n: nat)
    requires AllDigits(whole) && AllDigits(fraction) && |fraction| == PRECISION
    requires AllDigits(whole + fraction) && ToNat(whole + fraction) == n
    ensures ToNat(whole) == n / P && ToNat(fraction) == n % P
  {
    ToNatAppend(whole, fraction);
    ToNatBound(fraction);
    PrecisionIsPower();
    DivUnique(n, P, ToNat(whole));
  }

  /** Parsing undoes printing, for every in-range raw value of either sign. */
  lemma ParseUndoesFormat(d: int)
    requires InRange(d)
    ensures Parse(Format(d)) == Ok(d)
  {
    var whole, fraction := FormatParts(Abs(d));
    ParsePlain(d < 0, whole, fraction);
    InRangeMagnitude(Abs(d), d);
  }

  /** Whatever is accepted is in range, so printing it and parsing again gives the same value. */
  lemma ParseFormatParse(s: string, v: int)
    requires Parse(s) == Ok(v)
    ensures InRange(v) && Parse(Format(v)) == Ok(v)
  {
    AcceptedInRange(s, v);
    ParseUndoesFormat(v);
  }

  lemma AcceptedInRange(s: string, v: int)
    requires Parse(s) == Ok(v)
    ensures InRange(v)
  {
    AcceptedDenotes(s, v);
    var negative, sign, whole, fraction :| DenotesAs(s, v, negative, sign, whole, fraction);
    InRangeMagnitude(Meaning(whole, fraction), v);
  }

  /** Two in-range values with the same text are equal. */
  lemma FormatInjective(a: int, b: int)
    requires InRange(a) && InRange(b) && Format(a) == Format(b)
    ensures a == b
  {
    ParseUndoesFormat(a);
    ParseUndoesFormat(b);
  }
}
