/** The duration parser `parse_duration_days` (knowledge_base.py:119-127) and
    the classifier `duration_bucket` (knowledge_base.py:131-139). */
module Duration {
  import opened Text

  predicate IsDigit(c: char) {
    '0' <= c <= '9'
  }

  /** The digits of `s`, in order: `re.sub(r'[^\d]', '', s)`. */
  function Digits(s: string): (r: string)
    ensures |r| <= |s|
    ensures forall i :: 0 <= i < |r| ==> IsDigit(r[i])
    ensures |r| == 0 <==> forall i :: 0 <= i < |s| ==> !IsDigit(s[i])
    decreases |s|
  {
    if |s| == 0 then ""
    else
      var rest := Digits(s[1..]);
      assert forall i :: 1 <= i < |s| ==> s[i] == s[1..][i - 1];
      if IsDigit(s[0]) then [s[0]] + rest else rest
  }

  lemma {:induction false} DigitsAppend(a: string, b: string)
    ensures Digits(a + b) == Digits(a) + Digits(b)
    decreases |a|
  {
    if |a| > 0 {
      assert (a + b)[1..] == a[1..] + b;
      DigitsAppend(a[1..], b);
    } else {
      assert a + b == b;
    }
  }

  /** Lower-casing leaves the digits alone. */
  lemma {:induction false} DigitsOfLower(s: string)
    ensures Digits(Lower(s)) == Digits(s)
    decreases |s|
  {
    if |s| > 0 {
      assert Lower(s)[1..] == Lower(s[1..]);
      DigitsOfLower(s[1..]);
    }
  }

  function DigitValue(c: char): (v: nat)
    requires IsDigit(c)
    ensures v < 10
  {
    c as int - '0' as int
  }

  /** The base-10 value of a digit string. */
  function DecimalValue(d: string): nat
    requires forall i :: 0 <= i < |d| ==> IsDigit(d[i])
    decreases |d|
  {
    if |d| == 0 then 0 else 10 * DecimalValue(d[..|d| - 1]) + DigitValue(d[|d| - 1])
  }

  /** The base-10 numeral of `n`, without leading zeros. */
  function Decimal(n: nat): (d: string)
    ensures |d| > 0
    ensures forall i :: 0 <= i < |d| ==> IsDigit(d[i])
    ensures DecimalValue(d) == n
  {
    var last := ('0' as int + n % 10) as char;
    if n < 10 then
      [last]
    else
      var d := Decimal(n / 10) + [last];
      assert d[..|d| - 1] == Decimal(n / 10);
      d
  }

  /** CPython's default limit on the number of digits `int()` converts; a
      longer digit string raises `ValueError`, which the parser's `except`
      turns into 0. */
  const MaxIntStrDigits: nat := 4300

  /** `parse_duration_days`: the value of all digits of the text read as one
      number, or 0 when there is none. */
  function ParseDurationDays(text: string): (r: nat)
    ensures (forall i :: 0 <= i < |text| ==> !IsDigit(text[i])) ==> r == 0
    ensures |Digits(text)| <= MaxIntStrDigits ==> r == DecimalValue(Digits(text))
    ensures |Digits(text)| > MaxIntStrDigits ==> r == 0
  {
    if |text| == 0 then 0
    else
      var d := Digits(Lower(text));
      DigitsOfLower(text);
      if |d| == 0 then 0
      else if |d| > MaxIntStrDigits then 0
      else DecimalValue(d)
  }

  /** Reading back a number written in front of a digit-free unit gives the number. */
  lemma ParseRoundTrip(n: nat, unit: string)
    requires forall i :: 0 <= i < |unit| ==> !IsDigit(unit[i])
    requires |Decimal(n)| <= MaxIntStrDigits
    ensures ParseDurationDays(Decimal(n) + unit) == n
  {
    DigitsOfNumberThen(Decimal(n), unit);
  }

  lemma {:induction false} DigitsOfDigits(d: string)
    requires forall i :: 0 <= i < |d| ==> IsDigit(d[i])
    ensures Digits(d) == d
    decreases |d|
  {
    if |d| > 0 {
      DigitsOfDigits(d[1..]);
    }
  }

  function Pow10(k: nat): (r: nat)
    ensures r >= 1
  {
    if k == 0 then 1 else 10 * Pow10(k - 1)
  }

  /** The value of two digit strings written one after the other. */
  lemma {:induction false} DecimalValueAppend(a: string, b: string)
    requires forall i :: 0 <= i < |a| ==> IsDigit(a[i])
    requires forall i :: 0 <= i < |b| ==> IsDigit(b[i])
    ensures DecimalValue(a + b) == DecimalValue(a) * Pow10(|b|) + DecimalValue(b)
    decreases |b|
  {
    if |b| == 0 {
      assert a + b == a;
    } else {
      var c, last := b[..|b| - 1], b[|b| - 1];
      var ab := a + b;
      DecimalValueAppend(a, c);
      assert ab[..|ab| - 1] == a + c;
      assert ab[|ab| - 1] == last;
      assert DecimalValue(ab) == 10 * DecimalValue(a + c) + DigitValue(last);
      assert DecimalValue(b) == 10 * DecimalValue(c) + DigitValue(last);
      ShiftDigit(DecimalValue(a), Pow10(|c|), DecimalValue(c), DigitValue(last));
    }
  }

  lemma ShiftDigit(x: nat, p: nat, y: nat, d: nat)
    ensures 10 * (x * p + y) + d == x * (10 * p) + (10 * y + d)
  {
  }

  /** All digits of the text are concatenated into one number, whatever
      stands between them: "2 days 3 hours" reads as 2 * 10 + 3 = 23 days. */
  lemma DigitsConcatenate(m: nat, unitM: string, n: nat, unitN: string)
    requires forall i :: 0 <= i < |unitM| ==> !IsDigit(unitM[i])
    requires forall i :: 0 <= i < |unitN| ==> !IsDigit(unitN[i])
    requires |Decimal(m)| + |Decimal(n)| <= MaxIntStrDigits
    ensures ParseDurationDays(Decimal(m) + unitM + Decimal(n) + unitN) == m * Pow10(|Decimal(n)|) + n
  {
    var dm, dn := Decimal(m), Decimal(n);
    assert dm + unitM + dn + unitN == (dm + unitM) + (dn + unitN);
    DigitsAppend(dm + unitM, dn + unitN);
    DigitsOfNumberThen(dm, unitM);
    DigitsOfNumberThen(dn, unitN);
    DecimalValueAppend(dm, dn);
  }

  lemma DigitsOfNumberThen(d: string, unit: string)
    requires forall i :: 0 <= i < |d| ==> IsDigit(d[i])
    requires forall i :: 0 <= i < |unit| ==> !IsDigit(unit[i])
    ensures Digits(d + unit) == d
  {
    DigitsAppend(d, unit);
    DigitsOfDigits(d);
  }

  datatype Bucket = Short | Medium | Long | Chronic

  function BucketRank(b: Bucket): nat {
    match b
    case Short => 0
    case Medium => 1
    case Long => 2
    case Chronic => 3
  }

  /** `duration_bucket`: short up to 3 days, medium up to 14, long up to 45,
      chronic beyond. */
  function DurationBucket(days: int): Bucket {
    if days <= 3 then Short
    else if days <= 14 then Medium
    else if days <= 45 then Long
    else Chronic
  }

  /** Buckets never go down as the duration grows. */
  lemma BucketMonotone(d1: int, d2: int)
    requires d1 <= d2
    ensures BucketRank(DurationBucket(d1)) <= BucketRank(DurationBucket(d2))
  {
  }

  /** Each bucket is a contiguous range of days with the stated bounds. */
  lemma BucketRanges(days: int)
    ensures DurationBucket(days) == Short <==> days <= 3
    ensures DurationBucket(days) == Medium <==> 3 < days <= 14
    ensures DurationBucket(days) == Long <==> 14 < days <= 45
    ensures DurationBucket(days) == Chronic <==> 45 < days
  {
  }
}
