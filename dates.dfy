/**
 * Calendar days and their `YYYY-MM-DD` text form: the form `<input
 * type="date">` produces, `getTodayDate` builds, and the memory `date` field
 * holds. Days compare by year, then month, then day.
 */
module Dates {
  import opened Wrappers

  datatype Day = Day(year: int, month: int, day: int)

  /** Months 1..12 and days 1..31, as the date-only text form allows. */
  predicate WellFormed(d: Day)
  {
    1 <= d.month <= 12 && 1 <= d.day <= 31
  }

  predicate Before(a: Day, b: Day)
  {
    a.year < b.year
    || (a.year == b.year && a.month < b.month)
    || (a.year == b.year && a.month == b.month && a.day < b.day)
  }

  predicate NotAfter(a: Day, b: Day)
  {
    Before(a, b) || a == b
  }

  lemma BeforeIsStrictOrder(a: Day, b: Day, c: Day)
    ensures !Before(a, a)
    ensures Before(a, b) && Before(b, c) ==> Before(a, c)
    ensures a == b || Before(a, b) || Before(b, a)
  {
  }

  predicate IsDigit(c: char)
  {
    '0' <= c <= '9'
  }

  function DigitChar(n: int): (c: char)
    requires 0 <= n < 10
    ensures IsDigit(c) && c as int - '0' as int == n
  {
    ('0' as int + n) as char
  }

  /** `String(n)` for a natural number: its decimal digits, no leading zero. */
  function Decimal(n: nat): (s: string)
    ensures |s| >= 1
    ensures forall i :: 0 <= i < |s| ==> IsDigit(s[i])
    decreases n
  {
    if n < 10 then [DigitChar(n)] else Decimal(n / 10) + [DigitChar(n % 10)]
  }

  /** The number a string of decimal digits denotes. */
  function DigitsValue(s: string): nat
    requires forall i :: 0 <= i < |s| ==> IsDigit(s[i])
    decreases |s|
  {
    if |s| == 0 then 0
    else
      assert IsDigit(s[|s| - 1]);
      10 * DigitsValue(s[..|s| - 1]) + (s[|s| - 1] as int - '0' as int)
  }

  lemma {:induction false} DecimalValue(n: nat)
    ensures DigitsValue(Decimal(n)) == n
    ensures n < 10 ==> |Decimal(n)| == 1
    ensures 10 <= n < 100 ==> |Decimal(n)| == 2
    ensures 100 <= n < 1000 ==> |Decimal(n)| == 3
    ensures 1000 <= n < 10000 ==> |Decimal(n)| == 4
    decreases n
  {
    if n >= 10 {
      DecimalValue(n / 10);
      var s := Decimal(n);
      assert s[..|s| - 1] == Decimal(n / 10);
    }
  }

  /** `String(n).padStart(2, '0')`. */
  function Pad2(n: nat): string
  {
    var s := Decimal(n);
    if |s| < 2 then ['0'] + s else s
  }

  /**
   * `getTodayDate` of the editor: `${year}-${month}-${day}` with month and
   * day padded to two digits; the year is written as `String(year)`.
   */
  function Format(d: Day): (s: string)
    requires d.year >= 0 && WellFormed(d)
  {
    Decimal(d.year) + "-" + Pad2(d.month) + "-" + Pad2(d.day)
  }

  /** Strict `YYYY-MM-DD`: ten characters, dashes at offsets 4 and 7, digits elsewhere. */
  function Parse(s: string): (r: Option<Day>)
    ensures r.Some? ==> WellFormed(r.value) && 0 <= r.value.year <= 9999
  {
    if |s| == 10 && s[4] == '-' && s[7] == '-'
       && (forall i :: 0 <= i < 10 && i != 4 && i != 7 ==> IsDigit(s[i]))
    then
      var y := DigitsValue(s[..4]);
      var m := DigitsValue(s[5..7]);
      var d := DigitsValue(s[8..]);
      assert y == DigitsValue(s[..4]) <= 9999 by { DigitsBound(s[..4]); }
      if 1 <= m <= 12 && 1 <= d <= 31 then Some(Day(y, m, d)) else None
    else None
  }

  lemma {:induction false} DigitsBound(s: string)
    requires forall i :: 0 <= i < |s| ==> IsDigit(s[i])
    requires |s| == 4
    ensures DigitsValue(s) <= 9999
  {
    assert DigitsValue(s[..1]) <= 9;
    assert s[..2][..1] == s[..1];
    assert DigitsValue(s[..2]) <= 99;
    assert s[..3][..2] == s[..2];
    assert DigitsValue(s[..3]) <= 999;
    assert s[..3] == s[..|s| - 1];
  }

  lemma Pad2Value(n: nat)
    requires 1 <= n <= 31
    ensures |Pad2(n)| == 2 && IsDigit(Pad2(n)[0]) && IsDigit(Pad2(n)[1])
    ensures DigitsValue(Pad2(n)) == n
  {
    DecimalValue(n);
    var s := Decimal(n);
    if n < 10 {
      assert Pad2(n) == ['0'] + s;
      assert Pad2(n)[..1] == ['0'];
    }
  }

  /** For a four-digit year, `getTodayDate`'s text parses back to the same day. */
  lemma ParseFormat(d: Day)
    requires 1000 <= d.year <= 9999 && WellFormed(d)
    ensures |Format(d)| == 10
    ensures Parse(Format(d)) == Some(d)
  {
    DecimalValue(d.year);
    Pad2Value(d.month);
    Pad2Value(d.day);
    var s := Format(d);
    assert s[..4] == Decimal(d.year);
    assert s[5..7] == Pad2(d.month);
    assert s[8..] == Pad2(d.day);
  }
}
