/** The post's date as the file name and front matter print it: `ToString("yyyy-MM-dd")`
    of the creation date. */
module Dates {
  import opened Wrappers
  import opened Text

  /** The calendar part of a `DateTime`. */
  datatype Date = Date(year: int, month: int, day: int)

  predicate IsLeapYear(y: int) {
    y % 4 == 0 && (y % 100 != 0 || y % 400 == 0)
  }

  function DaysInMonth(y: int, m: int): int
    requires 1 <= m <= 12
  {
    if m == 2 then (if IsLeapYear(y) then 29 else 28)
    else if m == 4 || m == 6 || m == 9 || m == 11 then 30
    else 31
  }

  /** The dates a `DateTime` can hold: years 1 to 9999 of the Gregorian calendar. */
  predicate ValidDate(d: Date) {
    && 1 <= d.year <= 9999
    && 1 <= d.month <= 12
    && 1 <= d.day <= DaysInMonth(d.year, d.month)
  }

  /** A `DateTime`'s calendar date. */
  type CalendarDate = d: Date | ValidDate(d) witness Date(1, 1, 1)

  function Pow10(w: nat): (p: nat)
    ensures p >= 1
  {
    if w == 0 then 1 else 10 * Pow10(w - 1)
  }

  lemma DropLast(a: string, c: char)
    ensures (a + [c])[..|a|] == a
  {
  }

  /** The `w` lowest decimal digits of `n`, zero-padded, most significant first: the
      `yyyy`, `MM` and `dd` fields. When `n` has at most `w` digits, reading them back
      gives `n`. */
  function PadDigits(n: nat, w: nat): (s: string)
    ensures |s| == w && AllDigits(s)
    ensures n < Pow10(w) ==> ParseDigits(s) == n
  {
    if w == 0 then ""
    else
      var s := PadDigits(n / 10, w - 1) + [DigitChar(n % 10)];
      DropLast(PadDigits(n / 10, w - 1), DigitChar(n % 10));
      assert n < Pow10(w) ==> n / 10 < Pow10(w - 1);
      s
  }

  /** `yyyy-MM-dd`: ten characters, dashes at indices 4 and 7, digits elsewhere. */
  function DateString(d: Date): (s: string)
    requires ValidDate(d)
    ensures |s| == 10 && s[4] == '-' && s[7] == '-'
    ensures AllDigits(s[..4]) && AllDigits(s[5..7]) && AllDigits(s[8..])
  {
    var y, m, dd := PadDigits(d.year, 4), PadDigits(d.month, 2), PadDigits(d.day, 2);
    DateFields(y, m, dd);
    y + "-" + m + "-" + dd
  }

  lemma DateFields(y: string, m: string, d: string)
    requires |y| == 4 && |m| == 2 && |d| == 2
    ensures var s := y + "-" + m + "-" + d;
      |s| == 10 && s[..4] == y && s[4] == '-' && s[5..7] == m && s[7] == '-' && s[8..] == d
  {
  }

  /** Reads a `yyyy-MM-dd` string back into a date; None when it is not of that form or
      names no calendar date. */
  function ParseDate(s: string): (r: Option<Date>)
    ensures r.Some? ==> ValidDate(r.value)
  {
    if |s| == 10 && s[4] == '-' && s[7] == '-'
       && AllDigits(s[..4]) && AllDigits(s[5..7]) && AllDigits(s[8..])
    then
      var d := Date(ParseDigits(s[..4]), ParseDigits(s[5..7]), ParseDigits(s[8..]));
      if ValidDate(d) then Some(d) else None
    else None
  }

  /** Formatting a date loses nothing: parsing the string gives the date back. */
  lemma DateStringRoundTrip(d: Date)
    requires ValidDate(d)
    ensures ParseDate(DateString(d)) == Some(d)
  {
    var y, m, dd := PadDigits(d.year, 4), PadDigits(d.month, 2), PadDigits(d.day, 2);
    DateFields(y, m, dd);
    assert Pow10(2) == 100 && Pow10(4) == 10000;
  }

  /** Different dates never print the same, so they never share a file name prefix. */
  lemma DateStringInjective(d1: Date, d2: Date)
    requires ValidDate(d1) && ValidDate(d2)
    requires DateString(d1) == DateString(d2)
    ensures d1 == d2
  {
    DateStringRoundTrip(d1);
    DateStringRoundTrip(d2);
  }

  lemma YearExample()
    ensures PadDigits(2012, 4) == "2012"
  {
    assert PadDigits(2, 1) == "2";
    assert PadDigits(20, 2) == "20";
    assert PadDigits(201, 3) == "201";
  }

  lemma PadZero()
    ensures PadDigits(0, 1) == "0"
  {
    assert PadDigits(0, 0) == "";
  }

  lemma PadSmall(v: nat)
    requires v < 10
    ensures PadDigits(v, 2) == "0" + [DigitChar(v)]
  {
    PadZero();
  }

  lemma ExampleFields()
    ensures "2012" + "-" + "03" + "-" + "04" == "2012-03-04"
  {
  }

  /** Example: the post created on 4 March 2012 is dated `2012-03-04`. */
  lemma DateStringExample()
    ensures DateString(Date(2012, 3, 4)) == "2012-03-04"
  {
    YearExample();
    PadSmall(3);
    PadSmall(4);
    assert DigitChar(3) == '3' && DigitChar(4) == '4';
    ExampleFields();
  }
}
