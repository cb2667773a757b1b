/**
 * Calendar dates as the code handles them: ISO `YYYY-MM-DD` strings that
 * pandas parses into timestamps (for year, month and day of year) and that the
 * code otherwise compares as plain strings. `IsoOrderIsChronological` is why
 * the string comparisons in the cleaning and splitting code order dates
 * correctly.
 */
module Dates {
  import opened Values

  datatype Date = Date(year: int, month: int, day: int)

  predicate IsLeapYear(y: int) {
    y % 4 == 0 && (y % 100 != 0 || y % 400 == 0)
  }

  function DaysInMonth(y: int, m: int): int
    requires 1 <= m <= 12
  {
    if m == 2 then (if IsLeapYear(y) then 29 else 28)
    else if m == 4 || m == 6 || m == 9 || m == 11 then 30
    else 31
  }

  predicate ValidDate(d: Date) {
    1 <= d.month <= 12 && 1 <= d.day <= DaysInMonth(d.year, d.month)
  }

  /** Chronological order of dates. */
  predicate Before(a: Date, b: Date) {
    a.year < b.year
    || (a.year == b.year && a.month < b.month)
    || (a.year == b.year && a.month == b.month && a.day < b.day)
  }

  // ---------------------------------------------------------------------
  // Fixed-width decimal fields
  // ---------------------------------------------------------------------

  predicate IsDigit(c: char) {
    '0' <= c <= '9'
  }

  predicate AllDigits(s: string) {
    forall i :: 0 <= i < |s| ==> IsDigit(s[i])
  }

  function Pow10(n: nat): (p: nat)
    ensures p >= 1
  {
    if n == 0 then 1 else 10 * Pow10(n - 1)
  }

  /** Multiplying by a non-negative factor keeps order (and `(a + 1) * p == a * p + p`). */
  lemma MulLe(a: int, b: int, p: int)
    requires a <= b && 0 <= p
    ensures a * p <= b * p
    ensures (a + 1) * p == a * p + p
  {
  }

  /** A leading digit and a shorter number make a number one digit wider. */
  lemma DigitBound(d: int, rest: int, p: int)
    requires 0 <= d <= 9 && 0 <= rest < p
    ensures 0 <= d * p + rest < 10 * p
  {
    MulLe(d + 1, 10, p);
    MulLe(0, d, p);
  }

  /** The number a string of decimal digits spells, most significant digit first. */
  function DigitsValue(s: string): (v: int)
    requires AllDigits(s)
    ensures 0 <= v < Pow10(|s|)
  {
    if s == [] then 0
    else
      var p := Pow10(|s| - 1);
      var d := s[0] as int - '0' as int;
      var rest := DigitsValue(s[1..]);
      DigitBound(d, rest, p);
      d * p + rest
  }

  /** A smaller leading digit makes a smaller number, whatever follows. */
  lemma LeadingDigitDecides(da: int, db: int, ra: int, rb: int, p: int)
    requires da < db && 0 <= ra < p && 0 <= rb < p
    ensures da * p + ra < db * p + rb
  {
    assert (da + 1) * p <= db * p;
  }

  /** For digit strings of one width, string order is numeric order. */
  lemma {:induction false} DigitsOrder(a: string, b: string)
    requires AllDigits(a) && AllDigits(b) && |a| == |b|
    ensures StrLess(a, b) <==> DigitsValue(a) < DigitsValue(b)
    ensures a == b <==> DigitsValue(a) == DigitsValue(b)
  {
    if |a| != 0 {
      var p := Pow10(|a| - 1);
      var da, db := a[0] as int - '0' as int, b[0] as int - '0' as int;
      var ra, rb := DigitsValue(a[1..]), DigitsValue(b[1..]);
      assert DigitsValue(a) == da * p + ra && DigitsValue(b) == db * p + rb;
      assert 0 <= ra < p && 0 <= rb < p;
      DigitsOrder(a[1..], b[1..]);
      if da < db {
        LeadingDigitDecides(da, db, ra, rb, p);
      } else if db < da {
        LeadingDigitDecides(db, da, rb, ra, p);
      } else {
        assert a[0] == b[0];
        assert a == [a[0]] + a[1..] && b == [b[0]] + b[1..];
        assert StrLess(a, b) == StrLess(a[1..], b[1..]);
      }
    }
  }

  /** Comparing two strings whose first parts have one length compares the first parts, then the rest. */
  lemma {:induction false} StrLessConcat(x1: string, y1: string, x2: string, y2: string)
    requires |x1| == |x2|
    ensures StrLess(x1 + y1, x2 + y2) <==> StrLess(x1, x2) || (x1 == x2 && StrLess(y1, y2))
  {
    if |x1| != 0 {
      assert (x1 + y1)[0] == x1[0] && (x2 + y2)[0] == x2[0];
      assert (x1 + y1)[1..] == x1[1..] + y1 && (x2 + y2)[1..] == x2[1..] + y2;
      StrLessConcat(x1[1..], y1, x2[1..], y2);
      if x1[0] == x2[0] && x1[1..] == x2[1..] {
        assert x1 == [x1[0]] + x1[1..] && x2 == [x2[0]] + x2[1..];
      }
      if x1 == x2 {
        assert x1[1..] == x2[1..];
      }
    } else {
      assert x1 + y1 == y1 && x2 + y2 == y2;
    }
  }

  // ---------------------------------------------------------------------
  // ISO dates
  // ---------------------------------------------------------------------

  /** `YYYY-MM-DD`: digits with dashes at positions 4 and 7. */
  predicate IsoShape(s: string) {
    |s| == 10 && s[4] == '-' && s[7] == '-'
    && AllDigits(s[..4]) && AllDigits(s[5..7]) && AllDigits(s[8..])
  }

  /** The year, month and day fields an ISO-shaped string spells. */
  function IsoFields(s: string): Date
    requires IsoShape(s)
  {
    Date(DigitsValue(s[..4]), DigitsValue(s[5..7]), DigitsValue(s[8..]))
  }

  /**
   * The days a nanosecond timestamp can hold: from 1677-09-22 (midnight of
   * the 21st lies before the earliest timestamp) to 2262-04-11. pandas
   * raises OutOfBoundsDatetime for a date outside this range.
   */
  predicate InTimestampRange(d: Date) {
    !Before(d, Date(1677, 9, 22)) && !Before(Date(2262, 4, 11), d)
  }

  /**
   * The date an ISO string names: exactly the `YYYY-MM-DD` strings whose
   * fields make a calendar date pandas can hold parse, each to its own
   * fields; anything else is a parse error.
   */
  function ParseIsoDate(s: string): (r: Option<Date>)
    ensures !IsoShape(s) ==> r.None?
    ensures IsoShape(s) ==> (r.Some? <==> ValidDate(IsoFields(s)) && InTimestampRange(IsoFields(s)))
    ensures r.Some? ==> IsoShape(s) && r.value == IsoFields(s)
    ensures r.Some? ==> ValidDate(r.value) && InTimestampRange(r.value) && 1677 <= r.value.year <= 2262
  {
    if !IsoShape(s) then None
    else
      var d := IsoFields(s);
      if ValidDate(d) && InTimestampRange(d) then Some(d) else None
  }

  /**
   * For well-formed ISO dates, Python's string comparison `s1 < s2` says
   * exactly that `s1` is the earlier date: the string order the cleaning and
   * splitting code uses stands in for chronological order.
   */
  lemma IsoOrderIsChronological(s1: string, s2: string)
    requires ParseIsoDate(s1).Some? && ParseIsoDate(s2).Some?
    ensures StrLess(s1, s2) <==> Before(ParseIsoDate(s1).value, ParseIsoDate(s2).value)
    ensures s1 == s2 <==> ParseIsoDate(s1).value == ParseIsoDate(s2).value
  {
    var y1, m1, d1 := s1[..4], s1[5..7], s1[8..];
    var y2, m2, d2 := s2[..4], s2[5..7], s2[8..];
    assert s1 == y1 + ("-" + (m1 + ("-" + d1)));
    assert s2 == y2 + ("-" + (m2 + ("-" + d2)));
    DigitsOrder(y1, y2);
    DigitsOrder(m1, m2);
    DigitsOrder(d1, d2);
    StrLessConcat(y1, "-" + (m1 + ("-" + d1)), y2, "-" + (m2 + ("-" + d2)));
    StrLessConcat("-", m1 + ("-" + d1), "-", m2 + ("-" + d2));
    StrLessConcat(m1, "-" + d1, m2, "-" + d2);
    StrLessConcat("-", d1, "-", d2);
    StrLessIrreflexive("-");
  }

  /** Days before the first of month `m`, as pandas' `dayofyear` counts them. */
  function DaysBeforeMonth(y: int, m: int): int
    requires 1 <= m <= 12
  {
    var leap := if IsLeapYear(y) then 1 else 0;
    if m == 1 then 0
    else if m == 2 then 31
    else [59, 90, 120, 151, 181, 212, 243, 273, 304, 334][m - 3] + leap
  }

  /** The 1-based ordinal day within the year (`DatetimeIndex.dayofyear`). */
  function DayOfYear(d: Date): (n: int)
    requires ValidDate(d)
    ensures 1 <= n <= (if IsLeapYear(d.year) then 366 else 365)
    ensures d.month == 1 ==> n == d.day
    ensures d.month == 12 && d.day == 31 ==> n == (if IsLeapYear(d.year) then 366 else 365)
  {
    DaysBeforeMonth(d.year, d.month) + d.day
  }

  /** The next day in the same month is the next ordinal day. */
  lemma DayOfYearNext(d: Date)
    requires ValidDate(d) && d.day < DaysInMonth(d.year, d.month)
    ensures ValidDate(Date(d.year, d.month, d.day + 1))
    ensures DayOfYear(Date(d.year, d.month, d.day + 1)) == DayOfYear(d) + 1
  {
  }

  /** The first of a month follows the last day of the month before. */
  lemma DayOfYearMonthStart(y: int, m: int)
    requires 2 <= m <= 12
    ensures DayOfYear(Date(y, m, 1)) == DayOfYear(Date(y, m - 1, DaysInMonth(y, m - 1))) + 1
  {
  }
}
