/** Calendar dates as Python's `datetime.date` sees them: the proleptic
    Gregorian calendar for years 1 to 9999, compared field by field, and the
    two text keys the program derives from a date:

      - the year-less holiday key `date.strftime("%d-%m")`, e.g. "23-02";
      - the schedule key `str(date)`, the `full-date` form `YYYY-MM-DD` of
        section 5.6 of RFC 3339, e.g. "2030-07-04".
 */
module Dates {
  import opened Outcomes

  datatype Date = Date(year: int, month: int, day: int)

  /** The year range `datetime.date` accepts. */
  const MinYear: int := 1
  const MaxYear: int := 9999

  /** The range of a C `int`. `datetime.date` converts each argument to one
      before checking it, so a year outside this range raises
      `OverflowError` instead of the `ValueError` a bad date raises. */
  const CIntMin: int := -0x8000_0000
  const CIntMax: int := 0x7FFF_FFFF

  /** The Gregorian leap-year rule (Appendix C of RFC 3339). */
  predicate IsLeapYear(y: int) {
    y % 4 == 0 && (y % 100 != 0 || y % 400 == 0)
  }

  /** Number of days in `month` of `year` (the table of section 5.7 of
      RFC 3339). */
  function DaysInMonth(year: int, month: int): (n: int)
    requires 1 <= month <= 12
    ensures 28 <= n <= 31
    ensures month == 2 ==> (n == 29 <==> IsLeapYear(year))
  {
    if month == 2 then (if IsLeapYear(year) then 29 else 28)
    else if month == 4 || month == 6 || month == 9 || month == 11 then 30
    else 31
  }

  /** What `datetime.date(year, month, day)` accepts without raising
      `ValueError`. */
  predicate ValidDate(d: Date) {
    && MinYear <= d.year <= MaxYear
    && 1 <= d.month <= 12
    && 1 <= d.day <= DaysInMonth(d.year, d.month)
  }

  /** `a < b` on `datetime.date`: year first, then month, then day. */
  predicate Before(a: Date, b: Date) {
    || a.year < b.year
    || (a.year == b.year && a.month < b.month)
    || (a.year == b.year && a.month == b.month && a.day < b.day)
  }

  // ---------------------------------------------------------------------
  // Day numbers: an independent reading of the date order.

  function YearLength(y: int): int {
    if IsLeapYear(y) then 366 else 365
  }

  /** Days in the years before `y`, counted from year 1. */
  function DaysBeforeYear(y: int): int
    requires y >= 1
  {
    var p := y - 1;
    365 * p + p / 4 - p / 100 + p / 400
  }

  /** Days in the months of `y` before `month` (the cumulative month table). */
  function DaysBeforeMonth(y: int, month: int): int
    requires 1 <= month <= 12
  {
    var common :=
      if month == 1 then 0 else if month == 2 then 31 else if month == 3 then 59
      else if month == 4 then 90 else if month == 5 then 120 else if month == 6 then 151
      else if month == 7 then 181 else if month == 8 then 212 else if month == 9 then 243
      else if month == 10 then 273 else if month == 11 then 304 else 334;
    if month > 2 && IsLeapYear(y) then common + 1 else common
  }

  /** The proleptic Gregorian day number: 0001-01-01 is day 1. */
  function Ordinal(d: Date): int
    requires ValidDate(d)
  {
    DaysBeforeYear(d.year) + DaysBeforeMonth(d.year, d.month) + d.day
  }

  /** The cumulative month table agrees with the month lengths. */
  lemma DaysBeforeNextMonth(y: int, month: int)
    requires 1 <= month < 12
    ensures DaysBeforeMonth(y, month + 1) == DaysBeforeMonth(y, month) + DaysInMonth(y, month)
  {
  }

  /** The last month ends where the year does. */
  lemma DaysBeforeYearEnd(y: int)
    ensures DaysBeforeMonth(y, 12) + DaysInMonth(y, 12) == YearLength(y)
  {
  }

  lemma DivStep4(x: int)
    requires x >= 0
    ensures (x + 1) / 4 == x / 4 + (if (x + 1) % 4 == 0 then 1 else 0)
  {
  }

  lemma DivStep100(x: int)
    requires x >= 0
    ensures (x + 1) / 100 == x / 100 + (if (x + 1) % 100 == 0 then 1 else 0)
  {
  }

  lemma DivStep400(x: int)
    requires x >= 0
    ensures (x + 1) / 400 == x / 400 + (if (x + 1) % 400 == 0 then 1 else 0)
  {
  }

  /** Consecutive years are `YearLength` days apart. */
  lemma DaysBeforeNextYear(y: int)
    requires y >= 1
    ensures DaysBeforeYear(y + 1) == DaysBeforeYear(y) + YearLength(y)
  {
    var p := y - 1;
    DivStep4(p);
    DivStep100(p);
    DivStep400(p);
    var a := if y % 4 == 0 then 1 else 0;
    var b := if y % 100 == 0 then 1 else 0;
    var c := if y % 400 == 0 then 1 else 0;
    assert (p + 1) / 4 == p / 4 + a && (p + 1) / 100 == p / 100 + b && (p + 1) / 400 == p / 400 + c;
    assert 365 * (p + 1) == 365 * p + 365;
    assert DaysBeforeYear(y + 1) == DaysBeforeYear(y) + 365 + a - b + c;
    assert YearLength(y) == 365 + a - b + c;
  }

  /** Every date of year `a` has a smaller day number than any date of a later year. */
  lemma {:induction false} DaysBeforeYearGrows(a: int, b: int)
    requires 1 <= a < b
    ensures DaysBeforeYear(a) + YearLength(a) <= DaysBeforeYear(b)
    decreases b - a
  {
    DaysBeforeNextYear(a);
    if a + 1 < b {
      DaysBeforeYearGrows(a + 1, b);
    }
  }

  lemma {:induction false} DaysBeforeMonthGrows(y: int, a: int, b: int)
    requires 1 <= a < b <= 12
    ensures DaysBeforeMonth(y, a) + DaysInMonth(y, a) <= DaysBeforeMonth(y, b)
    decreases b - a
  {
    DaysBeforeNextMonth(y, a);
    if a + 1 < b {
      DaysBeforeMonthGrows(y, a + 1, b);
    }
  }

  /** The day of a valid date never reaches past its year. */
  lemma OrdinalWithinYear(d: Date)
    requires ValidDate(d)
    ensures Ordinal(d) <= DaysBeforeYear(d.year) + YearLength(d.year)
  {
    DaysBeforeYearEnd(d.year);
    if d.month < 12 {
      DaysBeforeMonthGrows(d.year, d.month, 12);
    }
  }

  /** The field-by-field comparison is the comparison of day numbers. */
  lemma BeforeIsOrdinalOrder(a: Date, b: Date)
    requires ValidDate(a) && ValidDate(b)
    ensures Before(a, b) <==> Ordinal(a) < Ordinal(b)
  {
    OrdinalWithinYear(a);
    OrdinalWithinYear(b);
    if a.year < b.year {
      DaysBeforeYearGrows(a.year, b.year);
    } else if b.year < a.year {
      DaysBeforeYearGrows(b.year, a.year);
    } else if a.month < b.month {
      DaysBeforeMonthGrows(a.year, a.month, b.month);
    } else if b.month < a.month {
      DaysBeforeMonthGrows(a.year, b.month, a.month);
    }
  }

  // ---------------------------------------------------------------------
  // Zero-padded decimal text.

  function Digit(n: int): (c: char)
    requires 0 <= n < 10
    ensures '0' <= c <= '9'
  {
    (48 + n) as char
  }

  predicate IsDigit(c: char) {
    '0' <= c <= '9'
  }

  function DigitValue(c: char): (v: int)
    requires IsDigit(c)
    ensures 0 <= v < 10
  {
    c as int - 48
  }

  /** The value of a two-digit string. */
  function Value2(s: string): (v: int)
    requires |s| == 2 && IsDigit(s[0]) && IsDigit(s[1])
    ensures 0 <= v < 100
  {
    10 * DigitValue(s[0]) + DigitValue(s[1])
  }

  /** The value of a four-digit string. */
  function Value4(s: string): (v: int)
    requires |s| == 4 && forall k :: 0 <= k < 4 ==> IsDigit(s[k])
    ensures 0 <= v < 10000
  {
    100 * Value2(s[..2]) + Value2(s[2..])
  }

  /** `"%02d" % n`. */
  function Pad2(n: int): (s: string)
    requires 0 <= n < 100
    ensures |s| == 2 && IsDigit(s[0]) && IsDigit(s[1])
    ensures Value2(s) == n
  {
    [Digit(n / 10), Digit(n % 10)]
  }

  /** `"%04d" % n`. */
  function Pad4(n: int): (s: string)
    requires 0 <= n < 10000
    ensures |s| == 4 && forall k :: 0 <= k < 4 ==> IsDigit(s[k])
    ensures Value4(s) == n
  {
    Pad2(n / 100) + Pad2(n % 100)
  }

  /** Two digits are recovered from their value. */
  lemma Pad2OfValue(s: string)
    requires |s| == 2 && IsDigit(s[0]) && IsDigit(s[1])
    ensures Pad2(Value2(s)) == s
  {
  }

  /** Four digits are recovered from their value. */
  lemma Pad4OfValue(s: string)
    requires |s| == 4 && forall k :: 0 <= k < 4 ==> IsDigit(s[k])
    ensures Pad4(Value4(s)) == s
  {
    var hi, lo := Value2(s[..2]), Value2(s[2..]);
    DivMod100(hi, lo);
    Pad2OfValue(s[..2]);
    Pad2OfValue(s[2..]);
    assert s == s[..2] + s[2..];
  }

  lemma DivMod100(hi: int, lo: int)
    requires 0 <= hi < 100 && 0 <= lo < 100
    ensures (100 * hi + lo) / 100 == hi && (100 * hi + lo) % 100 == lo
  {
  }

  // ---------------------------------------------------------------------
  // The two keys.

  /** `date.strftime("%d-%m")`: zero-padded day, a hyphen, zero-padded month. */
  function HolidayKey(d: Date): (k: string)
    requires ValidDate(d)
    ensures |k| == 5 && k[2] == '-'
  {
    Pad2(d.day) + "-" + Pad2(d.month)
  }

  /** `str(date)`: zero-padded year, month and day joined by hyphens. */
  function FullDate(d: Date): (k: string)
    requires ValidDate(d)
    ensures |k| == 10 && k[4] == '-' && k[7] == '-'
  {
    Pad4(d.year) + "-" + Pad2(d.month) + "-" + Pad2(d.day)
  }

  /** Reads a `DD-MM` key back as its (day, month) pair; `None` for any
      other shape of text. */
  function ParseHolidayKey(s: string): (r: Option<(int, int)>)
    ensures r.Some? ==> 0 <= r.value.0 < 100 && 0 <= r.value.1 < 100
  {
    if |s| == 5 && IsDigit(s[0]) && IsDigit(s[1]) && s[2] == '-' && IsDigit(s[3]) && IsDigit(s[4])
    then Some((Value2(s[..2]), Value2(s[3..])))
    else None
  }

  /** Reads a `YYYY-MM-DD` key back as the date it names; `None` when the
      text has another shape or names no calendar date. */
  function ParseFullDate(s: string): (r: Option<Date>)
    ensures r.Some? ==> ValidDate(r.value)
  {
    if |s| == 10 && s[4] == '-' && s[7] == '-'
       && (forall k :: 0 <= k < 4 ==> IsDigit(s[k]))
       && IsDigit(s[5]) && IsDigit(s[6]) && IsDigit(s[8]) && IsDigit(s[9])
    then
      var d := Date(Value4(s[..4]), Value2(s[5..7]), Value2(s[8..]));
      if ValidDate(d) then Some(d) else None
    else None
  }

  /** The holiday key round-trips to the date's day and month. */
  lemma ParseHolidayKeyOfKey(d: Date)
    requires ValidDate(d)
    ensures ParseHolidayKey(HolidayKey(d)) == Some((d.day, d.month))
  {
    var k := HolidayKey(d);
    assert k[..2] == Pad2(d.day);
    assert k[3..] == Pad2(d.month);
  }

  /** Parsing a holiday key and printing it again gives the same text. */
  lemma HolidayKeyOfParsed(s: string, d: Date)
    requires ParseHolidayKey(s).Some? && ValidDate(d)
    requires (d.day, d.month) == ParseHolidayKey(s).value
    ensures HolidayKey(d) == s
  {
    Pad2OfValue(s[..2]);
    Pad2OfValue(s[3..]);
    assert s == s[..2] + "-" + s[3..];
  }

  /** The holiday key depends on the day and month and on nothing else:
      two dates share a key exactly when they share day and month,
      whatever their years. */
  lemma HolidayKeyIff(a: Date, b: Date)
    requires ValidDate(a) && ValidDate(b)
    ensures HolidayKey(a) == HolidayKey(b) <==> a.day == b.day && a.month == b.month
  {
    ParseHolidayKeyOfKey(a);
    ParseHolidayKeyOfKey(b);
  }

  /** The full-date key round-trips to the date. */
  lemma ParseFullDateOfKey(d: Date)
    requires ValidDate(d)
    ensures ParseFullDate(FullDate(d)) == Some(d)
  {
    var k := FullDate(d);
    assert k[..4] == Pad4(d.year);
    assert k[5..7] == Pad2(d.month);
    assert k[8..] == Pad2(d.day);
  }

  /** Every text the parser accepts is the key of the date it returns. */
  lemma FullDateOfParsed(s: string)
    requires ParseFullDate(s).Some?
    ensures FullDate(ParseFullDate(s).value) == s
  {
    Pad4OfValue(s[..4]);
    Pad2OfValue(s[5..7]);
    Pad2OfValue(s[8..]);
    assert s == s[..4] + "-" + s[5..7] + "-" + s[8..];
  }

  /** Distinct dates have distinct full-date keys. */
  lemma FullDateIff(a: Date, b: Date)
    requires ValidDate(a) && ValidDate(b)
    ensures FullDate(a) == FullDate(b) <==> a == b
  {
    ParseFullDateOfKey(a);
    ParseFullDateOfKey(b);
  }
}
