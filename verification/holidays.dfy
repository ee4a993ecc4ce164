/** The holiday side of the calendar: the built-in annual table, the user
    map layered over it, the list of names shown for one day and the
    per-month view. Both the console and the GUI program compute these
    the same way.
 */
module Holidays {
  import opened Dates

  /** The built-in annual holidays, keyed `DD-MM`; the program never writes it. */
  const ExistingHolidays: map<string, string> :=
    map[
      "01-01" := "Новый год 🎉",
      "23-02" := "День защитника Отечества ⚔️",
      "08-03" := "Международный женский день 🌸",
      "01-05" := "Праздник весны и труда 🍃",
      "09-05" := "День Победы 🌟",
      "12-06" := "День России 🇷🇺",
      "04-11" := "День народного единства 🕊️"
    ]

  /** The names shown for day `d`: the built-in name for its `DD-MM` key if
      there is one, then the user's name for the same key if there is one.
      The two layers are merged here, at reading time; neither hides the
      other. */
  function HolidaysOn(fixed: map<string, string>, user: map<string, string>, d: Date): (r: seq<string>)
    requires ValidDate(d)
    ensures var k := HolidayKey(d);
      && |r| == (if k in fixed then 1 else 0) + (if k in user then 1 else 0)
      && (k in fixed ==> r[0] == fixed[k])
      && (k in user ==> r[|r| - 1] == user[k])
  {
    var k := HolidayKey(d);
    (if k in fixed then [fixed[k]] else [])
    + (if k in user then [user[k]] else [])
  }

  /** One line of the month view: a day number and its names. */
  datatype DayEntry = DayEntry(day: int, names: seq<string>)

  /** Some entry of `v` is for day `day`. */
  predicate HasDay(v: seq<DayEntry>, day: int) {
    exists i :: 0 <= i < |v| && v[i].day == day
  }

  /** Strictly ascending by day, so no day appears twice. */
  predicate Ascending(v: seq<DayEntry>) {
    forall i, j :: 0 <= i < j < |v| ==> v[i].day < v[j].day
  }

  /** Day `day` of `month` in `year` exists and has at least one holiday. */
  predicate Shown(fixed: map<string, string>, user: map<string, string>, year: int, month: int, day: int) {
    ValidDate(Date(year, month, day)) && HolidaysOn(fixed, user, Date(year, month, day)) != []
  }

  /** The names collected for day `day` of `month` in `year`: none when
      that day is not a date (building the date raises `ValueError` and the
      day is skipped), otherwise the names of that date. */
  function NamesOfDay(fixed: map<string, string>, user: map<string, string>, year: int, month: int, day: int): (r: seq<string>)
    ensures r != [] <==> Shown(fixed, user, year, month, day)
    ensures !ValidDate(Date(year, month, day)) ==> r == []
  {
    if ValidDate(Date(year, month, day)) then HolidaysOn(fixed, user, Date(year, month, day)) else []
  }

  /** The entries for days `from`..31, in order, keeping each day whose
      names are non-empty. */
  function Collect(names: int -> seq<string>, from: int): (r: seq<DayEntry>)
    requires 1 <= from <= 32
    ensures Ascending(r)
    ensures forall i :: 0 <= i < |r| ==>
      from <= r[i].day <= 31 && r[i].names == names(r[i].day) && r[i].names != []
    decreases 32 - from
  {
    if from == 32 then []
    else if names(from) != [] then [DayEntry(from, names(from))] + Collect(names, from + 1)
    else Collect(names, from + 1)
  }

  /** No day in `from`..31 with names is left out. */
  lemma {:induction false} CollectComplete(names: int -> seq<string>, from: int, day: int)
    requires 1 <= from <= day <= 31 && names(day) != []
    ensures HasDay(Collect(names, from), day)
    decreases 32 - from
  {
    var r := Collect(names, from);
    if day == from {
      assert r[0].day == day;
    } else {
      var rest := Collect(names, from + 1);
      CollectComplete(names, from + 1, day);
      var i :| 0 <= i < |rest| && rest[i].day == day;
      if names(from) != [] {
        assert r[i + 1].day == day;
      } else {
        assert r[i].day == day;
      }
    }
  }

  /** The entries of a full pass are exactly the days 1..31 with names. */
  lemma CollectHasDay(names: int -> seq<string>, day: int)
    ensures HasDay(Collect(names, 1), day) <==> 1 <= day <= 31 && names(day) != []
  {
    if 1 <= day <= 31 && names(day) != [] {
      CollectComplete(names, 1, day);
    }
  }

  /** The calendar for one month, as `view_calendar` prints it: every day
      1..31 that exists in that month of that year and has a holiday,
      ascending, each with its names. A year outside the C `int` range
      makes building the first date raise `OverflowError`, which the day
      loop does not catch, so the program stops there instead. */
  function MonthView(fixed: map<string, string>, user: map<string, string>, year: int, month: int): (r: seq<DayEntry>)
    requires CIntMin <= year <= CIntMax
    ensures Ascending(r)
    ensures forall day :: HasDay(r, day) <==> 1 <= day <= 31 && Shown(fixed, user, year, month, day)
    ensures forall i :: 0 <= i < |r| ==>
      ValidDate(Date(year, month, r[i].day)) && r[i].names == HolidaysOn(fixed, user, Date(year, month, r[i].day))
  {
    var names := day => NamesOfDay(fixed, user, year, month, day);
    var r := Collect(names, 1);
    assert forall day :: HasDay(r, day) <==> 1 <= day <= 31 && Shown(fixed, user, year, month, day) by {
      forall day ensures HasDay(r, day) <==> 1 <= day <= 31 && Shown(fixed, user, year, month, day) {
        CollectHasDay(names, day);
        assert names(day) == NamesOfDay(fixed, user, year, month, day);
      }
    }
    r
  }

  /** When the built-in table and the user map share a key, both names are
      shown, the built-in one first. */
  lemma SharedKeyKeepsBoth(fixed: map<string, string>, user: map<string, string>, d: Date)
    requires ValidDate(d)
    requires HolidayKey(d) in fixed && HolidayKey(d) in user
    ensures HolidaysOn(fixed, user, d) == [fixed[HolidayKey(d)], user[HolidayKey(d)]]
  {
  }

  /** The names of a day do not depend on the year. */
  lemma HolidaysOnIgnoresYear(fixed: map<string, string>, user: map<string, string>, a: Date, b: Date)
    requires ValidDate(a) && ValidDate(b)
    ensures HolidaysOn(fixed, user, a) == HolidaysOn(fixed, user, b) <== a.day == b.day && a.month == b.month
  {
  }

  /** Every built-in holiday names a day that every year has, and it is
      shown on that day whatever the user map holds. */
  lemma FixedHolidayEveryYear(user: map<string, string>, k: string, year: int)
    requires k in ExistingHolidays
    requires MinYear <= year <= MaxYear
    ensures ParseHolidayKey(k).Some?
    ensures var (day, month) := ParseHolidayKey(k).value;
      && ValidDate(Date(year, month, day))
      && HolidayKey(Date(year, month, day)) == k
      && HolidaysOn(ExistingHolidays, user, Date(year, month, day))[0] == ExistingHolidays[k]
  {
    var (day, month) := ParseHolidayKey(k).value;
    assert 1 <= month <= 12 && 1 <= day <= 28;
    HolidayKeyOfParsed(k, Date(year, month, day));
  }

  /** New Year's Day with no user holidays shows just the built-in name. */
  lemma NewYearExample()
    ensures HolidaysOn(ExistingHolidays, map[], Date(2030, 1, 1)) == ["Новый год 🎉"]
  {
    assert HolidayKey(Date(2030, 1, 1)) == "01-01";
  }

  /** February 2023 has 28 days, so its view has no day 29, 30 or 31. */
  lemma February2023(fixed: map<string, string>, user: map<string, string>)
    ensures !HasDay(MonthView(fixed, user, 2023, 2), 29)
    ensures !HasDay(MonthView(fixed, user, 2023, 2), 30)
    ensures !HasDay(MonthView(fixed, user, 2023, 2), 31)
  {
    assert DaysInMonth(2023, 2) == 28;
  }

  /** A user holiday on 29 February appears in the February view exactly in
      leap years that `datetime.date` can represent; in other years the day
      is skipped without error. */
  lemma LeapDayOnlyInLeapYears(fixed: map<string, string>, user: map<string, string>, year: int)
    requires "29-02" in user
    requires CIntMin <= year <= CIntMax
    ensures HasDay(MonthView(fixed, user, year, 2), 29) <==> MinYear <= year <= MaxYear && IsLeapYear(year)
  {
    if MinYear <= year <= MaxYear && IsLeapYear(year) {
      assert HolidayKey(Date(year, 2, 29)) == "29-02";
      assert Shown(fixed, user, year, 2, 29);
    }
  }

  /** A year outside 1..9999 but within the C `int` range is refused by
      `datetime.date` with `ValueError` on every day, so it shows no
      holidays at all. */
  lemma UnrepresentableYearIsEmpty(fixed: map<string, string>, user: map<string, string>, year: int, month: int)
    requires CIntMin <= year <= CIntMax
    requires year < MinYear || year > MaxYear
    ensures forall day :: !HasDay(MonthView(fixed, user, year, month), day)
  {
  }
}
