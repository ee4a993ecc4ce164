/** The console program's rules (`jdh/mayn.py`): adding a user holiday,
    reading a schedule line by line, storing it under its `YYYY-MM-DD` key
    and looking it up again.
 */
module Console {
  import opened Outcomes
  import opened Text
  import opened Dates
  import opened Holidays

  /** The two maps the console program keeps: user holidays keyed `DD-MM`
      and schedules keyed by `str(date)`. */
  datatype State = State(userHolidays: map<string, string>, schedules: map<string, seq<string>>)

  /** The state the program starts from when it has no data file. */
  const Empty: State := State(map[], map[])

  /** `add_user_holiday` after the date prompt: a date before today is
      refused, then the name is stripped and a blank name is refused;
      otherwise the stripped name is written under the date's `DD-MM` key,
      replacing whatever that key held. */
  function AddUserHoliday(s: State, today: Date, date: Date, rawName: string): (r: Result<State>)
    requires ValidDate(today) && ValidDate(date)
    ensures r == Err(DateInPast) <==> Before(date, today)
    ensures r == Err(EmptyName) <==> !Before(date, today) && IsBlank(rawName)
    ensures r.Ok? <==> !Before(date, today) && !IsBlank(rawName)
    ensures r.Ok? ==>
      && r.value.schedules == s.schedules
      && HolidayKey(date) in r.value.userHolidays
      && r.value.userHolidays[HolidayKey(date)] == Trim(rawName)
      && r.value.userHolidays - {HolidayKey(date)} == s.userHolidays - {HolidayKey(date)}
  {
    if Before(date, today) then Err(DateInPast)
    else
      var name := Trim(rawName);
      if name == "" then Err(EmptyName)
      else Ok(s.(userHolidays := s.userHolidays[HolidayKey(date) := name]))
  }

  /** Every stored user holiday name is non-empty and already stripped. */
  predicate NamesStripped(user: map<string, string>) {
    forall k :: k in user ==> user[k] != [] && Trim(user[k]) == user[k]
  }

  /** Adding a holiday keeps every stored name non-empty and stripped. */
  lemma AddKeepsNamesStripped(s: State, today: Date, date: Date, rawName: string)
    requires ValidDate(today) && ValidDate(date)
    requires NamesStripped(s.userHolidays)
    requires AddUserHoliday(s, today, date, rawName).Ok?
    ensures NamesStripped(AddUserHoliday(s, today, date, rawName).value.userHolidays)
  {
    TrimIdempotent(rawName);
  }

  /** After an add, the day of that date (in any year) shows the built-in
      name if there is one, then the new name; every other day of the
      calendar shows what it showed before. */
  lemma AddThenHolidaysOn(s: State, today: Date, date: Date, rawName: string, d: Date)
    requires ValidDate(today) && ValidDate(date) && ValidDate(d)
    requires AddUserHoliday(s, today, date, rawName).Ok?
    ensures var after := AddUserHoliday(s, today, date, rawName).value.userHolidays;
      && (d.day == date.day && d.month == date.month ==>
            HolidaysOn(ExistingHolidays, after, d)
            == HolidaysOn(ExistingHolidays, map[], d) + [Trim(rawName)])
      && (d.day != date.day || d.month != date.month ==>
            HolidaysOn(ExistingHolidays, after, d) == HolidaysOn(ExistingHolidays, s.userHolidays, d))
  {
    HolidayKeyIff(d, date);
  }

  /** Adding twice under the same key keeps only the later name. */
  lemma AddTwiceLastWins(s: State, today: Date, a: Date, b: Date, first: string, second: string)
    requires ValidDate(today) && ValidDate(a) && ValidDate(b)
    requires a.day == b.day && a.month == b.month
    requires AddUserHoliday(s, today, a, first).Ok?
    ensures var once := AddUserHoliday(s, today, a, first).value;
      AddUserHoliday(once, today, b, second) == AddUserHoliday(s, today, b, second)
  {
    HolidayKeyIff(a, b);
    var k := HolidayKey(a);
    assert s.userHolidays[k := Trim(first)][k := Trim(second)] == s.userHolidays[k := Trim(second)];
  }

  /** Yesterday is refused and today is accepted, for a non-blank name. */
  lemma TodayIsTheBoundary(s: State, today: Date, yesterday: Date)
    requires ValidDate(today) && ValidDate(yesterday)
    requires Ordinal(yesterday) + 1 == Ordinal(today)
    ensures AddUserHoliday(s, today, yesterday, "Team Day") == Err(DateInPast)
    ensures AddUserHoliday(s, today, today, "Team Day").Ok?
    ensures CreateSchedule(s, today, yesterday, ["Meeting"]) == Err(DateInPast)
    ensures CreateSchedule(s, today, today, ["Meeting"]).Ok?
  {
    BeforeIsOrdinalOrder(yesterday, today);
    BeforeIsOrdinalOrder(today, today);
    assert !IsSpace("Team Day"[0]);
    assert !IsSpace("Meeting"[0]);
  }

  /** The schedule lines `create_schedule` keeps: each line is stripped and
      kept until the first blank line, which ends the input and is not
      kept. Running out of lines also ends it. */
  function ScheduleLines(lines: seq<string>): (items: seq<string>)
    ensures |items| <= |lines|
    ensures forall i :: 0 <= i < |items| ==> !IsBlank(lines[i]) && items[i] == Trim(lines[i])
    ensures |items| < |lines| ==> IsBlank(lines[|items|])
  {
    if |lines| == 0 || Trim(lines[0]) == "" then []
    else [Trim(lines[0])] + ScheduleLines(lines[1..])
  }

  /** Every stored schedule is a non-empty list of stripped, non-empty items. */
  predicate SchedulesWellFormed(schedules: map<string, seq<string>>) {
    forall k :: k in schedules ==>
      schedules[k] != [] && forall i :: 0 <= i < |schedules[k]| ==>
        schedules[k][i] != [] && Trim(schedules[k][i]) == schedules[k][i]
  }

  /** `create_schedule` after the date prompt: a date before today is
      refused, an empty item list is refused, otherwise the list replaces
      the schedule stored under the date's `YYYY-MM-DD` key. */
  function CreateSchedule(s: State, today: Date, date: Date, lines: seq<string>): (r: Result<State>)
    requires ValidDate(today) && ValidDate(date)
    ensures r == Err(DateInPast) <==> Before(date, today)
    ensures r == Err(EmptySchedule) <==> !Before(date, today) && (lines == [] || IsBlank(lines[0]))
    ensures r.Ok? <==> !Before(date, today) && lines != [] && !IsBlank(lines[0])
    ensures r.Ok? ==>
      && r.value.userHolidays == s.userHolidays
      && FullDate(date) in r.value.schedules
      && r.value.schedules[FullDate(date)] == ScheduleLines(lines)
      && r.value.schedules[FullDate(date)] != []
      && r.value.schedules - {FullDate(date)} == s.schedules - {FullDate(date)}
  {
    if Before(date, today) then Err(DateInPast)
    else
      var items := ScheduleLines(lines);
      if items == [] then Err(EmptySchedule)
      else Ok(s.(schedules := s.schedules[FullDate(date) := items]))
  }

  /** Creating a schedule keeps every stored schedule well formed. */
  lemma CreateKeepsSchedulesWellFormed(s: State, today: Date, date: Date, lines: seq<string>)
    requires ValidDate(today) && ValidDate(date)
    requires SchedulesWellFormed(s.schedules)
    requires CreateSchedule(s, today, date, lines).Ok?
    ensures SchedulesWellFormed(CreateSchedule(s, today, date, lines).value.schedules)
  {
    var items := ScheduleLines(lines);
    var after := s.schedules[FullDate(date) := items];
    assert CreateSchedule(s, today, date, lines).value.schedules == after;
    forall i | 0 <= i < |items| ensures items[i] != [] && Trim(items[i]) == items[i] {
      TrimIdempotent(lines[i]);
    }
    forall k | k in after
      ensures after[k] != [] && forall i :: 0 <= i < |after[k]| ==>
        after[k][i] != [] && Trim(after[k][i]) == after[k][i]
    {
      if k != FullDate(date) {
        assert after[k] == s.schedules[k];
      }
    }
  }

  /** `view_schedule`: the list stored under exactly this date's key, or
      `None` (the "not found" message). */
  function ViewSchedule(s: State, date: Date): (r: Option<seq<string>>)
    requires ValidDate(date)
    ensures r.Some? <==> FullDate(date) in s.schedules
    ensures r.Some? ==> r.value == s.schedules[FullDate(date)]
  {
    var key := FullDate(date);
    if key in s.schedules then Some(s.schedules[key]) else None
  }

  /** After a schedule is created, viewing that date gives its items in
      input order, and viewing any other date gives what it gave before. */
  lemma CreateThenView(s: State, today: Date, date: Date, lines: seq<string>, other: Date)
    requires ValidDate(today) && ValidDate(date) && ValidDate(other)
    requires CreateSchedule(s, today, date, lines).Ok?
    ensures var after := CreateSchedule(s, today, date, lines).value;
      && ViewSchedule(after, date) == Some(ScheduleLines(lines))
      && (other != date ==> ViewSchedule(after, other) == ViewSchedule(s, other))
  {
    FullDateIff(date, other);
  }

  /** A second schedule for the same date replaces the first entirely. */
  lemma CreateTwiceReplaces(s: State, today: Date, date: Date, first: seq<string>, second: seq<string>)
    requires ValidDate(today) && ValidDate(date)
    requires CreateSchedule(s, today, date, first).Ok?
    ensures var once := CreateSchedule(s, today, date, first).value;
      CreateSchedule(once, today, date, second) == CreateSchedule(s, today, date, second)
  {
    var k := FullDate(date);
    var once := CreateSchedule(s, today, date, first).value;
    assert once == s.(schedules := s.schedules[k := ScheduleLines(first)]);
    assert once.schedules[k := ScheduleLines(second)] == s.schedules[k := ScheduleLines(second)];
  }

  /** Lines after the first blank one are ignored. */
  lemma ScheduleStopsAtBlank(items: seq<string>, blank: string, rest: seq<string>)
    requires forall i :: 0 <= i < |items| ==> !IsBlank(items[i])
    requires IsBlank(blank)
    ensures ScheduleLines(items + [blank] + rest) == ScheduleLines(items)
    ensures |ScheduleLines(items)| == |items|
  {
    var lines := items + [blank] + rest;
    var n := |ScheduleLines(lines)|;
    var m := |ScheduleLines(items)|;
    assert lines[|items|] == blank;
    assert forall i :: 0 <= i < |items| ==> lines[i] == items[i];
    assert n == |items|;
    assert m == |items|;
  }
}
