/** The GUI program's rules (`mayn.py.py`): the same holiday table and
    month view as the console program, but a holiday name is stored as
    typed (only the blank test strips it), a schedule comes from one text
    area whose blank lines are all dropped, and schedules are keyed by the
    date itself. The date pickers only offer today or later, so a past date
    never reaches these functions.
 */
module Gui {
  import opened Outcomes
  import opened Text
  import opened Dates
  import opened Holidays

  /** The two maps the GUI program keeps: user holidays keyed `DD-MM` and
      schedules keyed by the date. */
  datatype State = State(userHolidays: map<string, string>, schedules: map<Date, seq<string>>)

  /** `add_user_holiday` on the button press: a blank name is refused;
      otherwise the name, not stripped, is written under the date's `DD-MM`
      key, replacing whatever that key held. */
  function AddUserHoliday(s: State, today: Date, date: Date, name: string): (r: Result<State>)
    requires ValidDate(today) && ValidDate(date) && !Before(date, today)
    ensures r.Err? <==> IsBlank(name)
    ensures r.Err? ==> r.reason == EmptyName
    ensures r.Ok? ==>
      && r.value.schedules == s.schedules
      && HolidayKey(date) in r.value.userHolidays
      && r.value.userHolidays[HolidayKey(date)] == name
      && r.value.userHolidays - {HolidayKey(date)} == s.userHolidays - {HolidayKey(date)}
  {
    if Trim(name) == "" then Err(EmptyName)
    else Ok(s.(userHolidays := s.userHolidays[HolidayKey(date) := name]))
  }

  /** Every stored user holiday name has a non-space character. */
  predicate NamesNonBlank(user: map<string, string>) {
    forall k :: k in user ==> !IsBlank(user[k])
  }

  /** Adding a holiday keeps every stored name non-blank. */
  lemma AddKeepsNamesNonBlank(s: State, today: Date, date: Date, name: string)
    requires ValidDate(today) && ValidDate(date) && !Before(date, today)
    requires NamesNonBlank(s.userHolidays)
    requires AddUserHoliday(s, today, date, name).Ok?
    ensures NamesNonBlank(AddUserHoliday(s, today, date, name).value.userHolidays)
  {
    var after := AddUserHoliday(s, today, date, name).value.userHolidays;
    forall k | k in after ensures !IsBlank(after[k]) {
      if k != HolidayKey(date) {
        assert k in after - {HolidayKey(date)};
      }
    }
  }

  /** After an add, the day of that date (in any year) shows the built-in
      name if there is one, then the new name as typed; every other day
      shows what it showed before. */
  lemma AddThenHolidaysOn(s: State, today: Date, date: Date, name: string, d: Date)
    requires ValidDate(today) && ValidDate(date) && !Before(date, today) && ValidDate(d)
    requires AddUserHoliday(s, today, date, name).Ok?
    ensures var after := AddUserHoliday(s, today, date, name).value.userHolidays;
      && (d.day == date.day && d.month == date.month ==>
            HolidaysOn(ExistingHolidays, after, d) == HolidaysOn(ExistingHolidays, map[], d) + [name])
      && (d.day != date.day || d.month != date.month ==>
            HolidaysOn(ExistingHolidays, after, d) == HolidaysOn(ExistingHolidays, s.userHolidays, d))
  {
    HolidayKeyIff(d, date);
    var after := AddUserHoliday(s, today, date, name).value.userHolidays;
    if d.day != date.day || d.month != date.month {
      var k := HolidayKey(d);
      assert k in after <==> k in after - {HolidayKey(date)};
      assert k in s.userHolidays <==> k in s.userHolidays - {HolidayKey(date)};
      if k in after {
        assert after[k] == (after - {HolidayKey(date)})[k];
      }
    }
  }

  /** `[item.strip() for item in lines if item.strip()]`: the stripped
      lines, blank ones dropped, in order. */
  function NonBlankLines(lines: seq<string>): (items: seq<string>)
    ensures |items| <= |lines|
    ensures forall i :: 0 <= i < |items| ==> items[i] != [] && Trim(items[i]) == items[i]
  {
    if |lines| == 0 then []
    else
      var item := Trim(lines[0]);
      TrimIdempotent(lines[0]);
      if item != "" then [item] + NonBlankLines(lines[1..]) else NonBlankLines(lines[1..])
  }

  /** The filter works line by line: filtering a concatenation is
      concatenating the filtered parts. */
  lemma {:induction false} NonBlankLinesAppend(a: seq<string>, b: seq<string>)
    ensures NonBlankLines(a + b) == NonBlankLines(a) + NonBlankLines(b)
    decreases |a|
  {
    if |a| > 0 {
      assert (a + b)[0] == a[0];
      assert (a + b)[1..] == a[1..] + b;
      NonBlankLinesAppend(a[1..], b);
    } else {
      assert a + b == b;
    }
  }

  /** One line contributes its stripped text when it is not blank and
      nothing when it is. */
  lemma NonBlankLinesOne(line: string)
    ensures NonBlankLines([line]) == if IsBlank(line) then [] else [Trim(line)]
  {
    assert [line][1..] == [];
  }

  /** A non-blank line among the input leaves the result non-empty. */
  lemma {:induction false} NonBlankLinesNonEmpty(lines: seq<string>, i: int)
    requires 0 <= i < |lines| && !IsBlank(lines[i])
    ensures NonBlankLines(lines) != []
    decreases |lines|
  {
    if i > 0 && IsBlank(lines[0]) {
      NonBlankLinesNonEmpty(lines[1..], i - 1);
    }
  }

  /** The schedule items of a text area: split on `\n`, each line
      stripped, blank lines dropped. */
  function ScheduleItems(text: string): (items: seq<string>)
    ensures forall i :: 0 <= i < |items| ==> items[i] != [] && Trim(items[i]) == items[i]
  {
    NonBlankLines(Split(text, '\n'))
  }

  /** A text area yields at least one item exactly when it is not blank. */
  lemma ScheduleItemsEmptyIff(text: string)
    ensures ScheduleItems(text) == [] <==> IsBlank(text)
  {
    var lines := Split(text, '\n');
    if !IsBlank(text) {
      NonBlankHasNonBlankLine(text);
      var i :| 0 <= i < |lines| && !IsBlank(lines[i]);
      NonBlankLinesNonEmpty(lines, i);
    } else {
      BlankTextHasBlankLines(text);
    }
  }

  /** Every line of a blank text is blank, so nothing is kept from it. */
  lemma BlankTextHasBlankLines(text: string)
    requires IsBlank(text)
    ensures NonBlankLines(Split(text, '\n')) == []
  {
    var lines := Split(text, '\n');
    JoinSplit(text, '\n');
    forall i | 0 <= i < |lines| ensures IsBlank(lines[i]) {
      JoinHasPart(lines, '\n', i);
    }
    AllBlankKeepsNothing(lines);
  }

  lemma {:induction false} AllBlankKeepsNothing(lines: seq<string>)
    requires forall i :: 0 <= i < |lines| ==> IsBlank(lines[i])
    ensures NonBlankLines(lines) == []
    decreases |lines|
  {
    if |lines| > 0 {
      AllBlankKeepsNothing(lines[1..]);
    }
  }

  /** `create_schedule` on the button press: a blank text is refused;
      otherwise its items replace the schedule stored under the date. */
  function CreateSchedule(s: State, today: Date, date: Date, text: string): (r: Result<State>)
    requires ValidDate(today) && ValidDate(date) && !Before(date, today)
    ensures r.Err? <==> IsBlank(text)
    ensures r.Err? ==> r.reason == EmptySchedule
    ensures r.Ok? ==>
      && r.value.userHolidays == s.userHolidays
      && date in r.value.schedules
      && r.value.schedules[date] == ScheduleItems(text)
      && r.value.schedules[date] != []
      && r.value.schedules - {date} == s.schedules - {date}
  {
    ScheduleItemsEmptyIff(text);
    if Trim(text) == "" then Err(EmptySchedule)
    else Ok(s.(schedules := s.schedules[date := ScheduleItems(text)]))
  }

  /** `view_schedule`: the list stored under exactly this date, or `None`
      (the "not found" message). */
  function ViewSchedule(s: State, date: Date): (r: Option<seq<string>>)
    ensures r.Some? <==> date in s.schedules
    ensures r.Some? ==> r.value == s.schedules[date]
  {
    if date in s.schedules then Some(s.schedules[date]) else None
  }

  /** After a schedule is created, viewing that date gives its items, and
      viewing any other date gives what it gave before. */
  lemma CreateThenView(s: State, today: Date, date: Date, text: string, other: Date)
    requires ValidDate(today) && ValidDate(date) && !Before(date, today)
    requires CreateSchedule(s, today, date, text).Ok?
    ensures var after := CreateSchedule(s, today, date, text).value;
      && ViewSchedule(after, date) == Some(ScheduleItems(text))
      && (other != date ==> ViewSchedule(after, other) == ViewSchedule(s, other))
  {
    var after := CreateSchedule(s, today, date, text).value;
    if other != date {
      assert other in after.schedules <==> other in after.schedules - {date};
      assert other in s.schedules <==> other in s.schedules - {date};
      if other in s.schedules {
        assert after.schedules[other] == (after.schedules - {date})[other];
      }
    }
  }

  /** A second schedule for the same date replaces the first entirely. */
  lemma CreateTwiceReplaces(s: State, today: Date, date: Date, first: string, second: string)
    requires ValidDate(today) && ValidDate(date) && !Before(date, today)
    requires CreateSchedule(s, today, date, first).Ok?
    ensures var once := CreateSchedule(s, today, date, first).value;
      CreateSchedule(once, today, date, second) == CreateSchedule(s, today, date, second)
  {
    var once := CreateSchedule(s, today, date, first).value;
    assert once == s.(schedules := s.schedules[date := ScheduleItems(first)]);
    assert once.schedules[date := ScheduleItems(second)] == s.schedules[date := ScheduleItems(second)];
  }
}
