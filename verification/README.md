# Holiday calendar and day schedules — a Dafny model

The program keeps two date-keyed records. The first is a calendar of named
holidays: a built-in table of annual holidays (`existing_holidays`, keyed
`DD-MM`) plus the holidays the user adds, which are keyed the same way and so
recur every year. The second is a set of day schedules: one ordered list of
events per exact date. It comes in two shells with the same core: a console
program (`jdh/mayn.py`) and a GUI program (`mayn.py.py`).

The model pulls that core out of the I/O functions as pure functions over
immutable maps and sequences:

- `Outcomes`: `Option`, `Result` and the three rejections the program
  reports (date in the past, empty name, empty schedule).
- `Text`: Python's `str.strip()` over the `str.isspace` character set, the
  blank test `s.strip() == ""`, and `str.split("\n")` with its inverse
  `"\n".join`.
- `Dates`: the calendar dates `datetime.date` accepts (years 1 to 9999, the
  Gregorian leap rule of Appendix C of RFC 3339 and the month lengths of its
  section 5.7) and the
  order on them. It also holds the two keys the program derives from a date,
  each with a parser that inverts it: the year-less holiday key
  `strftime("%d-%m")` and the console's schedule key `str(date)`, which is
  the `full-date` form `YYYY-MM-DD` of section 5.6 of RFC 3339. A day-number
  function (`Ordinal`, as `date.toordinal()`) gives an independent reading
  of the date order.
- `Holidays`: the built-in table and the names shown for one day (built-in
  first, then the user's; neither hides the other). It also holds the month
  view that both `view_calendar` functions print: days 1 to 31 in order,
  days the month does not have skipped, only days with a holiday kept.
- `Console`: `add_user_holiday`, `create_schedule` and `view_schedule` of
  the console program. A name is stripped before it is stored. Schedule
  lines are read until the first blank line. Schedules are keyed by
  `str(date)`.
- `Gui`: the same three operations of the GUI program. A name is stored as
  typed. Every blank line of the text area is dropped. Schedules are keyed
  by the date itself, and the date pickers' `min_value` becomes the
  precondition `!Before(date, today)`.
- `Variants`: lemmas that put the two shells side by side on the same input.

The current date (`datetime.date.today()`) is a parameter `today`.

The two programs differ in three ways:

- The console stops reading a schedule at the first blank line. A blank
  first line therefore means an empty schedule, and every line after a
  blank one is ignored (`Console.ScheduleLines`,
  `Variants.ConsoleIsPrefixOfGui`). The GUI drops every blank line of its
  text area and keeps the rest.
- The console stores a holiday name stripped. The GUI stores it as typed
  and uses the stripped form only to refuse a blank name.
- The console refuses a date before today itself. The GUI's only date
  check is the lower bound of its date widgets.

## Model

| member | source | states |
|---|---|---|
| Text.IsSpace | jdh/mayn.py:51 | the characters `str.isspace` accepts, which are the ones `strip()` removes; `Text.Trim` and `Text.TrimOfPadded` carry the contract that uses it |
| Text.IsBlank | jdh/mayn.py:52 | the test `s.strip() == ""` (also mayn.py.py:26 and :62): every character is whitespace; `Text.Trim` proves the two agree |
| Text.Trim | jdh/mayn.py:51 | `strip()` gives the slice of the input between its leading and trailing whitespace runs; the result is empty exactly when the input is blank; a non-empty result starts and ends with a non-space character |
| Text.TrimOfPadded | jdh/mayn.py:51 | whitespace around a core that starts and ends with a non-space character is exactly what `strip()` removes |
| Text.TrimIdempotent | jdh/mayn.py:100-101 | stripping an already-stripped line changes nothing, so stored items are in stripped form |
| Text.Split | mayn.py.py:65 | `split("\n")` yields at least one piece and no piece contains the separator |
| Text.JoinSplit | mayn.py.py:65 | joining the pieces of `split("\n")` with `\n` gives back the original text: no character is lost |
| Text.SplitJoin | mayn.py.py:65 | splitting a `\n`-join of separator-free lines gives the lines back, so split and join are inverse |
| Text.NonBlankHasNonBlankLine | mayn.py.py:62-65 | a text that is not blank has a line that is not blank |
| Dates.DaysInMonth | jdh/mayn.py:68-77 | each month has 28 to 31 days, and February has 29 exactly in leap years |
| Dates.BeforeIsOrdinalOrder | jdh/mayn.py:44 | the field-by-field comparison `date < today` is the order of day numbers, in both directions |
| Dates.Pad2 | jdh/mayn.py:56 | `%02d` yields two digits whose value is the number |
| Dates.Pad4 | jdh/mayn.py:108 | `%04d` yields four digits whose value is the number |
| Dates.ValidDate | jdh/mayn.py:69-77 | what `datetime.date(year, month, day)` accepts without `ValueError`: years 1 to 9999, months 1 to 12, days up to the month's length; `Dates.DaysInMonth` and `Holidays.LeapDayOnlyInLeapYears` carry its contract |
| Dates.Before | jdh/mayn.py:44 | `date < today` compares year, then month, then day; `Dates.BeforeIsOrdinalOrder` proves it is the order of day numbers, hence a strict total order |
| Dates.HolidayKey | jdh/mayn.py:56 | `strftime("%d-%m")` is five characters with a hyphen in the middle; `Dates.HolidayKeyIff`, `Dates.ParseHolidayKeyOfKey` and `Dates.HolidayKeyOfParsed` pin it as the day and month, zero-padded |
| Dates.FullDate | jdh/mayn.py:108 | `str(date)` is ten characters with hyphens after the year and the month; `Dates.FullDateIff`, `Dates.ParseFullDateOfKey` and `Dates.FullDateOfParsed` pin it as the `YYYY-MM-DD` form of exactly that date |
| Dates.HolidayKeyIff | jdh/mayn.py:56 | two dates have the same `%d-%m` key exactly when they share day and month: the key ignores the year and tells day/month pairs apart |
| Dates.ParseHolidayKeyOfKey | jdh/mayn.py:71 | the `DD-MM` key of a date reads back as its (day, month) pair |
| Dates.HolidayKeyOfParsed | jdh/mayn.py:71-75 | any text that reads as a (day, month) pair is the key printed for that day and month |
| Dates.FullDateIff | jdh/mayn.py:108 | two dates have the same `str(date)` key exactly when they are the same date |
| Dates.ParseFullDateOfKey | jdh/mayn.py:123-124 | the `YYYY-MM-DD` key of a date reads back as that date |
| Dates.FullDateOfParsed | jdh/mayn.py:123-124 | any text that reads back as a date is that date's `YYYY-MM-DD` key |
| Holidays.HolidaysOn | jdh/mayn.py:71-75 | a day shows zero to two names, one per table holding its `DD-MM` key; the built-in name comes first and the user's name last |
| Holidays.SharedKeyKeepsBoth | mayn.py.py:44-47 | when both tables hold the key, the day shows the built-in name followed by the user's name |
| Holidays.HolidaysOnIgnoresYear | jdh/mayn.py:71 | two dates with the same day and month show the same names whatever their years |
| Holidays.FixedHolidayEveryYear | jdh/mayn.py:27-35 | every built-in key names a day that exists in every year 1 to 9999, and that day always shows the built-in name first, whatever the user map holds |
| Holidays.NewYearExample | jdh/mayn.py:28 | with no user holidays, 1 January shows exactly the built-in New Year name |
| Holidays.ExistingHolidays | jdh/mayn.py:27-35 | the seven built-in annual holidays, keyed `DD-MM`; `Holidays.FixedHolidayEveryYear` proves every key is a day of every year and is always shown first |
| Holidays.NamesOfDay | jdh/mayn.py:69-77 | a day yields names exactly when it is a real date with a holiday; a day the month lacks yields nothing, as the `ValueError` skip does |
| Holidays.Collect | jdh/mayn.py:68-79 | walking days `from` to 31 gives entries in strictly ascending day order, each with the non-empty names of its day |
| Holidays.CollectHasDay | jdh/mayn.py:68-79 | a full walk from day 1 has an entry for a day exactly when the day is in 1..31 and has names |
| Holidays.MonthView | jdh/mayn.py:67-80 | the month view is strictly ascending by day; it has an entry for a day exactly when that day is in 1..31, is a real date of the month, and has a holiday; each entry lists that day's names |
| Holidays.February2023 | mayn.py.py:40-49 | February of a common year has no entry for days 29, 30 or 31, whatever the tables hold |
| Holidays.LeapDayOnlyInLeapYears | jdh/mayn.py:68-77 | a user holiday keyed `29-02` appears in a February view exactly when the year is a representable leap year |
| Holidays.UnrepresentableYearIsEmpty | jdh/mayn.py:64-77 | a year outside 1..9999 but within the C `int` range shows no day at all, because every date of it is refused with `ValueError` and skipped |
| Console.AddUserHoliday | jdh/mayn.py:40-57 | a date before today is rejected, and otherwise a blank name is rejected; otherwise the stripped name is stored under the date's `DD-MM` key, every other key keeps its value, and the schedules are untouched |
| Console.AddKeepsNamesStripped | jdh/mayn.py:51-57 | if every stored user name is non-empty and stripped, an add keeps it so |
| Console.AddThenHolidaysOn | jdh/mayn.py:56-75 | after an add, the day of the added date shows the built-in name if any and then the new stripped name; every other day shows what it showed before |
| Console.AddTwiceLastWins | jdh/mayn.py:57 | adding to the same day and month twice leaves the state a single add of the second name would leave |
| Console.TodayIsTheBoundary | jdh/mayn.py:44-47 | adding a holiday or creating a schedule for yesterday is rejected as a past date, and for today it is accepted |
| Console.ScheduleLines | jdh/mayn.py:98-102 | the kept items are the stripped input lines up to the first blank one, in input order; the blank line that ends the input is not kept |
| Console.ScheduleStopsAtBlank | jdh/mayn.py:100-102 | lines after the first blank line never reach the schedule |
| Console.CreateSchedule | jdh/mayn.py:87-108 | a date before today is rejected; otherwise an input whose first line is blank or missing is rejected as empty; otherwise the non-empty item list replaces the entry under the date's `YYYY-MM-DD` key, every other entry is kept, and the user holidays are untouched |
| Console.CreateKeepsSchedulesWellFormed | jdh/mayn.py:100-108 | if every stored schedule is a non-empty list of non-empty stripped items, a create keeps it so |
| Console.ViewSchedule | jdh/mayn.py:123-129 | the lookup finds an entry exactly when the date's `YYYY-MM-DD` key is stored, and then returns the stored list |
| Console.CreateThenView | jdh/mayn.py:108-129 | after a create, viewing that date gives the new items in input order, and viewing any other date gives what it gave before |
| Console.CreateTwiceReplaces | jdh/mayn.py:108 | a second schedule for the same date replaces the first entirely |
| Gui.AddUserHoliday | mayn.py.py:23-30 | a blank name is rejected; otherwise the name, untrimmed, is stored under the date's `DD-MM` key, every other key keeps its value, and the schedules are untouched |
| Gui.AddKeepsNamesNonBlank | mayn.py.py:26-30 | if every stored user name is non-blank, an add keeps it so |
| Gui.AddThenHolidaysOn | mayn.py.py:29-47 | after an add, the day of the added date shows the built-in name if any and then the new name as typed; every other day shows what it showed before |
| Gui.NonBlankLines | mayn.py.py:65 | the filtered list is no longer than the input and every kept item is non-empty and stripped |
| Gui.NonBlankLinesAppend | mayn.py.py:65 | the filter works line by line: filtering a concatenation concatenates the filtered parts, so input order is kept |
| Gui.NonBlankLinesOne | mayn.py.py:65 | one line contributes its stripped text when it is not blank and nothing when it is |
| Gui.NonBlankLinesNonEmpty | mayn.py.py:65 | one non-blank line anywhere in the input makes the result non-empty |
| Gui.ScheduleItems | mayn.py.py:65 | every item of a text area is non-empty and stripped; with `Gui.ScheduleItemsEmptyIff`, `Gui.NonBlankLinesAppend` and `Gui.NonBlankLinesOne` it is the stripped non-blank lines in order |
| Gui.ScheduleItemsEmptyIff | mayn.py.py:62-65 | a text area yields no item exactly when it is blank |
| Gui.AllBlankKeepsNothing | mayn.py.py:65 | lines that are all blank yield no item |
| Gui.CreateSchedule | mayn.py.py:59-65 | a blank text is rejected; otherwise its non-empty item list replaces the entry under that exact date, every other date is kept, and the user holidays are untouched |
| Gui.ViewSchedule | mayn.py.py:71-77 | the lookup finds an entry exactly when that date is stored, and then returns the stored list |
| Gui.CreateThenView | mayn.py.py:65-77 | after a create, viewing that date gives its items, and viewing any other date gives what it gave before |
| Gui.CreateTwiceReplaces | mayn.py.py:65 | a second schedule for the same date replaces the first entirely |
| Variants.NoBlankLinesSameItems | jdh/mayn.py:98-102 | when no line is blank, the console and the GUI keep the same items |
| Variants.ConsoleIsPrefixOfGui | jdh/mayn.py:98-102 | on the same lines, the console's items are a prefix of the GUI's: the GUI continues past the first blank line with the remaining non-blank lines |
| Variants.GuiItemsOfJoinedLines | mayn.py.py:60-65 | a text area holding the console's input lines joined by newlines gives the GUI's filter of those same lines |
| Variants.BlankLineExample | jdh/mayn.py:100-102 | for "Lunch", a blank line and "Gym", the console keeps only "Lunch" and the GUI keeps "Lunch" and "Gym" |
| Variants.BlankBetween | mayn.py.py:65 | the GUI filter drops a blank line between two non-blank lines and keeps those two, stripped, in order |
| Variants.NameExample | mayn.py.py:30 | the name " Team Day " is stored as "Team Day" by the console and unchanged by the GUI |

## Left out

- Console and GUI I/O are not modelled: `input`/`print`, the menu loop, the Streamlit widgets, the menu dispatch and the trailing `view_calendar()` call (jdh/mayn.py:131-160, mayn.py.py:79-97). They are presentation only.
- JSON persistence in `load_data`/`save_data` (jdh/mayn.py:11-24) is file I/O and is not modelled. A missing data file leaves both maps empty, which is `Console.Empty`. The GUI program never saves anything.
- Re-running the GUI script on each interaction is not modelled. Streamlit re-executes the module, which re-creates its global maps, but the model treats the GUI state as a value that persists.
- Parsing `DD-MM-YYYY` with `strptime` and reading the year with `int(input())` are not modelled. Dates enter as `Date` values with `ValidDate`. The month view takes an integer year; a year outside 1..9999 but within the C `int` range shows nothing.
- The console's re-prompt loops are not modelled. After a past date the console asks again (jdh/mayn.py:44-46); the model returns `Err(DateInPast)` with no new state instead.
- `datetime.date.today()` becomes the parameter `today`. In the GUI, the `min_value=today` bound of the date widgets becomes the precondition `!Before(date, today)`.
- The GUI's year selectbox (today's year and the nine after it, mayn.py.py:36) is not modelled. The month view accepts any year in the C `int` range.
- Holidays.MonthView: requires the year to lie in the C `int` range (`Dates.CIntMin`..`Dates.CIntMax`). For a larger or smaller year, `datetime.date` raises `OverflowError` on the first day (jdh/mayn.py:70). The `except ValueError` at jdh/mayn.py:76 does not catch it, so `view_calendar` and the program stop. The model describes no view for such a year and does not model the crash.
- Month names (`strftime('%B')`), the `", ".join` of a day's names, the `%d.%m.%Y` messages and the 1-based numbering of schedule items are output formatting and are not modelled.
- Console.ScheduleLines: the console reads lines until a blank one; at end of input Python raises `EOFError`. The model receives a finite list of lines and treats running out of lines like a blank line.
- Text.IsSpace: `str.strip()` is modelled by the fixed set of characters for which `str.isspace` is true. There is no Unicode database.
