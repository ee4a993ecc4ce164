/** Where the console and GUI programs part ways on the same input: the
    console strips a holiday name before storing it and stops reading a
    schedule at the first blank line; the GUI stores the name as typed and
    drops every blank line of its text area.
 */
module Variants {
  import opened Text
  import opened Dates
  import Console
  import Gui

  /** Lines that are all non-blank are kept in full by both readers. */
  lemma {:induction false} NoBlankLinesSameItems(lines: seq<string>)
    requires forall i :: 0 <= i < |lines| ==> !IsBlank(lines[i])
    ensures Gui.NonBlankLines(lines) == Console.ScheduleLines(lines)
    decreases |lines|
  {
    if |lines| > 0 {
      NoBlankLinesSameItems(lines[1..]);
    }
  }

  /** For the same lines, the console keeps a prefix of what the GUI keeps:
      the items before the first blank line, after which the GUI goes on
      collecting the remaining non-blank lines. */
  lemma ConsoleIsPrefixOfGui(lines: seq<string>)
    ensures var n := |Console.ScheduleLines(lines)|;
      Gui.NonBlankLines(lines) == Console.ScheduleLines(lines) + Gui.NonBlankLines(lines[n..])
  {
    var items := Console.ScheduleLines(lines);
    var n := |items|;
    var head := lines[..n];
    assert lines == head + lines[n..];
    Gui.NonBlankLinesAppend(head, lines[n..]);
    NoBlankLinesSameItems(head);
    var again := Console.ScheduleLines(head);
    assert again == items by {
      forall i | 0 <= i < n ensures again[i] == items[i] {
        assert head[i] == lines[i];
      }
    }
  }

  /** The GUI reads a text area whose lines are the console's input lines
      joined by `\n`, and keeps every non-blank one. */
  lemma GuiItemsOfJoinedLines(lines: seq<string>)
    requires |lines| >= 1
    requires forall i :: 0 <= i < |lines| ==> '\n' !in lines[i]
    ensures Gui.ScheduleItems(Join(lines, '\n')) == Gui.NonBlankLines(lines)
  {
    SplitJoin(lines, '\n');
  }

  /** A blank line followed by a non-blank one: the console keeps only what
      came before the blank line, the GUI keeps both items. */
  lemma BlankLineExample()
    ensures Console.ScheduleLines(["Lunch", "", "Gym"]) == ["Lunch"]
    ensures Gui.ScheduleItems("Lunch\n\nGym") == ["Lunch", "Gym"]
  {
    ExampleWords();
    Console.ScheduleStopsAtBlank(["Lunch"], "", ["Gym"]);
    assert ["Lunch"] + [""] + ["Gym"] == ["Lunch", "", "Gym"];
    GuiExample();
  }

  /** The GUI keeps the stripped outer lines around a blank one. */
  lemma BlankBetween(x: string, blank: string, y: string)
    requires !IsBlank(x) && IsBlank(blank) && !IsBlank(y)
    ensures Gui.NonBlankLines([x, blank, y]) == [Trim(x), Trim(y)]
  {
    assert Trim(x) != [] && Trim(blank) == [] && Trim(y) != [];
    assert [y][1..] == [];
    assert Gui.NonBlankLines([y]) == [Trim(y)];
    assert [blank, y][1..] == [y];
    assert Gui.NonBlankLines([blank, y]) == [Trim(y)];
    assert [x, blank, y][1..] == [blank, y];
  }

  /** A word of ASCII letters is non-blank, holds no newline, and is its
      own strip. */
  lemma LetterWord(w: string)
    requires w != [] && forall k :: 0 <= k < |w| ==> 'A' <= w[k] <= 'z'
    ensures !IsBlank(w) && '\n' !in w && Trim(w) == w
  {
    assert !IsSpace(w[0]) && !IsSpace(w[|w| - 1]);
    TrimOfTrimmed(w);
  }

  /** The two words of the example are plain words. */
  lemma ExampleWords()
    ensures !IsBlank("Lunch") && '\n' !in "Lunch" && Trim("Lunch") == "Lunch"
    ensures !IsBlank("Gym") && '\n' !in "Gym" && Trim("Gym") == "Gym"
  {
    LetterWord("Lunch");
    LetterWord("Gym");
  }

  lemma ExampleText()
    ensures Join(["Lunch", "", "Gym"], '\n') == "Lunch\n\nGym"
  {
    var lines := ["Lunch", "", "Gym"];
    assert lines[1..] == ["", "Gym"];
    assert lines[1..][1..] == ["Gym"];
  }

  /** The GUI half of the example: the text area is the three lines
      joined, and the filter drops the blank middle one. */
  lemma GuiExample()
    ensures Gui.ScheduleItems("Lunch\n\nGym") == ["Lunch", "Gym"]
  {
    var lines := ["Lunch", "", "Gym"];
    ExampleWords();
    ExampleText();
    assert forall i :: 0 <= i < |lines| ==> '\n' !in lines[i];
    GuiItemsOfJoinedLines(lines);
    BlankBetween("Lunch", "", "Gym");
  }

  /** The same name with spaces around it: the console stores it stripped,
      the GUI stores it as typed. */
  lemma NameExample(today: Date)
    requires ValidDate(today)
    ensures var c := Console.AddUserHoliday(Console.Empty, today, today, " Team Day ");
      c.Ok? && c.value.userHolidays[HolidayKey(today)] == "Team Day"
    ensures var g := Gui.AddUserHoliday(Gui.State(map[], map[]), today, today, " Team Day ");
      g.Ok? && g.value.userHolidays[HolidayKey(today)] == " Team Day "
  {
    StripExample();
  }

  lemma StripExample()
    ensures Trim(" Team Day ") == "Team Day"
  {
    assert " Team Day " == " " + "Team Day" + " ";
    TrimOfPadded(" ", "Team Day", " ");
  }
}
