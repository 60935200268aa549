/**
 * Worked examples: the widget's documented behaviour on particular inputs.
 * The lemmas about entered text take that text as parameters pinned by their
 * `requires` (`text == "gym"`) rather than writing the literals in the
 * `ensures`: with literals in the goal the solver unrolls `Trim`, `Lower` and
 * the token scan character by character, which is far more costly than
 * applying the general lemmas to the parameters.
 */
module Scenarios {
  import opened Optional
  import opened CivilDate
  import opened DateText
  import opened TokenParser
  import opened Tasks
  import opened MonthGrid

  /** 2024 opens 738885 days after 1 January of year 1. */
  lemma Year2024()
    ensures DaysBeforeYear(2024) == 738885
  {
    DaysBeforeYearClosedForm(2024);
  }

  /** 10 March 2024 is a Sunday. */
  lemma MarchTenth2024()
    ensures DayOfWeek(Date(2024, 3, 10)) == 0
  {
    Year2024();
  }

  /** The key of 10 March 2024 is `2024-03-10`. */
  lemma MarchTenthKey()
    ensures Ymd(Date(2024, 3, 10)) == "2024-03-10"
  {
  }

  /** "gym tomorrow" on 10 March 2024 adds "gym" on 11 March (the text is a parameter, see above). */
  lemma GymTomorrow(text: string, w: string)
    requires text == "gym" && w == "tomorrow"
    ensures ParseTokenDate(text + " " + w, Date(2024, 3, 10)) == Parsed(text, Some(Date(2024, 3, 11)))
  {
    KnownWord(w);
    TrimUnchanged(text);
    TrailingToken(text, w, Date(2024, 3, 10));
    assert AddDays(Date(2024, 3, 10), 1) == Date(2024, 3, 11);
  }

  /** "call mom @Fri" on Wednesday 13 March 2024 adds "call mom" on Friday 15 March (the text is a parameter, see above). */
  lemma CallMomFriday(text: string, w: string)
    requires text == "call mom" && w == "Fri"
    ensures ParseTokenDate(text + " @" + w, Date(2024, 3, 13)) == Parsed(text, Some(Date(2024, 3, 15)))
  {
    KnownWord(w);
    TrimUnchanged(text);
    TrailingAtToken(text, w, Date(2024, 3, 13));
    FridayOfThatWeek();
  }

  /** The two words used above are letters only and name table entries; the word is a parameter for the same reason. */
  lemma KnownWord(w: string)
    requires w == "tomorrow" || w == "Fri"
    ensures |w| >= 2 && forall i :: 0 <= i < |w| ==> IsAsciiLetter(w[i])
    ensures Lower(w) in TokenTable
    ensures w == "tomorrow" ==> TokenTable[Lower(w)] == Relative(1)
    ensures w == "Fri" ==> TokenTable[Lower(w)] == Weekday(5)
  {
    if w == "tomorrow" {
      assert Lower(w) == "tomorrow";
    } else {
      assert Lower(w) == "fri";
    }
  }

  /** The Friday of the Monday-based week of Wednesday 13 March 2024 is 15 March. */
  lemma FridayOfThatWeek()
    ensures Resolve(Weekday(5), Date(2024, 3, 13)) == Date(2024, 3, 15)
  {
    var base := Date(2024, 3, 13);
    Year2024();
    assert DayOfWeek(base) == 3;
    assert StartOfWeek(base) == AddDays(base, -2);
    assert AddDays(base, -2) == Date(2024, 3, 11);
    assert WeekdayOffset(5) == 4;
    assert AddDays(Date(2024, 3, 11), 4) == Date(2024, 3, 15);
  }

  /** Two of three tasks done shows 67%. */
  lemma TwoOfThreeDone()
    ensures Percent([Task("a", "x", true, 0, ""), Task("b", "y", false, 0, ""), Task("c", "z", true, 0, "")]) == 67
  {
    var ts := [Task("a", "x", true, 0, ""), Task("b", "y", false, 0, ""), Task("c", "z", true, 0, "")];
    assert DoneCount(ts[2..]) == 1;
    assert DoneCount(ts[1..]) == 1;
    assert DoneCount(ts) == 2;
  }

  /** September 2024 starts on a Sunday: no pads, 30 buttons. */
  lemma September2024(today: Date, selected: Date)
    requires IsValid(today) && IsValid(selected)
    ensures var cells := MonthCells(Date(2024, 9, 1), today, selected);
            |cells| == 30 && cells[0].Day? && cells[0].number == 1
  {
    Year2024();
    assert DayOfWeek(Date(2024, 9, 1)) == 0;
    GridCell(Date(2024, 9, 1), today, selected, 0);
  }

  /** June 2024 starts on a Saturday: six pads before the 1st. */
  lemma June2024(today: Date, selected: Date)
    requires IsValid(today) && IsValid(selected)
    ensures var cells := MonthCells(Date(2024, 6, 1), today, selected);
            |cells| == 36 && cells[5] == Pad && cells[6].Day? && cells[6].number == 1
  {
    Year2024();
    assert DayOfWeek(Date(2024, 6, 1)) == 6;
    GridCell(Date(2024, 6, 1), today, selected, 5);
    GridCell(Date(2024, 6, 1), today, selected, 6);
  }

  /** February 2024, a leap year, has 29 buttons after four pads (it starts on a Thursday). */
  lemma February2024(today: Date, selected: Date)
    requires IsValid(today) && IsValid(selected)
    ensures var cells := MonthCells(Date(2024, 2, 1), today, selected);
            |cells| == 33 && cells[32].Day? && cells[32].number == 29
  {
    Year2024();
    assert DayOfWeek(Date(2024, 2, 1)) == 4;
    GridCell(Date(2024, 2, 1), today, selected, 32);
  }
}
