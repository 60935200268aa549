/**
 * The month grid `renderCalendar` draws (app.js:146-181): one blank pad for
 * each weekday before the 1st in a Sunday-first row, then one button per day
 * of the month carrying its number, its `ymd` key and two highlight flags.
 */
module MonthGrid {
  import opened CivilDate
  import opened DateText

  datatype Cell = Pad | Day(number: int, key: string, isToday: bool, isSelected: bool)

  /** The button of `date`: highlighted when its key equals today's or the selected day's key. */
  function DayButton(date: Date, today: Date, selected: Date): Cell
    requires IsValid(date) && IsValid(today) && IsValid(selected)
  {
    var key := Ymd(date);
    Day(date.day, key, key == Ymd(today), key == Ymd(selected))
  }

  /** `n` pads. */
  function PadRow(n: nat): (r: seq<Cell>)
    ensures |r| == n
  {
    if n == 0 then [] else PadRow(n - 1) + [Pad]
  }

  /** The buttons of days 1 to `n` of month `m` of year `y`, in order. */
  function Buttons(y: int, m: int, n: int, today: Date, selected: Date): (r: seq<Cell>)
    requires 1 <= m <= 12 && 0 <= n <= DaysInMonth(y, m) && IsValid(today) && IsValid(selected)
    ensures |r| == n
  {
    if n == 0 then [] else Buttons(y, m, n - 1, today, selected) + [DayButton(Date(y, m, n), today, selected)]
  }

  /**
   * The grid of `currentMonth`: as many pads as the weekday of the 1st, then
   * one button per day of the month. The month is that of
   * `new Date(year, month, 1)`, so a year from 0 to 99 is drawn as 1900 to 1999.
   */
  function MonthCells(currentMonth: Date, today: Date, selected: Date): (cells: seq<Cell>)
    requires IsValid(currentMonth) && IsValid(today) && IsValid(selected)
    ensures var y, m := FullYear(currentMonth.year), currentMonth.month;
            |cells| == DayOfWeek(Date(y, m, 1)) + DaysInMonth(y, m)
  {
    var y, m := FullYear(currentMonth.year), currentMonth.month;
    PadRow(DayOfWeek(Date(y, m, 1))) + Buttons(y, m, DaysInMonth(y, m), today, selected)
  }

  /** `renderCalendar` (app.js:150-180): the pads, then the day buttons. */
  method RenderMonth(currentMonth: Date, today: Date, selected: Date) returns (cells: seq<Cell>)
    requires IsValid(currentMonth) && IsValid(today) && IsValid(selected)
    ensures cells == MonthCells(currentMonth, today, selected)
  {
    var year, month := currentMonth.year, currentMonth.month - 1;
    MonthStartEnd(year, month);
    var firstW := DayOfWeek(MakeDate(year, month, 1));
    var lastDay := MakeDate(year, month + 1, 0).day;
    var pads := Pads(firstW);
    var days := DayButtons(year, month, lastDay, today, selected);
    cells := pads + days;
  }

  /** The first loop (app.js:158-162): one pad per weekday before the 1st. */
  method Pads(n: nat) returns (cells: seq<Cell>)
    ensures cells == PadRow(n)
  {
    cells := [];
    var i := 0;
    while i < n
      invariant 0 <= i <= n
      invariant cells == PadRow(i)
    {
      cells := cells + [Pad];
      i := i + 1;
    }
  }

  /** The second loop (app.js:165-180): the buttons of days 1 to `lastDay` of month index `month`. */
  method DayButtons(year: int, month: int, lastDay: int, today: Date, selected: Date) returns (cells: seq<Cell>)
    requires 0 <= month < 12 && IsValid(today) && IsValid(selected)
    requires lastDay == DaysInMonth(FullYear(year), month + 1)
    ensures cells == Buttons(FullYear(year), month + 1, lastDay, today, selected)
  {
    ghost var y, m := FullYear(year), month + 1;
    cells := [];
    var d := 1;
    while d <= lastDay
      invariant 1 <= d <= lastDay + 1
      invariant cells == Buttons(y, m, d - 1, today, selected)
    {
      MonthIndexDate(year, month, d);
      var date := MakeDate(year, month, d);
      var key := Ymd(date);
      cells := cells + [Day(d, key, key == Ymd(today), key == Ymd(selected))];
      d := d + 1;
    }
  }

  /** The first and the last day `renderCalendar` builds from a month index `0 <= month < 12`. */
  lemma MonthStartEnd(year: int, month: int)
    requires 0 <= month < 12
    ensures var y, m := FullYear(year), month + 1;
            MakeDate(year, month, 1) == Date(y, m, 1)
            && MakeDate(year, month + 1, 0) == Date(y, m, DaysInMonth(y, m))
  {
    assert month / 12 == 0 && month % 12 + 1 == month + 1;
    MakeDateFirst(year, month);
    MakeDateDayZero(year, month);
  }

  /** Day `day` of month index `0 <= month < 12` is that day of month `month + 1`. */
  lemma MonthIndexDate(year: int, month: int, day: int)
    requires 0 <= month < 12 && 1 <= day <= DaysInMonth(FullYear(year), month + 1)
    ensures MakeDate(year, month, day) == Date(FullYear(year), month + 1, day)
  {
    assert month / 12 == 0 && month % 12 + 1 == month + 1;
    MakeDateInMonth(year, month, day);
  }

  /** Every cell of a pad row is a pad. */
  lemma {:induction false} PadRowAt(n: nat, j: int)
    requires 0 <= j < n
    ensures PadRow(n)[j] == Pad
  {
    if j < n - 1 {
      PadRowAt(n - 1, j);
    }
  }

  /** Button `j` of the row is the button of day `j + 1`. */
  lemma {:induction false} ButtonsAt(y: int, m: int, n: int, today: Date, selected: Date, j: int)
    requires 1 <= m <= 12 && 0 <= n <= DaysInMonth(y, m) && IsValid(today) && IsValid(selected)
    requires 0 <= j < n
    ensures Buttons(y, m, n, today, selected)[j] == DayButton(Date(y, m, j + 1), today, selected)
  {
    if j < n - 1 {
      ButtonsAt(y, m, n - 1, today, selected, j);
    }
  }

  /**
   * Cell `i` of the grid: a pad before the weekday of the 1st, from there on
   * the button of day `i - pads + 1`.
   */
  lemma GridCell(currentMonth: Date, today: Date, selected: Date, i: int)
    requires IsValid(currentMonth) && IsValid(today) && IsValid(selected)
    requires 0 <= i < |MonthCells(currentMonth, today, selected)|
    ensures var y, m := FullYear(currentMonth.year), currentMonth.month;
            var pads := DayOfWeek(Date(y, m, 1));
            var cell := MonthCells(currentMonth, today, selected)[i];
            (i < pads ==> cell == Pad)
            && (i >= pads ==> 1 <= i - pads + 1 <= DaysInMonth(y, m)
                              && cell == DayButton(Date(y, m, i - pads + 1), today, selected))
  {
    var y, m := FullYear(currentMonth.year), currentMonth.month;
    var pads := DayOfWeek(Date(y, m, 1));
    var row, days := PadRow(pads), Buttons(y, m, DaysInMonth(y, m), today, selected);
    assert MonthCells(currentMonth, today, selected) == row + days;
    if i < pads {
      PadRowAt(pads, i);
    } else {
      assert (row + days)[i] == days[i - pads];
      ButtonsAt(y, m, DaysInMonth(y, m), today, selected, i - pads);
    }
  }

  /**
   * Day `k + 1` of a month falls on weekday `(pads + k) % 7`: in a seven-column
   * Sunday-first layout every button sits under its own weekday.
   */
  lemma {:induction false} GridColumn(y: int, m: int, k: int)
    requires 1 <= m <= 12 && 0 <= k < DaysInMonth(y, m)
    ensures DayOfWeek(Date(y, m, k + 1)) == (DayOfWeek(Date(y, m, 1)) + k) % 7
  {
    AddDaysWithinMonth(y, m, k);
    DayOfWeekShift(Date(y, m, 1), k);
  }

  /** The today and selected flags pick out exactly the matching dates, in every year. */
  lemma HighlightsExact(date: Date, today: Date, selected: Date)
    requires IsValid(date) && IsValid(today) && IsValid(selected)
    ensures DayButton(date, today, selected).isToday <==> date == today
    ensures DayButton(date, today, selected).isSelected <==> date == selected
  {
    YmdInjective(date, today);
    YmdInjective(date, selected);
  }

  /**
   * When the selected day lies in the month the grid draws (for a stored
   * year from 0 to 99 that is the month of 1900 + year), exactly one cell is
   * a button marked selected: the one of that day.
   */
  lemma SelectedDayHighlighted(currentMonth: Date, today: Date, selected: Date, i: int)
    requires IsValid(currentMonth) && IsValid(today) && IsValid(selected)
    requires selected.year == FullYear(currentMonth.year) && selected.month == currentMonth.month
    requires 0 <= i < |MonthCells(currentMonth, today, selected)|
    ensures var pads := DayOfWeek(Date(FullYear(currentMonth.year), currentMonth.month, 1));
            var cell := MonthCells(currentMonth, today, selected)[i];
            cell.Day? && cell.isSelected <==> i == pads + selected.day - 1
  {
    var y, m := FullYear(currentMonth.year), currentMonth.month;
    var pads := DayOfWeek(Date(y, m, 1));
    GridCell(currentMonth, today, selected, i);
    if i >= pads {
      HighlightsExact(Date(y, m, i - pads + 1), today, selected);
    }
  }

  /**
   * The key of a grid button reads back, through `parseYMD`, as that button's
   * date in the month drawn (stored years from 0 on, so drawn years from 100 on).
   */
  lemma GridKeyReadsBack(currentMonth: Date, today: Date, selected: Date, i: int)
    requires IsValid(currentMonth) && IsValid(today) && IsValid(selected)
    requires currentMonth.year >= 0
    requires 0 <= i < |MonthCells(currentMonth, today, selected)| && MonthCells(currentMonth, today, selected)[i].Day?
    ensures var cell := MonthCells(currentMonth, today, selected)[i];
            IsDateKey(cell.key) && ParseYmd(cell.key) == Date(FullYear(currentMonth.year), currentMonth.month, cell.number)
  {
    var y, m := FullYear(currentMonth.year), currentMonth.month;
    var pads := DayOfWeek(Date(y, m, 1));
    GridCell(currentMonth, today, selected, i);
    YmdRoundTrip(Date(y, m, i - pads + 1));
  }
}
