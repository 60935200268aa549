/**
 * Civil (proleptic Gregorian) dates and the date arithmetic the widget asks of
 * JavaScript's `Date`: day rollover, day of week, the Monday-based week and the
 * normalising constructor `new Date(year, monthIndex, day)`.
 * Every date in this model is a whole day; time of day does not exist here.
 */
module CivilDate {
  import opened Arith

  /** A calendar date; `month` is 1..12 (JavaScript's `getMonth() + 1`). */
  datatype Date = Date(year: int, month: int, day: int)

  predicate IsLeapYear(y: int) {
    y % 4 == 0 && (y % 100 != 0 || y % 400 == 0)
  }

  function DaysInMonth(y: int, m: int): (n: int)
    requires 1 <= m <= 12
    ensures 28 <= n <= 31
    ensures m == 2 ==> (n == 29 <==> IsLeapYear(y))
  {
    if m == 2 then (if IsLeapYear(y) then 29 else 28)
    else if m == 4 || m == 6 || m == 9 || m == 11 then 30
    else 31
  }

  /** A date that exists in the Gregorian calendar. */
  predicate IsValid(d: Date) {
    1 <= d.month <= 12 && 1 <= d.day <= DaysInMonth(d.year, d.month)
  }

  function NextDay(d: Date): (r: Date)
    requires IsValid(d)
    ensures IsValid(r)
  {
    if d.day < DaysInMonth(d.year, d.month) then d.(day := d.day + 1)
    else if d.month < 12 then Date(d.year, d.month + 1, 1)
    else Date(d.year + 1, 1, 1)
  }

  function PrevDay(d: Date): (r: Date)
    requires IsValid(d)
    ensures IsValid(r)
  {
    if d.day > 1 then d.(day := d.day - 1)
    else if d.month > 1 then Date(d.year, d.month - 1, DaysInMonth(d.year, d.month - 1))
    else Date(d.year - 1, 12, 31)
  }

  /**
   * `addDays(d, n)` (app.js:43): `setDate(getDate() + n)` lets `Date` roll the
   * day over month and year boundaries; here the rollover is taken one day at
   * a time, forwards for positive `n` and backwards for negative `n`.
   */
  function AddDays(d: Date, n: int): (r: Date)
    requires IsValid(d)
    ensures IsValid(r)
    decreases if n < 0 then -n else n
  {
    if n == 0 then d
    else if n > 0 then NextDay(AddDays(d, n - 1))
    else PrevDay(AddDays(d, n + 1))
  }

  // ---- Day numbers ----

  function DaysInYear(y: int): (n: int)
    ensures n == 365 || n == 366
  {
    if IsLeapYear(y) then 366 else 365
  }

  /** Signed count of days from 0001-01-01 to the first of January of year `y`. */
  function DaysBeforeYear(y: int): int
    decreases if y < 1 then 1 - y else y - 1
  {
    if y == 1 then 0
    else if y > 1 then DaysBeforeYear(y - 1) + DaysInYear(y - 1)
    else DaysBeforeYear(y + 1) - DaysInYear(y)
  }

  /** Days of year `y` before the first of month `m`. */
  function DaysBeforeMonth(y: int, m: int): int
    requires 1 <= m <= 12
  {
    if m == 1 then 0 else DaysBeforeMonth(y, m - 1) + DaysInMonth(y, m - 1)
  }

  /** Day number of a date: 0001-01-01 is day 0. */
  function ToDays(d: Date): int
    requires IsValid(d)
  {
    DaysBeforeYear(d.year) + DaysBeforeMonth(d.year, d.month) + d.day - 1
  }

  /** JavaScript's `getDay()`: 0 = Sunday .. 6 = Saturday (0001-01-01 was a Monday). */
  function DayOfWeek(d: Date): (w: int)
    requires IsValid(d)
    ensures 0 <= w < 7
  {
    (ToDays(d) + 1) % 7
  }

  lemma YearLength(y: int)
    ensures DaysBeforeYear(y + 1) - DaysBeforeYear(y) == DaysInYear(y)
  {
  }

  /** The closed form of the day count: 365 a year plus one per leap year (floor division). */
  lemma {:induction false} DaysBeforeYearClosedForm(y: int)
    ensures DaysBeforeYear(y) == 365 * (y - 1) + (y - 1) / 4 - (y - 1) / 100 + (y - 1) / 400
    decreases if y < 1 then 1 - y else y - 1
  {
    if y > 1 {
      DaysBeforeYearClosedForm(y - 1);
      LeapCount(y - 1);
    } else if y < 1 {
      DaysBeforeYearClosedForm(y + 1);
      LeapCount(y);
    }
  }

  /** One more leap day in the count exactly when year `y` is a leap year. */
  lemma LeapCount(y: int)
    ensures y / 4 - (y - 1) / 4 - (y / 100 - (y - 1) / 100) + (y / 400 - (y - 1) / 400)
            == DaysInYear(y) - 365
  {
    FloorStep(y, 4);
    FloorStep(y, 100);
    FloorStep(y, 400);
    if y % 400 == 0 {
      var t := y / 400;
      DivUnique(y, 400, t, 0);
      DivUnique(y, 100, 4 * t, 0);
      DivUnique(y, 4, 100 * t, 0);
    } else if y % 100 == 0 {
      var t := y / 100;
      DivUnique(y, 100, t, 0);
      DivUnique(y, 4, 25 * t, 0);
    }
  }

  lemma DaysBeforeDecember(y: int)
    ensures DaysBeforeMonth(y, 12) == if IsLeapYear(y) then 335 else 334
  {
    var leap := if IsLeapYear(y) then 1 else 0;
    assert DaysBeforeMonth(y, 2) == 31;
    assert DaysBeforeMonth(y, 3) == 59 + leap;
    assert DaysBeforeMonth(y, 4) == 90 + leap;
    assert DaysBeforeMonth(y, 5) == 120 + leap;
    assert DaysBeforeMonth(y, 6) == 151 + leap;
    assert DaysBeforeMonth(y, 7) == 181 + leap;
    assert DaysBeforeMonth(y, 8) == 212 + leap;
    assert DaysBeforeMonth(y, 9) == 243 + leap;
    assert DaysBeforeMonth(y, 10) == 273 + leap;
    assert DaysBeforeMonth(y, 11) == 304 + leap;
  }

  /** The day after `d` has the next day number. */
  lemma NextDayNumber(d: Date)
    requires IsValid(d)
    ensures ToDays(NextDay(d)) == ToDays(d) + 1
  {
    if d.day == DaysInMonth(d.year, d.month) && d.month == 12 {
      YearLength(d.year);
      DaysBeforeDecember(d.year);
    }
  }

  /** NextDay and PrevDay undo each other. */
  lemma NextPrevInverse(d: Date)
    requires IsValid(d)
    ensures PrevDay(NextDay(d)) == d
    ensures NextDay(PrevDay(d)) == d
  {
  }

  lemma PrevDayNumber(d: Date)
    requires IsValid(d)
    ensures ToDays(PrevDay(d)) == ToDays(d) - 1
  {
    NextPrevInverse(d);
    NextDayNumber(PrevDay(d));
  }

  /** Shifting by `n` days moves the day number by exactly `n`: the rollover is calendar-correct. */
  lemma {:induction false} AddDaysNumber(d: Date, n: int)
    requires IsValid(d)
    ensures ToDays(AddDays(d, n)) == ToDays(d) + n
    decreases if n < 0 then -n else n
  {
    if n > 0 {
      AddDaysNumber(d, n - 1);
      NextDayNumber(AddDays(d, n - 1));
    } else if n < 0 {
      AddDaysNumber(d, n + 1);
      PrevDayNumber(AddDays(d, n + 1));
    }
  }

  lemma AddDaysSucc(d: Date, k: int)
    requires IsValid(d)
    ensures AddDays(d, k + 1) == NextDay(AddDays(d, k))
  {
    if k < 0 {
      NextPrevInverse(AddDays(d, k + 1));
    }
  }

  lemma AddDaysPred(d: Date, k: int)
    requires IsValid(d)
    ensures AddDays(d, k - 1) == PrevDay(AddDays(d, k))
  {
    if k > 0 {
      NextPrevInverse(AddDays(d, k - 1));
    }
  }

  /** Two shifts compose into one. */
  lemma {:induction false} AddDaysCompose(d: Date, n: int, m: int)
    requires IsValid(d)
    ensures AddDays(AddDays(d, n), m) == AddDays(d, n + m)
    decreases if m < 0 then -m else m
  {
    if m > 0 {
      AddDaysCompose(d, n, m - 1);
      AddDaysSucc(d, n + m - 1);
    } else if m < 0 {
      AddDaysCompose(d, n, m + 1);
      AddDaysPred(d, n + m + 1);
    }
  }

  /** Adding `n` days and then `-n` days gives back the original date. */
  lemma AddDaysInverse(d: Date, n: int)
    requires IsValid(d)
    ensures AddDays(AddDays(d, n), -n) == d
  {
    AddDaysCompose(d, n, -n);
  }

  /** The weekday advances by `n` modulo 7. */
  lemma DayOfWeekShift(d: Date, n: int)
    requires IsValid(d)
    ensures DayOfWeek(AddDays(d, n)) == (DayOfWeek(d) + n) % 7
  {
    AddDaysNumber(d, n);
    WeekdayApart(d, AddDays(d, n), n);
  }

  /** Two dates `n` days apart are `n` weekdays apart. */
  lemma WeekdayApart(x: Date, y: Date, n: int)
    requires IsValid(x) && IsValid(y) && ToDays(y) == ToDays(x) + n
    ensures DayOfWeek(y) == (DayOfWeek(x) + n) % 7
  {
    ModSevenShift(ToDays(x) + 1, n);
  }

  lemma ModSevenShift(a: int, n: int)
    ensures (a + n) % 7 == (a % 7 + n) % 7
  {
  }

  // ---- Monday-based weeks ----

  /**
   * `startOfWeek(d, 1)` (app.js:46-51): step back `(dow - 1 + 7) % 7` days,
   * so Sunday belongs to the week that began six days earlier.
   */
  function StartOfWeek(d: Date): (r: Date)
    requires IsValid(d)
    ensures IsValid(r)
  {
    AddDays(d, -((DayOfWeek(d) - 1 + 7) % 7))
  }

  /** The week start is a Monday at most six days before `d`. */
  lemma StartOfWeekIsMonday(d: Date)
    requires IsValid(d)
    ensures DayOfWeek(StartOfWeek(d)) == 1
    ensures ToDays(StartOfWeek(d)) <= ToDays(d) < ToDays(StartOfWeek(d)) + 7
  {
    var w := DayOfWeek(d);
    var diff := (w - 1 + 7) % 7;
    DayOfWeekShift(d, -diff);
    MondayBack(w);
    AddDaysNumber(d, -diff);
  }

  /** Offset of weekday `wd` (0 = Sunday) from the Monday that starts its week: Sun -> 6, Mon -> 0, ... */
  function WeekdayOffset(wd: int): (k: int)
    requires 0 <= wd < 7
    ensures 0 <= k < 7 && (1 + k) % 7 == wd
  {
    if wd == 0 then 6 else wd - 1
  }

  /**
   * Weekday `wd` of the Monday-based week that contains `base` (app.js:93-95
   * and app.js:284-286): it may lie before `base`, never in another week.
   */
  function WeekdayInWeekOf(base: Date, wd: int): (r: Date)
    requires IsValid(base) && 0 <= wd < 7
    ensures IsValid(r)
  {
    AddDays(StartOfWeek(base), WeekdayOffset(wd))
  }

  /** Every date of a week has that week's Monday as its week start. */
  lemma StartOfWeekOfWeekday(monday: Date, k: int)
    requires IsValid(monday) && DayOfWeek(monday) == 1 && 0 <= k < 7
    ensures StartOfWeek(AddDays(monday, k)) == monday
  {
    var day := AddDays(monday, k);
    var w := DayOfWeek(day);
    DayOfWeekShift(monday, k);
    WeekdayBack(k);
    assert (w - 1 + 7) % 7 == k;
    assert StartOfWeek(day) == AddDays(day, -k);
    AddDaysCompose(monday, k, -k);
    assert AddDays(monday, 0) == monday;
  }

  lemma MondayBack(w: int)
    requires 0 <= w < 7
    ensures 0 <= (w - 1 + 7) % 7 < 7 && (w - (w - 1 + 7) % 7) % 7 == 1
  {
  }

  lemma WeekdayBack(k: int)
    requires 0 <= k < 7
    ensures ((1 + k) % 7 - 1 + 7) % 7 == k
  {
  }

  /** The resolved weekday has the requested day of week and lies in the base date's week. */
  lemma WeekdayInWeekOfSpec(base: Date, wd: int)
    requires IsValid(base) && 0 <= wd < 7
    ensures DayOfWeek(WeekdayInWeekOf(base, wd)) == wd
    ensures StartOfWeek(WeekdayInWeekOf(base, wd)) == StartOfWeek(base)
    ensures ToDays(StartOfWeek(base)) <= ToDays(WeekdayInWeekOf(base, wd)) < ToDays(StartOfWeek(base)) + 7
  {
    var monday := StartOfWeek(base);
    StartOfWeekIsMonday(base);
    DayOfWeekShift(monday, WeekdayOffset(wd));
    AddDaysNumber(monday, WeekdayOffset(wd));
    StartOfWeekOfWeekday(monday, WeekdayOffset(wd));
  }

  // ---- The normalising constructor new Date(year, monthIndex, day) ----

  /** `new Date(y, ...)` reads a year argument in 0..99 as 1900..1999. */
  function FullYear(y: int): (r: int)
    ensures 0 <= y <= 99 ==> r == 1900 + y
    ensures r != y <==> 0 <= y <= 99
  {
    if 0 <= y <= 99 then 1900 + y else y
  }

  /**
   * `new Date(y, monthIndex, day)` at midnight: the year is remapped, an
   * out-of-range month index carries into the year (floor division), and the
   * day counts from the first of that month, so day 0 is the last day of the
   * month before.
   */
  function MakeDate(y: int, monthIndex: int, day: int): (r: Date)
    ensures IsValid(r)
  {
    AddDays(Date(FullYear(y) + monthIndex / 12, monthIndex % 12 + 1, 1), day - 1)
  }

  lemma {:induction false} AddDaysWithinMonth(y: int, m: int, k: int)
    requires 1 <= m <= 12 && 0 <= k < DaysInMonth(y, m)
    ensures AddDays(Date(y, m, 1), k) == Date(y, m, k + 1)
  {
    if k > 0 {
      AddDaysWithinMonth(y, m, k - 1);
    }
  }

  /** An in-range day of month is taken as is. */
  lemma MakeDateInMonth(y: int, monthIndex: int, day: int)
    requires 1 <= day <= DaysInMonth(FullYear(y) + monthIndex / 12, monthIndex % 12 + 1)
    ensures MakeDate(y, monthIndex, day) == Date(FullYear(y) + monthIndex / 12, monthIndex % 12 + 1, day)
  {
    AddDaysWithinMonth(FullYear(y) + monthIndex / 12, monthIndex % 12 + 1, day - 1);
  }

  /** A calendar month `m` (1 to 12) passed as index `m - 1` with an in-range day names that day. */
  lemma MakeDateOfFields(y: int, m: int, day: int)
    requires 1 <= m <= 12 && 1 <= day <= DaysInMonth(FullYear(y), m)
    ensures MakeDate(y, m - 1, day) == Date(FullYear(y), m, day)
  {
    assert (m - 1) / 12 == 0 && (m - 1) % 12 + 1 == m;
    MakeDateInMonth(y, m - 1, day);
  }

  /** The first of a month, as `new Date(y, monthIndex, 1)` builds it. */
  lemma MakeDateFirst(y: int, monthIndex: int)
    ensures MakeDate(y, monthIndex, 1) == Date(FullYear(y) + monthIndex / 12, monthIndex % 12 + 1, 1)
  {
    MakeDateInMonth(y, monthIndex, 1);
  }

  /** Day 0 of the next month is the last day of this one (app.js:155). */
  lemma MakeDateDayZero(y: int, monthIndex: int)
    ensures var yy, mm := FullYear(y) + monthIndex / 12, monthIndex % 12 + 1;
            MakeDate(y, monthIndex + 1, 0) == Date(yy, mm, DaysInMonth(yy, mm))
  {
    var first := Date(FullYear(y) + (monthIndex + 1) / 12, (monthIndex + 1) % 12 + 1, 1);
    assert AddDays(first, -1) == PrevDay(AddDays(first, 0));
  }

  /** The day after the last of a month, as `new Date(y, monthIndex, last + 1)` builds it. */
  lemma MakeDatePastEnd(y: int, monthIndex: int)
    ensures var yy, mm := FullYear(y) + monthIndex / 12, monthIndex % 12 + 1;
            MakeDate(y, monthIndex, DaysInMonth(yy, mm) + 1) == NextDay(Date(yy, mm, DaysInMonth(yy, mm)))
  {
    var yy, mm := FullYear(y) + monthIndex / 12, monthIndex % 12 + 1;
    var last := DaysInMonth(yy, mm);
    MakeDateInMonth(y, monthIndex, last);
    AddDaysSucc(Date(yy, mm, 1), last - 1);
  }

  /** Previous month (app.js:271): January wraps to December of the year before. */
  lemma PrevMonthWraps(y: int, m: int)
    requires 1 <= m <= 12
    ensures MakeDate(y, m - 2, 1) == if m == 1 then Date(FullYear(y) - 1, 12, 1) else Date(FullYear(y), m - 1, 1)
  {
    MakeDateFirst(y, m - 2);
  }

  /** Next month (app.js:275): December wraps to January of the year after. */
  lemma NextMonthWraps(y: int, m: int)
    requires 1 <= m <= 12
    ensures MakeDate(y, m, 1) == if m == 12 then Date(FullYear(y) + 1, 1, 1) else Date(FullYear(y), m + 1, 1)
  {
    MakeDateFirst(y, m);
  }
}
