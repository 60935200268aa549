/**
 * The widget's state and its event handlers (app.js:102-143, 236-351): the
 * selected day, the month the calendar shows, the task list and what was last
 * written to storage. Every handler ends by saving, so storage always holds
 * the snapshot of the current state.
 */
module TodoWidget {
  import opened Optional
  import opened CivilDate
  import opened DateText
  import opened TokenParser
  import opened Tasks
  import opened MonthGrid

  // ---- Persistence ----

  /** What `loadState` finds under `mpa.v2.tasks`: nothing (or ""), text `JSON.parse` rejects or parses to null, or a list. */
  datatype StoredTasks = Missing | Unreadable | Json(tasks: seq<Task>)

  /** The three storage entries; "" stands for a missing key, which `loadState` treats alike. */
  datatype Storage = Storage(tasks: StoredTasks, selected: string, month: string)

  /** `saveState` (app.js:111-115): the list, the selected day as `ymd` and the month as `ym`. */
  function Snapshot(tasks: seq<Task>, selected: Date, month: Date): (s: Storage)
    requires IsValid(selected) && IsValid(month)
    ensures s.tasks == Json(tasks) && s.selected != [] && s.month != []
  {
    Storage(Json(tasks), Ymd(selected), Ym(month))
  }

  /** Storage whose date entries, when present, are text the readers of `loadState` take apart. */
  predicate Readable(s: Storage) {
    (s.selected != [] ==> IsDateKey(s.selected)) && (s.month != [] ==> IsMonthKey(s.month))
  }

  /** `new Date(d.getFullYear(), d.getMonth(), 1)`: the first of `d`'s month, two-digit years remapped. */
  function MonthOf(d: Date): (m: Date)
    requires IsValid(d)
    ensures IsValid(m) && m == Date(FullYear(d.year), d.month, 1)
  {
    MakeDateFirst(d.year, d.month - 1);
    assert (d.month - 1) / 12 == 0 && (d.month - 1) % 12 + 1 == d.month;
    MakeDate(d.year, d.month - 1, 1)
  }

  /** The selected day `loadState` restores (app.js:117-118): the stored key, or today. */
  function LoadSelected(today: Date, stored: string): (d: Date)
    requires IsValid(today) && (stored != [] ==> IsDateKey(stored))
    ensures IsValid(d)
  {
    if stored != [] then ParseYmd(stored) else today
  }

  /** The month `loadState` restores (app.js:120-123): the stored `ym`, or the selected day's month. */
  function LoadMonth(selected: Date, stored: string): (m: Date)
    requires IsValid(selected) && (stored != [] ==> IsMonthKey(stored))
    ensures IsValid(m) && m.day == 1
  {
    if stored != [] then ParseYm(stored) else MonthOf(selected)
  }

  /** The list `loadState` restores (app.js:125-142): the stored list, [] for unreadable text, the page's items on first run. */
  function LoadTasks(stored: StoredTasks, seed: seq<Task>): seq<Task> {
    match stored
    case Missing => seed
    case Unreadable => []
    case Json(tasks) => tasks
  }

  /** A `.todo-item` in the page on first run: its label text ("" when there is none) and its checkbox. */
  datatype SeedItem = SeedItem(caption: string, checked: bool)

  /** The task made from the page's item number `idx` (app.js:134-140). */
  function SeedTask(item: SeedItem, idx: nat, today: Date, now: int): Task
    requires IsValid(today)
  {
    var caption := if item.caption != [] then item.caption else "Task " + NatToString(idx + 1);
    Task("t-init-" + NatToString(idx), Trim(caption), item.checked, now + idx, Ymd(today))
  }

  /** First-run hydration (app.js:129-141): one task per page item, in page order. */
  function Hydrate(items: seq<SeedItem>, today: Date, now: int): (tasks: seq<Task>)
    requires IsValid(today)
    ensures |tasks| == |items|
    ensures forall i :: 0 <= i < |items| ==> tasks[i].done == items[i].checked && tasks[i].created == now + i
  {
    seq(|items|, i requires 0 <= i < |items| => SeedTask(items[i], i, today, now))
  }

  /** Hydrated tasks have distinct ids and all belong to today. */
  lemma HydratedTasks(items: seq<SeedItem>, today: Date, now: int)
    requires IsValid(today)
    ensures UniqueIds(Hydrate(items, today, now))
    ensures ForDate(Hydrate(items, today, now), Ymd(today)) == Hydrate(items, today, now)
  {
    var tasks := Hydrate(items, today, now);
    forall i, j | 0 <= i < j < |tasks| ensures tasks[i].id != tasks[j].id {
      var p := "t-init-";
      if tasks[i].id == tasks[j].id {
        assert (p + NatToString(i))[|p|..] == NatToString(i);
        assert (p + NatToString(j))[|p|..] == NatToString(j);
        NatToStringInjective(i, j);
      }
    }
    ForDateAll(tasks, Ymd(today));
  }

  /** Reloading what `saveState` wrote restores the state, for years from 100 on. */
  lemma SaveLoadRoundTrip(today: Date, tasks: seq<Task>, selected: Date, month: Date, seed: seq<Task>)
    requires IsValid(today) && IsValid(selected) && IsValid(month) && month.day == 1
    requires selected.year >= 100 && month.year >= 100
    ensures var s := Snapshot(tasks, selected, month);
            Readable(s)
            && LoadSelected(today, s.selected) == selected
            && LoadMonth(selected, s.month) == month
            && LoadTasks(s.tasks, seed) == tasks
  {
    YmdRoundTrip(selected);
    YmRoundTrip(month);
  }

  // ---- Adding a task ----

  /** The two messages the form shows (app.js:295, 301). */
  datatype SubmitError = MissingName | EmptyName {
    function Message(): string {
      match this
      case MissingName => "Please enter a task name."
      case EmptyName => "Task name cannot be empty."
    }
  }

  /** The submit handler's decision (app.js:294-301): a message, or the new task's text and day. */
  datatype Decision = Reject(error: SubmitError) | Accept(text: string, due: Date)

  /**
   * Trim the input, reject it when empty, read a trailing date token against
   * the selected day, and reject what is left when it is empty.
   */
  function Decide(input: string, selected: Date): (r: Decision)
    requires IsValid(selected)
    ensures r.Accept? ==> IsValid(r.due) && r.text != [] && Trim(r.text) == r.text
  {
    var raw := Trim(input);
    if raw == [] then Reject(MissingName)
    else
      var parsed := ParseTokenDate(raw, selected);
      TextIsTrimmed(raw, selected);
      if parsed.text == [] then Reject(EmptyName)
      else Accept(parsed.text, parsed.date.GetOr(selected))
  }

  /** Blank input is refused with the first message, and only blank input. */
  lemma DecideBlank(input: string, selected: Date)
    requires IsValid(selected)
    ensures Decide(input, selected) == Reject(MissingName) <==> AllSpace(input)
  {
  }

  /** A date token alone, with or without `@`, is refused with the second message. */
  lemma DecideTokenOnly(w: string, selected: Date)
    requires IsValid(selected) && |w| >= 2 && (forall i :: 0 <= i < |w| ==> IsAsciiLetter(w[i]))
    requires Lower(w) in TokenTable
    ensures Decide(w, selected) == Reject(EmptyName)
    ensures Decide("@" + w, selected) == Reject(EmptyName)
  {
    assert !IsSpace(w[0]) && !IsSpace(w[|w| - 1]);
    TrimUnchanged(w);
    TrimUnchanged("@" + w);
    TokenOnly(w, selected);
    AtTokenOnly(w, selected);
  }

  /**
   * The second message comes only for such input: what is left after
   * trimming is a known word, optionally after one `@`, and nothing else.
   */
  lemma DecideEmptyName(input: string, selected: Date)
    requires IsValid(selected) && Decide(input, selected) == Reject(EmptyName)
    ensures var raw := Trim(input);
            exists b :: 0 <= b <= 1 && b + 2 <= |raw| && (b == 1 ==> raw[0] == '@')
                        && (forall i :: b <= i < |raw| ==> IsAsciiLetter(raw[i]))
                        && Lower(raw[b..]) in TokenTable
  {
    var raw := Trim(input);
    assert raw != [] && ParseTokenDate(raw, selected).text == [];
    OnlyTokenLeft(raw, selected);
  }

  /** A rejected submission, or an added task with the progress redrawn when it is on the selected day. */
  datatype SubmitOutcome = Added(progress: Option<nat>) | Rejected(error: SubmitError)

  /** What `refreshAll` draws (app.js:236-241): the grid, the day's tasks, the progress and the active weekday button. */
  datatype View = View(cells: seq<Cell>, items: seq<Task>, percent: nat, activeWeekday: int)

  /** The day whose progress a removal redraws: the task's own, else the selected day (app.js:350). */
  function ProgressDay(t: Task, selected: Date): string
    requires IsValid(selected)
  {
    if t.date != [] then t.date else Ymd(selected)
  }

  class Widget {
    const today: Date
    var selectedDate: Date
    var currentMonth: Date
    var tasks: seq<Task>
    var storage: Storage

    /** The shown month is a first of the month, and storage holds the snapshot of the state. */
    predicate Valid()
      reads this
    {
      IsValid(today) && IsValid(selectedDate) && IsValid(currentMonth) && currentMonth.day == 1
      && storage == Snapshot(tasks, selectedDate, currentMonth)
    }

    /** `init` (app.js:254-257): `loadState`, then `refreshAll`, which saves the loaded state. */
    constructor Load(today: Date, stored: Storage, items: seq<SeedItem>, now: int)
      requires IsValid(today) && Readable(stored)
      ensures Valid() && this.today == today
      ensures selectedDate == LoadSelected(today, stored.selected)
      ensures currentMonth == LoadMonth(selectedDate, stored.month)
      ensures tasks == LoadTasks(stored.tasks, Hydrate(items, today, now))
    {
      var selected := LoadSelected(today, stored.selected);
      var month := LoadMonth(selected, stored.month);
      var loaded := LoadTasks(stored.tasks, Hydrate(items, today, now));
      this.today := today;
      selectedDate := selected;
      currentMonth := month;
      tasks := loaded;
      storage := Snapshot(loaded, selected, month);
    }

    /** `saveState` (app.js:111-115): write the snapshot of the state to storage. */
    method SaveState()
      requires IsValid(selectedDate) && IsValid(currentMonth)
      modifies this`storage
      ensures storage == Snapshot(tasks, selectedDate, currentMonth)
    {
      storage := Snapshot(tasks, selectedDate, currentMonth);
    }

    /** `refreshAll` (app.js:236-241) without the drawing itself. */
    method Render() returns (view: View)
      requires Valid()
      ensures view.cells == MonthCells(currentMonth, today, selectedDate)
      ensures view.items == ForDate(tasks, Ymd(selectedDate))
      ensures view.percent == Percent(view.items) && view.percent <= 100
      ensures view.activeWeekday == DayOfWeek(selectedDate)
    {
      var cells := RenderMonth(currentMonth, today, selectedDate);
      var items := ForDate(tasks, Ymd(selectedDate));
      view := View(cells, items, Percent(items), DayOfWeek(selectedDate));
    }

    /**
     * The form's submit handler (app.js:292-322). `id` and `now` stand for the
     * generated id and `Date.now()`; the id must be new.
     */
    method Submit(input: string, id: string, now: int) returns (outcome: SubmitOutcome)
      requires Valid()
      requires forall i :: 0 <= i < |tasks| ==> tasks[i].id != id
      modifies this`tasks, this`storage
      ensures Valid()
      ensures Decide(input, selectedDate).Reject? ==>
                outcome == Rejected(Decide(input, selectedDate).error) && tasks == old(tasks)
      ensures Decide(input, selectedDate).Accept? ==>
                var d := Decide(input, selectedDate);
                var task := Task(id, d.text, false, now, Ymd(d.due));
                tasks == old(tasks) + [task]
                && outcome == Added(if task.date == Ymd(selectedDate) then Some(Percent(ForDate(tasks, task.date))) else None)
      ensures UniqueIds(old(tasks)) ==> UniqueIds(tasks)
    {
      var decision := Decide(input, selectedDate);
      if decision.Reject? {
        return Rejected(decision.error);
      }
      var progress := AddTask(Task(id, decision.text, false, now, Ymd(decision.due)));
      outcome := Added(progress);
    }

    /**
     * `tasks.push(newTask)`, `saveState()`, and the progress redrawn when the
     * task is on the selected day (app.js:311-318).
     */
    method AddTask(task: Task) returns (progress: Option<nat>)
      requires Valid()
      requires forall i :: 0 <= i < |tasks| ==> tasks[i].id != task.id
      modifies this`tasks, this`storage
      ensures Valid() && tasks == old(tasks) + [task]
      ensures progress == if task.date == Ymd(selectedDate) then Some(Percent(ForDate(tasks, task.date))) else None
      ensures UniqueIds(old(tasks)) ==> UniqueIds(tasks)
    {
      if UniqueIds(tasks) {
        AppendFreshKeepsUnique(tasks, task);
      }
      tasks := tasks + [task];
      SaveState();
      if task.date == Ymd(selectedDate) {
        progress := Some(Percent(ForDate(tasks, task.date)));
      } else {
        progress := None;
      }
    }

    /** The checkbox handler (app.js:328-338): the first task with `id` takes the box's state. */
    method SetDone(id: string, checked: bool) returns (progress: Option<nat>)
      requires Valid()
      modifies this`tasks, this`storage
      ensures Valid()
      ensures match FindById(old(tasks), id)
                case None => tasks == old(tasks) && progress == None
                case Some(i) =>
                  tasks == old(tasks)[i := old(tasks)[i].(done := checked)]
                  && progress == Some(Percent(ForDate(tasks, old(tasks)[i].date)))
    {
      var found := FindById(tasks, id);
      if found.None? {
        return None;
      }
      var i := found.value;
      var task := tasks[i];
      tasks := tasks[i := task.(done := checked)];
      SaveState();
      progress := Some(Percent(ForDate(tasks, task.date)));
    }

    /**
     * The remove button (app.js:340-351): every task with `id` goes; the
     * progress is redrawn for the removed task's day, or the selected day when
     * that task has no date.
     */
    method Remove(id: string) returns (progress: Option<nat>)
      requires Valid()
      modifies this`tasks, this`storage
      ensures Valid()
      ensures tasks == WithoutId(old(tasks), id)
      ensures match FindById(old(tasks), id)
                case None => progress == None
                case Some(i) => progress == Some(Percent(ForDate(tasks, ProgressDay(old(tasks)[i], selectedDate))))
    {
      var found := FindById(tasks, id);
      if found.None? {
        WithoutAbsentId(tasks, id);
        return None;
      }
      var pct := DropTask(found.value);
      progress := Some(pct);
    }

    /** The found branch of the remove button (app.js:347-350). */
    method DropTask(i: nat) returns (progress: nat)
      requires Valid() && i < |tasks|
      modifies this`tasks, this`storage
      ensures Valid()
      ensures tasks == WithoutId(old(tasks), old(tasks)[i].id)
      ensures progress == Percent(ForDate(tasks, ProgressDay(old(tasks)[i], selectedDate)))
    {
      var t := tasks[i];
      tasks := WithoutId(tasks, t.id);
      SaveState();
      progress := Percent(ForDate(tasks, ProgressDay(t, selectedDate)));
    }

    /** Clicking a day button (app.js:261-267): select its date and show its month. */
    method SelectDay(key: string)
      requires Valid() && IsDateKey(key)
      modifies this`selectedDate, this`currentMonth, this`storage
      ensures Valid()
      ensures selectedDate == ParseYmd(key) && currentMonth == MonthOf(selectedDate)
    {
      selectedDate := ParseYmd(key);
      currentMonth := MonthOf(selectedDate);
      SaveState();
    }

    /** The previous-month button (app.js:270-273): January goes back to December of the year before. */
    method PrevMonth()
      requires Valid()
      modifies this`currentMonth, this`storage
      ensures Valid()
      ensures var y, m := FullYear(old(currentMonth).year), old(currentMonth).month;
              currentMonth == if m == 1 then Date(y - 1, 12, 1) else Date(y, m - 1, 1)
    {
      PrevMonthWraps(currentMonth.year, currentMonth.month);
      currentMonth := MakeDate(currentMonth.year, currentMonth.month - 2, 1);
      SaveState();
    }

    /** The next-month button (app.js:274-277): December goes on to January of the year after. */
    method NextMonth()
      requires Valid()
      modifies this`currentMonth, this`storage
      ensures Valid()
      ensures var y, m := FullYear(old(currentMonth).year), old(currentMonth).month;
              currentMonth == if m == 12 then Date(y + 1, 1, 1) else Date(y, m + 1, 1)
    {
      NextMonthWraps(currentMonth.year, currentMonth.month);
      currentMonth := MakeDate(currentMonth.year, currentMonth.month, 1);
      SaveState();
    }

    /**
     * A weekday button (app.js:280-289): move to weekday `wd` (0 is Sunday) of
     * the Monday-based week of the selected day.
     */
    method JumpToWeekday(wd: int)
      requires Valid() && 0 <= wd < 7
      modifies this`selectedDate, this`currentMonth, this`storage
      ensures Valid()
      ensures selectedDate == WeekdayInWeekOf(old(selectedDate), wd)
      ensures DayOfWeek(selectedDate) == wd && StartOfWeek(selectedDate) == StartOfWeek(old(selectedDate))
      ensures currentMonth == MonthOf(selectedDate)
    {
      WeekdayInWeekOfSpec(selectedDate, wd);
      selectedDate := AddDays(StartOfWeek(selectedDate), WeekdayOffset(wd));
      currentMonth := MonthOf(selectedDate);
      SaveState();
    }
  }

  /** The text `parseTokenDate` leaves is trimmed. */
  lemma TextIsTrimmed(raw: string, base: Date)
    requires IsValid(base)
    ensures Trim(ParseTokenDate(raw, base).text) == ParseTokenDate(raw, base).text
  {
    match MatchToken(raw)
    case None =>
      TrimIdempotent(raw);
    case Some(m) =>
      TrimIdempotent(raw);
      TrimIdempotent(raw[..m.start]);
  }

  /** What removing a present id does to a list with unique ids. */
  lemma RemoveFound(tasks: seq<Task>, i: nat)
    requires i < |tasks|
    ensures UniqueIds(tasks) ==>
              UniqueIds(WithoutId(tasks, tasks[i].id))
              && WithoutId(tasks, tasks[i].id) == tasks[..i] + tasks[i + 1..]
  {
    if UniqueIds(tasks) {
      WithoutIdKeepsUnique(tasks, tasks[i].id);
      RemovesExactlyOne(tasks, i);
    }
  }

  /** Paging back then forward returns to the same month (years from 101 on). */
  lemma PrevNextMonthInverse(y: int, m: int)
    requires y >= 101 && 1 <= m <= 12
    ensures var prev := MakeDate(y, m - 2, 1);
            MakeDate(prev.year, prev.month, 1) == Date(y, m, 1)
  {
    PrevMonthWraps(y, m);
    var prev := MakeDate(y, m - 2, 1);
    NextMonthWraps(prev.year, prev.month);
  }

  /** Paging forward then back returns to the same month (years from 100 on). */
  lemma NextPrevMonthInverse(y: int, m: int)
    requires y >= 100 && 1 <= m <= 12
    ensures var next := MakeDate(y, m, 1);
            MakeDate(next.year, next.month - 2, 1) == Date(y, m, 1)
  {
    NextMonthWraps(y, m);
    var next := MakeDate(y, m, 1);
    PrevMonthWraps(next.year, next.month);
  }
}
