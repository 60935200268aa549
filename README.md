# Month-calendar to-do widget, modelled in Dafny

The widget in `app.js` is a to-do list tied to a month calendar. The user
picks a day in the calendar (or jumps to a weekday of the selected day's
Monday-based week) and sees that day's tasks with a progress bar. A task is
added through a form. A trailing word such as `tomorrow`, `@fri` or `today`
moves the task to another day, and the word is removed from the text. Tasks
can be checked off and removed. The task list, the selected day (`YYYY-MM-DD`)
and the month shown (`YYYY-MM`) are saved to local storage after every change
and restored on load. On first run the tasks are taken from the `.todo-item`
elements already in the page.

The model is split by concern:

- `civil_date.dfy` (`CivilDate`): Gregorian dates.
  - Day numbers, `getDay`, `addDays` and `startOfWeek(d, 1)`.
  - The normalising constructor `new Date(year, monthIndex, day)`, with its
    two-digit-year remap.
- `date_text.dfy` (`DateText`): `String(n)`, `padStart`, `ymd`, `ym`,
  `split('-')` and `parseYMD`, with their round trips.
- `token_parser.dfy` (`TokenParser`): `trim`, the trailing-token regular
  expression, `tokenMap` and `parseTokenDate`.
- `tasks.dfy` (`Tasks`): the task record, the per-day filter, the progress
  percentage, and lookup and removal by id.
- `month_grid.dfy` (`MonthGrid`): the cells `renderCalendar` produces, as a
  function and as the two loops of the source.
- `todo_widget.dfy` (`TodoWidget`): the widget state as a class (`Widget`).
  - Its fields are the selected day, the month shown, the tasks and storage.
  - `loadState`/`init` is its constructor.
  - `saveState`, `refreshAll` and every event handler are methods that keep
    storage equal to the snapshot of the state.
- `scenarios.dfy` (`Scenarios`): worked examples on concrete dates.
- `arith.dfy` (`Arith`) and `optional.dfy` (`Optional`): helpers.

Dates are proleptic Gregorian `Date(year, month, day)` values with months
1 to 12. Day 0 is 1 January of year 1, and `DayOfWeek` follows `getDay`
(0 is Sunday).

Two details of the code that the model follows as written:

- `parseTokenDate(rawText, baseDate)` takes the base date as a parameter and
  uses it for the relative words (app.js:90), but its weekday branch reads the
  enclosing `selectedDate` variable instead of `baseDate` (app.js:93). Its only
  caller passes `selectedDate` as `baseDate` (app.js:298), so the two are the
  same date at every call, and the model resolves both kinds of word against
  the `base` parameter.
- Saving and reloading a day gives the same day back only for years from
  100 on. A year from 0 to 99 is written without padding and read back by
  `new Date(y, ...)` as 1900 + y (see `DateText.TwoDigitYearRemapped`).

## Model

| member | source | states |
|---|---|---|
| CivilDate.DaysInMonth | app.js:155 | A month has 28 to 31 days, and February has 29 exactly in leap years (the last day `new Date(y, m + 1, 0)` reads) |
| CivilDate.AddDaysNumber | app.js:43 | `addDays(d, n)` moves the day number by exactly n, forwards or backwards |
| CivilDate.AddDaysCompose | app.js:43 | Adding n days and then m days is adding n + m days |
| CivilDate.AddDaysInverse | app.js:43 | Adding n days and then -n days gives back the date |
| CivilDate.NextPrevInverse | app.js:43 | The one-day steps `addDays` is built from undo each other |
| CivilDate.DayOfWeekShift | app.js:48 | `getDay` of d + n days is `(getDay(d) + n) mod 7` |
| CivilDate.StartOfWeekIsMonday | app.js:46-51 | `startOfWeek(d, 1)` is a Monday, d itself or at most six days before d |
| CivilDate.StartOfWeekOfWeekday | app.js:46-51 | Each of the seven days from a Monday has that Monday as its week start |
| CivilDate.WeekdayOffset | app.js:94 | The offset `wd === 0 ? 6 : wd - 1` is in 0..6, and the Monday plus that offset falls on weekday wd |
| CivilDate.WeekdayInWeekOfSpec | app.js:284-286 | The target of a weekday jump has the requested weekday, lies in the same Monday-based week and is not more than six days from its Monday |
| CivilDate.FullYear | app.js:39 | `new Date(y, ...)` changes the year exactly when y is in 0..99, and then to 1900 + y |
| CivilDate.MakeDateInMonth | app.js:39 | `new Date(y, mi, d)` for a day within the month is that date, with the month index carried into the year by floor division by 12 |
| CivilDate.MakeDateFirst | app.js:122 | `new Date(y, mi, 1)` is the first of the normalised month for every month index, negative or past 11 |
| CivilDate.MakeDateDayZero | app.js:155 | Day 0 of the next month index is the last day of the month |
| CivilDate.MakeDatePastEnd | app.js:39 | A day one past the end of the month rolls over to the first of the next month |
| CivilDate.PrevMonthWraps | app.js:271 | Month index `getMonth() - 1` gives the previous month, and January goes to December of the year before |
| CivilDate.NextMonthWraps | app.js:275 | Month index `getMonth() + 1` gives the next month, and December goes to January of the year after |
| DateText.NatToStringValue | app.js:32-33 | `Number(String(n)) == n` for every non-negative n |
| DateText.NatToStringInjective | app.js:31-34 | Distinct numbers print as distinct strings |
| DateText.PadTwoValue | app.js:32-33 | `padStart(2, '0')` keeps a digit string's value |
| DateText.YmdFields | app.js:30-38 | `ymd(d).split('-')` gives exactly the year, month and day fields |
| DateText.YmFields | app.js:36 | `ym(d).split('-')` gives exactly the year and month fields |
| DateText.YmdReadBack | app.js:30-42 | `parseYMD(ymd(d))` is `new Date(year, month - 1, day)` for every year from 0 on |
| DateText.YmdRoundTrip | app.js:30-42 | `parseYMD(ymd(d)) == d` for years from 100 on |
| DateText.YmRoundTrip | app.js:114-123 | The stored month reads back as the first of the same month for years from 100 on |
| DateText.TwoDigitYearRemapped | app.js:37-42 | A day in years 0..99 reads back as the same day of 1900 + year |
| DateText.TwoDigitLeapDayRollsOver | app.js:37-42 | 29 February of such a year reads back as 1 March of 1900 + year when that is not a leap year |
| DateText.FebruaryTwentyNinthOverflows | app.js:39 | `new Date(y, 1, 29)` is 1 March when the year is not leap |
| DateText.YearToStringInjective | app.js:31-34 | Distinct years, negative ones included, print as distinct strings |
| DateText.YmdInjective | app.js:175-176 | Comparing `ymd` keys compares dates in every year, negative years included, both directions |
| TokenParser.Trim | app.js:98 | `trim()` is empty exactly for all-space text; otherwise it starts and ends with a non-space and is the text between a leading and a trailing run of spaces |
| TokenParser.TrimIdempotent | app.js:294 | Trimming twice is trimming once |
| TokenParser.MatchTokenIff | app.js:81-82 | The backwards scan reports a match (start, word start, word end) exactly when the trailing-token regular expression matches there (`MatchesAt`: start of text or a space, an optional `@`, two or more ASCII letters, trailing spaces) |
| TokenParser.MatchTokenNone | app.js:81-83 | The scan reports nothing exactly when the expression matches nowhere |
| TokenParser.ResolveSpec | app.js:88-96 | A relative token moves the base by its day count. A weekday token lands on that weekday in the base's Monday-based week, within six days of the base |
| TokenParser.ParseTokenDateNoDate | app.js:80-98 | No date is returned exactly when every match's word is missing from `tokenMap`, and then the text is only trimmed |
| TokenParser.ParseTokenDateMatched | app.js:84-99 | For a match whose word is in the table, the text is the trimmed part before the match and the date is the resolved token |
| TokenParser.TokenOnly | app.js:80-99 | A known word alone leaves empty text and a date |
| TokenParser.AtTokenOnly | app.js:80-99 | `@` plus a known word alone leaves empty text and a date |
| TokenParser.OnlyTokenLeft | app.js:80-99 | Trimmed non-blank text that leaves no task text is a known word alone, optionally after one `@`: the converse of `TokenOnly` and `AtTokenOnly` |
| TokenParser.EmptyTextNeedsToken | app.js:80-99 | Empty task text from trimmed non-blank text needs a match of a known word with only spaces before it |
| TokenParser.MatchSpansText | app.js:80-81 | In trimmed text, a match with only spaces before it starts at 0 and runs to the end |
| TokenParser.TrailingToken | app.js:80-99 | `"<text> <word>"` gives the trimmed text and the word's date |
| TokenParser.TrailingAtToken | app.js:80-99 | `"<text> @<word>"` gives the trimmed text and the word's date |
| Tasks.AppendFreshKeepsUnique | app.js:304-311 | Pushing a task with a new id keeps ids unique |
| Tasks.ForDateMembers | app.js:186-187 | The day view holds exactly the tasks dated with the key |
| Tasks.ForDateAppend | app.js:187 | Filtering a concatenation is concatenating the filtered parts, so order is kept |
| Tasks.ForDateAll | app.js:129-141 | A list whose tasks all carry the key filters to itself |
| Tasks.DoneCount | app.js:221 | The done count is at most the total and equals it exactly when every task is done |
| Tasks.Percent | app.js:219-222 | The progress is between 0 and 100 |
| Tasks.PercentRounds | app.js:222 | The progress is `done / total * 100` rounded half up: within half a percent, ties going up |
| Tasks.PercentFull | app.js:222 | 100% shows exactly when the undone tasks are at most half a percent of a non-empty list |
| Tasks.PercentZero | app.js:222 | 0% shows exactly when the list is empty or the done tasks are under half a percent |
| Tasks.FindById | app.js:333 | `tasks.find` returns nothing exactly when no task has the id, and otherwise the first task with it |
| Tasks.WithoutIdMembers | app.js:347 | The filter keeps exactly the tasks with another id |
| Tasks.WithoutIdAppend | app.js:347 | The filter distributes over concatenation, so order is kept |
| Tasks.WithoutAbsentId | app.js:346-347 | Filtering out an absent id changes nothing |
| Tasks.RemovesExactlyOne | app.js:345-347 | With unique ids, removing the id of task i deletes just position i |
| Tasks.WithoutIdKeepsUnique | app.js:347 | Removal keeps ids unique |
| Tasks.SetDoneOnlyThatTask | app.js:333-335 | Setting `done` on the found task changes only the task with that id, and ids stay unique |
| MonthGrid.MonthCells | app.js:150-180 | The grid has one pad per weekday before the 1st plus one button per day of the month |
| MonthGrid.RenderMonth | app.js:150-180 | `renderCalendar`'s cells are the pads followed by the day buttons of the shown month |
| MonthGrid.Pads | app.js:158-162 | The first loop appends `firstW` pads |
| MonthGrid.DayButtons | app.js:165-180 | The second loop appends the buttons of days 1 to `lastDay` in order, each with its `ymd` key and flags |
| MonthGrid.MonthStartEnd | app.js:153-155 | `first` is the 1st of the month and `lastDay` is the month's length |
| MonthGrid.GridCell | app.js:153-180 | Cell i is a pad before the weekday of the 1st and from there on the button of day i - pads + 1 |
| MonthGrid.GridColumn | app.js:153-180 | Day k + 1 falls on weekday (pads + k) mod 7, so each button sits in its weekday column of a seven-column Sunday-first grid |
| MonthGrid.HighlightsExact | app.js:175-176 | A button is marked today (or selected) exactly when its date is today (or the selected day), in every year |
| MonthGrid.SelectedDayHighlighted | app.js:176 | When the month the grid draws (1900 + year for a stored year from 0 to 99) holds the selected day, exactly one cell is marked selected, the selected day's; no limit on the years |
| MonthGrid.GridKeyReadsBack | app.js:172-173 | A button's key parses back to that button's date in the month drawn, for every stored year from 0 on (drawn years 100 and up, including the 1900s drawn for years 0 to 99) |
| TodoWidget.Snapshot | app.js:111-115 | What `saveState` writes: the list as is and non-empty day and month entries |
| TodoWidget.MonthOf | app.js:123 | `new Date(d.getFullYear(), d.getMonth(), 1)` is the first of d's month |
| TodoWidget.LoadMonth | app.js:120-123 | The restored month is a first of the month |
| TodoWidget.Hydrate | app.js:129-141 | One task per page item, in page order, with the item's checkbox state and `created = now + idx` |
| TodoWidget.HydratedTasks | app.js:134-139 | Hydrated tasks have distinct ids and all belong to today |
| TodoWidget.SaveLoadRoundTrip | app.js:111-128 | Loading what `saveState` wrote restores the selected day, the month and the list (years from 100 on) |
| TodoWidget.Decide | app.js:294-301 | An accepted submission has a valid due date and non-empty, already trimmed text |
| TodoWidget.DecideBlank | app.js:294-295 | The first message is shown exactly for all-space input |
| TodoWidget.DecideTokenOnly | app.js:298-301 | A known word alone, with or without `@`, gets the second message |
| TodoWidget.DecideEmptyName | app.js:298-301 | The converse: the second message comes only when the trimmed input is a known word alone, optionally after one `@`. With `DecideTokenOnly` the second message is shown exactly for such input |
| TodoWidget.TextIsTrimmed | app.js:98 | The text `parseTokenDate` returns is its own trim |
| TodoWidget.RemoveFound | app.js:345-347 | With unique ids, removing a present task's id keeps ids unique and deletes just that task |
| TodoWidget.PrevNextMonthInverse | app.js:270-277 | Paging back and then forward returns to the same month (years from 101 on) |
| TodoWidget.NextPrevMonthInverse | app.js:270-277 | Paging forward and then back returns to the same month (years from 100 on) |
| TodoWidget.Widget.Load | app.js:116-143 | `init` restores the stored day, month and list, or today, its month and the hydrated page items, and saves them |
| TodoWidget.Widget.SaveState | app.js:111-115 | Storage becomes the snapshot of the state |
| TodoWidget.Widget.Render | app.js:236-241 | `refreshAll` shows the month grid, the selected day's tasks, their progress (at most 100) and the selected day's weekday as active |
| TodoWidget.Widget.Submit | app.js:292-322 | A rejected input leaves the list alone and gives its message. An accepted one appends the new task (not done, dated by the token or the selected day), keeps ids unique and redraws progress only when the task is on the selected day |
| TodoWidget.Widget.AddTask | app.js:311-318 | Push, save, and the progress of the task's day when it is the selected day |
| TodoWidget.Widget.SetDone | app.js:328-338 | An unknown id changes nothing. Otherwise the first task with the id takes the checkbox state, and the progress of that task's day is redrawn |
| TodoWidget.Widget.Remove | app.js:340-351 | Every task with the id goes. An unknown id redraws nothing; otherwise the progress of the removed task's day (or the selected day) is redrawn |
| TodoWidget.Widget.DropTask | app.js:347-350 | The found branch: filter out the id, save, and redraw the day's progress |
| TodoWidget.Widget.SelectDay | app.js:261-267 | The clicked key becomes the selected day, and its month is shown |
| TodoWidget.Widget.PrevMonth | app.js:270-273 | The month shown goes back one, wrapping January to December of the year before |
| TodoWidget.Widget.NextMonth | app.js:274-277 | The month shown goes forward one, wrapping December to January of the year after |
| TodoWidget.Widget.JumpToWeekday | app.js:280-289 | The selected day becomes weekday wd of its own Monday-based week, and its month is shown |
| Scenarios.MarchTenth2024 | app.js:229 | 10 March 2024 is a Sunday |
| Scenarios.MarchTenthKey | app.js:30-35 | The key of 10 March 2024 is `2024-03-10` |
| Scenarios.GymTomorrow | app.js:80-100 | "gym tomorrow" on 10 March 2024 gives "gym" on 11 March |
| Scenarios.CallMomFriday | app.js:80-100 | "call mom @Fri" on Wednesday 13 March 2024 gives "call mom" on Friday 15 March |
| Scenarios.FridayOfThatWeek | app.js:91-95 | Friday of the week of Wednesday 13 March 2024 is 15 March |
| Scenarios.TwoOfThreeDone | app.js:222 | Two of three tasks done shows 67% |
| Scenarios.September2024 | app.js:150-180 | September 2024 starts on a Sunday: no pads and 30 buttons |
| Scenarios.June2024 | app.js:150-180 | June 2024 starts on a Saturday: six pads before the button of the 1st |
| Scenarios.February2024 | app.js:150-180 | February 2024 has four pads and 29 buttons |

## Left out

- `startOfDay` is the identity: dates carry no time of day, time zone or daylight-saving shift.
- `toHuman`, `monthHuman` (`Intl` formatting), the "Selected:" label, `aria-*` attributes, focus handling and `renderTaskItem`'s DOM are not modelled. `Render` returns the cells, items, percentage and active weekday in their place.
- The submit handler draws the new item and the progress bar directly instead of calling `refreshAll`. The model returns that progress value and leaves the partial redraw out.
- The error label and `clearError` (app.js:244-251, 325) are left out: a rejection is returned as a `SubmitError` with its message.
- `localStorage` and `JSON` are abstract. Stored tasks are `Missing`, `Unreadable` (text `JSON.parse` rejects, or `null`) or a list. JSON of another shape, such as an object or tasks with missing fields, is not modelled.
- TodoWidget.Widget.Load: requires the stored day and month entries, when present, to be digit fields joined by dashes (a negative year's leading minus gives an empty first field), which is what `saveState` writes for every year. The model does not read other text. `Number` accepts more than digits (surrounding spaces, a sign, `0x`, exponents), and text it rejects gives `NaN` and an Invalid Date; none of that is modelled.
- TodoWidget.Hydrate: reads the clock once, so item `idx` gets `created = now + idx`. The source calls `Date.now()` afresh for each item (app.js:138), so its stamps may also advance between items.
- MonthGrid.GridKeyReadsBack: requires a stored year from 0 on. For a negative year `ymd` writes a leading minus sign, `split('-')` then yields an empty first field, and `parseYMD` reads other numbers, so the key does not read back.
- TodoWidget.Widget.SelectDay: requires the clicked key to be such a key. Every button key is one, and `MonthGrid.GridKeyReadsBack` shows for stored years from 0 on that it reads back as the button's date.
- TodoWidget.Widget.Submit: the generated id (`Date.now()` and `Math.random()`) and `Date.now()` are parameters, and the id is required to be new. The source relies on the random suffix for that.
- TodoWidget.Widget.SetDone: `!!cb.checked` is the `checked` parameter. `SetDone` and `Remove` take the item's id, which the delegated handlers read from the clicked element.
- Tasks.Percent: `Math.round` on the float `done / total * 100` is modelled as exact rounding half up. Float error at an exact half could round the other way.
- Tasks.PercentFull: states when 100% really shows. 100% does not mean that every task is done: one open task among 200 or more still rounds to 100.
- TokenParser.ResolveSpec: the weekday branch uses the base date it is given, not the global `selectedDate` (app.js:93). The two coincide at the only call (app.js:298).
- DateText.YmdRoundTrip: holds from year 100 on. Years 0..99 come back as 1900..1999 (`DateText.TwoDigitYearRemapped`, `DateText.TwoDigitLeapDayRollsOver`).
- Negative years, which `ymd` would print with a minus sign, are outside `YmdFields` and `YmdReadBack`. JavaScript's date range limit (±8.64e15 ms) is not modelled.
- The calendar grid is Sunday-first (the pads count from Sunday) while weeks for tokens and weekday jumps start on Monday. The model keeps both as the source has them.
