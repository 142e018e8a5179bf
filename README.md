# Task tracker core, modelled in Dafny

The tracker is a single page (`app/page.tsx`). Users add tasks that each have a due instant,
tick them off, and delete them. A task is created "expired" when its due instant is already
past, and loading the saved list expires every pending task whose due instant has passed.
A once-a-minute sweep is meant to do the same while the page is open, but as written it
compares against the instant the page mounted (see Findings). Two values are rendered for every pending task: a countdown label, and a 0–100
progress value taken against a fixed seven-day window that ends at the due instant.

This project models that logic and proves properties about it:

- `Todos` holds the task entity and every list transformation the page applies: add,
  toggle, the checkbox's guarded toggle, delete, the expiry sweep, load, the status filter
  and the footer counts. They are pure functions, just as the source writes them with
  spread, `map` and `filter`.
- `Store` holds `TodoStore`, a class that plays the component's state (`todos`, `newTodo`,
  `filter`). Its list handlers replace the `todos` field, and each one is specified by the
  matching `Todos` function.
- `Presentation` holds `getCountdown`, `getTimeProgress` and the colour banding of progress.
- `Timer` holds the once-a-minute interval callback: as written, and as evidently intended
  (see Findings).
- `TimeMath`, `JsText` and `Seqs` are helpers. `TimeMath` covers truncating division, the
  date-fns difference functions and `isAfter`. `JsText` covers `String.prototype.trim` and
  number-to-text. `Seqs` covers `Array.prototype.filter`.

Instants are integer milliseconds. `isAfter(a, b)` means `a > b`. The clock, the id source
(`crypto.randomUUID`) and the parsed storage content are all parameters.

Three behaviours of the code are easy to misread; the model follows the code:

- `toggleTodoStatus` has no guard of its own. It turns every status that is not pending,
  expired included, into pending. Only the checkbox handler refuses expired tasks
  (`ToggledStatus`, `CheckboxToggle`).
- Loading does not check any record field. A parsed list is taken as it is and swept
  (`Loaded`). Because of this, unique ids are not an invariant of `TodoStore`. They are a
  hypothesis of the lemmas, and every mutating method except `Load` keeps them
  (`old(UniqueIds(todos)) ==> UniqueIds(todos)`). `Load` can bring in duplicate ids (`LoadAdmitsDuplicateIds`).
- The periodic sweep compares against the instant captured at mount, not the current one
  (`TickAsWritten`).

## Model

| member | source | states |
|---|---|---|
| JsText.Trim | app/page.tsx:84 | the trimmed text is empty exactly when every character is ECMAScript whitespace or a line terminator; otherwise it neither starts nor ends with one; it is a contiguous slice of the input with only whitespace before and after it |
| JsText.IntToString | app/page.tsx:288-292 | the text of an integer is non-empty; for a non-negative number it is all digits and denotes the number; for a negative one it is "-" followed by the digits of its magnitude |
| JsText.NatToString | app/page.tsx:288-292 | the decimal text of a number is non-empty, all digits, has no leading zero, and denotes the number |
| TimeMath.IsAfter | app/page.tsx:40 | `isAfter` is strict: it is never true of equal instants, and for distinct instants exactly one order holds |
| TimeMath.DifferenceInMinutes | app/page.tsx:285 | whole minutes between two instants, truncated toward zero: m·60000 ≤ later − earlier < (m+1)·60000 when later ≥ earlier, mirrored when earlier |
| TimeMath.DifferenceInHours | app/page.tsx:284 | whole hours between two instants, truncated toward zero: h·3600000 ≤ later − earlier < (h+1)·3600000 when later ≥ earlier, mirrored when earlier |
| TimeMath.DifferenceInDays | app/page.tsx:283 | whole days between two instants, truncated toward zero: d·86400000 ≤ later − earlier < (d+1)·86400000 when later ≥ earlier, mirrored when earlier |
| TimeMath.TruncDiv | app/page.tsx:283-285 | the quotient rounded toward zero: q·b ≤ a < q·b + b for a ≥ 0, and q·b − b < a ≤ q·b for a < 0 |
| TimeMath.TruncRem | app/page.tsx:284-285 | JavaScript `%`: the remainder with the dividend's sign, and a = q·b + r |
| TimeMath.NestedUnits | app/page.tsx:283-285 | whole hours are whole minutes div 60, and whole days are whole hours div 24 |
| TimeMath.TruncDivMonotone | app/page.tsx:304 | truncated division never decreases as the dividend grows |
| Seqs.Filter | app/page.tsx:111 | the result holds exactly the elements that satisfy the predicate, and is no longer than the input |
| Seqs.FilterConcat | app/page.tsx:111 | filtering a concatenation gives the concatenation of the filtered parts, so relative order is kept |
| Seqs.FilterKeepsAll | app/page.tsx:114-117 | when every element passes, the result is the input |
| Todos.NewTodo | app/page.tsx:86-96 | the new task keeps the given id, untrimmed text and date; it is expired iff now > date, and never completed |
| Todos.AddTodo | app/page.tsx:83-98 | blank text leaves the list unchanged; other text appends exactly one new task after the unchanged earlier ones |
| Todos.AddKeepsIdsUnique | app/page.tsx:86-98 | adding under an id no task carries keeps ids unique |
| Todos.ToggledStatus | app/page.tsx:105 | the result is never expired, and it is completed iff the input was pending, so expired becomes pending |
| Todos.ToggledTwice | app/page.tsx:105 | toggling twice restores a status iff that status is not expired |
| Todos.ToggleTodoStatus | app/page.tsx:102-108 | length, ids, texts and dates are kept; tasks with another id are unchanged; tasks with the id get the toggled status |
| Todos.ToggleAbsentIsNoop | app/page.tsx:104-106 | toggling an id no task carries leaves the list unchanged |
| Todos.ToggleTwiceRestores | app/page.tsx:102-108 | toggling twice restores the list when no task with that id is expired |
| Todos.ToggleKeepsIdsUnique | app/page.tsx:104-106 | toggling keeps ids unique |
| Todos.CheckboxToggle | app/page.tsx:332 | clicking an expired task's checkbox leaves the list unchanged; the length is always kept |
| Todos.CheckboxToggleEffect | app/page.tsx:330-333 | with unique ids, clicking task k changes task k alone: an expired task stays, any other gets the toggled status |
| Todos.DeleteTodo | app/page.tsx:110-112 | the result holds exactly the tasks whose id differs |
| Todos.DeleteConcat | app/page.tsx:111 | deletion keeps relative order: it distributes over concatenation |
| Todos.DeleteAbsentIsNoop | app/page.tsx:111 | deleting an id that is not present leaves the list unchanged |
| Todos.DeleteRemovesOne | app/page.tsx:111 | with unique ids, deleting a present id removes exactly one task |
| Todos.DeleteKeepsIdsUnique | app/page.tsx:111 | deletion keeps ids unique |
| Todos.ExpireIfOverdue | app/page.tsx:39-43 | the id, text and date are kept; a non-pending task is unchanged; a pending task becomes expired iff now > its date, and is never completed |
| Todos.ExpireOverdue | app/page.tsx:38-44 | length, order, ids, texts and dates are kept; non-pending tasks are unchanged; a pending task becomes expired iff now > its date, and never completed |
| Todos.SweepLeavesNoOverdue | app/page.tsx:64-69 | after a sweep, no pending task has its date before now |
| Todos.SweepThenLaterSweep | app/page.tsx:38-44 | a sweep followed by a sweep at a later or equal instant equals the later sweep alone |
| Todos.SweepIdempotent | app/page.tsx:38-44 | sweeping twice with the same instant equals sweeping once |
| Todos.SweepMonotone | app/page.tsx:39-43 | a later instant expires every task that an earlier instant expires |
| Todos.SweepKeepsIdsUnique | app/page.tsx:39-43 | the sweep keeps ids unique |
| Todos.SweepPreservesCounts | app/page.tsx:39-43 | the sweep keeps the completed count and the sum of the pending and expired counts |
| Todos.Loaded | app/page.tsx:52-76 | an absent or unparsable item leaves the current list; a parsed list keeps its length, order, ids, texts and dates; its completed and expired records are kept as they are; a pending record becomes expired iff now > its date, and is never completed |
| Todos.LoadAdmitsDuplicateIds | app/page.tsx:52-76 | loading checks no ids: two stored records with the same id both end up in the list |
| Todos.ReloadReproduces | app/page.tsx:52-81 | loading a saved list reproduces it exactly when none of its pending tasks is overdue |
| Todos.FilteredTodos | app/page.tsx:114-117 | "all" gives the list unchanged; any other tab gives exactly the tasks of that status |
| Todos.FilterConcat | app/page.tsx:114-117 | the tab filter keeps relative order: it distributes over concatenation |
| Todos.StatusCount | app/page.tsx:237-243 | a badge count never exceeds the number of tasks |
| Todos.FooterCounts | app/page.tsx:236-244 | the completed, pending and expired badges sum to the number of tasks |
| Todos.CountsPartition | app/page.tsx:237-243 | every task is counted under exactly one status |
| Store.TodoStore.constructor | app/page.tsx:26-29 | the store starts with no tasks, an empty input field and the "all" tab |
| Store.TodoStore.SetDraft | app/page.tsx:137 | the input field takes the typed text; nothing else changes |
| Store.TodoStore.SetFilter | app/page.tsx:168 | the tab changes; nothing else changes |
| Store.TodoStore.Add | app/page.tsx:83-100 | the list becomes AddTodo of the old list and the field's text; the field is cleared unless the text was blank; unique ids are kept |
| Store.TodoStore.Toggle | app/page.tsx:102-108 | the list becomes the raw toggle of the old list; unique ids are kept |
| Store.TodoStore.CheckboxChange | app/page.tsx:330-333 | the list becomes the guarded toggle of the old list, which leaves it unchanged for an expired task |
| Store.TodoStore.Delete | app/page.tsx:110-112 | the list becomes DeleteTodo of the old list; an absent id changes nothing; a present id removes exactly one task when ids are unique |
| Store.TodoStore.Sweep | app/page.tsx:38-44 | the list becomes the sweep of the old list; unique ids are kept |
| Store.TodoStore.Load | app/page.tsx:52-76 | the list becomes Loaded of the old list, the storage content and the load instant |
| Store.TodoStore.Visible | app/page.tsx:196-230 | the rendered list is the whole list on the "all" tab, and otherwise exactly the tasks of the tab's status |
| Store.TodoStore.Footer | app/page.tsx:236-244 | the three badges sum to the number of tasks |
| Presentation.RemainingParts | app/page.tsx:283-285 | when the due instant is not past: days ≥ 0, hours in [0,23], minutes in [0,59], and days·1440 + hours·60 + minutes equals the whole minutes remaining |
| Presentation.GetCountdown | app/page.tsx:278-294 | "Expired" iff now > due; days-and-hours iff at least a day remains; hours-and-minutes iff between an hour and a day remains; minutes alone iff under an hour remains, showing the whole minutes left |
| Presentation.CountdownCarriesParts | app/page.tsx:283-293 | the chosen label shows the computed parts, and the parts it drops are zero |
| Presentation.CountdownAtDue | app/page.tsx:278-293 | a task due exactly now reads "0m remaining" |
| Presentation.CountdownText | app/page.tsx:280-292 | the text is "Expired" exactly for an overdue countdown; every other text ends in " remaining" |
| Presentation.ElapsedMinutes | app/page.tsx:304 | the whole minutes since seven days before the due instant are ≥ 0 from that instant on, ≤ 0 before its first whole minute, and at most 10080 up to the due instant |
| Presentation.GetTimeProgress | app/page.tsx:296-307 | progress lies in [0,100] and is 100 once the due instant is past |
| Presentation.ProgressInWindow | app/page.tsx:302-306 | inside the seven-day window, progress is exactly elapsed minutes · 100 / 10080; under one minute into the window it is 0; at the due instant it is 100 |
| Presentation.ProgressMonotone | app/page.tsx:296-307 | progress never decreases as now grows |
| Presentation.ProgressBand | app/page.tsx:373 | critical iff progress > 75; warning iff progress is in (50,75]; safe iff progress ≤ 50 |
| Presentation.BandEscalates | app/page.tsx:383-386 | a task's band never de-escalates as time passes, and is critical from the due instant on |
| Timer.TickAsWritten | app/page.tsx:33-49 | a tick sets the displayed time to the clock and keeps the list's length, ids, texts and dates; non-pending tasks are unchanged; a pending task becomes expired iff its date is before the mount instant, whatever the clock, and is never completed |
| Timer.StaleTicksChangeNothing | app/page.tsx:38-45 | as written, a tick applied right after another tick, with no change to the list in between, changes no task |
| Timer.StaleTickMissesOverdue | app/page.tsx:40 | counterexample: a task due 1 s after mount is still pending at the 60 s tick, yet its countdown reads "Expired" |
| Timer.TickIntended | app/page.tsx:34-45 | with a sweep against the tick's own instant: the displayed time is the clock; length, ids, texts and dates are kept; non-pending tasks are unchanged; a pending task becomes expired iff its date is before the clock, and is never completed; so no pending task's countdown reads "Expired" |
| Timer.IntendedTickExpiresOverdue | app/page.tsx:40 | with the corrected tick, the same task is expired at the 60 s tick |

## Findings

| source | as written | input that shows it | evidently intended | confidence | as-written member | corrected member |
|---|---|---|---|---|---|---|
| app/page.tsx:33-49 | the interval callback sweeps with `isAfter(currentTime, …)`, but its effect has empty dependencies, so `currentTime` is the value of the first render | mount at 0, one pending task due at 1000, tick at 60000: the task stays pending while its countdown reads "Expired" | each tick sweeps against the instant of that tick, so a task expires within a minute of its due instant | high (stale closure over `currentTime`); not executed | Timer.StaleTickMissesOverdue | Timer.TickIntended |

`Timer.TickAsWritten` and `Timer.StaleTicksChangeNothing` describe the as-written callback.
`Timer.IntendedTickExpiresOverdue` states the outcome of the same input under the corrected tick. The
store's `Sweep(now)` takes its instant as a parameter, so it serves either reading.

## Left out

- JSX rendering, the UI components (card, tabs, popover, calendar, checkbox, badge, progress
  bar, theme toggle) and class-name styling: presentational, with no checkable behaviour.
- date-fns `format` for the displayed dates and the footer clock: locale formatting done by
  a library that is not part of this model.
- `localStorage.getItem`/`setItem`, `JSON.parse` and `JSON.stringify`: these are storage
  I/O and a foreign parser. The parse result is the input `Stored`, and the save effect
  (app/page.tsx:79-81) is not modelled. Records with missing or mistyped fields are not
  modelled, because the code does not check them. An unparsable date (`Invalid Date`) is
  not modelled either.
- `crypto.randomUUID`: the id is a parameter, and `Store.TodoStore.Add` requires that it is
  fresh.
- `setInterval`/`clearInterval` and React effect scheduling: only one tick is modelled, as a
  function. Timer registration, cancellation and the state setter's asynchrony are left out.
- The calendar picker and the `date` state: the due instant is a parameter of `Add`.
- Presentation.RemainingParts: every day is taken as exactly 86,400,000 ms. date-fns
  `differenceInDays` counts calendar days and accounts for daylight-saving changes, so near
  such a change the model's day count can differ from the library's.
- Presentation.GetTimeProgress: uses exact `real` arithmetic, not IEEE-754 double rounding
  of `elapsed / 10080 * 100`.
- Presentation.CountdownText: number-to-text covers only integers. That is all the countdown
  ever formats.
