# Todo side panel: a Dafny model of its state changes

The repository is a browser side-panel todo app in two diverging copies:

- `script.js` is one `TodoApp` class that holds everything.
- `js/app.js`, `js/todo-list.js`, `js/timer.js` and `js/notas.js` split the same app into a `TodoApp` that owns the state and three modules (`TodoList`, `Timer`, `Notes`) that edit it through their `app` reference.

Below the DOM work, both copies make a few small state changes:

- They add, toggle, soft-delete, restore, edit and reorder todos in an array of records.
- They compute the filtered view of that array: by the deleted flag, then by calendar date (script.js) or by pending, completed, today or week (js/app.js).
- They count two countdowns (`timer`, `pomodoro`) down one second per interval tick.
- The modular copy keeps a list of notes.

This project models those changes and proves what each one promises.

| file | module | what it holds |
|---|---|---|
| `js_builtins.dfy` | `JsBuiltins` | `trim`, `filter`, `findIndex`, the one-element `splice` forms and find-then-assign, as functions on sequences, with their lemmas |
| `calendar.dfy` | `Calendar` | (year, month, day) dates and the day numbers `new Date(y, m - 1, d)` gives, after ECMA-262 MakeDay / DayFromYear / WeekDay; Sunday of the week; reading a date back from a day number |
| `iso_date.dfy` | `IsoDate` | writing YYYY-MM-DD (`String`, `padStart`, `toISOString`) and reading it back (`split('-').map(Number)`) |
| `records.dfy` | `Records` | the todo and note records, ids, and id uniqueness |
| `todo_store.dfy` | `TodoStore` | the field edits applied to the todo found by id, and how they compose |
| `countdown.dfy` | `CountdownTimer` | the countdown record, its tick step, and the bookkeeping of live interval handles |
| `script_app.dfy` | `ScriptApp` | script.js: the reorder function, the date filter, and the `TodoApp` class with its methods |
| `modular_app.dfy` | `ModularApp` | js/app.js: the filter chain, the statistics, reorder by view position, and the `TodoApp` state class |
| `modular_todo_list.dfy` | `ModularTodoList` | js/todo-list.js: class `TodoList` |
| `modular_timer.dfy` | `ModularTimer` | js/timer.js: class `Timer` |
| `modular_notes.dfy` | `ModularNotes` | js/notas.js: class `Notes` |

How the model is set up:

- **Imperative methods.** Each source method that mutates state is a Dafny `method` on a class whose fields are the app's fields.
  - `todos` and `notes` are `seq` fields that the methods reassign.
  - Every method states its new state as a function of the old one, and keeps the class invariant `Valid()`: unique ids, and the interval bookkeeping.
- **Pure functions.** Filters, counts and date strings are functions.
- **Inputs and environment.** Values from the DOM, `Date.now()` ids, `new Date()` and `setInterval` handles are parameters.
  - The app's precondition says a fresh id is not in the list, and a fresh handle was never issued.
- **Interval handles.** Two ghost fields track the scheduler: `live` (handles still scheduled) and `issued` (handles ever returned).
  - `Valid()` ties `live` to the running countdowns.
  - So pausing or resetting one countdown never stops the other, and a running countdown's tick is the only callback that fires for it.

## Model

| member | source | states |
|---|---|---|
| JsBuiltins.TrimSlice | script.js:289 | `trim` returns the slice of its input left once the leading and trailing whitespace are dropped: nothing outside it is anything but whitespace, it neither starts nor ends with whitespace, and it is empty exactly when the input is all whitespace |
| JsBuiltins.TrimStartSuffix | script.js:289 | the leading pass of `trim` removes only whitespace, from the front, and stops at a non-whitespace character |
| JsBuiltins.TrimEndPrefix | script.js:289 | the trailing pass of `trim` removes only whitespace, from the back, and stops at a non-whitespace character |
| JsBuiltins.TrimIdempotent | js/notas.js:10-16 | trimming an already trimmed title changes nothing |
| JsBuiltins.Keep | js/app.js:257-263 | `filter` keeps exactly the elements that satisfy the test, and every element it returns satisfies it |
| JsBuiltins.KeepIsSubsequence | js/app.js:256-286 | `filter` returns an order-preserving subsequence of its input |
| JsBuiltins.KeepKeep | js/app.js:266-269 | filtering a filtered list is one filter by both tests |
| JsBuiltins.KeepSplits | js/app.js:266-269 | a test and its negation split a list into two parts that hold every element exactly once |
| JsBuiltins.KeepAppend | js/notas.js:41 | filtering a list with an element pushed on the end filters the two parts separately |
| JsBuiltins.FindIndex | script.js:199 | `findIndex` returns -1 or a matching index, and no earlier index matches (and none at all when it returns -1) |
| JsBuiltins.UpdateFirst | script.js:318-320 | find-then-assign keeps the length; the record at k becomes the edited record exactly when it matches and no earlier record does, and stays as it was otherwise, so nothing changes when no record matches |
| JsBuiltins.RemoveAt | script.js:203 | `splice(i, 1)` shifts every element after `i` down by one and keeps the others |
| JsBuiltins.RemoveAtMultiset | script.js:203 | `splice(i, 1)` removes exactly the element at `i` |
| JsBuiltins.InsertAt | script.js:212 | `splice(i, 0, x)` puts `x` at `i` and shifts the elements from `i` on up by one |
| JsBuiltins.InsertAtMultiset | script.js:212 | `splice(i, 0, x)` adds exactly `x` |
| Calendar.WeekDay | script.js:1039 | `getDay()` lies in 0..6 |
| Calendar.WeekStart | script.js:1038-1039 | `setDate(getDate() - getDay())` lands on a Sunday, at most six days before the given day |
| Calendar.DayNumberInjective | script.js:1029-1030 | two real dates have the same local-midnight time value exactly when they are the same date |
| Calendar.PrevDayIsPredecessor | script.js:1033-1034 | `setDate(getDate() - 1)` gives the previous calendar date, across month and year ends |
| Calendar.DateOfDay | script.js:1045-1046 | `getFullYear` / `getMonth` / `getDate` read back a real date whose day number is the given one |
| Calendar.DateOfDayNumber | script.js:1045-1049 | reading back the date of a real date's day number gives that date |
| Calendar.MakeDateDayFrom100 | script.js:1026 | for negative years and years from 100 on, `new Date(y, m - 1, d)` is plain MakeDay, with no 1900 offset |
| Calendar.SameWeekStart | script.js:1038-1042 | a day lies between another day's Sunday and six days later exactly when the two days share their Sunday |
| IsoDate.DecimalString | script.js:270 | `String(n)` is one or more digits that read back as `n`, with no leading zero unless it is the single digit 0 |
| IsoDate.PadStart | script.js:270 | `padStart(n, c)` gives length `n`, or the string's own length when that is longer |
| IsoDate.PadStartShape | script.js:270 | `padStart` only adds copies of the fill character, in front of the string |
| IsoDate.ZeroPadKeepsValue | script.js:270-271 | zero-padding a digit string keeps its value |
| IsoDate.LocalISODate | script.js:268-273 | `_getLocalISODate` ends in `-MM-DD`: two digits each that read back as the month and the day |
| IsoDate.Split | script.js:1025 | `split('-')` yields at least one part, and no part contains '-' |
| IsoDate.SplitJoin | script.js:1025 | joining the parts of `split(c)` with `c` gives the string back, for every string |
| IsoDate.SplitThree | script.js:1025 | three digit strings joined by '-' split back into those three strings |
| IsoDate.ParseJoined | script.js:1025 | `split('-').map(Number)` of three digit strings joined by '-' gives their three values |
| IsoDate.LocalISODateRoundTrip | script.js:268-273 | reading back what `_getLocalISODate` wrote gives the same (year, month, day) for every real date of a non-negative year |
| IsoDate.UtcISODateRoundTrip | js/todo-list.js:19 | reading back the date part of `toISOString()` gives the same (year, month, day) for years 0 to 9999 |
| Records.FindIndexOfUniqueId | script.js:199 | with unique ids, looking up the id of the record at `k` finds `k` |
| Records.RemoveKeepsUnique | script.js:203 | taking a todo out keeps the ids unique and leaves its id free |
| Records.InsertKeepsUnique | script.js:212 | inserting a todo with a free id anywhere keeps the ids unique |
| TodoStore.UpdateUnknownId | script.js:318-319 | an edit by an id no todo carries changes nothing |
| TodoStore.UpdateUnique | script.js:318-320 | with unique ids, exactly the todo carrying the id is edited and every other todo stays as it was |
| TodoStore.UpdateKeepsIds | js/todo-list.js:32-34 | an edit that keeps ids keeps every id in its place, and so keeps them unique |
| TodoStore.UpdateTwice | script.js:317-321 | two edits by the same id compose into one |
| TodoStore.ToggleTwice | script.js:317-321 | toggling the same todo twice gives the list back |
| TodoStore.StampedDeleteThenRestore | script.js:334-354 | restoring a todo just deleted gives the list back, when it was not deleted before |
| TodoStore.DeleteThenRestore | js/todo-list.js:49-67 | the same for the modular delete and restore |
| TodoStore.ScriptEditsKeepDeletedAt | script.js:334-354 | toggle, delete, restore and edit all keep `deletedAt` present exactly on the deleted todos |
| TodoStore.MarkDeletedAndRestored | js/todo-list.js:49-67 | the modular delete sets `deleted` whatever its state and touches no other field; restore clears it whether or not it was set |
| CountdownTimer.Reset | js/timer.js:32-36 | a reset countdown is stopped at 25:00, still well formed, and keeps its interval field |
| CountdownTimer.Tick | js/timer.js:11-19 | with seconds left a tick takes one second off; at :00 it takes a minute and sets the seconds to 59; a well-formed countdown with time left loses exactly one second and keeps its running flag; at 0:00 it resets |
| CountdownTimer.TicksCountDown | js/timer.js:10-21 | `n` ticks of a countdown with at least `n` seconds left take `n` seconds off, keep it well formed and keep it running |
| CountdownTimer.RunsOutThenResets | js/timer.js:16-17 | the tick after the last second resets the countdown to 25:00, stopped |
| CountdownTimer.ResetIdempotent | js/timer.js:94-98 | resetting twice is resetting once |
| CountdownTimer.ClearingLeavesOther | js/timer.js:26-29 | clearing one countdown's interval leaves exactly the other's live |
| CountdownTimer.StartKeepsSchedule | js/timer.js:7-10 | starting a stopped countdown on a new handle keeps the interval bookkeeping consistent and adds exactly that handle |
| ScriptApp.ReorderById | script.js:198-217 | reordering keeps the list's length |
| ScriptApp.ReorderUnknownDragged | script.js:199-200 | a dragged id no todo carries leaves the list unchanged |
| ScriptApp.ReorderIsPermutation | script.js:203-217 | reordering only moves todos: the same todos, each as often as before |
| ScriptApp.ReorderKeepsUniqueIds | script.js:203-217 | reordering keeps the ids unique |
| ScriptApp.ReorderPlacesBeforeTarget | script.js:211-213 | dropped on another todo that exists, the dragged todo ends up immediately before it |
| ScriptApp.ReorderToEnd | script.js:205-217 | with no target, an unknown target or the dragged todo itself as the target, the dragged todo goes to the end and the others keep their order |
| ScriptApp.FilteredTodos | script.js:1018-1054 | the view holds exactly the todos on the selected side of the deleted flag whose date passes the current filter |
| ScriptApp.FilteredIsDeletedSideSubsequence | script.js:1018-1022 | the view is an order-preserving subsequence of the todos, all deleted when `showDeleted` is set and none deleted otherwise |
| ScriptApp.UnknownFilterKeepsPartition | script.js:1051-1052 | an unknown filter value shows the whole side of the deleted flag |
| ScriptApp.DayFiltersAreDateComparisons | script.js:1029-1035 | for real dates from year 100 on, "today" keeps the dates equal to today and "yesterday" those equal to the previous calendar date |
| ScriptApp.MonthYearFiltersCompareFields | script.js:1044-1049 | under the same conditions, "month" keeps the same month of the same year and "year" the same year |
| ScriptApp.TodoDayOfRealDate | script.js:1025-1026 | a stored date whose fields form a date of year 100 or later is that date's day |
| ScriptApp.WeekFilterIsSameSundayWeek | script.js:1037-1042 | "week" keeps exactly the dates that have the same Sunday as today |
| ScriptApp.DefaultDateShowsToday | script.js:301 | the default date of a new todo passes the "today" filter |
| ScriptApp.NewTodo | script.js:298-305 | the new todo has the trimmed text, is not completed or deleted, has no deletion time, and has the input date or a date string that reads back as today; its category is the trimmed category or null when that is blank |
| ScriptApp.DefaultDateReadsToday | script.js:301 | the default date reads back as today for years from 0 on |
| ScriptApp.PrependKeepsValid | script.js:307 | putting a fresh, undeleted todo in front keeps the ids unique and `deletedAt` on exactly the deleted todos |
| ScriptApp.TodoApp.constructor | script.js:2-23 | no todos, filter "all", deleted hidden, nothing selected, both countdowns at 25:00 stopped, nothing scheduled |
| ScriptApp.TodoApp.GetFilteredTodos | script.js:1013-1055 | the view is a subsequence of the todos, all on the selected side of the deleted flag |
| ScriptApp.TodoApp.ReorderTodos | script.js:198-221 | the todos become `ReorderById` of the old todos; ids stay unique; nothing else changes |
| ScriptApp.TodoApp.AddTodo | script.js:285-315 | a blank text changes nothing; otherwise the new todo is put in front of the list and nothing else changes |
| ScriptApp.TodoApp.ToggleTodo | script.js:317-332 | the todo found by id has `completed` flipped; nothing else changes |
| ScriptApp.TodoApp.DeleteTodo | script.js:334-343 | the todo found by id is marked deleted with the given time, overwriting an earlier time |
| ScriptApp.TodoApp.RestoreTodo | script.js:345-354 | a deleted todo found by id loses both `deleted` and `deletedAt`; one not deleted is left alone |
| ScriptApp.TodoApp.FinishEditTodo | script.js:926-938 | a blank edit changes nothing; otherwise the trimmed text replaces the text of the todo found by id unless it is deleted |
| ScriptApp.TodoApp.StartTimer | script.js:686-704 | starting a running timer changes nothing; otherwise it runs on the new handle, which becomes live |
| ScriptApp.TodoApp.PauseTimer | script.js:706-710 | the timer stops with its minutes and seconds kept, and only the pomodoro's interval stays live |
| ScriptApp.TodoApp.ResetTimer | script.js:712-724 | the timer is reset to 25:00 stopped, its interval is cleared, and the focus selection is cleared |
| ScriptApp.TodoApp.TickTimer | script.js:690-699 | one interval callback: `Tick` of the timer; at 0:00 it also clears the interval and the focus selection |
| ScriptApp.TodoApp.StartPomodoro | script.js:801-819 | the same as StartTimer, for the pomodoro |
| ScriptApp.TodoApp.PausePomodoro | script.js:821-825 | the same as PauseTimer, for the pomodoro |
| ScriptApp.TodoApp.ResetPomodoro | script.js:827-834 | the pomodoro is reset to 25:00 stopped and its interval is cleared; the selection is kept |
| ScriptApp.TodoApp.TickPomodoro | script.js:805-814 | one interval callback: `Tick` of the pomodoro; at 0:00 it also clears the interval |
| ModularApp.Partitioned | js/app.js:257-263 | the first filter keeps exactly the deleted todos when `showDeleted` is set and exactly the others otherwise |
| ModularApp.FilteredTodos | js/app.js:256-286 | every todo of the view is in the list and on the selected side of the deleted flag |
| ModularApp.FilteredIsSubsequence | js/app.js:256-286 | every branch of the switch returns an order-preserving subsequence of the todos |
| ModularApp.PendingCompletedSplit | js/app.js:266-269 | "pending" and "completed" are disjoint, and together hold each todo of the partition exactly once |
| ModularApp.UnknownFilterIsPartition | js/app.js:283-284 | an unknown filter value returns the partitioned list unchanged |
| ModularApp.DateFiltersKeep | js/app.js:270-282 | "today" keeps exactly the shown todos dated with today's ISO date; "week" keeps those dated in today's Sunday-to-Saturday week |
| ModularApp.WeekFilterIsSameSundayWeek | js/app.js:273-282 | the corrected "week" test keeps a real date exactly when it has the same Sunday as today |
| ModularApp.WeekAsWrittenShiftsBySunday | js/app.js:273-282 | the "week" test as written drops this week's Sunday once the local time of day is past the zone offset, and admits next Sunday once it is a day past it |
| ModularApp.TodayIsInWeek | js/app.js:270-282 | a todo carrying today's ISO date is in today's week |
| ModularApp.StatsAddUp | js/app.js:453-456 | completed plus pending equals the number of todos not deleted, and each count is the length of the matching view with deleted todos hidden |
| ModularApp.ViewTodoFound | js/app.js:188-193 | a todo of the view is found by id in the full list |
| ModularApp.MoveBeforePlaces | js/app.js:196-200 | the `targetActualIndex - 1` correction puts the moved todo immediately before the target |
| ModularApp.MoveBeforeKeepsUnique | js/app.js:196-200 | the two splices keep the ids unique |
| ModularApp.ReorderIsPermutation | js/app.js:186-200 | reordering by view position only moves todos |
| ModularApp.ReorderKeepsUniqueIds | js/app.js:186-200 | reordering by view position keeps the ids unique |
| ModularApp.ReorderPlacesBeforeTarget | js/app.js:186-200 | dropped on a different todo of the view, the dragged todo ends up immediately before it in the full list |
| ModularApp.ReorderOntoItself | js/app.js:169 | a drop of a todo onto itself, which the drop guard skips, would leave the list unchanged |
| ModularApp.MoveTodo | js/app.js:187-200 | the two look-ups and two splices give the dragged todo moved before the target, by their actual indices |
| ModularApp.TodoApp.constructor | js/app.js:3-23 | no todos or notes, filter "all", deleted hidden, "todo" view, nothing selected, both countdowns at 25:00 stopped |
| ModularApp.TodoApp.GetFilteredTodos | js/app.js:256-286 | the view is a subsequence of the todos, on the selected side of the deleted flag |
| ModularApp.TodoApp.ReorderTodos | js/app.js:186-205 | the todos become `ReorderByIndex` of the old todos and the old view; ids stay unique; nothing else changes |
| ModularApp.TodoApp.RenderFocusMode | js/app.js:327-347 | when the focus panel exists, a selected id that names no todo is reset to none; otherwise the selection is kept |
| ModularTodoList.NewTodo | js/todo-list.js:14-21 | the new todo has the trimmed text, is neither completed nor deleted, and has the input date or a date string that reads back as today |
| ModularTodoList.AddedUndatedShowsToday | js/todo-list.js:19 | a todo added without a date shows in the "today" and "week" views |
| ModularTodoList.AppendKeepsUnique | js/todo-list.js:23 | appending a todo with a fresh id keeps the ids unique |
| ModularTodoList.TodoList.AddTodo | js/todo-list.js:7-29 | a blank text changes nothing; otherwise exactly one new todo is appended at the end |
| ModularTodoList.TodoList.ToggleTodo | js/todo-list.js:31-47 | the todo found by id has `completed` flipped; an unknown id changes nothing |
| ModularTodoList.TodoList.DeleteTodo | js/todo-list.js:49-57 | the todo found by id gets `deleted` set and no deletion time |
| ModularTodoList.TodoList.RestoreTodo | js/todo-list.js:59-67 | the todo found by id gets `deleted` cleared, whatever it was |
| ModularTodoList.TodoList.FinishEditTodo | js/todo-list.js:95-104 | a blank edit or an unknown id changes nothing; otherwise the todo's text becomes the trimmed text |
| ModularTodoList.TodoList.GoToFocusModeWithTodo | js/todo-list.js:148-167 | the id is selected (dropped again when the panel exists and it names no todo), the view is "focus", and the timer is at 25:00, stopped, with no interval |
| ModularTimer.Timer.StartTimer | js/timer.js:7-24 | starting a running timer changes nothing; otherwise it runs on the new handle, which becomes live |
| ModularTimer.Timer.PauseTimer | js/timer.js:26-30 | the timer stops with its minutes and seconds kept; only the pomodoro's interval stays live |
| ModularTimer.Timer.ResetTimer | js/timer.js:32-47 | the timer is reset to 25:00 stopped and its interval is cleared; the selection and view are kept |
| ModularTimer.Timer.TickTimer | js/timer.js:10-21 | one interval callback: `Tick` of the timer; at 0:00 it also clears the interval |
| ModularTimer.Timer.StartPomodoro | js/timer.js:69-86 | the same as StartTimer, for the pomodoro |
| ModularTimer.Timer.PausePomodoro | js/timer.js:88-92 | the same as PauseTimer, for the pomodoro |
| ModularTimer.Timer.ResetPomodoro | js/timer.js:94-101 | the pomodoro is reset to 25:00 stopped and its interval is cleared |
| ModularTimer.Timer.TickPomodoro | js/timer.js:72-83 | one interval callback: `Tick` of the pomodoro; at 0:00 it also clears the interval |
| ModularNotes.NewNote | js/notas.js:14-20 | the new note has the trimmed content and both times equal to now |
| ModularNotes.NewNoteTitle | js/notas.js:16 | a new note's title is never blank and is already trimmed: the trimmed title input, or 'Nota sem título' when that is blank |
| ModularNotes.WithoutNote | js/notas.js:41 | deleting keeps every note without the id, in its order, and no note with it |
| ModularNotes.DeleteUnknownNote | js/notas.js:41 | deleting an id no note carries changes nothing |
| ModularNotes.AddThenDelete | js/notas.js:22 | deleting the note just added gives the notes back |
| ModularNotes.EditThenDelete | js/notas.js:30-41 | editing a note and then deleting it is the same as deleting it |
| ModularNotes.WithoutNoteKeepsUnique | js/notas.js:41 | deleting keeps note ids unique |
| ModularNotes.EditUnique | js/notas.js:30-37 | with unique note ids, the note carrying the id gets the new content and update time and every other note stays as it was |
| ModularNotes.EditKeepsUnique | js/notas.js:30-37 | editing keeps note ids unique |
| ModularNotes.Notes.AddNote | js/notas.js:7-28 | blank title and content change nothing; otherwise exactly one new note is appended and the earlier notes are unchanged |
| ModularNotes.Notes.EditNote | js/notas.js:30-38 | the note carrying the id gets the untrimmed content and the new update time, every other note stays, and an unknown id changes nothing |
| ModularNotes.Notes.DeleteNote | js/notas.js:40-44 | the notes become `WithoutNote` of the old notes |
| ModularNotes.Notes.FinishEditNote | js/notas.js:132-142 | a blank edit changes nothing; otherwise the note carrying the id gets the trimmed content and the new update time, and every other note stays |

## Left out

- Rendering, the DOM, event wiring, drag geometry, the sidebar, modals, `alert`, and export are not modelled. Neither are `chrome.storage` / `localStorage` persistence, the clock, themes, background messaging, the seed data, or the script.js notes.
- The environment comes in as parameters, and scheduling is modelled as bookkeeping:
  - `Date.now()` ids, `new Date()` (as a calendar date), `toISOString()` stamps, `setInterval` handles and the DOM inputs' values are parameters.
  - `setInterval` / `clearInterval` become the ghost `live` / `issued` handle sets, with one tick as one method call.
- Time zones and daylight saving are not modelled: a calendar date maps to its day number as ECMA-262 MakeDay gives it.
- Ids are numbers and both `===` on their string form and `==` are equality. A falsy id 0 (never produced by `Date.now()`) is not distinguished.
- `Number` is modelled only on what `split('-')` of a stored date yields:
  - whitespace is ignored;
  - an empty part is 0;
  - a run of decimal digits is its value;
  - anything else is NaN.
  - Signs, decimals, exponents and hexadecimal are read as NaN.
- `renderFocusMode`: the existence of the focus panel is the parameter `hasFocusContent`. Renders of the focus views change no state, so they are left out.
- The re-render that `toggleTodo` triggers in js/todo-list.js changes no state and is left out.
- The focus button handler in js/todo-list.js:144 calls `app.goToFocusModeWithTodo`, which js/app.js does not define, so that click throws in the source. `ModularTodoList.TodoList.GoToFocusModeWithTodo` models the method the handler evidently means.
- `ModularApp.InWeekOf` (and with it `ModularApp.DateFiltersKeep` for "week") is the corrected week test: a calendar comparison with one abstract "today". The mix of a UTC date string with local time values is only modelled in `ModularApp.InWeekAsWritten` (see Findings). For "today", the stored string is compared with the UTC date of that same abstract today.
- ScriptApp.TodoApp: `selectedTodoForFocus` holds the selected record object in script.js. The model keeps its id, since only its presence is ever tested by the modelled code.
- ScriptApp.DayFiltersAreDateComparisons: stated for years from 100 on. For years 0 to 99, `new Date(y, m, d)` moves the date to 1900 to 1999. The model computes that (`Calendar.MakeDateDay`) but states nothing about it.
- ModularApp.MoveTodo and both `ReorderTodos` methods compute the new list as a value and assign it. The two in-place `splice` calls are modelled as `RemoveAt` then `InsertAt`, so aliasing of the array by other code is not captured.
- ModularApp.TodoApp.ReorderTodos requires both indices to be positions of the current view. The source dereferences the todos there, and an index outside the view throws.

## Findings

| source | as written | input that shows it | evidently intended | confidence | as-written member | corrected member |
|---|---|---|---|---|---|---|
| js/app.js:273-282 | the "week" bounds are `new Date()` moved back to Sunday, so they keep the current local time of day, while `new Date(todo.date)` of a YYYY-MM-DD string is midnight UTC | today's date in UTC−3 at any time of day (or in UTC at any time after 00:00), with a todo dated on this week's Sunday: the todo's instant lies before `weekStart`, so it is left out; in UTC−3 from 21:00, a todo dated next Sunday is let in | the Sunday-to-Saturday week of today by calendar date, as script.js:1037-1042 compares it | not executed | ModularApp.WeekAsWrittenShiftsBySunday | ModularApp.WeekFilterIsSameSundayWeek |
