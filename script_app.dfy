/** script.js: the monolithic `TodoApp`. Its state is one object whose methods prepend,
    splice and edit the `todos` array and count the `timer` and `pomodoro` records down;
    its view is a filter over `todos` by the deleted flag and by calendar date. */
module ScriptApp {
  import opened JsBuiltins
  import Calendar
  import opened IsoDate
  import opened Records
  import opened TodoStore
  import opened CountdownTimer

  // ---------------------------------------------------------------------------------------
  // reorderTodos(draggedId, targetId)

  /** The list `reorderTodos` leaves: the first todo carrying `draggedId` is spliced out and
      spliced back in before the first remaining todo carrying the target id, or pushed at
      the end when there is no target (null) or it is not found; an unknown dragged id
      leaves the list as it was. */
  function ReorderById(todos: seq<Todo>, draggedId: Id, targetId: Option<Id>): (r: seq<Todo>)
    ensures |r| == |todos|
  {
    var d := FindIndex(todos, TodoHasId(draggedId));
    if d < 0 then todos
    else
      var rest := RemoveAt(todos, d);
      var t := if targetId.Some? then FindIndex(rest, TodoHasId(targetId.value)) else -1;
      if t >= 0 then InsertAt(rest, t, todos[d]) else rest + [todos[d]]
  }

  /** Dragging an id no todo carries changes nothing. */
  lemma ReorderUnknownDragged(todos: seq<Todo>, draggedId: Id, targetId: Option<Id>)
    requires IdFree(todos, draggedId)
    ensures ReorderById(todos, draggedId, targetId) == todos
  {
  }

  /** Reordering only moves todos: the same todos, each as often as before. */
  lemma ReorderIsPermutation(todos: seq<Todo>, draggedId: Id, targetId: Option<Id>)
    ensures multiset(ReorderById(todos, draggedId, targetId)) == multiset(todos)
  {
    var d := FindIndex(todos, TodoHasId(draggedId));
    if d >= 0 {
      var rest := RemoveAt(todos, d);
      RemoveAtMultiset(todos, d);
      var t := if targetId.Some? then FindIndex(rest, TodoHasId(targetId.value)) else -1;
      if t >= 0 {
        InsertAtMultiset(rest, t, todos[d]);
      } else {
        assert multiset(rest + [todos[d]]) == multiset(rest) + multiset{todos[d]};
      }
    }
  }

  /** Reordering keeps the ids unique. */
  lemma ReorderKeepsUniqueIds(todos: seq<Todo>, draggedId: Id, targetId: Option<Id>)
    requires UniqueIds(todos)
    ensures UniqueIds(ReorderById(todos, draggedId, targetId))
  {
    var d := FindIndex(todos, TodoHasId(draggedId));
    if d >= 0 {
      var rest := RemoveAt(todos, d);
      RemoveKeepsUnique(todos, d);
      InsertKeepsUnique(rest, |rest|, todos[d]);
      assert InsertAt(rest, |rest|, todos[d]) == rest + [todos[d]];
      var t := if targetId.Some? then FindIndex(rest, TodoHasId(targetId.value)) else -1;
      if t >= 0 {
        InsertKeepsUnique(rest, t, todos[d]);
      }
    }
  }

  /** Dropped on another todo, the dragged todo ends up immediately before it. */
  lemma ReorderPlacesBeforeTarget(todos: seq<Todo>, draggedId: Id, targetId: Id)
    requires UniqueIds(todos) && draggedId != targetId
    requires !IdFree(todos, draggedId) && !IdFree(todos, targetId)
    ensures var r := ReorderById(todos, draggedId, Some(targetId));
      && 0 <= FindIndex(r, TodoHasId(draggedId))
      && FindIndex(r, TodoHasId(targetId)) == FindIndex(r, TodoHasId(draggedId)) + 1
  {
    var d := FindIndex(todos, TodoHasId(draggedId));
    var k :| 0 <= k < |todos| && todos[k].id == targetId;
    var rest := RemoveAt(todos, d);
    RemoveKeepsUnique(todos, d);
    var k' := if k < d then k else k - 1;
    assert rest[k'].id == targetId;
    var t := FindIndex(rest, TodoHasId(targetId));
    var r := InsertAt(rest, t, todos[d]);
    InsertKeepsUnique(rest, t, todos[d]);
    assert r[t + 1] == rest[t];
    FindIndexOfUniqueId(r, t);
    FindIndexOfUniqueId(r, t + 1);
  }

  /** With no target, an unknown target or the dragged todo itself as target, the dragged
      todo goes to the end and the others keep their order. */
  lemma ReorderToEnd(todos: seq<Todo>, draggedId: Id, targetId: Option<Id>)
    requires UniqueIds(todos) && !IdFree(todos, draggedId)
    requires targetId.None? || targetId.value == draggedId || IdFree(todos, targetId.value)
    ensures var d := FindIndex(todos, TodoHasId(draggedId));
      ReorderById(todos, draggedId, targetId) == RemoveAt(todos, d) + [todos[d]]
  {
    var d := FindIndex(todos, TodoHasId(draggedId));
    RemoveKeepsUnique(todos, d);
    if targetId.Some? {
      var rest := RemoveAt(todos, d);
      assert IdFree(rest, targetId.value);
    }
  }

  // ---------------------------------------------------------------------------------------
  // getFilteredTodos

  /** The day number `getFilteredTodos` compares: `new Date(year, month - 1, day)` of the
      parts `date.split('-').map(Number)` yields, or None when one of them is NaN (an
      Invalid Date, for which every comparison is false). */
  function TodoDay(date: string): Option<int> {
    var p := ParseDateFields(date);
    if p.Some? then Some(Calendar.MakeDateDay(p.value)) else None
  }

  /** The `switch (this.currentFilter)` on one todo's date; `today` is the calendar date of
      `new Date()`, read as local midnight. */
  predicate DateFilterKeeps(filter: string, today: Calendar.CalDate, date: string) {
    var day := TodoDay(date);
    var t := Calendar.MakeDateDay(today);
    if filter == "today" then day == Some(t)
    else if filter == "yesterday" then day == Some(t - 1)
    else if filter == "week" then
      day.Some? && Calendar.WeekStart(t) <= day.value <= Calendar.WeekStart(t) + 6
    else if filter == "month" then
      day.Some? && Calendar.DateOfDay(day.value).month == Calendar.DateOfDay(t).month
        && Calendar.DateOfDay(day.value).year == Calendar.DateOfDay(t).year
    else if filter == "year" then
      day.Some? && Calendar.DateOfDay(day.value).year == Calendar.DateOfDay(t).year
    else true
  }

  /** The test the `filter` callback applies: the todo sits on the side of the deleted flag
      `showDeleted` selects, and its date passes the current filter. */
  function Shown(showDeleted: bool, filter: string, today: Calendar.CalDate): Todo -> bool {
    (t: Todo) => t.deleted == showDeleted && DateFilterKeeps(filter, today, t.date)
  }

  /** The result of `getFilteredTodos`: the todos that pass, in stored order. */
  function FilteredTodos(todos: seq<Todo>, showDeleted: bool, filter: string, today: Calendar.CalDate): (r: seq<Todo>)
    ensures forall t :: t in r <==> t in todos && t.deleted == showDeleted && DateFilterKeeps(filter, today, t.date)
  {
    Keep(todos, Shown(showDeleted, filter, today))
  }

  /** The view is an order-preserving subsequence of the todos, all on the side of the
      deleted flag that `showDeleted` selects. */
  lemma FilteredIsDeletedSideSubsequence(todos: seq<Todo>, showDeleted: bool, filter: string, today: Calendar.CalDate)
    ensures var r := FilteredTodos(todos, showDeleted, filter, today);
      IsSubsequence(r, todos) && forall k :: 0 <= k < |r| ==> r[k].deleted == showDeleted
  {
    KeepIsSubsequence(todos, Shown(showDeleted, filter, today));
  }

  /** A filter value the switch does not know shows the whole side of the deleted flag. */
  lemma UnknownFilterKeepsPartition(todos: seq<Todo>, showDeleted: bool, filter: string, today: Calendar.CalDate)
    requires filter !in {"today", "yesterday", "week", "month", "year"}
    ensures FilteredTodos(todos, showDeleted, filter, today) == Keep(todos, DeletedSide(showDeleted))
  {
    KeepCongruent(todos, Shown(showDeleted, filter, today), DeletedSide(showDeleted));
  }

  /** For a todo dated on a real calendar day (year 100 or later, so the Date constructor
      does not move it to the 1900s) and a present day of such a year, "today" keeps the
      same date and "yesterday" the day before. */
  lemma DayFiltersAreDateComparisons(today: Calendar.CalDate, date: string, p: Calendar.CalDate)
    requires Calendar.Valid(today) && today.year >= 100
    requires ParseDateFields(date) == Some(p) && Calendar.Valid(p) && p.year >= 100
    ensures DateFilterKeeps("today", today, date) <==> p == today
    ensures DateFilterKeeps("yesterday", today, date) <==> p == Calendar.PrevDay(today)
  {
    Calendar.MakeDateDayFrom100(p);
    Calendar.MakeDateDayFrom100(today);
    Calendar.DayNumberInjective(p, today);
    Calendar.PrevDayIsPredecessor(today);
    Calendar.DayNumberInjective(p, Calendar.PrevDay(today));
  }

  /** Under the same conditions, "month" keeps the dates of the same month of the same year
      and "year" those of the same year. */
  lemma MonthYearFiltersCompareFields(today: Calendar.CalDate, date: string, p: Calendar.CalDate)
    requires Calendar.Valid(today) && today.year >= 100
    requires ParseDateFields(date) == Some(p) && Calendar.Valid(p) && p.year >= 100
    ensures DateFilterKeeps("month", today, date) <==> p.year == today.year && p.month == today.month
    ensures DateFilterKeeps("year", today, date) <==> p.year == today.year
  {
    TodoDayOfRealDate(date, p);
    Calendar.MakeDateDayFrom100(today);
    Calendar.DateOfDayNumber(p);
    Calendar.DateOfDayNumber(today);
  }

  /** A date string whose fields form a real date of year 100 or later is that date's day. */
  lemma TodoDayOfRealDate(date: string, p: Calendar.CalDate)
    requires ParseDateFields(date) == Some(p) && p.year >= 100
    ensures TodoDay(date) == Some(Calendar.DayNumber(p))
  {
    Calendar.MakeDateDayFrom100(p);
  }

  /** The "week" filter keeps exactly the dates of the Sunday-to-Saturday week of today. */
  lemma WeekFilterIsSameSundayWeek(today: Calendar.CalDate, date: string)
    requires TodoDay(date).Some?
    ensures var n := TodoDay(date).value;
      (DateFilterKeeps("week", today, date)
       <==> Calendar.WeekStart(n) == Calendar.WeekStart(Calendar.MakeDateDay(today)))
  {
    Calendar.SameWeekStart(Calendar.MakeDateDay(today), TodoDay(date).value);
  }

  /** A todo added without a date carries today's date, which the "today" filter shows. */
  lemma DefaultDateShowsToday(today: Calendar.CalDate)
    requires Calendar.Valid(today) && today.year >= 0
    ensures DateFilterKeeps("today", today, LocalISODate(today))
  {
    LocalISODateRoundTrip(today);
  }

  // ---------------------------------------------------------------------------------------
  // The application object

  /** The todo `addTodo` builds: trimmed text, the chosen date or today's, the trimmed
      category or null, not completed, no deleted flag. */
  function NewTodo(id: Id, text: string, categoryInput: string, dateInput: string,
                   today: Calendar.CalDate, now: Timestamp): (t: Todo)
    requires Calendar.Valid(today)
    ensures t.id == id && t.text == Trim(text) && !t.completed && !t.deleted && t.deletedAt.None?
    ensures dateInput != "" ==> t.date == dateInput
    ensures dateInput == "" && today.year >= 0 ==> ParseDateFields(t.date) == Some(today)
    ensures t.category.Some? <==> Trim(categoryInput) != ""
    ensures t.category.Some? ==> t.category.value == Trim(categoryInput)
  {
    DefaultDateReadsToday(today);
    var category := Trim(categoryInput);
    Todo(id, Trim(text), if dateInput == "" then LocalISODate(today) else dateInput,
         if category == "" then None else Some(category), false, false, None, now)
  }

  lemma DefaultDateReadsToday(today: Calendar.CalDate)
    requires Calendar.Valid(today)
    ensures today.year >= 0 ==> ParseDateFields(LocalISODate(today)) == Some(today)
  {
    if today.year >= 0 {
      LocalISODateRoundTrip(today);
    }
  }

  /** Prepending a fresh, undeleted todo keeps ids unique and `deletedAt` on the deleted. */
  lemma PrependKeepsValid(todos: seq<Todo>, todo: Todo)
    requires UniqueIds(todos) && DeletedAtTracksDeleted(todos) && IdFree(todos, todo.id)
    requires !todo.deleted && todo.deletedAt.None?
    ensures UniqueIds([todo] + todos) && DeletedAtTracksDeleted([todo] + todos)
  {
    InsertKeepsUnique(todos, 0, todo);
    assert InsertAt(todos, 0, todo) == [todo] + todos;
  }

  class TodoApp {
    var todos: seq<Todo>
    var currentFilter: string
    var showDeleted: bool
    var selectedTodoForFocus: Option<Id>
    var timer: Countdown
    var pomodoro: Countdown
    /** Intervals currently scheduled. */
    ghost var live: set<Handle>
    /** Every handle `setInterval` has returned so far. */
    ghost var issued: set<Handle>

    /** Ids are unique, `deletedAt` marks exactly the deleted todos, and each countdown's
        interval is live exactly while it runs. */
    ghost predicate Valid()
      reads this
    {
      && UniqueIds(todos)
      && DeletedAtTracksDeleted(todos)
      && Schedule(timer, pomodoro, live, issued)
    }

    /** The todo part of the state is as it was. */
    twostate predicate TodosUnchanged()
      reads this
    {
      todos == old(todos) && currentFilter == old(currentFilter) && showDeleted == old(showDeleted)
    }

    /** The countdowns and the scheduler are as they were. */
    twostate predicate TimersUnchanged()
      reads this
    {
      && timer == old(timer) && pomodoro == old(pomodoro)
      && live == old(live) && issued == old(issued)
    }

    constructor()
      ensures Valid()
      ensures todos == [] && currentFilter == "all" && !showDeleted && selectedTodoForFocus.None?
      ensures timer == Initial && pomodoro == Initial && live == {}
    {
      todos := [];
      currentFilter := "all";
      showDeleted := false;
      selectedTodoForFocus := None;
      timer := Initial;
      pomodoro := Initial;
      live := {};
      issued := {};
    }

    /** `getFilteredTodos()` on the current filter and deleted side. */
    function GetFilteredTodos(today: Calendar.CalDate): (r: seq<Todo>)
      reads this
      ensures IsSubsequence(r, todos)
      ensures forall k :: 0 <= k < |r| ==> r[k].deleted == showDeleted
    {
      FilteredIsDeletedSideSubsequence(todos, showDeleted, currentFilter, today);
      FilteredTodos(todos, showDeleted, currentFilter, today)
    }

    method ReorderTodos(draggedId: Id, targetId: Option<Id>)
      requires Valid()
      modifies this
      ensures Valid()
      ensures todos == ReorderById(old(todos), draggedId, targetId)
      ensures currentFilter == old(currentFilter) && showDeleted == old(showDeleted)
      ensures selectedTodoForFocus == old(selectedTodoForFocus) && TimersUnchanged()
    {
      ReorderKeepsUniqueIds(todos, draggedId, targetId);
      ReorderIsPermutation(todos, draggedId, targetId);
      ghost var before := todos;
      var draggedIndex := FindIndex(todos, TodoHasId(draggedId));
      if draggedIndex == -1 {
        return;
      }
      var draggedTodo := todos[draggedIndex];
      todos := RemoveAt(todos, draggedIndex);
      if targetId.None? {
        todos := todos + [draggedTodo];
      } else {
        var targetIndex := FindIndex(todos, TodoHasId(targetId.value));
        if targetIndex != -1 {
          todos := InsertAt(todos, targetIndex, draggedTodo);
        } else {
          todos := todos + [draggedTodo];
        }
      }
      forall t | t in todos ensures StampedIffDeleted(t) {
        assert t in multiset(before);
      }
    }

    /** `addTodo` with the three inputs' values, the date of `new Date()`, a fresh
        `Date.now()` id and the `toISOString()` of now. */
    method AddTodo(text: string, categoryInput: string, dateInput: string,
                   today: Calendar.CalDate, id: Id, now: Timestamp)
      requires Valid() && Calendar.Valid(today) && IdFree(todos, id)
      modifies this
      ensures Valid()
      ensures Trim(text) == [] ==> todos == old(todos)
      ensures Trim(text) != [] ==> todos == [NewTodo(id, text, categoryInput, dateInput, today, now)] + old(todos)
      ensures currentFilter == old(currentFilter) && showDeleted == old(showDeleted)
      ensures selectedTodoForFocus == old(selectedTodoForFocus) && TimersUnchanged()
    {
      if Trim(text) != [] {
        var todo := NewTodo(id, text, categoryInput, dateInput, today, now);
        PrependKeepsValid(todos, todo);
        todos := [todo] + todos;
      }
    }

    method ToggleTodo(id: Id)
      requires Valid()
      modifies this
      ensures Valid()
      ensures todos == UpdateFirst(old(todos), TodoHasId(id), Flip)
      ensures currentFilter == old(currentFilter) && showDeleted == old(showDeleted)
      ensures selectedTodoForFocus == old(selectedTodoForFocus) && TimersUnchanged()
    {
      UpdateKeepsIds(todos, id, Flip);
      ScriptEditsKeepDeletedAt(todos, id, "", "");
      var i := FindIndex(todos, TodoHasId(id));
      if i != -1 {
        var todo := todos[i];
        todos := todos[i := todo.(completed := !todo.completed)];
      }
    }

    /** `deleteTodo`, with `now` the `toISOString()` it stamps. */
    method DeleteTodo(id: Id, now: Timestamp)
      requires Valid()
      modifies this
      ensures Valid()
      ensures todos == UpdateFirst(old(todos), TodoHasId(id), StampDeleted(now))
      ensures currentFilter == old(currentFilter) && showDeleted == old(showDeleted)
      ensures selectedTodoForFocus == old(selectedTodoForFocus) && TimersUnchanged()
    {
      UpdateKeepsIds(todos, id, StampDeleted(now));
      ScriptEditsKeepDeletedAt(todos, id, now, "");
      var i := FindIndex(todos, TodoHasId(id));
      if i != -1 {
        var todo := todos[i];
        todos := todos[i := todo.(deleted := true, deletedAt := Some(now))];
      }
    }

    method RestoreTodo(id: Id)
      requires Valid()
      modifies this
      ensures Valid()
      ensures todos == UpdateFirst(old(todos), TodoHasId(id), RestoreDeleted)
      ensures currentFilter == old(currentFilter) && showDeleted == old(showDeleted)
      ensures selectedTodoForFocus == old(selectedTodoForFocus) && TimersUnchanged()
    {
      UpdateKeepsIds(todos, id, RestoreDeleted);
      ScriptEditsKeepDeletedAt(todos, id, "", "");
      var i := FindIndex(todos, TodoHasId(id));
      if i != -1 && todos[i].deleted {
        var todo := todos[i];
        todos := todos[i := todo.(deleted := false, deletedAt := None)];
      }
    }

    method FinishEditTodo(id: Id, newText: string)
      requires Valid()
      modifies this
      ensures Valid()
      ensures Trim(newText) == [] ==> todos == old(todos)
      ensures Trim(newText) != [] ==> todos == UpdateFirst(old(todos), TodoHasId(id), SetTextUnlessDeleted(Trim(newText)))
      ensures currentFilter == old(currentFilter) && showDeleted == old(showDeleted)
      ensures selectedTodoForFocus == old(selectedTodoForFocus) && TimersUnchanged()
    {
      var trimmedText := Trim(newText);
      if trimmedText != [] {
        UpdateKeepsIds(todos, id, SetTextUnlessDeleted(trimmedText));
        ScriptEditsKeepDeletedAt(todos, id, "", trimmedText);
        var i := FindIndex(todos, TodoHasId(id));
        if i != -1 && !todos[i].deleted {
          var todo := todos[i];
          todos := todos[i := todo.(text := trimmedText)];
        }
      }
    }

    // -------------------------------------------------------------------------------------
    // Timer

    /** `startTimer`; `handle` is what `setInterval` returns. Starting a running timer
        changes nothing, so it never holds two intervals. */
    method StartTimer(handle: Handle)
      requires Valid() && handle !in issued
      modifies this
      ensures Valid()
      ensures old(timer.isRunning) ==> timer == old(timer) && live == old(live)
      ensures !old(timer.isRunning) ==>
        timer == old(timer).(isRunning := true, interval := Some(handle)) && live == old(live) + {handle}
      ensures pomodoro == old(pomodoro) && TodosUnchanged()
      ensures selectedTodoForFocus == old(selectedTodoForFocus)
    {
      if !timer.isRunning {
        StartKeepsSchedule(timer, pomodoro, live, issued, handle);
        timer := timer.(isRunning := true, interval := Some(handle));
        live := live + {handle};
        issued := issued + {handle};
      }
    }

    /** `pauseTimer`: stops and clears the interval; minutes and seconds stay. */
    method PauseTimer()
      requires Valid()
      modifies this
      ensures Valid()
      ensures timer == old(timer).(isRunning := false) && live == Scheduled(pomodoro)
      ensures pomodoro == old(pomodoro) && issued == old(issued) && TodosUnchanged()
      ensures selectedTodoForFocus == old(selectedTodoForFocus)
    {
      ClearingLeavesOther(timer, pomodoro, live, issued);
      timer := timer.(isRunning := false);
      if timer.interval.Some? {
        live := live - {timer.interval.value};
      }
    }

    /** `resetTimer`: stopped at 25:00, interval cleared, and the todo chosen for focus
        mode forgotten. */
    method ResetTimer()
      requires Valid()
      modifies this
      ensures Valid()
      ensures timer == Reset(old(timer)) && live == Scheduled(pomodoro)
      ensures selectedTodoForFocus.None?
      ensures pomodoro == old(pomodoro) && issued == old(issued) && TodosUnchanged()
    {
      ClearingLeavesOther(timer, pomodoro, live, issued);
      timer := timer.(isRunning := false, minutes := 25, seconds := 0);
      if timer.interval.Some? {
        live := live - {timer.interval.value};
      }
      selectedTodoForFocus := None;
    }

    /** One run of the timer's interval callback, which fires only while it is scheduled;
        at 0:00 it resets the timer (and with it the focus selection). */
    method TickTimer()
      requires Valid() && timer.isRunning
      modifies this
      ensures Valid()
      ensures timer == Tick(old(timer))
      ensures Remaining(old(timer)) > 0 ==>
        live == old(live) && selectedTodoForFocus == old(selectedTodoForFocus)
      ensures Remaining(old(timer)) == 0 ==> live == Scheduled(pomodoro) && selectedTodoForFocus.None?
      ensures pomodoro == old(pomodoro) && issued == old(issued) && TodosUnchanged()
    {
      if timer.seconds > 0 {
        timer := timer.(seconds := timer.seconds - 1);
      } else if timer.minutes > 0 {
        timer := timer.(minutes := timer.minutes - 1, seconds := 59);
      } else {
        ResetTimer();
      }
    }

    // -------------------------------------------------------------------------------------
    // Pomodoro

    method StartPomodoro(handle: Handle)
      requires Valid() && handle !in issued
      modifies this
      ensures Valid()
      ensures old(pomodoro.isRunning) ==> pomodoro == old(pomodoro) && live == old(live)
      ensures !old(pomodoro.isRunning) ==>
        pomodoro == old(pomodoro).(isRunning := true, interval := Some(handle)) && live == old(live) + {handle}
      ensures timer == old(timer) && TodosUnchanged()
      ensures selectedTodoForFocus == old(selectedTodoForFocus)
    {
      if !pomodoro.isRunning {
        StartKeepsSchedule(pomodoro, timer, live, issued, handle);
        pomodoro := pomodoro.(isRunning := true, interval := Some(handle));
        live := live + {handle};
        issued := issued + {handle};
      }
    }

    method PausePomodoro()
      requires Valid()
      modifies this
      ensures Valid()
      ensures pomodoro == old(pomodoro).(isRunning := false) && live == Scheduled(timer)
      ensures timer == old(timer) && issued == old(issued) && TodosUnchanged()
      ensures selectedTodoForFocus == old(selectedTodoForFocus)
    {
      ClearingLeavesOther(pomodoro, timer, live, issued);
      pomodoro := pomodoro.(isRunning := false);
      if pomodoro.interval.Some? {
        live := live - {pomodoro.interval.value};
      }
    }

    method ResetPomodoro()
      requires Valid()
      modifies this
      ensures Valid()
      ensures pomodoro == Reset(old(pomodoro)) && live == Scheduled(timer)
      ensures timer == old(timer) && issued == old(issued) && TodosUnchanged()
      ensures selectedTodoForFocus == old(selectedTodoForFocus)
    {
      ClearingLeavesOther(pomodoro, timer, live, issued);
      pomodoro := pomodoro.(isRunning := false);
      if pomodoro.interval.Some? {
        live := live - {pomodoro.interval.value};
      }
      pomodoro := pomodoro.(minutes := 25, seconds := 0);
    }

    method TickPomodoro()
      requires Valid() && pomodoro.isRunning
      modifies this
      ensures Valid()
      ensures pomodoro == Tick(old(pomodoro))
      ensures Remaining(old(pomodoro)) > 0 ==> live == old(live)
      ensures Remaining(old(pomodoro)) == 0 ==> live == Scheduled(timer)
      ensures timer == old(timer) && issued == old(issued) && TodosUnchanged()
      ensures selectedTodoForFocus == old(selectedTodoForFocus)
    {
      if pomodoro.seconds > 0 {
        pomodoro := pomodoro.(seconds := pomodoro.seconds - 1);
      } else if pomodoro.minutes > 0 {
        pomodoro := pomodoro.(minutes := pomodoro.minutes - 1, seconds := 59);
      } else {
        ResetPomodoro();
      }
    }
  }
}
