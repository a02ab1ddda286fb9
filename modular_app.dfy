/** js/app.js: the `TodoApp` object of the modular version. It owns the state the other
    modules edit through their `app` reference, filters the todos for the view with a
    chain of `filter` calls, counts them for the statistics, reorders them by position in
    the filtered view and keeps the focus-mode selection pointing at an existing todo. */
module ModularApp {
  import opened JsBuiltins
  import Calendar
  import opened IsoDate
  import opened Records
  import opened CountdownTimer

  // ---------------------------------------------------------------------------------------
  // getFilteredTodos

  /** The first `filter`: the todos on the side of the deleted flag the view shows. */
  function Partitioned(todos: seq<Todo>, showDeleted: bool): (r: seq<Todo>)
    ensures forall t :: t in r <==> t in todos && t.deleted == showDeleted
  {
    Keep(todos, DeletedSide(showDeleted))
  }

  function Pending(t: Todo): bool {
    !t.completed
  }

  function Completed(t: Todo): bool {
    t.completed
  }

  /** `todo.date === today`, with `today` the date part of `toISOString()`. */
  function DatedOn(day: string): Todo -> bool {
    (t: Todo) => t.date == day
  }

  /** The "week" case as it is evidently meant: the stored date, read through its fields
      as a calendar day, lies in today's Sunday-to-Saturday week. */
  function InWeekOf(today: Calendar.CalDate): Todo -> bool {
    (t: Todo) =>
      var p := ParseDateFields(t.date);
      var s := Calendar.WeekStart(Calendar.DayNumber(today));
      p.Some? && Calendar.Valid(p.value) && s <= Calendar.DayNumber(p.value) <= s + 6
  }

  /** The "week" filter keeps a real date exactly when it has the same Sunday as today. */
  lemma WeekFilterIsSameSundayWeek(today: Calendar.CalDate, t: Todo, p: Calendar.CalDate)
    requires ParseDateFields(t.date) == Some(p) && Calendar.Valid(p)
    ensures InWeekOf(today)(t)
      <==> Calendar.WeekStart(Calendar.DayNumber(p)) == Calendar.WeekStart(Calendar.DayNumber(today))
  {
    Calendar.SameWeekStart(Calendar.DayNumber(today), Calendar.DayNumber(p));
  }

  /** Milliseconds in a day. */
  const MsPerDay: int := 86400000

  /** The "week" case as written: `weekStart` is `new Date()` moved back to Sunday, so it
      keeps the current local time of day `msOfDay`; `weekEnd` is six days later; and
      `new Date(todo.date)` is midnight UTC of the stored date, day number `todoDay`. All
      three are compared as time values; `zoneOffset` is local time minus UTC in
      milliseconds, `todayDay` the local day number of today. */
  predicate InWeekAsWritten(todoDay: int, todayDay: int, msOfDay: int, zoneOffset: int) {
    var weekStart := Calendar.WeekStart(todayDay) * MsPerDay + msOfDay - zoneOffset;
    var weekEnd := weekStart + 6 * MsPerDay;
    var todoDate := todoDay * MsPerDay;
    weekStart <= todoDate <= weekEnd
  }

  /** As written, a todo dated on this week's Sunday is left out whenever the local time of
      day is past the zone offset (at any time of day west of Greenwich, after midnight in
      UTC), and next Sunday's todo is let in once the time of day reaches a day past the
      offset (from 21:00 in UTC-3). */
  lemma WeekAsWrittenShiftsBySunday(todayDay: int, msOfDay: int, zoneOffset: int)
    requires 0 <= msOfDay < MsPerDay && -MsPerDay < zoneOffset < MsPerDay
    ensures var sunday := Calendar.WeekStart(todayDay);
      && (zoneOffset < msOfDay ==> !InWeekAsWritten(sunday, todayDay, msOfDay, zoneOffset))
      && (MsPerDay + zoneOffset <= msOfDay ==> InWeekAsWritten(sunday + 7, todayDay, msOfDay, zoneOffset))
  {
  }

  /** The `switch (this.currentFilter)` applied to the partitioned list. */
  function ByFilter(partitioned: seq<Todo>, filter: string, today: Calendar.CalDate): seq<Todo>
    requires Calendar.Valid(today)
  {
    if filter == "pending" then Keep(partitioned, Pending)
    else if filter == "completed" then Keep(partitioned, Completed)
    else if filter == "today" then Keep(partitioned, DatedOn(UtcISODate(today)))
    else if filter == "week" then Keep(partitioned, InWeekOf(today))
    else partitioned
  }

  /** The result of `getFilteredTodos`; `today` is the current date. */
  function FilteredTodos(todos: seq<Todo>, showDeleted: bool, filter: string, today: Calendar.CalDate): (r: seq<Todo>)
    requires Calendar.Valid(today)
    ensures forall t :: t in r ==> t in todos && t.deleted == showDeleted
  {
    ByFilter(Partitioned(todos, showDeleted), filter, today)
  }

  /** Whatever the filter, the view is an order-preserving subsequence of the todos. */
  lemma FilteredIsSubsequence(todos: seq<Todo>, showDeleted: bool, filter: string, today: Calendar.CalDate)
    requires Calendar.Valid(today)
    ensures IsSubsequence(FilteredTodos(todos, showDeleted, filter, today), todos)
  {
    var side := DeletedSide(showDeleted);
    KeepIsSubsequence(todos, side);
    var q: Todo -> bool :=
      if filter == "pending" then Pending
      else if filter == "completed" then Completed
      else if filter == "today" then DatedOn(UtcISODate(today))
      else InWeekOf(today);
    if filter in {"pending", "completed", "today", "week"} {
      KeepKeep(todos, side, q);
      KeepIsSubsequence(todos, Both(side, q));
    }
  }

  /** "pending" and "completed" split the partitioned list in two: no todo is in both, and
      together they hold each of its todos exactly once. */
  lemma PendingCompletedSplit(todos: seq<Todo>, showDeleted: bool, today: Calendar.CalDate)
    requires Calendar.Valid(today)
    ensures var p := Partitioned(todos, showDeleted);
      var pending := FilteredTodos(todos, showDeleted, "pending", today);
      var completed := FilteredTodos(todos, showDeleted, "completed", today);
      && (forall t :: !(t in pending && t in completed))
      && |pending| + |completed| == |p|
      && multiset(pending) + multiset(completed) == multiset(p)
  {
    var p := Partitioned(todos, showDeleted);
    KeepSplits(p, Completed);
    KeepCongruent(p, Not(Completed), Pending);
  }

  /** A filter value the switch does not know returns the partitioned list as it is. */
  lemma UnknownFilterIsPartition(todos: seq<Todo>, showDeleted: bool, filter: string, today: Calendar.CalDate)
    requires Calendar.Valid(today) && filter !in {"pending", "completed", "today", "week"}
    ensures FilteredTodos(todos, showDeleted, filter, today) == Partitioned(todos, showDeleted)
  {
  }

  /** "today" keeps exactly the shown todos whose stored date is today's ISO date, and
      "week" those dated in today's Sunday-to-Saturday week. */
  lemma DateFiltersKeep(todos: seq<Todo>, showDeleted: bool, today: Calendar.CalDate)
    requires Calendar.Valid(today)
    ensures forall t :: (t in FilteredTodos(todos, showDeleted, "today", today)
      <==> t in todos && t.deleted == showDeleted && t.date == UtcISODate(today))
    ensures forall t :: (t in FilteredTodos(todos, showDeleted, "week", today)
      <==> t in todos && t.deleted == showDeleted && InWeekOf(today)(t))
  {
  }

  /** A todo dated today by `addTodo`'s default date is in today's week. */
  lemma TodayIsInWeek(today: Calendar.CalDate, t: Todo)
    requires Calendar.Valid(today) && 0 <= today.year <= 9999 && t.date == UtcISODate(today)
    ensures InWeekOf(today)(t)
  {
    UtcISODateRoundTrip(today);
  }

  // ---------------------------------------------------------------------------------------
  // updateStats

  /** The three numbers `updateStats` shows: active, completed and pending todos. */
  datatype Stats = Stats(total: nat, completed: nat, pending: nat)

  function CountStats(todos: seq<Todo>): Stats {
    var active := Keep(todos, DeletedSide(false));
    Stats(|active|, |Keep(active, Completed)|, |Keep(active, Pending)|)
  }

  /** Completed plus pending is the number of todos not deleted, and each count is that of
      the matching todos of the "completed" and "pending" views with deleted todos hidden. */
  lemma StatsAddUp(todos: seq<Todo>, today: Calendar.CalDate)
    requires Calendar.Valid(today)
    ensures var s := CountStats(todos);
      && s.completed + s.pending == s.total
      && s.completed == |FilteredTodos(todos, false, "completed", today)|
      && s.pending == |FilteredTodos(todos, false, "pending", today)|
  {
    PendingCompletedSplit(todos, false, today);
  }

  // ---------------------------------------------------------------------------------------
  // reorderTodos(fromIndex, toIndex)

  /** The list `reorderTodos` leaves: the todos at positions `fromIndex` and `toIndex` of the
      filtered view are looked up by id in the full list and the first is moved before the
      second. */
  function ReorderByIndex(todos: seq<Todo>, view: seq<Todo>, fromIndex: nat, toIndex: nat): (r: seq<Todo>)
    requires fromIndex < |view| && toIndex < |view|
    requires forall t :: t in view ==> t in todos
    ensures |r| == |todos|
  {
    ViewTodoFound(todos, view, fromIndex);
    ViewTodoFound(todos, view, toIndex);
    MoveBefore(todos, FindIndex(todos, TodoHasId(view[fromIndex].id)), FindIndex(todos, TodoHasId(view[toIndex].id)))
  }

  /** The two splices on actual indices: the todo at `d` is taken out and put back at `t`,
      one less when it came from before `t`. */
  function MoveBefore(todos: seq<Todo>, d: nat, t: nat): (r: seq<Todo>)
    requires d < |todos| && t < |todos|
    ensures |r| == |todos|
  {
    InsertAt(RemoveAt(todos, d), if d < t then t - 1 else t, todos[d])
  }

  /** A todo of the view is found by id in the full list. */
  lemma ViewTodoFound(todos: seq<Todo>, view: seq<Todo>, i: nat)
    requires i < |view| && forall t :: t in view ==> t in todos
    ensures 0 <= FindIndex(todos, TodoHasId(view[i].id))
  {
    assert view[i] in view;
    var k :| 0 <= k < |todos| && todos[k] == view[i];
    assert TodoHasId(view[i].id)(todos[k]);
  }

  /** Moving keeps the ids unique. */
  lemma MoveBeforeKeepsUnique(todos: seq<Todo>, d: nat, t: nat)
    requires d < |todos| && t < |todos| && UniqueIds(todos)
    ensures UniqueIds(MoveBefore(todos, d, t))
  {
    RemoveKeepsUnique(todos, d);
    InsertKeepsUnique(RemoveAt(todos, d), if d < t then t - 1 else t, todos[d]);
  }

  /** Moved onto a different position, the todo from `d` ends up right before the todo
      from `t`. */
  lemma MoveBeforePlaces(todos: seq<Todo>, d: nat, t: nat)
    requires d < |todos| && t < |todos| && d != t
    ensures var r := MoveBefore(todos, d, t); var n := if d < t then t - 1 else t;
      n + 1 < |r| && r[n] == todos[d] && r[n + 1] == todos[t]
  {
    var rest := RemoveAt(todos, d);
    var n := if d < t then t - 1 else t;
    assert rest[n] == todos[t];
  }

  /** Reordering only moves todos. */
  lemma ReorderIsPermutation(todos: seq<Todo>, view: seq<Todo>, fromIndex: nat, toIndex: nat)
    requires fromIndex < |view| && toIndex < |view|
    requires forall t :: t in view ==> t in todos
    ensures multiset(ReorderByIndex(todos, view, fromIndex, toIndex)) == multiset(todos)
  {
    ViewTodoFound(todos, view, fromIndex);
    ViewTodoFound(todos, view, toIndex);
    var d := FindIndex(todos, TodoHasId(view[fromIndex].id));
    var t := FindIndex(todos, TodoHasId(view[toIndex].id));
    RemoveAtMultiset(todos, d);
    InsertAtMultiset(RemoveAt(todos, d), if d < t then t - 1 else t, todos[d]);
  }

  /** Reordering keeps the ids unique. */
  lemma ReorderKeepsUniqueIds(todos: seq<Todo>, view: seq<Todo>, fromIndex: nat, toIndex: nat)
    requires fromIndex < |view| && toIndex < |view|
    requires forall t :: t in view ==> t in todos
    requires UniqueIds(todos)
    ensures UniqueIds(ReorderByIndex(todos, view, fromIndex, toIndex))
  {
    ViewTodoFound(todos, view, fromIndex);
    ViewTodoFound(todos, view, toIndex);
    MoveBeforeKeepsUnique(todos, FindIndex(todos, TodoHasId(view[fromIndex].id)), FindIndex(todos, TodoHasId(view[toIndex].id)));
  }

  /** Dropped on a different todo of the view, the dragged todo ends up immediately before
      it in the full list. */
  lemma ReorderPlacesBeforeTarget(todos: seq<Todo>, view: seq<Todo>, fromIndex: nat, toIndex: nat)
    requires fromIndex < |view| && toIndex < |view|
    requires forall t :: t in view ==> t in todos
    requires UniqueIds(todos) && view[fromIndex].id != view[toIndex].id
    ensures var r := ReorderByIndex(todos, view, fromIndex, toIndex);
      var d := FindIndex(r, TodoHasId(view[fromIndex].id));
      0 <= d && FindIndex(r, TodoHasId(view[toIndex].id)) == d + 1
  {
    ViewTodoFound(todos, view, fromIndex);
    ViewTodoFound(todos, view, toIndex);
    var d := FindIndex(todos, TodoHasId(view[fromIndex].id));
    var t := FindIndex(todos, TodoHasId(view[toIndex].id));
    var r := MoveBefore(todos, d, t);
    var n := if d < t then t - 1 else t;
    MoveBeforeKeepsUnique(todos, d, t);
    MoveBeforePlaces(todos, d, t);
    FindIndexOfUniqueId(r, n);
    FindIndexOfUniqueId(r, n + 1);
  }

  /** Dropping a todo on itself leaves the list as it was. */
  lemma ReorderOntoItself(todos: seq<Todo>, view: seq<Todo>, i: nat)
    requires i < |view| && forall t :: t in view ==> t in todos
    ensures ReorderByIndex(todos, view, i, i) == todos
  {
    ViewTodoFound(todos, view, i);
    var d := FindIndex(todos, TodoHasId(view[i].id));
    var r := MoveBefore(todos, d, d);
    assert forall k :: 0 <= k < |todos| ==> r[k] == todos[k];
  }

  /** The body of `reorderTodos` once the view is computed: the todos at `fromIndex` and
      `toIndex` of the view are looked up by id in the full list, then two `splice` calls
      take the dragged one out and put it back at the target's position, corrected for its
      own removal. Both lookups succeed, the view being drawn from the list. */
  method MoveTodo(todos: seq<Todo>, filteredTodos: seq<Todo>, fromIndex: nat, toIndex: nat) returns (r: seq<Todo>)
    requires fromIndex < |filteredTodos| && toIndex < |filteredTodos|
    requires 0 <= FindIndex(todos, TodoHasId(filteredTodos[fromIndex].id))
    requires 0 <= FindIndex(todos, TodoHasId(filteredTodos[toIndex].id))
    ensures r == MoveBefore(todos, FindIndex(todos, TodoHasId(filteredTodos[fromIndex].id)),
                            FindIndex(todos, TodoHasId(filteredTodos[toIndex].id)))
  {
    var draggedTodo := filteredTodos[fromIndex];
    var targetTodo := filteredTodos[toIndex];
    var draggedActualIndex := FindIndex(todos, TodoHasId(draggedTodo.id));
    var targetActualIndex := FindIndex(todos, TodoHasId(targetTodo.id));
    var movedTodo := todos[draggedActualIndex];
    r := RemoveAt(todos, draggedActualIndex);
    var newTargetIndex := if draggedActualIndex < targetActualIndex then targetActualIndex - 1 else targetActualIndex;
    r := InsertAt(r, newTargetIndex, movedTodo);
  }

  // ---------------------------------------------------------------------------------------
  // The application object

  class TodoApp {
    var todos: seq<Todo>
    var notes: seq<Note>
    var currentFilter: string
    var showDeleted: bool
    var currentView: string
    var selectedTodoForFocus: Option<Id>
    var timer: Countdown
    var pomodoro: Countdown
    /** Intervals currently scheduled. */
    ghost var live: set<Handle>
    /** Every handle `setInterval` has returned so far. */
    ghost var issued: set<Handle>

    /** Todo ids are unique, note ids are unique, and each countdown's interval is live
        exactly while it runs. */
    ghost predicate Valid()
      reads this
    {
      UniqueIds(todos) && UniqueNoteIds(notes) && Schedule(timer, pomodoro, live, issued)
    }

    /** The todo list is as it was. */
    twostate predicate TodosUnchanged()
      reads this
    {
      todos == old(todos)
    }

    /** The notes are as they were. */
    twostate predicate NotesUnchanged()
      reads this
    {
      notes == old(notes)
    }

    /** The filter, the deleted side, the current view and the focus selection are as they
        were. */
    twostate predicate ViewUnchanged()
      reads this
    {
      && currentFilter == old(currentFilter) && showDeleted == old(showDeleted)
      && currentView == old(currentView) && selectedTodoForFocus == old(selectedTodoForFocus)
    }

    /** The countdowns and the scheduler are as they were. */
    twostate predicate TimersUnchanged()
      reads this
    {
      && timer == old(timer) && pomodoro == old(pomodoro)
      && live == old(live) && issued == old(issued)
    }

    constructor()
      ensures Valid()
      ensures todos == [] && notes == [] && currentFilter == "all" && !showDeleted
      ensures currentView == "todo" && selectedTodoForFocus.None?
      ensures timer == Initial && pomodoro == Initial && live == {}
    {
      todos := [];
      notes := [];
      currentFilter := "all";
      showDeleted := false;
      currentView := "todo";
      selectedTodoForFocus := None;
      timer := Initial;
      pomodoro := Initial;
      live := {};
      issued := {};
    }

    function GetFilteredTodos(today: Calendar.CalDate): (r: seq<Todo>)
      requires Calendar.Valid(today)
      reads this
      ensures IsSubsequence(r, todos)
      ensures forall t :: t in r ==> t in todos && t.deleted == showDeleted
    {
      FilteredIsSubsequence(todos, showDeleted, currentFilter, today);
      FilteredTodos(todos, showDeleted, currentFilter, today)
    }

    /** `reorderTodos(fromIndex, toIndex)`, positions in the view of `today`; both must be
        positions of that view, since the todos there are dereferenced. */
    method ReorderTodos(fromIndex: nat, toIndex: nat, today: Calendar.CalDate)
      requires Valid() && Calendar.Valid(today)
      requires fromIndex < |FilteredTodos(todos, showDeleted, currentFilter, today)|
      requires toIndex < |FilteredTodos(todos, showDeleted, currentFilter, today)|
      modifies this
      ensures Valid()
      ensures todos == ReorderByIndex(old(todos), old(FilteredTodos(todos, showDeleted, currentFilter, today)), fromIndex, toIndex)
      ensures NotesUnchanged() && ViewUnchanged() && TimersUnchanged()
    {
      var filteredTodos := FilteredTodos(todos, showDeleted, currentFilter, today);
      ViewTodoFound(todos, filteredTodos, fromIndex);
      ViewTodoFound(todos, filteredTodos, toIndex);
      ReorderKeepsUniqueIds(todos, filteredTodos, fromIndex, toIndex);
      todos := MoveTodo(todos, filteredTodos, fromIndex, toIndex);
    }

    /** The state part of `renderFocusMode`: when the focus panel exists and the selected
        id names no todo, the selection is dropped. */
    method RenderFocusMode(hasFocusContent: bool)
      requires Valid()
      modifies this
      ensures Valid()
      ensures hasFocusContent ==>
        selectedTodoForFocus.Some? ==> !IdFree(todos, selectedTodoForFocus.value)
      ensures selectedTodoForFocus ==
        if hasFocusContent && old(selectedTodoForFocus).Some? && IdFree(todos, old(selectedTodoForFocus).value)
        then None else old(selectedTodoForFocus)
      ensures TodosUnchanged() && NotesUnchanged() && TimersUnchanged()
      ensures currentFilter == old(currentFilter) && showDeleted == old(showDeleted) && currentView == old(currentView)
    {
      if hasFocusContent && selectedTodoForFocus.Some? {
        var focusIndex := FindIndex(todos, TodoHasId(selectedTodoForFocus.value));
        if focusIndex == -1 {
          selectedTodoForFocus := None;
        }
      }
    }
  }
}
