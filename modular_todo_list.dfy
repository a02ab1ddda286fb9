/** js/todo-list.js: the `TodoList` module, which edits `app.todos` in place through the
    application object it is constructed with. */
module ModularTodoList {
  import opened JsBuiltins
  import Calendar
  import opened IsoDate
  import opened Records
  import opened TodoStore
  import opened CountdownTimer
  import opened ModularApp

  /** The record `addTodo` pushes: the trimmed text, the date input or else today's date as
      `toISOString()` writes it, neither completed nor deleted, no category. */
  function NewTodo(id: Id, input: string, dateInput: string, today: Calendar.CalDate, now: Timestamp): (t: Todo)
    requires Calendar.Valid(today)
    ensures t.id == id && t.text == Trim(input) && t.createdAt == now
    ensures !t.completed && !t.deleted && t.category.None? && t.deletedAt.None?
    ensures dateInput != "" ==> t.date == dateInput
    ensures dateInput == "" && 0 <= today.year <= 9999 ==> ParseDateFields(t.date) == Some(today)
  {
    var date := if dateInput != "" then dateInput else UtcISODate(today);
    if dateInput == "" && 0 <= today.year <= 9999 then UtcISODateRoundTrip(today); Todo(id, Trim(input), date, None, false, false, None, now)
    else Todo(id, Trim(input), date, None, false, false, None, now)
  }

  /** A todo added without a date shows up, while deleted todos are hidden, in both the
      "today" and the "week" view. */
  lemma AddedUndatedShowsToday(todos: seq<Todo>, id: Id, input: string, today: Calendar.CalDate, now: Timestamp)
    requires Calendar.Valid(today) && 0 <= today.year <= 9999
    ensures var t := NewTodo(id, input, "", today, now);
      && t in FilteredTodos(todos + [t], false, "today", today)
      && t in FilteredTodos(todos + [t], false, "week", today)
  {
    var t := NewTodo(id, input, "", today, now);
    DateFiltersKeep(todos + [t], false, today);
    TodayIsInWeek(today, t);
  }

  /** Adding a todo whose id is new keeps the ids unique. */
  lemma AppendKeepsUnique(todos: seq<Todo>, t: Todo)
    requires UniqueIds(todos) && IdFree(todos, t.id)
    ensures UniqueIds(todos + [t])
  {
    InsertKeepsUnique(todos, |todos|, t);
    assert InsertAt(todos, |todos|, t) == todos + [t];
  }

  class TodoList {
    const app: TodoApp

    constructor(app: TodoApp)
      ensures this.app == app
    {
      this.app := app;
    }

    /** `addTodo` with the text and date inputs' values, today's date, a fresh `Date.now()`
        id and the `toISOString()` of now. */
    method AddTodo(input: string, dateInput: string, today: Calendar.CalDate, id: Id, now: Timestamp)
      requires app.Valid() && Calendar.Valid(today) && IdFree(app.todos, id)
      modifies app
      ensures app.Valid()
      ensures Trim(input) == [] ==> app.todos == old(app.todos)
      ensures Trim(input) != [] ==> app.todos == old(app.todos) + [NewTodo(id, input, dateInput, today, now)]
      ensures app.NotesUnchanged() && app.ViewUnchanged() && app.TimersUnchanged()
    {
      var text := Trim(input);
      if text != [] {
        var todo := NewTodo(id, input, dateInput, today, now);
        AppendKeepsUnique(app.todos, todo);
        app.todos := app.todos + [todo];
      }
    }

    method ToggleTodo(id: Id)
      requires app.Valid()
      modifies app
      ensures app.Valid()
      ensures app.todos == UpdateFirst(old(app.todos), TodoHasId(id), Flip)
      ensures app.NotesUnchanged() && app.ViewUnchanged() && app.TimersUnchanged()
    {
      UpdateKeepsIds(app.todos, id, Flip);
      var i := FindIndex(app.todos, TodoHasId(id));
      if i != -1 {
        var todo := app.todos[i];
        app.todos := app.todos[i := todo.(completed := !todo.completed)];
      }
    }

    /** `deleteTodo` only sets the flag: this version records no deletion time. */
    method DeleteTodo(id: Id)
      requires app.Valid()
      modifies app
      ensures app.Valid()
      ensures app.todos == UpdateFirst(old(app.todos), TodoHasId(id), MarkDeleted)
      ensures app.NotesUnchanged() && app.ViewUnchanged() && app.TimersUnchanged()
    {
      UpdateKeepsIds(app.todos, id, MarkDeleted);
      var i := FindIndex(app.todos, TodoHasId(id));
      if i != -1 {
        var todo := app.todos[i];
        app.todos := app.todos[i := todo.(deleted := true)];
      }
    }

    method RestoreTodo(id: Id)
      requires app.Valid()
      modifies app
      ensures app.Valid()
      ensures app.todos == UpdateFirst(old(app.todos), TodoHasId(id), MarkRestored)
      ensures app.NotesUnchanged() && app.ViewUnchanged() && app.TimersUnchanged()
    {
      UpdateKeepsIds(app.todos, id, MarkRestored);
      var i := FindIndex(app.todos, TodoHasId(id));
      if i != -1 {
        var todo := app.todos[i];
        app.todos := app.todos[i := todo.(deleted := false)];
      }
    }

    /** `finishEditTodo`: a non-blank edit replaces the text, deleted or not; a blank one
        only restores the displayed text. */
    method FinishEditTodo(id: Id, newText: string)
      requires app.Valid()
      modifies app
      ensures app.Valid()
      ensures Trim(newText) == [] ==> app.todos == old(app.todos)
      ensures Trim(newText) != [] ==> app.todos == UpdateFirst(old(app.todos), TodoHasId(id), SetText(Trim(newText)))
      ensures app.NotesUnchanged() && app.ViewUnchanged() && app.TimersUnchanged()
    {
      var trimmedText := Trim(newText);
      UpdateKeepsIds(app.todos, id, SetText(trimmedText));
      var i := FindIndex(app.todos, TodoHasId(id));
      if trimmedText != [] && i != -1 {
        var todo := app.todos[i];
        app.todos := app.todos[i := todo.(text := trimmedText)];
      }
    }

    /** The state part of `goToFocusModeWithTodo`: select the todo, switch to the focus view
        (which renders it, dropping a selection that names no todo when the panel exists),
        stop the timer at 25:00 and clear its interval, then render again. */
    method GoToFocusModeWithTodo(todoId: Id, hasFocusContent: bool)
      requires app.Valid()
      modifies app
      ensures app.Valid()
      ensures app.selectedTodoForFocus == if hasFocusContent && IdFree(app.todos, todoId) then None else Some(todoId)
      ensures app.currentView == "focus"
      ensures app.timer == Initial && app.live == Scheduled(app.pomodoro)
      ensures app.pomodoro == old(app.pomodoro) && app.issued == old(app.issued)
      ensures app.TodosUnchanged() && app.NotesUnchanged()
      ensures app.currentFilter == old(app.currentFilter) && app.showDeleted == old(app.showDeleted)
    {
      app.selectedTodoForFocus := Some(todoId);
      app.currentView := "focus";
      app.RenderFocusMode(hasFocusContent);
      ClearingLeavesOther(app.timer, app.pomodoro, app.live, app.issued);
      app.timer := app.timer.(minutes := 25, seconds := 0, isRunning := false);
      if app.timer.interval.Some? {
        app.live := app.live - {app.timer.interval.value};
        app.timer := app.timer.(interval := None);
      }
      app.RenderFocusMode(hasFocusContent);
    }
  }
}
