/** js/timer.js: the `Timer` module, which drives `app.timer` and `app.pomodoro` through the
    application object it is constructed with. Each start schedules a one-second interval
    whose callback is modelled by the Tick methods. */
module ModularTimer {
  import opened JsBuiltins
  import opened Records
  import opened CountdownTimer
  import opened ModularApp

  class Timer {
    const app: TodoApp

    constructor(app: TodoApp)
      ensures this.app == app
    {
      this.app := app;
    }

    /** `startTimer`; `handle` is what `setInterval` returns. Starting a running timer
        changes nothing, so it never holds two intervals. */
    method StartTimer(handle: Handle)
      requires app.Valid() && handle !in app.issued
      modifies app
      ensures app.Valid()
      ensures old(app.timer.isRunning) ==> app.timer == old(app.timer) && app.live == old(app.live)
      ensures !old(app.timer.isRunning) ==>
        app.timer == old(app.timer).(isRunning := true, interval := Some(handle))
        && app.live == old(app.live) + {handle}
      ensures app.pomodoro == old(app.pomodoro)
      ensures app.TodosUnchanged() && app.NotesUnchanged() && app.ViewUnchanged()
    {
      if !app.timer.isRunning {
        StartKeepsSchedule(app.timer, app.pomodoro, app.live, app.issued, handle);
        app.timer := app.timer.(isRunning := true, interval := Some(handle));
        app.live := app.live + {handle};
        app.issued := app.issued + {handle};
      }
    }

    /** `pauseTimer`: stops and clears the interval; minutes and seconds stay. */
    method PauseTimer()
      requires app.Valid()
      modifies app
      ensures app.Valid()
      ensures app.timer == old(app.timer).(isRunning := false) && app.live == Scheduled(app.pomodoro)
      ensures app.pomodoro == old(app.pomodoro) && app.issued == old(app.issued)
      ensures app.TodosUnchanged() && app.NotesUnchanged() && app.ViewUnchanged()
    {
      ClearingLeavesOther(app.timer, app.pomodoro, app.live, app.issued);
      app.timer := app.timer.(isRunning := false);
      if app.timer.interval.Some? {
        app.live := app.live - {app.timer.interval.value};
      }
    }

    /** `resetTimer`: stopped at 25:00 with its interval cleared. Unlike the single-file
        version it keeps the focus selection; the focus panel it re-renders shows a todo
        that exists, so that render changes nothing. */
    method ResetTimer(hasFocusContent: bool)
      requires app.Valid()
      modifies app
      ensures app.Valid()
      ensures app.timer == Reset(old(app.timer)) && app.live == Scheduled(app.pomodoro)
      ensures app.pomodoro == old(app.pomodoro) && app.issued == old(app.issued)
      ensures app.TodosUnchanged() && app.NotesUnchanged() && app.ViewUnchanged()
    {
      ClearingLeavesOther(app.timer, app.pomodoro, app.live, app.issued);
      app.timer := app.timer.(isRunning := false);
      if app.timer.interval.Some? {
        app.live := app.live - {app.timer.interval.value};
      }
      app.timer := app.timer.(minutes := 25, seconds := 0);
      if app.currentView == "focus" && app.selectedTodoForFocus.Some? {
        var focusIndex := FindIndex(app.todos, TodoHasId(app.selectedTodoForFocus.value));
        if focusIndex != -1 {
          app.RenderFocusMode(hasFocusContent);
        }
      }
    }

    /** One run of the timer's interval callback, which fires only while it is scheduled;
        at 0:00 it resets the timer. */
    method TickTimer(hasFocusContent: bool)
      requires app.Valid() && app.timer.isRunning
      modifies app
      ensures app.Valid()
      ensures app.timer == Tick(old(app.timer))
      ensures Remaining(old(app.timer)) > 0 ==> app.live == old(app.live)
      ensures Remaining(old(app.timer)) == 0 ==> app.live == Scheduled(app.pomodoro)
      ensures app.pomodoro == old(app.pomodoro) && app.issued == old(app.issued)
      ensures app.TodosUnchanged() && app.NotesUnchanged() && app.ViewUnchanged()
    {
      if app.timer.seconds > 0 {
        app.timer := app.timer.(seconds := app.timer.seconds - 1);
      } else if app.timer.minutes > 0 {
        app.timer := app.timer.(minutes := app.timer.minutes - 1, seconds := 59);
      } else {
        ResetTimer(hasFocusContent);
      }
    }

    method StartPomodoro(handle: Handle)
      requires app.Valid() && handle !in app.issued
      modifies app
      ensures app.Valid()
      ensures old(app.pomodoro.isRunning) ==> app.pomodoro == old(app.pomodoro) && app.live == old(app.live)
      ensures !old(app.pomodoro.isRunning) ==>
        app.pomodoro == old(app.pomodoro).(isRunning := true, interval := Some(handle))
        && app.live == old(app.live) + {handle}
      ensures app.timer == old(app.timer)
      ensures app.TodosUnchanged() && app.NotesUnchanged() && app.ViewUnchanged()
    {
      if !app.pomodoro.isRunning {
        StartKeepsSchedule(app.pomodoro, app.timer, app.live, app.issued, handle);
        app.pomodoro := app.pomodoro.(isRunning := true, interval := Some(handle));
        app.live := app.live + {handle};
        app.issued := app.issued + {handle};
      }
    }

    method PausePomodoro()
      requires app.Valid()
      modifies app
      ensures app.Valid()
      ensures app.pomodoro == old(app.pomodoro).(isRunning := false) && app.live == Scheduled(app.timer)
      ensures app.timer == old(app.timer) && app.issued == old(app.issued)
      ensures app.TodosUnchanged() && app.NotesUnchanged() && app.ViewUnchanged()
    {
      ClearingLeavesOther(app.pomodoro, app.timer, app.live, app.issued);
      app.pomodoro := app.pomodoro.(isRunning := false);
      if app.pomodoro.interval.Some? {
        app.live := app.live - {app.pomodoro.interval.value};
      }
    }

    method ResetPomodoro()
      requires app.Valid()
      modifies app
      ensures app.Valid()
      ensures app.pomodoro == Reset(old(app.pomodoro)) && app.live == Scheduled(app.timer)
      ensures app.timer == old(app.timer) && app.issued == old(app.issued)
      ensures app.TodosUnchanged() && app.NotesUnchanged() && app.ViewUnchanged()
    {
      ClearingLeavesOther(app.pomodoro, app.timer, app.live, app.issued);
      app.pomodoro := app.pomodoro.(isRunning := false);
      if app.pomodoro.interval.Some? {
        app.live := app.live - {app.pomodoro.interval.value};
      }
      app.pomodoro := app.pomodoro.(minutes := 25, seconds := 0);
    }

    method TickPomodoro()
      requires app.Valid() && app.pomodoro.isRunning
      modifies app
      ensures app.Valid()
      ensures app.pomodoro == Tick(old(app.pomodoro))
      ensures Remaining(old(app.pomodoro)) > 0 ==> app.live == old(app.live)
      ensures Remaining(old(app.pomodoro)) == 0 ==> app.live == Scheduled(app.timer)
      ensures app.timer == old(app.timer) && app.issued == old(app.issued)
      ensures app.TodosUnchanged() && app.NotesUnchanged() && app.ViewUnchanged()
    {
      if app.pomodoro.seconds > 0 {
        app.pomodoro := app.pomodoro.(seconds := app.pomodoro.seconds - 1);
      } else if app.pomodoro.minutes > 0 {
        app.pomodoro := app.pomodoro.(minutes := app.pomodoro.minutes - 1, seconds := 59);
      } else {
        ResetPomodoro();
      }
    }
  }
}
