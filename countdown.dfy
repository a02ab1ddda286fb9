/** The countdown records `timer` and `pomodoro` both versions of the app keep, the step
    their one-second interval callback takes, and the bookkeeping of the intervals that are
    scheduled. */
module CountdownTimer {
  import opened JsBuiltins

  /** An interval id as `setInterval` returns it; browsers hand out positive ids, so a
      stored handle is always truthy. */
  type Handle = h: nat | h > 0 witness 1

  /** `{ minutes, seconds, isRunning, interval }`; `interval` is null until the first start
      and keeps the last handle after `clearInterval`. */
  datatype Countdown = Countdown(minutes: int, seconds: int, isRunning: bool, interval: Option<Handle>)

  /** The value both records are created with: 25:00, stopped, no interval. */
  const Initial: Countdown := Countdown(25, 0, false, None)

  /** Seconds left on the clock. */
  function Remaining(c: Countdown): int {
    c.minutes * 60 + c.seconds
  }

  /** What the display can show: a non-negative minute count and seconds within 0..59. */
  predicate WellFormed(c: Countdown) {
    c.minutes >= 0 && 0 <= c.seconds < 60
  }

  /** The state part of `resetTimer` / `resetPomodoro`: stopped at 25:00. The interval
      field is not touched, so it keeps the handle just cleared. */
  function Reset(c: Countdown): (r: Countdown)
    ensures WellFormed(r) && Remaining(r) == 25 * 60 && !r.isRunning
    ensures r.interval == c.interval
  {
    c.(isRunning := false, minutes := 25, seconds := 0)
  }

  /** One call of the interval callback. While time is left it takes exactly one second
      off; at 0:00 it resets. */
  function Tick(c: Countdown): (r: Countdown)
    ensures c.seconds > 0 ==> r.minutes == c.minutes && r.seconds == c.seconds - 1
    ensures c.seconds <= 0 < c.minutes ==> r.minutes == c.minutes - 1 && r.seconds == 59
    ensures WellFormed(c) && Remaining(c) > 0 ==>
      && WellFormed(r) && Remaining(r) == Remaining(c) - 1
      && r.isRunning == c.isRunning && r.interval == c.interval
    ensures WellFormed(c) && Remaining(c) == 0 ==> r == Reset(c)
  {
    if c.seconds > 0 then c.(seconds := c.seconds - 1)
    else if c.minutes > 0 then c.(minutes := c.minutes - 1, seconds := 59)
    else Reset(c)
  }

  /** `n` calls of the interval callback in a row. */
  function Ticks(c: Countdown, n: nat): Countdown
    decreases n
  {
    if n == 0 then c else Ticks(Tick(c), n - 1)
  }

  /** A well-formed countdown runs down one second per tick, keeping its running flag and
      handle, until it shows 0:00. */
  lemma {:induction false} TicksCountDown(c: Countdown, n: nat)
    requires WellFormed(c) && n <= Remaining(c)
    decreases n
    ensures var r := Ticks(c, n);
      && WellFormed(r) && Remaining(r) == Remaining(c) - n
      && r.isRunning == c.isRunning && r.interval == c.interval
  {
    if n > 0 {
      TicksCountDown(Tick(c), n - 1);
    }
  }

  /** The tick after the last second resets the countdown: a running countdown stops by
      itself after `Remaining(c) + 1` ticks, back at 25:00. */
  lemma RunsOutThenResets(c: Countdown)
    requires WellFormed(c)
    ensures Ticks(c, Remaining(c) + 1) == Reset(c)
  {
    TicksCountDown(c, Remaining(c));
    TicksThenOne(c, Remaining(c));
    var z := Ticks(c, Remaining(c));
    assert z.minutes == 0 && z.seconds == 0;
    assert Reset(z) == Reset(c);
  }

  lemma {:induction false} TicksThenOne(c: Countdown, n: nat)
    ensures Ticks(c, n + 1) == Tick(Ticks(c, n))
    decreases n
  {
    if n > 0 {
      TicksThenOne(Tick(c), n - 1);
    }
  }

  /** Resetting is idempotent. */
  lemma ResetIdempotent(c: Countdown)
    ensures Reset(Reset(c)) == Reset(c)
  {
  }

  /** The handles a countdown keeps scheduled: its interval while it runs, none otherwise. */
  function Scheduled(c: Countdown): set<Handle> {
    if c.isRunning && c.interval.Some? then {c.interval.value} else {}
  }

  /** A running countdown holds the handle of its interval, and each handle it holds was
      issued by `setInterval`. */
  predicate Tracked(c: Countdown, issued: set<Handle>) {
    && (c.isRunning ==> c.interval.Some?)
    && (c.interval.Some? ==> c.interval.value in issued)
  }

  /** The scheduler's state for the two countdowns: the live intervals are exactly those of
      the running countdowns, and the two never share a handle, so clearing one's handle
      never stops the other. */
  predicate Schedule(timer: Countdown, pomodoro: Countdown, live: set<Handle>, issued: set<Handle>) {
    && Tracked(timer, issued) && Tracked(pomodoro, issued)
    && WellFormed(timer) && WellFormed(pomodoro)
    && (timer.interval.Some? && pomodoro.interval.Some? ==> timer.interval != pomodoro.interval)
    && live == Scheduled(timer) + Scheduled(pomodoro)
  }

  /** Clearing the handle `c` holds (pause or reset) leaves only the other countdown's
      interval live. */
  lemma ClearingLeavesOther(c: Countdown, other: Countdown, live: set<Handle>, issued: set<Handle>)
    requires Schedule(c, other, live, issued)
    ensures (if c.interval.Some? then live - {c.interval.value} else live) == Scheduled(other)
  {
  }

  /** Starting a stopped countdown on a never-issued handle keeps the schedule consistent and
      makes exactly that handle live in addition to the other's. */
  lemma StartKeepsSchedule(c: Countdown, other: Countdown, live: set<Handle>, issued: set<Handle>, h: Handle)
    requires Schedule(c, other, live, issued) && !c.isRunning && h !in issued
    ensures var c' := c.(isRunning := true, interval := Some(h));
      Schedule(c', other, live + {h}, issued + {h}) && live + {h} == {h} + Scheduled(other)
  {
  }
}
