/**
  Properties of the timer: first of single messages, then of runs of outside
  events (clicks and passing seconds) starting from any state or from the
  state the component is created in.
*/
module Properties {
  import opened Wrappers
  import opened Pomodoro
  import opened Dispatch

  // ---- Single messages ----

  /** `Start` installs a fresh interval only when none is installed, and touches nothing else. */
  lemma StartInstallsOnlyWhenIdle(a: App)
    ensures var o := Step(a, Start);
      && o.app.value == a.value && o.app.isBreak == a.isBreak
      && !o.render && !o.notify && o.queued.None?
      && o.app.timerHandle.Some?
      && (a.timerHandle.Some? ==> o.app == a)
      && (a.timerHandle.None? ==> o.app.timerHandle == Some(a.issued) && o.app.issued == a.issued + 1)
  {
  }

  /** A second `Start` changes nothing: one `Start` is as good as two. */
  lemma StartIdempotent(a: App)
    ensures var once := Step(a, Start);
      Step(once.app, Start) == once
  {
  }

  /** `Stop` empties the handle slot and keeps the remaining time and phase. */
  lemma StopClearsHandle(a: App)
    ensures var o := Step(a, Stop);
      && o.app == a.(timerHandle := None)
      && !o.render && !o.notify && o.queued.None?
  {
  }

  /** `Stop` twice is `Stop` once, and `Stop` with nothing installed is a no-op. */
  lemma StopIdempotent(a: App)
    ensures Step(Step(a, Stop).app, Stop) == Step(a, Stop)
    ensures a.timerHandle.None? ==> Step(a, Stop).app == a
  {
  }

  /** A tick with time left takes exactly one second off and does nothing else. */
  lemma TickCountsDown(a: App)
    requires a.value > 0
    ensures Step(a, Tick) == Outcome(a.(value := a.value - 1), true, false, None)
  {
  }

  /**
    A tick at zero during work drops the interval, fires the notification and
    sends `Break`; once `Break` is handled the break runs from its full length
    on a freshly created interval.
  */
  lemma WorkExpiry(a: App)
    requires a.value == 0 && !a.isBreak
    ensures var o := Step(a, Tick);
      && o.app == a.(timerHandle := None)
      && o.notify && !o.render && o.queued == Some(Break)
    ensures Deliver(a, Tick) == Delivery(App(BreakSeconds, Some(a.issued), true, a.issued + 1), 1, true)
  {
  }

  /**
    A tick at zero during a break reloads the break length and stays in the
    break on the same interval, without notifying and without a follow-up.
  */
  lemma BreakExpiry(a: App)
    requires a.value == 0 && a.isBreak
    ensures Step(a, Tick) == Outcome(a.(value := BreakSeconds), true, false, None)
    ensures Deliver(a, Tick) == Delivery(a.(value := BreakSeconds), 0, true)
  {
  }

  /** `Reset` followed by the `Stop` it sends gives back the created state's time, phase and empty slot, from any state. */
  lemma ResetThenStop(a: App)
    ensures Deliver(a, Reset) == Delivery(App(WorkSeconds, None, false, a.issued), 0, true)
    ensures var c := Create(); Deliver(a, Reset).app == c.(issued := a.issued)
  {
  }

  // ---- Runs of events ----

  /** Handling two runs one after the other is handling their concatenation. */
  lemma {:induction false} RunAppend(a: App, xs: seq<Event>, ys: seq<Event>)
    ensures Run(a, xs + ys).app == Run(Run(a, xs).app, ys).app
    ensures Run(a, xs + ys).notifications == Run(a, xs).notifications + Run(Run(a, xs).app, ys).notifications
    decreases |xs|
  {
    if xs == [] {
      assert xs + ys == ys;
    } else {
      assert (xs + ys)[0] == xs[0];
      assert (xs + ys)[1..] == xs[1..] + ys;
      RunAppend(Handle(a, xs[0]).app, xs[1..], ys);
    }
  }

  /** Chains two runs whose outcomes are known into the outcome of their concatenation. */
  lemma RunThrough(a: App, xs: seq<Event>, ys: seq<Event>, b: App, c: App, n1: nat, n2: nat)
    requires Run(a, xs).app == b && Run(a, xs).notifications == n1
    requires Run(b, ys).app == c && Run(b, ys).notifications == n2
    ensures Run(a, xs + ys).app == c && Run(a, xs + ys).notifications == n1 + n2
  {
    RunAppend(a, xs, ys);
  }

  /** Unfolds one second off the front of a run of seconds. */
  lemma SecondsUnfold(a: App, n: nat)
    requires n > 0
    ensures Run(a, Seconds(n)).app == Run(Handle(a, Second).app, Seconds(n - 1)).app
    ensures Run(a, Seconds(n)).notifications
         == Handle(a, Second).notifications + Run(Handle(a, Second).app, Seconds(n - 1)).notifications
  {
    assert Seconds(n)[1..] == Seconds(n - 1);
  }

  /** With no interval installed, seconds pass without effect. */
  lemma {:induction false} IdleSecondsDoNothing(a: App, n: nat)
    requires a.timerHandle.None?
    ensures Run(a, Seconds(n)).app == a
    ensures Run(a, Seconds(n)).notifications == 0
  {
    if n > 0 {
      SecondsUnfold(a, n);
      IdleSecondsDoNothing(a, n - 1);
    }
  }

  /** While an interval is installed, each second takes one second off, as long as time is left. */
  lemma {:induction false} SecondsCountDown(a: App, n: nat)
    requires a.timerHandle.Some? && n <= a.value
    ensures Run(a, Seconds(n)).app == a.(value := a.value - n)
    ensures Run(a, Seconds(n)).notifications == 0
    decreases n
  {
    if n > 0 {
      SecondsUnfold(a, n);
      SecondsCountDown(a.(value := a.value - 1), n - 1);
    }
  }

  /**
    A running work interval with `value` seconds left reaches zero after
    `value` seconds and turns into a full break on a fresh interval one second
    later, with exactly one notification.
  */
  lemma WorkToBreak(a: App)
    requires a.timerHandle.Some? && !a.isBreak
    ensures Run(a, Seconds(a.value + 1)).app == App(BreakSeconds, Some(a.issued), true, a.issued + 1)
    ensures Run(a, Seconds(a.value + 1)).notifications == 1
  {
    SecondsCountDown(a, a.value);
    assert Seconds(a.value + 1) == Seconds(a.value) + [Second] by {
      SecondsSnoc(a.value);
    }
    RunAppend(a, Seconds(a.value), [Second]);
  }

  /** A run of `n + 1` seconds is a run of `n` seconds followed by one more. */
  lemma {:induction false} SecondsSnoc(n: nat)
    ensures Seconds(n + 1) == Seconds(n) + [Second]
  {
    if n > 0 {
      SecondsSnoc(n - 1);
      assert Seconds(n + 1) == [Second] + Seconds(n);
    }
  }

  /**
    From the created state, pressing Start and letting 25 minutes and one
    second pass lands in a full break on the second interval ever created,
    with exactly one notification.
  */
  lemma FirstPomodoro()
    ensures var d := Run(Create(), [Click(StartButton)] + Seconds(WorkSeconds + 1));
      && d.app == App(BreakSeconds, Some(1), true, 2)
      && d.notifications == 1
  {
    var started := Handle(Create(), Click(StartButton)).app;
    assert started == App(WorkSeconds, Some(0), false, 1);
    RunAppend(Create(), [Click(StartButton)], Seconds(WorkSeconds + 1));
    WorkToBreak(started);
  }

  /**
    Once in a break with an interval installed, the component stays in the
    break on that interval forever: no second ends it, and none notifies.
  */
  lemma {:induction false} BreakNeverEnds(a: App, n: nat)
    requires a.timerHandle.Some? && a.isBreak && a.value <= BreakSeconds
    ensures var b := Run(a, Seconds(n)).app;
      b.isBreak && b.timerHandle == a.timerHandle && b.issued == a.issued && b.value <= BreakSeconds
    ensures Run(a, Seconds(n)).notifications == 0
    decreases n
  {
    if n > 0 {
      SecondsUnfold(a, n);
      BreakNeverEnds(Handle(a, Second).app, n - 1);
    }
  }

  /** A running break with `value` seconds left starts over at its full length `value + 1` seconds later. */
  lemma BreakRestarts(a: App)
    requires a.timerHandle.Some? && a.isBreak
    ensures Run(a, Seconds(a.value + 1)).app == a.(value := BreakSeconds)
    ensures Run(a, Seconds(a.value + 1)).notifications == 0
  {
    SecondsCountDown(a, a.value);
    SecondsSnoc(a.value);
    RunAppend(a, Seconds(a.value), [Second]);
  }

  /**
    Pausing loses no time and counts none twice: start, `x` seconds, stop,
    start, `y` seconds takes exactly `x + y` seconds off an idle state
    with that much time left.
  */
  lemma PauseResume(a: App, x: nat, y: nat)
    requires a.timerHandle.None? && x + y <= a.value
    ensures var d := Run(a, [Click(StartButton)] + Seconds(x) + [Click(StopButton), Click(StartButton)] + Seconds(y));
      && d.app.value == a.value - x - y
      && d.app.isBreak == a.isBreak
      && d.app.timerHandle == Some(a.issued + 1)
      && d.notifications == 0
  {
    var p1 := [Click(StartButton)];
    var p2 := Seconds(x);
    var p3 := [Click(StopButton), Click(StartButton)];
    var p4 := Seconds(y);
    var started := Install(a);
    var paused := started.(value := a.value - x);
    var resumed := Install(paused.(timerHandle := None));
    var ended := resumed.(value := a.value - x - y);
    RunClicks(a, started, paused, resumed);
    SecondsCountDown(started, x);
    SecondsCountDown(resumed, y);
    RunChain(a, p1, p2, p3, p4, started, paused, resumed, ended);
  }

  /** Chains four runs without notifications, each starting where the previous one ended. */
  lemma RunChain(a: App, p1: seq<Event>, p2: seq<Event>, p3: seq<Event>, p4: seq<Event>,
                 s1: App, s2: App, s3: App, s4: App)
    requires Run(a, p1).app == s1 && Run(a, p1).notifications == 0
    requires Run(s1, p2).app == s2 && Run(s1, p2).notifications == 0
    requires Run(s2, p3).app == s3 && Run(s2, p3).notifications == 0
    requires Run(s3, p4).app == s4 && Run(s3, p4).notifications == 0
    ensures Run(a, p1 + p2 + p3 + p4).app == s4 && Run(a, p1 + p2 + p3 + p4).notifications == 0
  {
    RunThrough(a, p1, p2, s1, s2, 0, 0);
    RunThrough(a, p1 + p2, p3, s2, s3, 0, 0);
    RunThrough(a, p1 + p2 + p3, p4, s3, s4, 0, 0);
  }

  /** The click sequences of `PauseResume`: Start on an empty slot installs; Stop then Start replaces the handle. */
  lemma RunClicks(a: App, started: App, paused: App, resumed: App)
    requires a.timerHandle.None? && started == Install(a)
    requires paused.timerHandle.Some? && resumed == Install(paused.(timerHandle := None))
    ensures Run(a, [Click(StartButton)]) == Delivery(started, 0, false)
    ensures Run(paused, [Click(StopButton), Click(StartButton)]) == Delivery(resumed, 0, false)
  {
    var p3 := [Click(StopButton), Click(StartButton)];
    assert p3[1..] == [Click(StartButton)];
    assert Handle(paused, p3[0]).app == paused.(timerHandle := None);
  }

  /** After Reset, seconds have no effect until Start is pressed again. */
  lemma ResetWhileRunning(a: App, n: nat)
    ensures var d := Run(a, [Click(ResetButton)] + Seconds(n));
      && d.app == App(WorkSeconds, None, false, a.issued)
      && d.notifications == 0
  {
    var reset := App(WorkSeconds, None, false, a.issued);
    RunAppend(a, [Click(ResetButton)], Seconds(n));
    assert Run(a, [Click(ResetButton)]).app == reset;
    IdleSecondsDoNothing(reset, n);
  }

  /** Every state reached from the created one shows at most 25:00, and at most 05:00 during a break. */
  lemma ReachableBounds(es: seq<Event>)
    ensures var a := Run(Create(), es).app;
      && a.value <= WorkSeconds
      && (a.isBreak ==> a.value <= BreakSeconds)
      && Clock.Parse(View(a)) == Some(a.value)
  {
  }
}
