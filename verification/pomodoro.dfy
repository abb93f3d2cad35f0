/**
  The Pomodoro timer component: its state record, the five messages that drive
  it, and `Step`, the single transition the component's `update` performs.

  The remaining time is a count of seconds. The interval that sends `Tick`
  once a second is abstracted to the identity of the installed handle: every
  interval ever created gets the next number from `issued`, so a handle that
  was just installed is recognisably fresh. Dropping a handle (overwriting or
  clearing the slot) cancels that interval. The notification is a flag on the
  outcome, and a message the step sends to its own component is returned as
  `queued` instead of being put on a queue.
*/
module Pomodoro {
  import opened Wrappers
  import Clock

  /** Length of a work interval, 00:25:00. */
  const WorkSeconds: nat := 1500
  /** Length of a break interval, 00:05:00. */
  const BreakSeconds: nat := 300

  type HandleId = nat

  datatype Msg = Start | Stop | Reset | Tick | Break

  /**
    The component state. `value` is the remaining time, `timerHandle` the
    installed interval if any, `isBreak` the phase, and `issued` the number of
    intervals created so far (the next fresh handle identity).
  */
  datatype App = App(value: nat, timerHandle: Option<HandleId>, isBreak: bool, issued: nat)

  /**
    What one `update` produces: the new state, whether the view is re-rendered,
    whether the break notification is fired, and the message sent back to the
    component, if any.
  */
  datatype Outcome = Outcome(app: App, render: bool, notify: bool, queued: Option<Msg>)

  /** The full length of the phase: the value loaded on entering it. */
  function PhaseDuration(isBreak: bool): nat
  {
    if isBreak then BreakSeconds else WorkSeconds
  }

  /**
    The state invariant: the remaining time never exceeds the length of the
    current phase, and an installed handle is one that was actually issued.
  */
  predicate Inv(a: App)
  {
    && a.value <= PhaseDuration(a.isBreak)
    && (a.timerHandle.Some? ==> a.timerHandle.value < a.issued)
  }

  /** The state the component is created in: a full work interval, not ticking. */
  function Create(): (a: App)
    ensures Inv(a)
    ensures a.value == PhaseDuration(false) && !a.isBreak
    ensures a.timerHandle.None?
    ensures Clock.Format(a.value) == "25:00"
  {
    Clock.ParseFormat(WorkSeconds);
    Clock.FormatParse("25:00");
    App(WorkSeconds, None, false, 0)
  }

  /**
    How many follow-up messages a message can still cause. Only `Reset`
    (which sends `Stop`) and `Tick` (which may send `Break`) send anything,
    and what they send sends nothing, so a chain of follow-ups is finite.
  */
  function Rank(m: Msg): nat
  {
    match m
    case Reset => 1
    case Tick => 1
    case _ => 0
  }

  /** Installs `Some(fresh handle)` in the slot, creating a new interval. */
  function Install(a: App): (b: App)
    ensures b.timerHandle == Some(a.issued) && b.issued == a.issued + 1
    ensures b.value == a.value && b.isBreak == a.isBreak
  {
    a.(timerHandle := Some(a.issued), issued := a.issued + 1)
  }

  /**
    One call of `update`. The contract records what every message has in
    common: the invariant is kept; the remaining time only ever goes down by
    one second or is reloaded to a phase length; a new interval is created at
    most once, and only to be installed right away; the notification fires
    exactly on a tick at zero during work; and a follow-up message never
    causes a further follow-up of its own rank.
  */
  function Step(a: App, m: Msg): (o: Outcome)
    ensures Inv(a) ==> Inv(o.app)
    ensures o.app.value == a.value
         || (m == Tick && o.app.value == a.value - 1)
         || o.app.value == PhaseDuration(o.app.isBreak)
    ensures o.app.issued == a.issued
         || (o.app.issued == a.issued + 1 && o.app.timerHandle == Some(a.issued))
    ensures o.app.timerHandle != a.timerHandle ==> o.app.timerHandle.None? || o.app.issued == a.issued + 1
    ensures o.notify <==> m == Tick && a.value == 0 && !a.isBreak
    ensures o.queued.Some? ==> Rank(o.queued.value) < Rank(m)
  {
    match m
    case Start =>
      if a.timerHandle.None? then Outcome(Install(a), false, false, None)
      else Outcome(a, false, false, None)
    case Tick =>
      if a.value > 0 then
        Outcome(a.(value := a.value - 1), true, false, None)
      else if !a.isBreak then
        Outcome(a.(timerHandle := None), false, true, Some(Break))
      else
        Outcome(a.(value := BreakSeconds, isBreak := true), true, false, None)
    case Reset =>
      Outcome(a.(value := WorkSeconds, isBreak := false), true, false, Some(Stop))
    case Stop =>
      Outcome(a.(timerHandle := None), false, false, None)
    case Break =>
      Outcome(Install(a.(value := BreakSeconds, isBreak := true)), true, false, None)
  }

  /** What the view shows for a state. */
  function View(a: App): (t: string)
    requires Inv(a)
    ensures Clock.Parse(t) == Some(a.value)
  {
    Clock.ParseFormat(a.value);
    Clock.Format(a.value)
  }
}
