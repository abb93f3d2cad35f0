/**
  The component as its surroundings drive it. A message is delivered by one
  `Step` followed at once by the follow-up message that step sends, if any
  (`Reset` is followed by `Stop`, a tick at zero during work by `Break`).
  The outside world produces two kinds of events: a click on one of the three
  buttons, and the passing of one second, which makes the installed interval
  send `Tick` and does nothing when no interval is installed.
*/
module Dispatch {
  import opened Wrappers
  import opened Pomodoro

  /** The state after a delivery, the notifications it fired and whether anything asked for a re-render. */
  datatype Delivery = Delivery(app: App, notifications: nat, rendered: bool)

  /** The component's buttons; each sends one message. */
  datatype Button = StartButton | StopButton | ResetButton

  datatype Event = Click(button: Button) | Second

  function ButtonMsg(b: Button): (m: Msg)
    ensures m == Start || m == Stop || m == Reset
    ensures Rank(m) <= 1
  {
    match b
    case StartButton => Start
    case StopButton => Stop
    case ResetButton => Reset
  }

  /**
    Delivers `m` and then its follow-up. A notification is fired exactly when
    `m` is a tick at zero during work; the invariant is kept.
  */
  function Deliver(a: App, m: Msg): (d: Delivery)
    ensures Inv(a) ==> Inv(d.app)
    ensures d.notifications == if m == Tick && a.value == 0 && !a.isBreak then 1 else 0
    decreases Rank(m)
  {
    var o := Step(a, m);
    var fired := if o.notify then 1 else 0;
    match o.queued
    case None => Delivery(o.app, fired, o.render)
    case Some(next) =>
      var d := Deliver(o.app, next);
      Delivery(d.app, fired + d.notifications, o.render || d.rendered)
  }

  /** One outside event: a click sends its button's message; a second ticks only an installed interval. */
  function Handle(a: App, e: Event): (d: Delivery)
    ensures Inv(a) ==> Inv(d.app)
    ensures d.notifications <= 1
    ensures e.Click? ==> d == Deliver(a, ButtonMsg(e.button)) && d.notifications == 0
    ensures e.Second? && a.timerHandle.Some? ==> d == Deliver(a, Tick)
    ensures e.Second? && a.timerHandle.None? ==> d.app == a && d.notifications == 0
  {
    match e
    case Click(b) => Deliver(a, ButtonMsg(b))
    case Second =>
      if a.timerHandle.Some? then Deliver(a, Tick) else Delivery(a, 0, false)
  }

  /** Handles the events in order, counting the notifications fired on the way. */
  function Run(a: App, es: seq<Event>): (d: Delivery)
    ensures Inv(a) ==> Inv(d.app)
    ensures d.notifications <= |es|
    decreases |es|
  {
    if es == [] then Delivery(a, 0, false)
    else
      var first := Handle(a, es[0]);
      var rest := Run(first.app, es[1..]);
      Delivery(rest.app, first.notifications + rest.notifications, first.rendered || rest.rendered)
  }

  /** `n` seconds passing with no click. */
  function Seconds(n: nat): (es: seq<Event>)
    ensures |es| == n
    ensures forall i :: 0 <= i < n ==> es[i] == Second
  {
    if n == 0 then [] else [Second] + Seconds(n - 1)
  }
}
