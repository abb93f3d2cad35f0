# Pomodoro timer state machine

This project models the timer component of a small Pomodoro desktop app in Dafny. The component counts down
a 25-minute work interval. When that interval expires it fires a "break" notification and counts down a
5-minute break. It is driven by five messages: `Start`, `Stop`, `Reset`, `Tick` and `Break`.

- `pomodoro.dfy` (module `Pomodoro`) holds the state record `App`, the messages `Msg` and `Step`. `Step` is
  one call of the component's `update`. It returns the new state, the re-render flag, whether the notification
  fires, and the follow-up message the component sends to itself, if any. `App` has these fields:
  - `value`: the remaining time in seconds.
  - `timerHandle`: the identity of the installed one-second interval, if any.
  - `isBreak`: the phase.
  - `issued`: how many intervals have been created. The next fresh handle identity is taken from it.
- `dispatch.dfy` (module `Dispatch`) drives the component from outside:
  - `Deliver` runs one message and then the follow-up it sends. `Reset` sends `Stop`; a tick at zero during
    work sends `Break`.
  - `Handle` reacts to one outside event. Either a button is clicked, or one second passes, which makes an
    installed interval send `Tick`.
  - `Run` folds a sequence of events and counts the notifications.
- `clock.dfy` (module `Clock`) is the `%M:%S` display projection. Its inverse `Parse` is used to state
  that the display is faithful.
- `properties.dfy` (module `Properties`) holds the lemmas about single messages and about runs of events.
- `wrappers.dfy` holds `Option`.

Notes on how `src/app.rs` behaves, which the model follows as written:

- **Break expiry.** When a break reaches zero, the code reloads the break length and stays in the break on
  the same interval (`src/app.rs:76-80`). It neither holds at zero nor cycles back to work. `BreakExpiry`,
  `BreakRestarts` and `BreakNeverEnds` state this behaviour.
- **When the break starts.** The work-to-break transition happens on the tick *after* the remaining time
  reaches zero. From a full work interval, that takes 1500 decrements plus one more second, 1501 seconds in
  all (`WorkToBreak`, `FirstPomodoro`).
- **What `Reset` and `Tick` leave to the follow-up.** `Reset` does not clear the handle itself. The `Stop`
  it sends does that (`src/app.rs:82-91`). A tick at zero during work drops the interval, and the `Break`
  it sends installs a new one (`src/app.rs:68-75`, `92-98`). Once the follow-up is handled, the timer is
  reset or a break is running.
- **`Tick` and the handle.** `Tick` does not check whether a handle is installed. Only the outside
  `Second` event does: no interval, no tick.

## Model

| member | source | states |
|---|---|---|
| Pomodoro.Create | src/app.rs:46-52 | The created state is a full 25-minute work interval: `value` is 1500, not in a break, no handle installed. It satisfies the invariant and displays as `25:00`. |
| Pomodoro.Step | src/app.rs:54-101 | Every message keeps the invariant. The remaining time only goes down by one second on a tick, or is reloaded to a phase length. An interval is created at most once per message, always with a fresh identity, and installed at once. The notification fires exactly on a tick at zero during work. A follow-up message never sends a follow-up of its own. |
| Pomodoro.View | src/app.rs:104 | The `%M:%S` text shown for any state satisfying the invariant reads back as exactly the remaining seconds. |
| Dispatch.Deliver | src/app.rs:68-98 | Delivering a message together with the follow-up it sends keeps the invariant. Exactly one notification is fired when the message is a tick at zero during work, and none otherwise. |
| Dispatch.Handle | src/app.rs:110-112 | A click on Start, Stop or Reset delivers exactly that button's message with its follow-up, and never notifies. A passing second delivers `Tick` when an interval is installed; with no interval it changes nothing and notifies nobody. The invariant is kept. |
| Dispatch.Run | src/app.rs:54-101 | Folding any sequence of events keeps the invariant and fires at most one notification per event. |
| Clock.Format | src/app.rs:104 | `%M:%S` is five characters with a colon in the middle. It reads back as the time of day modulo one hour, so the hour is dropped. |
| Clock.ParseFormat | src/app.rs:104 | Below one hour, reading back the display gives the second count. |
| Clock.FormatParse | src/app.rs:104 | Every well-formed `MM:SS` text is the display of the count it reads as. |
| Clock.FormatInjective | src/app.rs:104 | Two different counts below one hour never display the same. |
| Properties.StartInstallsOnlyWhenIdle | src/app.rs:56-62 | `Start` installs a fresh handle only when the slot is empty. It keeps an installed handle, never changes `value` or `isBreak`, and returns no re-render, no notification and no follow-up. |
| Properties.StartIdempotent | src/app.rs:56-62 | Two `Start`s give the same outcome as one, so exactly one interval is created. |
| Properties.StopClearsHandle | src/app.rs:88-91 | `Stop` empties the handle slot and changes nothing else. |
| Properties.StopIdempotent | src/app.rs:88-91 | `Stop` twice is `Stop` once. `Stop` with no handle installed leaves the state unchanged. |
| Properties.TickCountsDown | src/app.rs:64-67 | A tick with time left decrements `value` by exactly one second. It keeps the handle and the phase, asks for a re-render, and does not notify or send anything. |
| Properties.WorkExpiry | src/app.rs:68-75 | A tick at zero during work drops the handle, notifies once and sends `Break`. Handling that `Break` yields a full break (300 s) on a freshly created handle. |
| Properties.BreakExpiry | src/app.rs:76-80 | A tick at zero during a break reloads 300 s and stays in the break on the same handle. It does not notify or send anything. |
| Properties.ResetThenStop | src/app.rs:82-91 | From any state, `Reset` followed by the `Stop` it sends yields 1500 s, work phase and no handle, which is the created state. It does not notify. |
| Properties.RunAppend | src/app.rs:54-101 | Handling two runs of events one after the other is the same as handling their concatenation, in both the final state and the notification count. |
| Properties.IdleSecondsDoNothing | src/app.rs:59 | With no interval installed, any number of seconds leaves the state unchanged and notifies nobody. |
| Properties.SecondsCountDown | src/app.rs:64-67 | With an interval installed and at least `n` seconds left, `n` seconds take exactly `n` off `value` and change nothing else. |
| Properties.WorkToBreak | src/app.rs:64-75 | A running work interval with `v` seconds left becomes a full break on a fresh handle after `v + 1` seconds, with exactly one notification. |
| Properties.FirstPomodoro | src/app.rs:46-75 | From the created state, Start followed by 1501 seconds gives a 300 s break on the second interval ever created, with exactly one notification. |
| Properties.BreakNeverEnds | src/app.rs:76-80 | Once a break is running, no number of seconds leaves the break, changes the handle or fires a notification. |
| Properties.BreakRestarts | src/app.rs:64-80 | A running break with `v` seconds left is back at the full 300 s after `v + 1` seconds. |
| Properties.PauseResume | src/app.rs:56-91 | Start, `x` seconds, Stop, Start, `y` seconds takes exactly `x + y` seconds off the time. No second is lost or counted twice across the pause. |
| Properties.ResetWhileRunning | src/app.rs:82-91 | After Reset, passing seconds have no effect until Start is pressed: the state stays reset and nothing notifies. |
| Properties.ReachableBounds | src/app.rs:34-98 | Every state reachable from the created one has at most 1500 s left, and at most 300 s during a break. Its display reads back as its remaining time. |

## Left out

- The component's rendering (`view`'s HTML and button markup, `src/app.rs:103-122`) is UI. Only the `%M:%S` text and the three buttons' messages are modelled.
- The real interval and its 1000 ms period (`src/app.rs:59`, `96`). An interval is an identity in the handle slot, and one `Second` event stands for one period elapsing. Wall-clock timing is not modelled.
- The asynchronous message queue. A follow-up message is processed immediately after the step that sends it. Interleaving a click or a tick between a step and its follow-up is not modelled.
- The notification call (`invoke` through `spawn_local`, `src/app.rs:14-18`, `70-73`) is a foreign asynchronous call. It is modelled only as a fired-notification flag and count. Its result cannot affect the timer.
- The `chrono` parsing of the constants (`src/app.rs:35`, `39`) is replaced by the second counts 1500 and 300.
- `NaiveTime` wrap-around at midnight is not modelled, because it cannot occur: the decrement is guarded by `value > 0`, and `value` never exceeds 1500.
- `src/components/timer.rs` is a display-only view with no state transitions, and its use is commented out. It is not part of this model.
