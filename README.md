# PMTimer Pomodoro timer: a verified model of the countdown state machine

PMTimer is a browser Pomodoro timer written as one React component
(`src/App.jsx`). The user sets three durations in minutes (focus, short break,
long break) and can start, pause and reset a countdown. The app moves from
focus to a break and back by itself. Every fourth completed focus session is
followed by a long break instead of a short one. The component counts the
completed focus sessions.

This project models that state machine in Dafny:

- `wrappers.dfy` (`Wrappers`): `Option`. `None` stands for the `NaN` that
  `parseInt` returns for non-numeric input.
- `pomodoro.dfy` (`Pomodoro`): the seven state variables as one `State`
  value. It has one pure function per handler (`StartStop`, `Reset`,
  `TimerEnd`, `EditDuration`, `ChangeMode`), `Tick` for one firing of the
  one-second interval, and `Completed` for the session-complete event that a
  tick raises. The lemmas state what each operation promises. `Valid` is the
  invariant that every settled state keeps: the durations are positive and
  `0 < timer <= duration(mode) * 60`. The model shows the timer never rests at
  0, because reaching 0 completes the session straight away. `Ticks`,
  `RunSession` and `Sessions` chain operations so that the lemmas can cover
  whole countdowns and the focus/break cycle.
- `display.dfy` (`Display`): `formatTime` as `FormatTime`, built from models
  of `Number.prototype.toString` (`NatToString`) and `String.prototype.padStart`
  (`PadStart`). `ParseTime` reads an `MM:SS` display back, and the round-trip
  lemma is proved against it. The module also holds the notification title and
  body chosen by the mode that ended.
- `engine.dfy` (`Engine`): the class `TimerEngine`. It has one field per state
  variable and one method per handler, plus `Tick`. Each method is proved to
  keep `Valid()` and to change `Snapshot()` exactly as its `Pomodoro`
  function does. The constructor gives `Initial()`. `StartStop`, `Reset`,
  `TimerEnd`, `Tick` and `ChangeMode` follow the `Pomodoro` functions of the
  same names. `ChangeFocusTime`, `ChangeShortBreakTime` and
  `ChangeLongBreakTime` follow `EditDuration` for their mode. So the lemmas in
  `Pomodoro` hold of the object.

How the model maps onto the source:

- The interval callback (lines 31-34) and the effect's completion check
  (lines 37-40) together form one serialized `Tick`. It first decrements
  while running with time left. Then, if the timer is at 0 and still active,
  it runs `handleTimerEnd`.
- The effect at lines 22-26 reloads the timer when the focus duration changes
  in focus mode. `handleFocusChange` already does this itself, so
  `ChangeFocusTime` models both.
- `parseInt`'s result is an `Option<int>` argument of the three duration
  handlers.

## Model

| member | source | states |
|---|---|---|
| Pomodoro.Initial | src/App.jsx:4-10 | the load state is valid, paused, in focus mode, with no completed sessions and 1500 seconds on the timer |
| Pomodoro.StartStop | src/App.jsx:45-47 | the start/stop handler; no contract of its own, see StartStopFlips |
| Pomodoro.Reset | src/App.jsx:49-53 | the reset handler; no contract of its own, see ResetProperties and ResetIsChangeToFocus |
| Pomodoro.TimerEnd | src/App.jsx:55-74 | the completion transition; no contract of its own, see TimerEndAfterFocus, TimerEndAfterBreak, TimerEndPreservesValid and TimerEndIgnoresTimer |
| Pomodoro.EditDuration | src/App.jsx:101-129 | the three duration handlers; no contract of its own, see EditDurationRejects, EditDurationAccepts, EditDurationIdempotent and EditDurationPreservesValid |
| Pomodoro.ChangeMode | src/App.jsx:131-141 | the manual mode switch; no contract of its own, see ChangeModeProperties |
| Pomodoro.Decrement | src/App.jsx:31-34 | the interval callback; no contract of its own, see TickWhilePaused and TickWhileRunning |
| Pomodoro.Tick | src/App.jsx:28-43 | one interval firing followed by the completion check; no contract of its own, see the Tick and Ticks lemmas |
| Pomodoro.Completed | src/App.jsx:37-40 | the session-complete event a tick raises; no contract of its own, see TickReachingZero, TickPreservesValid and TicksToCompletion |
| Pomodoro.StartStopFlips | src/App.jsx:45-47 | start/stop flips only `isActive`, undoes itself when applied twice, and keeps the invariant |
| Pomodoro.ResetProperties | src/App.jsx:49-53 | reset pauses, selects focus, loads `focusTime * 60`, keeps the count and all three durations, is idempotent and keeps the invariant |
| Pomodoro.ResetIsChangeToFocus | src/App.jsx:49-53 | reset is the same state change as switching manually to focus |
| Pomodoro.ChangeModeProperties | src/App.jsx:131-141 | a manual switch pauses whatever the prior running state, selects the mode, loads its duration times 60, keeps the count and the durations, is idempotent and keeps the invariant |
| Pomodoro.EditDurationRejects | src/App.jsx:101-129 | a `NaN` or non-positive parsed value leaves the whole state unchanged |
| Pomodoro.EditDurationAccepts | src/App.jsx:101-129 | a positive value replaces only that mode's duration, and reloads the timer to `value * 60` exactly when that mode is current; nothing else changes |
| Pomodoro.EditDurationIdempotent | src/App.jsx:101-129 | entering the same input twice gives the same state as entering it once |
| Pomodoro.EditDurationPreservesValid | src/App.jsx:101-129 | every edit, accepted or rejected, keeps the invariant |
| Pomodoro.TimerEndAfterFocus | src/App.jsx:60-69 | finishing focus pauses, adds exactly one to the count, enters long break iff the new count is a multiple of 4 (short break otherwise), and loads that break's duration |
| Pomodoro.TimerEndAfterBreak | src/App.jsx:70-73 | finishing either break pauses, returns to focus with `focusTime * 60`, and leaves the count unchanged |
| Pomodoro.TimerEndPreservesValid | src/App.jsx:55-74 | completion leaves a valid, paused state whatever the timer was, never lowers the count, and keeps the durations |
| Pomodoro.TimerEndIgnoresTimer | src/App.jsx:55-74 | the completion transition does not depend on the remaining time |
| Pomodoro.TickWhilePaused | src/App.jsx:31-35 | a tick while paused changes nothing and raises no event |
| Pomodoro.TickWhileRunning | src/App.jsx:31-34 | a tick while running with more than one second left takes off exactly one second, changes nothing else, and raises no event |
| Pomodoro.TickReachingZero | src/App.jsx:37-40 | the tick that reaches 0 runs the completion transition, leaves the timer paused (the next mode never starts by itself), and raises the event for the mode that ended |
| Pomodoro.TickPreservesValid | src/App.jsx:28-43 | a tick keeps the invariant and the durations, never lowers the count, and raises an event iff the timer was running at its last second |
| Pomodoro.TicksWhilePaused | src/App.jsx:31-40 | while paused, any number of ticks leaves the whole state unchanged |
| Pomodoro.TicksCountDown | src/App.jsx:31-34 | fewer ticks than the remaining seconds only count down, by exactly their number |
| Pomodoro.TicksToCompletion | src/App.jsx:28-43 | a running session completes after exactly as many ticks as it has seconds left; only the last of these ticks raises the event, and it carries the mode that ended |
| Pomodoro.FirstSession | src/App.jsx:4-74 | from the load state, Start and then 1500 ticks give one pomodoro and a paused short break of 300 seconds, and the last tick raises the focus-complete event |
| Pomodoro.RunSession | src/App.jsx:28-47 | pressing Start and letting the countdown run out leaves a valid, paused state |
| Pomodoro.Sessions | src/App.jsx:28-74 | any number of sessions run in a row leave a valid, paused state |
| Pomodoro.RunSessionIsTimerEnd | src/App.jsx:28-74 | a whole session, start to end, changes the state exactly as the completion transition does |
| Pomodoro.SessionsAlternate | src/App.jsx:60-73 | starting in focus, sessions alternate between focus and a break; after `2k` sessions the count has grown by `k`; the break after the next focus session is long iff the count it reaches is a multiple of 4 |
| Pomodoro.EveryFourthBreakIsLong | src/App.jsx:61-69 | from a count that is a multiple of 4, of the next four breaks exactly the fourth is long, and the count grows by one per focus session |
| Display.NatToString | src/App.jsx:96-98 | `toString` of a non-negative integer is a non-empty string of decimal digits, one digit long iff the number is below 10, with no leading zero unless the number is 0 |
| Display.NatToStringValue | src/App.jsx:96-98 | the digits `toString` produces denote the number itself |
| Display.PadStart | src/App.jsx:96-98 | `padStart` gives length `max(|s|, width)`, keeps `s` intact as the suffix, and fills only the prefix |
| Display.FormatTimeRoundTrip | src/App.jsx:93-99 | reading the `MM:SS` display back gives the remaining seconds: minutes `time / 60` are never truncated, and seconds are `time % 60 < 60` |
| Display.FormatTime | src/App.jsx:93-99 | the display function; no contract of its own, see FormatTimeRoundTrip and FormatTimeShape |
| Display.FormatTimeShape | src/App.jsx:93-99 | the display is the minute digits (at least two), a colon and exactly two second digits; it is exactly five characters iff fewer than 100 minutes remain; from 10 minutes on it starts with a non-zero digit, so 100 minutes shows as `100:00` and not `0100:00` |
| Display.SessionCompleteNotification | src/App.jsx:76-90 | the notification choice; no contract of its own, see NotificationWording |
| Display.NotificationWording | src/App.jsx:76-90 | no notification without permission; otherwise each ended mode has its own title, and the body is the back-to-work text iff a break ended |
| Engine.TimerEngine.constructor | src/App.jsx:4-10 | the object starts in the load state: 25/5/15 minutes, 1500 seconds, paused, focus, no sessions |
| Engine.TimerEngine.StartStop | src/App.jsx:45-47 | flips `isActive` and changes nothing else |
| Engine.TimerEngine.Reset | src/App.jsx:49-53 | pauses, selects focus, loads `focusTime * 60`; the count and the durations are kept |
| Engine.TimerEngine.TimerEnd | src/App.jsx:55-74 | applies the completion transition, leaves the object valid and paused, returns the mode that ended, and never lowers the count |
| Engine.TimerEngine.Tick | src/App.jsx:28-43 | a no-op while paused; minus one second while running; at the last second, completes and pauses and returns the event; keeps the invariant and the durations |
| Engine.TimerEngine.ChangeFocusTime | src/App.jsx:101-109 | the focus-duration edit, including the reload of lines 22-26; keeps the invariant |
| Engine.TimerEngine.ChangeShortBreakTime | src/App.jsx:111-119 | the short-break-duration edit; keeps the invariant |
| Engine.TimerEngine.ChangeLongBreakTime | src/App.jsx:121-129 | the long-break-duration edit; keeps the invariant |
| Engine.TimerEngine.ChangeMode | src/App.jsx:131-141 | pauses, selects the given mode, and loads its duration times 60 whatever the prior running state; the count is kept |

## Left out

- Rendering and styling (src/App.jsx:143-231) are user interface and are not modelled.
- Playing the alarm sound (lines 12 and 57) is a device side effect. It is
  stood for by the session-complete event that `Tick` returns (`Completed` in
  `Pomodoro`).
- The notification permission request (lines 15-19) and `new Notification`
  (line 89) are browser calls. Only the choice of title and body is modelled
  (`Display.SessionCompleteNotification`). Whether permission is granted is a
  parameter.
- Registering and clearing the interval, and when React re-runs effects
  (lines 28-43), are host scheduling. They are replaced by a serialized
  `Tick`, which the host is assumed to deliver one at a time.
- How `parseInt` reads a string (line 102) is a library call. Its result is
  taken as an `Option<int>` argument.
- JavaScript numbers are doubles. The model uses unbounded integers, so it
  does not capture precision loss above 2^53. It also does not capture the
  exponent notation that `toString` uses from 10^21 upward.
- `Infinity` is not modelled. `parseInt` of a very long digit string (over
  about 309 digits) returns `Infinity`. That value passes the check
  `!isNaN(value) && value > 0` at line 103, so the source accepts it as a
  duration. The timer then never reaches 0, and `formatTime` shows
  `Infinity:NaN`. In the model every accepted duration is a finite integer.
- `handleModeChange` (lines 134-140) leaves the timer unchanged for a mode
  string other than the three known ones. `Mode` is an enumeration, so that
  case cannot arise in the model.
- Negative input to `formatTime` is not modelled: `FormatTime` takes a
  natural number. `formatTime` is called
  only with `timer`, and the invariant keeps `timer` positive, so that input
  never arises.
- React's batching of state updates and stale closures are not modelled.
  Each handler is treated as one atomic step on the current state.
