/**
 * The Pomodoro countdown state machine of `App` (src/App.jsx), stated as pure
 * functions on one value of type `State`: one function per handler, one for a
 * tick of the one-second interval, and the lemmas that say what each promises.
 * The class `Engine.TimerEngine` is proved to follow these functions.
 */
module Pomodoro {
  import opened Wrappers

  /** The three phases, spelled 'focus', 'shortBreak' and 'longBreak' in the app. */
  datatype Mode = Focus | ShortBreak | LongBreak

  /** Every fourth completed focus session is followed by a long break. */
  const SessionsPerLongBreak: nat := 4
  const SecondsPerMinute: nat := 60

  /**
   * The seven React state variables: the configured durations in minutes,
   * the remaining seconds, the running flag, the mode and the number of
   * completed focus sessions.
   */
  datatype State = State(
    focusTime: int,
    shortBreakTime: int,
    longBreakTime: int,
    timer: int,
    isActive: bool,
    mode: Mode,
    pomodoroCount: nat)

  /** The configured duration, in minutes, of mode `m`. */
  function Duration(s: State, m: Mode): int {
    match m
    case Focus => s.focusTime
    case ShortBreak => s.shortBreakTime
    case LongBreak => s.longBreakTime
  }

  /** The number of seconds a countdown in mode `m` starts from. */
  function FullTimer(s: State, m: Mode): int {
    Duration(s, m) * SecondsPerMinute
  }

  /**
   * The invariant of every settled state: the durations are positive and the
   * remaining time lies in 1 .. the full countdown of the current mode.
   * The timer never rests at 0, because reaching 0 completes the session at once.
   */
  predicate Valid(s: State) {
    && s.focusTime > 0 && s.shortBreakTime > 0 && s.longBreakTime > 0
    && 0 < s.timer <= FullTimer(s, s.mode)
  }

  /** The state on load: 25/5/15 minutes, paused in focus mode, nothing completed. */
  function Initial(): (s: State)
    ensures Valid(s)
    ensures s.mode == Focus && !s.isActive && s.pomodoroCount == 0
    ensures s.timer == FullTimer(s, Focus) == 1500
  {
    State(25, 5, 15, 25 * SecondsPerMinute, false, Focus, 0)
  }

  // ---------------------------------------------------------------------------
  // The handlers

  /** `handleStartStop`. */
  function StartStop(s: State): State {
    s.(isActive := !s.isActive)
  }

  /** `handleReset`. */
  function Reset(s: State): State {
    s.(isActive := false, mode := Focus, timer := FullTimer(s, Focus))
  }

  /**
   * `handleTimerEnd`: pause, then count a finished focus session and pick the
   * long break after every fourth one, or go back to focus after a break.
   */
  function TimerEnd(s: State): State {
    var paused := s.(isActive := false);
    if s.mode == Focus then
      var newCount := s.pomodoroCount + 1;
      if newCount % SessionsPerLongBreak == 0 then
        paused.(pomodoroCount := newCount, mode := LongBreak, timer := FullTimer(s, LongBreak))
      else
        paused.(pomodoroCount := newCount, mode := ShortBreak, timer := FullTimer(s, ShortBreak))
    else
      paused.(mode := Focus, timer := FullTimer(s, Focus))
  }

  /** `handleFocusChange`, `handleShortBreakChange` and `handleLongBreakChange`,
      given the result of `parseInt` on the input (`None` for `NaN`). */
  function EditDuration(s: State, m: Mode, value: Option<int>): State {
    if value.Some? && value.value > 0 then
      var v := value.value;
      var edited := match m
        case Focus => s.(focusTime := v)
        case ShortBreak => s.(shortBreakTime := v)
        case LongBreak => s.(longBreakTime := v);
      if s.mode == m then edited.(timer := v * SecondsPerMinute) else edited
    else
      s
  }

  /** `handleModeChange`. */
  function ChangeMode(s: State, m: Mode): State {
    s.(isActive := false, mode := m, timer := FullTimer(s, m))
  }

  // ---------------------------------------------------------------------------
  // The tick

  /** The interval callback: one second off while running with time left. */
  function Decrement(s: State): State {
    if s.isActive && s.timer > 0 then s.(timer := s.timer - 1) else s
  }

  /** The condition under which the interval effect runs `handleTimerEnd`. */
  predicate Expired(s: State) {
    s.timer == 0 && s.isActive
  }

  /** One interval firing, followed by the effect that completes the session at 0. */
  function Tick(s: State): State {
    var d := Decrement(s);
    if Expired(d) then TimerEnd(d) else d
  }

  /** The session-complete event a tick raises (sound and notification), carrying
      the mode that just ended, or `None` when the tick completes nothing. */
  function Completed(s: State): Option<Mode> {
    var d := Decrement(s);
    if Expired(d) then Some(d.mode) else None
  }

  /** `n` ticks in a row. */
  function Ticks(s: State, n: nat): State {
    if n == 0 then s else Tick(Ticks(s, n - 1))
  }

  // ---------------------------------------------------------------------------
  // Start/stop and reset

  lemma StartStopFlips(s: State)
    ensures StartStop(s).isActive == !s.isActive
    ensures StartStop(s).(isActive := s.isActive) == s
    ensures StartStop(StartStop(s)) == s
    ensures Valid(s) ==> Valid(StartStop(s))
  {
  }

  lemma ResetProperties(s: State)
    ensures !Reset(s).isActive && Reset(s).mode == Focus
    ensures Reset(s).timer == s.focusTime * 60
    ensures Reset(s).pomodoroCount == s.pomodoroCount
    ensures Reset(s).focusTime == s.focusTime
    ensures Reset(s).shortBreakTime == s.shortBreakTime
    ensures Reset(s).longBreakTime == s.longBreakTime
    ensures Reset(Reset(s)) == Reset(s)
    ensures Valid(s) ==> Valid(Reset(s))
  {
  }

  // ---------------------------------------------------------------------------
  // Manual mode switch

  lemma ChangeModeProperties(s: State, m: Mode)
    ensures !ChangeMode(s, m).isActive && ChangeMode(s, m).mode == m
    ensures ChangeMode(s, m).timer == Duration(s, m) * 60
    ensures ChangeMode(s, m).pomodoroCount == s.pomodoroCount
    ensures forall m' :: Duration(ChangeMode(s, m), m') == Duration(s, m')
    ensures ChangeMode(ChangeMode(s, m), m) == ChangeMode(s, m)
    ensures Valid(s) ==> Valid(ChangeMode(s, m))
  {
  }

  /** Reset is the manual switch to focus. */
  lemma ResetIsChangeToFocus(s: State)
    ensures Reset(s) == ChangeMode(s, Focus)
  {
  }

  // ---------------------------------------------------------------------------
  // Duration edits

  /** A `NaN` or non-positive value is ignored. */
  lemma EditDurationRejects(s: State, m: Mode, value: Option<int>)
    requires value.None? || value.value <= 0
    ensures EditDuration(s, m, value) == s
  {
  }

  /** A positive value replaces that mode's duration and nothing else, and reloads
      the timer exactly when that mode is the current one. */
  lemma EditDurationAccepts(s: State, m: Mode, v: int)
    requires v > 0
    ensures var r := EditDuration(s, m, Some(v));
      && Duration(r, m) == v
      && (forall m' :: m' != m ==> Duration(r, m') == Duration(s, m'))
      && r.timer == (if s.mode == m then v * 60 else s.timer)
      && r.isActive == s.isActive && r.mode == s.mode
      && r.pomodoroCount == s.pomodoroCount
  {
  }

  /** Entering the same value twice is the same as entering it once. */
  lemma EditDurationIdempotent(s: State, m: Mode, value: Option<int>)
    ensures EditDuration(EditDuration(s, m, value), m, value) == EditDuration(s, m, value)
  {
  }

  /** An edit keeps the invariant: an edit of another mode leaves the timer
      alone, an edit of the current mode reloads it in full. */
  lemma EditDurationPreservesValid(s: State, m: Mode, value: Option<int>)
    requires Valid(s)
    ensures Valid(EditDuration(s, m, value))
  {
  }

  // ---------------------------------------------------------------------------
  // Completion

  /** Completing a focus session counts it and picks the break: long exactly
      when the new count is a multiple of 4. */
  lemma TimerEndAfterFocus(s: State)
    requires s.mode == Focus
    ensures var r := TimerEnd(s);
      && !r.isActive
      && r.pomodoroCount == s.pomodoroCount + 1
      && (r.mode == LongBreak <==> r.pomodoroCount % 4 == 0)
      && (r.mode == ShortBreak <==> r.pomodoroCount % 4 != 0)
      && r.timer == Duration(s, r.mode) * 60
  {
  }

  /** Completing either break returns to focus and counts nothing. */
  lemma TimerEndAfterBreak(s: State)
    requires s.mode != Focus
    ensures var r := TimerEnd(s);
      && !r.isActive && r.mode == Focus
      && r.timer == s.focusTime * 60
      && r.pomodoroCount == s.pomodoroCount
  {
  }

  /** Completion keeps the durations, never lowers the count and leaves a valid,
      paused state whatever the timer was. */
  lemma TimerEndPreservesValid(s: State)
    requires s.focusTime > 0 && s.shortBreakTime > 0 && s.longBreakTime > 0
    ensures var r := TimerEnd(s);
      && Valid(r) && !r.isActive
      && r.pomodoroCount >= s.pomodoroCount
      && (forall m :: Duration(r, m) == Duration(s, m))
  {
  }

  /** `handleTimerEnd` does not look at the timer. */
  lemma TimerEndIgnoresTimer(s: State, t: int)
    ensures TimerEnd(s.(timer := t)) == TimerEnd(s)
  {
  }

  // ---------------------------------------------------------------------------
  // Ticks

  /** A tick while paused changes nothing and raises no event. */
  lemma TickWhilePaused(s: State)
    requires !s.isActive
    ensures Tick(s) == s && Completed(s) == None
  {
  }

  /** A tick while running with more than one second left takes off exactly one
      second and changes nothing else. */
  lemma TickWhileRunning(s: State)
    requires s.isActive && s.timer > 1
    ensures Tick(s) == s.(timer := s.timer - 1) && Completed(s) == None
  {
  }

  /** The tick that reaches 0 completes the session and pauses: the next mode
      never starts by itself. */
  lemma TickReachingZero(s: State)
    requires s.isActive && s.timer == 1
    ensures Tick(s) == TimerEnd(s) && !Tick(s).isActive
    ensures Completed(s) == Some(s.mode)
  {
    TimerEndIgnoresTimer(s, 0);
  }

  /** Ticks keep the invariant and the durations, never lower the count, and
      raise an event exactly when the running timer was at its last second. */
  lemma TickPreservesValid(s: State)
    requires Valid(s)
    ensures Valid(Tick(s))
    ensures Tick(s).pomodoroCount >= s.pomodoroCount
    ensures forall m :: Duration(Tick(s), m) == Duration(s, m)
    ensures Completed(s).Some? <==> s.isActive && s.timer == 1
  {
    if s.isActive && s.timer == 1 {
      TimerEndPreservesValid(s.(timer := 0));
    }
  }

  /** While paused, any number of ticks leaves the whole state unchanged. */
  lemma {:induction false} TicksWhilePaused(s: State, n: nat)
    requires !s.isActive
    ensures Ticks(s, n) == s
  {
    if n > 0 {
      TicksWhilePaused(s, n - 1);
      TickWhilePaused(s);
    }
  }

  /** Fewer ticks than the remaining time only count down. */
  lemma {:induction false} TicksCountDown(s: State, n: nat)
    requires Valid(s) && s.isActive && n < s.timer
    ensures Ticks(s, n) == s.(timer := s.timer - n)
  {
    if n > 0 {
      TicksCountDown(s, n - 1);
      TickWhileRunning(s.(timer := s.timer - (n - 1)));
    }
  }

  /** A running session completes after exactly as many ticks as it has seconds
      left, and the last of them raises the event for the mode that ended. */
  lemma {:induction false} TicksToCompletion(s: State)
    requires Valid(s) && s.isActive
    ensures Ticks(s, s.timer) == TimerEnd(s)
    ensures Completed(Ticks(s, s.timer - 1)) == Some(s.mode)
    ensures forall n :: 0 <= n < s.timer - 1 ==> Completed(Ticks(s, n)) == None
  {
    TicksCountDown(s, s.timer - 1);
    TickReachingZero(s.(timer := 1));
    TimerEndIgnoresTimer(s, 1);
    forall n | 0 <= n < s.timer - 1
      ensures Completed(Ticks(s, n)) == None
    {
      TicksCountDown(s, n);
    }
  }

  /** From the initial state, Start and 1500 ticks finish the first focus
      session: one pomodoro, a paused five-minute short break. */
  lemma FirstSession()
    ensures var s := Ticks(StartStop(Initial()), Initial().timer);
      && s.mode == ShortBreak && s.timer == 300
      && s.pomodoroCount == 1 && !s.isActive
    ensures Completed(Ticks(StartStop(Initial()), Initial().timer - 1)) == Some(Focus)
  {
    TicksToCompletion(StartStop(Initial()));
  }

  // ---------------------------------------------------------------------------
  // The cycle

  /** The user presses Start and lets the whole countdown run out. */
  function RunSession(s: State): (r: State)
    requires Valid(s) && !s.isActive
    ensures Valid(r) && !r.isActive
  {
    TicksToCompletion(StartStop(s));
    TimerEndPreservesValid(StartStop(s));
    Ticks(StartStop(s), s.timer)
  }

  /** `k` sessions run one after the other. */
  function Sessions(s: State, k: nat): (r: State)
    requires Valid(s) && !s.isActive
    ensures Valid(r) && !r.isActive
  {
    if k == 0 then s else RunSession(Sessions(s, k - 1))
  }

  lemma RunSessionIsTimerEnd(s: State)
    requires Valid(s) && !s.isActive
    ensures RunSession(s) == TimerEnd(s)
  {
    TicksToCompletion(StartStop(s));
    assert TimerEnd(StartStop(s)) == TimerEnd(s);
  }

  /** Starting in focus, sessions alternate between focus and a break; after
      `2k` sessions `k` pomodoros are added, and the `k+1`-th break is long
      exactly when the count it reaches is a multiple of 4. */
  lemma {:induction false} SessionsAlternate(s: State, k: nat)
    requires Valid(s) && !s.isActive && s.mode == Focus
    ensures Sessions(s, 2 * k).mode == Focus
    ensures Sessions(s, 2 * k).pomodoroCount == s.pomodoroCount + k
    ensures Sessions(s, 2 * k + 1).pomodoroCount == s.pomodoroCount + k + 1
    ensures Sessions(s, 2 * k + 1).mode ==
      if (s.pomodoroCount + k + 1) % 4 == 0 then LongBreak else ShortBreak
  {
    if k > 0 {
      SessionsAlternate(s, k - 1);
      var before := Sessions(s, 2 * k - 1);
      assert Sessions(s, 2 * k) == RunSession(before);
      RunSessionIsTimerEnd(before);
    }
    var even := Sessions(s, 2 * k);
    assert Sessions(s, 2 * k + 1) == RunSession(even);
    RunSessionIsTimerEnd(even);
  }

  /** From a count that is a multiple of 4, of the next four breaks the first
      three are short and the fourth is long, and it comes with four more pomodoros. */
  lemma EveryFourthBreakIsLong(s: State)
    requires Valid(s) && !s.isActive && s.mode == Focus
    requires s.pomodoroCount % 4 == 0
    ensures forall j: nat :: j < 4 ==>
      (Sessions(s, 2 * j + 1).mode == LongBreak <==> j == 3) &&
      Sessions(s, 2 * j + 1).pomodoroCount == s.pomodoroCount + j + 1
  {
    forall j: nat | j < 4
      ensures (Sessions(s, 2 * j + 1).mode == LongBreak <==> j == 3)
      ensures Sessions(s, 2 * j + 1).pomodoroCount == s.pomodoroCount + j + 1
    {
      SessionsAlternate(s, j);
      var c := s.pomodoroCount;
      assert (c + j + 1) % 4 == (j + 1) % 4 by {
        assert c + j + 1 == 4 * (c / 4) + (j + 1);
      }
    }
  }
}
