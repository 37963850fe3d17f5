/**
 * The `App` component's state as one object: a field per React state
 * variable, a method per handler and a `Tick` for the one-second interval.
 * Every method is proved to move `Snapshot()` exactly as the function of the
 * same name in `Pomodoro` does, so the lemmas proved there hold of the object.
 */
module Engine {
  import opened Wrappers
  import Pomodoro

  class TimerEngine {
    var focusTime: int
    var shortBreakTime: int
    var longBreakTime: int
    var timer: int
    var isActive: bool
    var mode: Pomodoro.Mode
    var pomodoroCount: nat

    /** The fields as one `Pomodoro.State` value. */
    function Snapshot(): Pomodoro.State
      reads this
    {
      Pomodoro.State(focusTime, shortBreakTime, longBreakTime, timer, isActive, mode, pomodoroCount)
    }

    ghost predicate Valid()
      reads this
    {
      Pomodoro.Valid(Snapshot())
    }

    /** The initial `useState` values. */
    constructor ()
      ensures Valid() && Snapshot() == Pomodoro.Initial()
      ensures focusTime == 25 && shortBreakTime == 5 && longBreakTime == 15
      ensures timer == 1500 && !isActive && mode == Pomodoro.Focus && pomodoroCount == 0
    {
      focusTime := 25;
      shortBreakTime := 5;
      longBreakTime := 15;
      timer := 25 * 60;
      isActive := false;
      mode := Pomodoro.Focus;
      pomodoroCount := 0;
    }

    /** `handleStartStop`. */
    method StartStop()
      requires Valid()
      modifies this
      ensures Valid()
      ensures isActive == !old(isActive)
      ensures Snapshot() == old(Snapshot()).(isActive := isActive)
      ensures Snapshot() == Pomodoro.StartStop(old(Snapshot()))
    {
      isActive := !isActive;
    }

    /** `handleReset`: the session count is kept. */
    method Reset()
      requires Valid()
      modifies this
      ensures Valid()
      ensures !isActive && mode == Pomodoro.Focus && timer == focusTime * 60
      ensures pomodoroCount == old(pomodoroCount)
      ensures focusTime == old(focusTime) && shortBreakTime == old(shortBreakTime)
      ensures longBreakTime == old(longBreakTime)
      ensures Snapshot() == Pomodoro.Reset(old(Snapshot()))
    {
      isActive := false;
      mode := Pomodoro.Focus;
      timer := focusTime * 60;
    }

    /**
     * `handleTimerEnd`. It returns the mode that just ended, which is what
     * the sound and the notification are chosen by. It is also reached with the
     * timer at 0, so it asks only for positive durations.
     */
    method TimerEnd() returns (previous: Pomodoro.Mode)
      requires focusTime > 0 && shortBreakTime > 0 && longBreakTime > 0
      modifies this
      ensures Valid() && !isActive
      ensures previous == old(mode)
      ensures pomodoroCount >= old(pomodoroCount)
      ensures Snapshot() == Pomodoro.TimerEnd(old(Snapshot()))
    {
      previous := mode;
      isActive := false;
      if mode == Pomodoro.Focus {
        var newCount := pomodoroCount + 1;
        pomodoroCount := newCount;
        if newCount % Pomodoro.SessionsPerLongBreak == 0 {
          mode := Pomodoro.LongBreak;
          timer := longBreakTime * 60;
        } else {
          mode := Pomodoro.ShortBreak;
          timer := shortBreakTime * 60;
        }
      } else {
        mode := Pomodoro.Focus;
        timer := focusTime * 60;
      }
    }

    /**
     * One firing of the interval, then the effect that runs on the new
     * timer: at 0 while running the session completes. `completed` is the
     * session-complete event, carrying the mode that ended.
     */
    method Tick() returns (completed: Option<Pomodoro.Mode>)
      requires Valid()
      modifies this
      ensures Valid()
      ensures pomodoroCount >= old(pomodoroCount)
      ensures focusTime == old(focusTime) && shortBreakTime == old(shortBreakTime)
      ensures longBreakTime == old(longBreakTime)
      ensures !old(isActive) ==> Snapshot() == old(Snapshot()) && completed == None
      ensures old(isActive) && old(timer) > 1 ==>
        Snapshot() == old(Snapshot()).(timer := old(timer) - 1) && completed == None
      ensures old(isActive) && old(timer) == 1 ==> !isActive && completed == Some(old(mode))
      ensures Snapshot() == Pomodoro.Tick(old(Snapshot()))
      ensures completed == Pomodoro.Completed(old(Snapshot()))
    {
      ghost var before := Snapshot();
      Pomodoro.TickPreservesValid(before);
      if isActive && timer > 0 {
        timer := timer - 1;
      }
      completed := None;
      if timer == 0 && isActive {
        var previous := TimerEnd();
        completed := Some(previous);
      }
    }

    /** The three duration handlers share this shape; `value` is the result of
        `parseInt`, `None` for `NaN`. */
    method ChangeFocusTime(value: Option<int>)
      requires Valid()
      modifies this
      ensures Valid()
      ensures Snapshot() == Pomodoro.EditDuration(old(Snapshot()), Pomodoro.Focus, value)
    {
      if value.Some? && value.value > 0 {
        focusTime := value.value;
        if mode == Pomodoro.Focus {
          timer := value.value * 60;
        }
      }
      Pomodoro.EditDurationPreservesValid(old(Snapshot()), Pomodoro.Focus, value);
    }

    method ChangeShortBreakTime(value: Option<int>)
      requires Valid()
      modifies this
      ensures Valid()
      ensures Snapshot() == Pomodoro.EditDuration(old(Snapshot()), Pomodoro.ShortBreak, value)
    {
      if value.Some? && value.value > 0 {
        shortBreakTime := value.value;
        if mode == Pomodoro.ShortBreak {
          timer := value.value * 60;
        }
      }
      Pomodoro.EditDurationPreservesValid(old(Snapshot()), Pomodoro.ShortBreak, value);
    }

    method ChangeLongBreakTime(value: Option<int>)
      requires Valid()
      modifies this
      ensures Valid()
      ensures Snapshot() == Pomodoro.EditDuration(old(Snapshot()), Pomodoro.LongBreak, value)
    {
      if value.Some? && value.value > 0 {
        longBreakTime := value.value;
        if mode == Pomodoro.LongBreak {
          timer := value.value * 60;
        }
      }
      Pomodoro.EditDurationPreservesValid(old(Snapshot()), Pomodoro.LongBreak, value);
    }

    /** `handleModeChange`: always pauses and loads the chosen mode's duration. */
    method ChangeMode(newMode: Pomodoro.Mode)
      requires Valid()
      modifies this
      ensures Valid()
      ensures !isActive && mode == newMode
      ensures timer == Pomodoro.Duration(old(Snapshot()), newMode) * 60
      ensures pomodoroCount == old(pomodoroCount)
      ensures Snapshot() == Pomodoro.ChangeMode(old(Snapshot()), newMode)
    {
      isActive := false;
      mode := newMode;
      match newMode
      case Focus => timer := focusTime * 60;
      case ShortBreak => timer := shortBreakTime * 60;
      case LongBreak => timer := longBreakTime * 60;
    }
  }
}
