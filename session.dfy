/**
 The value part of the Pomodoro timer: which interval is running, whether it
 runs, how much of it is left, how many work intervals were completed, and the
 fixed durations. Time is an exact `real` number of seconds.
 */
module Session {

  /** Which kind of interval is current: work, short break or long break. */
  datatype PomodoroStep = Pomodoro | ShortBreak | LongBreak

  /** Whether the current interval is idle, counting down or paused. */
  datatype PomodoroState = NotStarted | InProgress | Paused

  const DefaultPomodoroDuration: real := 5.0
  const DefaultShortBreakDuration: real := 5.0
  const DefaultLongBreakDuration: real := 5.0
  const DefaultNumPomosForLongBreak: int := 4

  /** The session record. The last four fields are configuration: nothing changes them. */
  datatype PomodoroData = PomodoroData(
    currentStep: PomodoroStep,
    currentState: PomodoroState,
    timeRemaining: real,
    timerInProgress: bool,
    completedPomodoros: int,
    pomodoroDuration: real,
    shortBreakDuration: real,
    longBreakDuration: real,
    numPomosForLongBreak: int)
  {
    /** The configured length of an interval of kind `step`. */
    function Duration(step: PomodoroStep): real {
      match step
      case Pomodoro => pomodoroDuration
      case ShortBreak => shortBreakDuration
      case LongBreak => longBreakDuration
    }

    /** A countdown belongs to the current step: it runs or it is paused. */
    predicate IsActive() {
      currentState == InProgress || currentState == Paused
    }

    /** The configuration admits every division and a non-empty cycle. */
    predicate WellConfigured() {
      pomodoroDuration > 0.0 && shortBreakDuration > 0.0 && longBreakDuration > 0.0
      && numPomosForLongBreak > 0
    }

    predicate IsDefaultConfig() {
      pomodoroDuration == DefaultPomodoroDuration
      && shortBreakDuration == DefaultShortBreakDuration
      && longBreakDuration == DefaultLongBreakDuration
      && numPomosForLongBreak == DefaultNumPomosForLongBreak
    }

    /** Same durations and cycle length as `other`. */
    predicate SameConfig(other: PomodoroData) {
      pomodoroDuration == other.pomodoroDuration
      && shortBreakDuration == other.shortBreakDuration
      && longBreakDuration == other.longBreakDuration
      && numPomosForLongBreak == other.numPomosForLongBreak
    }

    /**
     The invariant every command keeps: the timer flag mirrors the run state,
     an active countdown has time left, idle time is never negative, and the
     count sits below the cycle length except at a long break, where it equals it.
     */
    predicate Valid() {
      && WellConfigured()
      && (timerInProgress <==> currentState == InProgress)
      && (IsActive() ==> timeRemaining > 0.0)
      && timeRemaining >= 0.0
      && CountConsistent(currentStep, completedPomodoros, numPomosForLongBreak)
    }

    /** An active countdown never holds more than its step's full duration. */
    predicate WithinDuration() {
      IsActive() ==> timeRemaining <= Duration(currentStep)
    }

    /**
     Fraction of the current interval still to run: zero unless a countdown is
     active, otherwise the remaining time over the duration of `currentStep`.
     */
    function PercentTimeRemaining(): (r: real)
      requires IsActive() ==> Duration(currentStep) != 0.0
      ensures !IsActive() ==> r == 0.0
      ensures IsActive() ==> r * Duration(currentStep) == timeRemaining
      ensures IsActive() && 0.0 < timeRemaining <= Duration(currentStep) ==> 0.0 < r <= 1.0
    {
      if !(currentState == InProgress || currentState == Paused) then
        0.0
      else
        match currentStep
        case Pomodoro => timeRemaining / pomodoroDuration
        case ShortBreak => timeRemaining / shortBreakDuration
        case LongBreak => timeRemaining / longBreakDuration
    }
  }

  /** The completed-pomodoro count at `step`, for a cycle of `n` work intervals. */
  predicate CountConsistent(step: PomodoroStep, completed: int, n: int) {
    if step == LongBreak then completed == n else 0 <= completed < n
  }

  /** The memberwise initialiser with the configuration left at its defaults. */
  function WithDefaults(
    step: PomodoroStep, state: PomodoroState, timeRemaining: real,
    timerInProgress: bool, completed: int): (d: PomodoroData)
    ensures d.IsDefaultConfig() && d.WellConfigured()
    ensures d.currentStep == step && d.currentState == state
    ensures d.timeRemaining == timeRemaining && d.timerInProgress == timerInProgress
    ensures d.completedPomodoros == completed
  {
    PomodoroData(step, state, timeRemaining, timerInProgress, completed,
                 DefaultPomodoroDuration, DefaultShortBreakDuration,
                 DefaultLongBreakDuration, DefaultNumPomosForLongBreak)
  }

  /** Under the default configuration every step lasts as long as any other. */
  lemma DefaultDurationsEqual(d: PomodoroData, s: PomodoroStep, t: PomodoroStep)
    requires d.IsDefaultConfig()
    ensures d.Duration(s) == d.Duration(t) == 5.0
  {
  }

  /**
   In every valid state whose countdown fits its step, the fraction lies in
   [0, 1], and it is zero exactly when no countdown is active.
   */
  lemma PercentOfValid(d: PomodoroData)
    requires d.Valid() && d.WithinDuration()
    ensures 0.0 <= d.PercentTimeRemaining() <= 1.0
    ensures d.PercentTimeRemaining() == 0.0 <==> d.currentState == NotStarted
  {
  }

  /** Pausing does not change the fraction shown: both active states divide alike. */
  lemma PercentSameWhenPaused(d: PomodoroData)
    requires d.Duration(d.currentStep) != 0.0
    ensures d.(currentState := Paused).PercentTimeRemaining()
         == d.(currentState := InProgress).PercentTimeRemaining()
  {
  }
}
