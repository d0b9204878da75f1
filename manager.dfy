/**
 The Pomodoro manager: five commands that change the session record. Each
 command is first given as a function from the old record to the new one; the
 class `PomodoroManager` then performs the same change field by field on the
 record it owns and is proved to land on that function's result.
 A guard that traps in the program is a `requires` here.
 */
module Manager {
  import opened Session

  datatype Option<T> = None | Some(value: T)

  /** The record a fresh manager starts from. */
  function Initial(): (d: PomodoroData)
    ensures d.Valid() && d.WithinDuration() && d.IsDefaultConfig()
    ensures d.currentStep == Pomodoro && d.currentState == NotStarted
    ensures d.timeRemaining == 0.0 && !d.timerInProgress && d.completedPomodoros == 0
  {
    WithDefaults(Pomodoro, NotStarted, 0.0, false, 0)
  }

  /**
   The step and count that follow the completion of `step`, in a cycle of `n`
   work intervals: a work interval counts and leads to a break (the long one
   when the count reaches `n`); a short break leads back to work; a long break
   leads back to work and clears the count.
   */
  function Rollover(step: PomodoroStep, completed: int, n: int): (r: (PomodoroStep, int))
    ensures n > 0 && CountConsistent(step, completed, n) ==> CountConsistent(r.0, r.1, n)
    ensures r.0 == Pomodoro <==> step != Pomodoro
    ensures r.0 == LongBreak <==> step == Pomodoro && completed + 1 == n
  {
    match step
    case Pomodoro =>
      if completed + 1 == n then (LongBreak, completed + 1) else (ShortBreak, completed + 1)
    case ShortBreak => (Pomodoro, completed)
    case LongBreak => (Pomodoro, 0)
  }

  /** One tick of `delta` seconds on a running countdown. */
  function AfterDecrement(d: PomodoroData, delta: real): (r: PomodoroData)
    requires d.currentState == InProgress
    ensures r.SameConfig(d)
    ensures d.Valid() ==> r.Valid()
    ensures d.WithinDuration() && delta >= 0.0 ==> r.WithinDuration()
    ensures r.currentState == InProgress <==> d.timeRemaining - delta > 0.0
  {
    if d.timeRemaining - delta <= 0.0 then
      var next := Rollover(d.currentStep, d.completedPomodoros, d.numPomosForLongBreak);
      d.(timeRemaining := 0.0, timerInProgress := false, currentState := NotStarted,
         currentStep := next.0, completedPomodoros := next.1)
    else
      d.(timeRemaining := d.timeRemaining - delta)
  }

  /**
   Starting a countdown: its length is that of the step passed in, while
   `currentStep` stays as it was.
   */
  function AfterStart(d: PomodoroData, step: PomodoroStep): (r: PomodoroData)
    requires d.currentState == NotStarted
    ensures r.SameConfig(d)
    ensures d.Valid() ==> r.Valid()
    ensures d.Duration(step) <= d.Duration(d.currentStep) ==> r.WithinDuration()
    ensures r.currentState == InProgress && r.currentStep == d.currentStep
    ensures r.completedPomodoros == d.completedPomodoros
    ensures r.timeRemaining == d.Duration(step) && r.timerInProgress
    ensures r.WellConfigured() ==> r.PercentTimeRemaining() * d.Duration(d.currentStep) == d.Duration(step)
  {
    d.(timeRemaining := d.Duration(step), timerInProgress := true, currentState := InProgress)
  }

  function AfterPause(d: PomodoroData): (r: PomodoroData)
    requires d.currentState == InProgress
    ensures r.SameConfig(d) && r.currentState == Paused && !r.timerInProgress
    ensures r.timeRemaining == d.timeRemaining && r.currentStep == d.currentStep
    ensures r.completedPomodoros == d.completedPomodoros
    ensures d.Valid() ==> r.Valid()
    ensures d.WithinDuration() ==> r.WithinDuration()
    ensures d.WellConfigured() ==> r.PercentTimeRemaining() == d.PercentTimeRemaining()
  {
    d.(timerInProgress := false, currentState := Paused)
  }

  function AfterResume(d: PomodoroData): (r: PomodoroData)
    requires d.currentState == Paused
    ensures r.SameConfig(d) && r.currentState == InProgress && r.timerInProgress
    ensures r.timeRemaining == d.timeRemaining && r.currentStep == d.currentStep
    ensures r.completedPomodoros == d.completedPomodoros
    ensures d.Valid() ==> r.Valid()
    ensures d.WithinDuration() ==> r.WithinDuration()
    ensures d.WellConfigured() ==> r.PercentTimeRemaining() == d.PercentTimeRemaining()
  {
    d.(timerInProgress := true, currentState := InProgress)
  }

  /** Abandoning the session from any state; the remaining time is left as it was. */
  function AfterStop(d: PomodoroData): (r: PomodoroData)
    ensures r.SameConfig(d)
    ensures d.Valid() ==> r.Valid() && r.WithinDuration()
    ensures r.currentStep == Pomodoro && r.currentState == NotStarted
    ensures r.completedPomodoros == 0 && !r.timerInProgress
    ensures r.timeRemaining == d.timeRemaining
    ensures r.PercentTimeRemaining() == 0.0
  {
    d.(timerInProgress := false, currentStep := Pomodoro, currentState := NotStarted,
       completedPomodoros := 0)
  }

  /** Pausing and then resuming gives back the running state unchanged. */
  lemma PauseResumeRoundTrip(d: PomodoroData)
    requires d.Valid() && d.currentState == InProgress
    ensures AfterResume(AfterPause(d)) == d
  {
  }

  /** Resuming and then pausing gives back the paused state unchanged. */
  lemma ResumePauseRoundTrip(d: PomodoroData)
    requires d.Valid() && d.currentState == Paused
    ensures AfterPause(AfterResume(d)) == d
  {
  }

  /** A tick that leaves time on the clock changes the remaining time and nothing else. */
  lemma DecrementBeforeExpiry(d: PomodoroData, delta: real)
    requires d.currentState == InProgress && d.timeRemaining - delta > 0.0
    ensures AfterDecrement(d, delta) == d.(timeRemaining := d.timeRemaining - delta)
  {
  }

  /** A tick that exhausts the clock zeroes it, idles the timer and rolls the step over. */
  lemma DecrementAtExpiry(d: PomodoroData, delta: real)
    requires d.currentState == InProgress && d.timeRemaining - delta <= 0.0
    ensures var r := AfterDecrement(d, delta);
      && r.timeRemaining == 0.0 && r.currentState == NotStarted && !r.timerInProgress
      && (r.currentStep, r.completedPomodoros)
         == Rollover(d.currentStep, d.completedPomodoros, d.numPomosForLongBreak)
  {
  }

  /**
   Ticks add up: two ticks, the first of which leaves time on the clock, act
   as one tick of their sum. The tick length of the driver does not matter.
   */
  lemma DecrementAdditive(d: PomodoroData, a: real, b: real)
    requires d.currentState == InProgress && d.timeRemaining - a > 0.0
    ensures AfterDecrement(AfterDecrement(d, a), b) == AfterDecrement(d, a + b)
  {
  }

  /**
   How one tick moves the count in a valid state: it grows, by one, exactly
   when a work interval completes; it falls, to zero, exactly when a long break
   completes; it stays put otherwise, a completed short break included; and
   the long break comes exactly when the count reaches the cycle length.
   */
  lemma DecrementCount(d: PomodoroData, delta: real)
    requires d.Valid() && d.currentState == InProgress
    ensures var r := AfterDecrement(d, delta);
      var expired := d.timeRemaining - delta <= 0.0;
      && (r.completedPomodoros > d.completedPomodoros <==> expired && d.currentStep == Pomodoro)
      && (r.completedPomodoros > d.completedPomodoros ==> r.completedPomodoros == d.completedPomodoros + 1)
      && ((!expired || d.currentStep == ShortBreak) ==> r.completedPomodoros == d.completedPomodoros)
      && (r.completedPomodoros < d.completedPomodoros <==> expired && d.currentStep == LongBreak)
      && (r.completedPomodoros < d.completedPomodoros ==> r.completedPomodoros == 0)
      && (r.currentStep == LongBreak <==>
           (d.currentStep == LongBreak && !expired)
           || (expired && d.currentStep == Pomodoro
               && d.completedPomodoros + 1 == d.numPomosForLongBreak))
  {
  }

  /** Stopping twice is stopping once. */
  lemma StopIdempotent(d: PomodoroData)
    ensures AfterStop(AfterStop(d)) == AfterStop(d)
  {
  }

  /** A command as the user interface issues it; pause and resume carry an unused step. */
  datatype Command =
    | StartCmd(step: PomodoroStep)
    | PauseCmd(pausedStep: PomodoroStep)
    | ResumeCmd(resumedStep: PomodoroStep)
    | DecrementCmd(delta: real)
    | StopCmd

  /** The guard a command passes before it changes anything. */
  predicate Allowed(d: PomodoroData, c: Command) {
    match c
    case StartCmd(_) => d.currentState == NotStarted
    case PauseCmd(_) => d.currentState == InProgress
    case ResumeCmd(_) => d.currentState == Paused
    case DecrementCmd(_) => d.currentState == InProgress
    case StopCmd => true
  }

  /** One command; `None` stands for the trap a failed guard raises. */
  function Apply(d: PomodoroData, c: Command): (r: Option<PomodoroData>)
    ensures r.Some? <==> Allowed(d, c)
    ensures r.Some? ==> r.value.SameConfig(d)
    ensures r.Some? && d.Valid() ==> r.value.Valid()
  {
    if !Allowed(d, c) then None
    else
      match c
      case StartCmd(step) => Some(AfterStart(d, step))
      case PauseCmd(_) => Some(AfterPause(d))
      case ResumeCmd(_) => Some(AfterResume(d))
      case DecrementCmd(delta) => Some(AfterDecrement(d, delta))
      case StopCmd => Some(AfterStop(d))
  }

  /** A sequence of commands; `None` when one of them traps. */
  function Run(d: PomodoroData, cmds: seq<Command>): Option<PomodoroData>
    decreases |cmds|
  {
    if cmds == [] then Some(d)
    else
      match Apply(d, cmds[0])
      case None => None
      case Some(e) => Run(e, cmds[1..])
  }

  predicate NoNegativeTicks(cmds: seq<Command>) {
    forall i :: 0 <= i < |cmds| && cmds[i].DecrementCmd? ==> cmds[i].delta >= 0.0
  }

  /** Every state a sequence of commands reaches from a valid one is valid. */
  lemma {:induction false} RunKeepsValid(d: PomodoroData, cmds: seq<Command>)
    requires d.Valid()
    ensures Run(d, cmds).Some? ==> Run(d, cmds).value.Valid()
    ensures Run(d, cmds).Some? ==> Run(d, cmds).value.SameConfig(d)
    decreases |cmds|
  {
    if cmds != [] {
      match Apply(d, cmds[0])
      case None =>
      case Some(e) => RunKeepsValid(e, cmds[1..]);
    }
  }

  /**
   Under the default configuration, and with no tick running backwards, no
   reachable countdown holds more than its step's duration.
   */
  lemma {:induction false} RunKeepsWithinDuration(d: PomodoroData, cmds: seq<Command>)
    requires d.Valid() && d.IsDefaultConfig() && d.WithinDuration() && NoNegativeTicks(cmds)
    ensures Run(d, cmds).Some? ==> Run(d, cmds).value.WithinDuration()
    decreases |cmds|
  {
    if cmds != [] {
      match Apply(d, cmds[0])
      case None =>
      case Some(e) =>
        if cmds[0].StartCmd? {
          DefaultDurationsEqual(d, cmds[0].step, d.currentStep);
        }
        assert NoNegativeTicks(cmds[1..]) by {
          forall i | 0 <= i < |cmds[1..]| && cmds[1..][i].DecrementCmd?
            ensures cmds[1..][i].delta >= 0.0
          {
            assert cmds[1..][i] == cmds[i + 1];
          }
        }
        RunKeepsWithinDuration(e, cmds[1..]);
    }
  }

  /**
   From a fresh manager, whatever commands run without trapping and without a
   negative tick, the fraction remaining lies in [0, 1] and is zero exactly
   when no countdown is active.
   */
  lemma ReachableFraction(cmds: seq<Command>)
    requires NoNegativeTicks(cmds) && Run(Initial(), cmds).Some?
    ensures var e := Run(Initial(), cmds).value;
      && e.Valid()
      && 0.0 <= e.PercentTimeRemaining() <= 1.0
      && (e.PercentTimeRemaining() == 0.0 <==> e.currentState == NotStarted)
  {
    RunKeepsValid(Initial(), cmds);
    RunKeepsWithinDuration(Initial(), cmds);
    PercentOfValid(Run(Initial(), cmds).value);
  }

  /** Start, a tick of a tenth of a second, pause and resume. */
  lemma PauseResumeScenario()
    ensures Run(Initial(), [StartCmd(Pomodoro), DecrementCmd(0.1), PauseCmd(Pomodoro)])
         == Some(WithDefaults(Pomodoro, Paused, 4.9, false, 0))
    ensures Run(Initial(), [StartCmd(Pomodoro), DecrementCmd(0.1), PauseCmd(Pomodoro),
                            ResumeCmd(Pomodoro)])
         == Some(WithDefaults(Pomodoro, InProgress, 4.9, true, 0))
  {
  }

  /** A full work interval ends in an idle short break with one completed pomodoro. */
  lemma FinishedPomodoroScenario()
    ensures Run(Initial(), [StartCmd(Pomodoro), DecrementCmd(5.0)])
         == Some(WithDefaults(ShortBreak, NotStarted, 0.0, false, 1))
    ensures Run(Initial(), [StartCmd(Pomodoro), DecrementCmd(5.0), StopCmd])
         == Some(Initial())
  {
  }

  /**
   Stopping part-way through an interval keeps the remaining time: the manager
   is idle, yet its clock is not zero.
   */
  lemma StopKeepsRemainingTime()
    ensures Run(Initial(), [StartCmd(Pomodoro), DecrementCmd(1.0), StopCmd])
         == Some(WithDefaults(Pomodoro, NotStarted, 4.0, false, 0))
  {
  }

  /** Work and break, with each interval started at its own step and run to the end. */
  function Cycle(step: PomodoroStep): seq<Command> {
    [StartCmd(step), DecrementCmd(5.0)]
  }

  /** Running two sequences one after the other is running their concatenation. */
  lemma {:induction false} RunAppend(d: PomodoroData, a: seq<Command>, b: seq<Command>)
    ensures Run(d, a + b) == match Run(d, a) case None => None case Some(e) => Run(e, b)
    decreases |a|
  {
    if a != [] {
      assert (a + b)[0] == a[0] && (a + b)[1..] == a[1..] + b;
      match Apply(d, a[0])
      case None =>
      case Some(e) => RunAppend(e, a[1..], b);
    } else {
      assert a + b == b;
    }
  }

  /** A work interval and its short break, run to the end, add one to the count. */
  lemma WorkAndShortBreak(k: int)
    requires 0 <= k < 3
    ensures Run(WithDefaults(Pomodoro, NotStarted, 0.0, false, k), Cycle(Pomodoro) + Cycle(ShortBreak))
         == Some(WithDefaults(Pomodoro, NotStarted, 0.0, false, k + 1))
  {
    var d := WithDefaults(Pomodoro, NotStarted, 0.0, false, k);
    RunAppend(d, Cycle(Pomodoro), Cycle(ShortBreak));
    assert Run(d, Cycle(Pomodoro)) == Some(WithDefaults(ShortBreak, NotStarted, 0.0, false, k + 1));
  }

  /**
   Four work intervals, each but the last followed by its short break: the
   fourth leads to the long break with the count at four, and running the long
   break to the end clears the count again.
   */
  lemma FullCycleScenario()
    ensures var pair := Cycle(Pomodoro) + Cycle(ShortBreak);
      Run(Initial(), pair + pair + pair + Cycle(Pomodoro))
         == Some(WithDefaults(LongBreak, NotStarted, 0.0, false, 4))
    ensures var pair := Cycle(Pomodoro) + Cycle(ShortBreak);
      Run(Initial(), pair + pair + pair + Cycle(Pomodoro) + Cycle(LongBreak))
         == Some(Initial())
  {
    var pair := Cycle(Pomodoro) + Cycle(ShortBreak);
    var idle3 := WithDefaults(Pomodoro, NotStarted, 0.0, false, 3);
    var long := WithDefaults(LongBreak, NotStarted, 0.0, false, 4);
    WorkAndShortBreak(0);
    WorkAndShortBreak(1);
    WorkAndShortBreak(2);
    RunAppend(Initial(), pair, pair);
    RunAppend(Initial(), pair + pair, pair);
    assert Run(Initial(), pair + pair + pair) == Some(idle3);
    RunAppend(Initial(), pair + pair + pair, Cycle(Pomodoro));
    assert Run(idle3, Cycle(Pomodoro)) == Some(long);
    RunAppend(Initial(), pair + pair + pair + Cycle(Pomodoro), Cycle(LongBreak));
    assert Run(long, Cycle(LongBreak)) == Some(Initial());
  }

  /** The manager object; `data` is the one record it owns and changes in place. */
  class PomodoroManager {
    var data: PomodoroData

    ghost predicate Valid()
      reads this
    {
      data.Valid() && data.IsDefaultConfig()
    }

    constructor()
      ensures Valid() && data == Initial()
    {
      data := WithDefaults(Pomodoro, NotStarted, 0.0, false, 0);
    }

    method DecrementTimeRemaining(delta: real)
      requires Valid() && data.currentState == InProgress
      modifies this
      ensures Valid() && data == AfterDecrement(old(data), delta)
      ensures old(data.WithinDuration()) && delta >= 0.0 ==> data.WithinDuration()
    {
      var resultTimeRemaining := data.timeRemaining - delta;
      if resultTimeRemaining <= 0.0 {
        data := data.(timeRemaining := 0.0);
        data := data.(timerInProgress := false);
        data := data.(currentState := NotStarted);
        match data.currentStep {
          case Pomodoro =>
            data := data.(completedPomodoros := data.completedPomodoros + 1);
            if data.completedPomodoros == data.numPomosForLongBreak {
              data := data.(currentStep := LongBreak);
            } else {
              data := data.(currentStep := ShortBreak);
            }
          case ShortBreak =>
            data := data.(currentStep := Pomodoro);
          case LongBreak =>
            data := data.(currentStep := Pomodoro);
            data := data.(completedPomodoros := 0);
        }
      } else {
        data := data.(timeRemaining := resultTimeRemaining);
      }
    }

    method Start(step: PomodoroStep)
      requires Valid() && data.currentState == NotStarted
      modifies this
      ensures Valid() && data == AfterStart(old(data), step)
      ensures data.WithinDuration()
    {
      match step {
        case Pomodoro => data := data.(timeRemaining := data.pomodoroDuration);
        case ShortBreak => data := data.(timeRemaining := data.shortBreakDuration);
        case LongBreak => data := data.(timeRemaining := data.longBreakDuration);
      }
      data := data.(timerInProgress := true);
      data := data.(currentState := InProgress);
    }

    method Pause(step: PomodoroStep)
      requires Valid() && data.currentState == InProgress
      modifies this
      ensures Valid() && data == AfterPause(old(data))
    {
      data := data.(timerInProgress := false);
      data := data.(currentState := Paused);
    }

    method Resume(step: PomodoroStep)
      requires Valid() && data.currentState == Paused
      modifies this
      ensures Valid() && data == AfterResume(old(data))
    {
      data := data.(timerInProgress := true);
      data := data.(currentState := InProgress);
    }

    method Stop()
      requires Valid()
      modifies this
      ensures Valid() && data == AfterStop(old(data))
    {
      data := data.(timerInProgress := false);
      data := data.(currentStep := Pomodoro);
      data := data.(currentState := NotStarted);
      data := data.(completedPomodoros := 0);
    }
  }

  /**
   The manager driven through the sequences of its unit tests, reporting the
   record after resuming, after a finished work interval and after stopping.
   */
  method ManagerClient() returns (resumed: PomodoroData, finished: PomodoroData, stopped: PomodoroData)
    ensures resumed == WithDefaults(Pomodoro, InProgress, 4.9, true, 0)
    ensures finished == WithDefaults(ShortBreak, NotStarted, 0.0, false, 1)
    ensures stopped == Initial()
  {
    var m := new PomodoroManager();
    assert m.data.currentStep == Pomodoro && m.data.timeRemaining == 0.0;
    m.Start(Pomodoro);
    assert m.data.timeRemaining == m.data.pomodoroDuration && m.data.timerInProgress;
    m.DecrementTimeRemaining(0.1);
    m.Pause(Pomodoro);
    assert m.data.timeRemaining == m.data.pomodoroDuration - 0.1 && !m.data.timerInProgress;
    m.Resume(Pomodoro);
    resumed := m.data;
    m.DecrementTimeRemaining(m.data.timeRemaining);
    finished := m.data;
    m.Stop();
    stopped := m.data;
  }
}
