# Pomodoro session state machine in Dafny

This project models the core of a Pomodoro focus timer. A session cycles through
work intervals ("pomodoros") and breaks. After every fourth completed pomodoro
the break is a long one. The core has two parts:

- `session.dfy`, module `Session`, models the value part.
  - Two enumerations: the current step (`Pomodoro`, `ShortBreak`, `LongBreak`) and the
    run state (`NotStarted`, `InProgress`, `Paused`).
  - The session record `PomodoroData`. Its fields are the current step, the run state,
    the remaining time, the timer flag and the completed-pomodoro count, followed by
    the configured durations and cycle length. By default every duration is 5 seconds
    and the cycle length is 4.
  - The read-only `PercentTimeRemaining`.
  - The invariant `Valid` and the bound `WithinDuration`.
- `manager.dfy`, module `Manager`, models the manager.
  - Each command is first written as a pure function from the old record to the new
    one: `AfterStart`, `AfterPause`, `AfterResume`, `AfterDecrement` and `AfterStop`.
    The rollover table is `Rollover`.
  - The class `PomodoroManager` owns one record, `data`. Its methods update that record
    field by field, in the order the program does. Each method is proved to reach
    exactly the pure function's result and to keep the class invariant.
  - `Apply` and `Run` replay sequences of commands. They give the properties of all
    reachable states and the scenarios of the unit tests.

Time is an exact `real`, so `5.0 - 0.1 == 4.9` holds exactly. A command whose guard
traps in the program has that guard as its `requires`. In `Apply`, a failed guard
returns `None`.

Three behaviours of the code are modelled as written:

- `start(step:)` takes the countdown length from the step passed in. It never assigns
  `currentStep`.
- `pause` and `resume` ignore their step argument.
- `stop()` does not reset the remaining time.

### Where the code departs from the intended design (the model follows the code)

- The intended design has `stop` reset the remaining time to 0, and the remaining
  time 0 exactly when the session is not started. The code leaves the remaining time
  alone on `stop`. `StopKeepsRemainingTime` shows an idle manager with 4 seconds still
  on its clock. Of that equivalence, only the "started implies positive time" half is
  proved, inside `Valid`.
- The intended design has `start` use the duration of the current step. The code uses
  the duration of the step argument. `AfterStart` states the fraction this yields. The
  fraction is in [0, 1] when the argument step's duration is no longer than the current
  step's. That always holds under the default configuration, where every duration is 5.
- The intended design has the fraction remaining always lie in [0, 1]. The code
  accepts any tick length, including a negative one, which adds time to the clock.
  `ReachableFraction` proves the bound for every command sequence without negative ticks.
- The intended design raises an `InvalidTransition` error for a command issued in the
  wrong state. The code traps with `fatalError`.

## Model

| member | source | states |
|---|---|---|
| `Session.PomodoroData.PercentTimeRemaining` | Pomodoro/PomodoroData.swift:34-47 | 0.0 unless the state is in progress or paused. Otherwise the result times the duration of `currentStep` gives back the remaining time. With 0 < remaining <= that duration, the result lies in (0, 1]. |
| `Session.WithDefaults` | Pomodoro/PomodoroData.swift:22-32 | The memberwise record with the default configuration: durations 5, 5, 5 and cycle length 4. That configuration is well configured: every duration is positive and the cycle length is positive. |
| `Session.DefaultDurationsEqual` | Pomodoro/PomodoroData.swift:29-31 | Under the default configuration, all three steps last 5 seconds. |
| `Session.PercentOfValid` | Pomodoro/PomodoroData.swift:34-47 | In a valid state whose countdown fits its step, the fraction is in [0, 1]. It is 0 exactly when the state is not started. |
| `Session.PercentSameWhenPaused` | Pomodoro/PomodoroData.swift:35-46 | Paused and in-progress give the same fraction for the same record. |
| `Manager.Initial` | Pomodoro/PomodoroManager.swift:13-15 | A fresh manager's record: step pomodoro, not started, 0 remaining, timer off, count 0, default configuration. It is valid and within duration. |
| `Manager.Rollover` | Pomodoro/PomodoroManager.swift:27-40 | The next step is pomodoro exactly when a break finished. It is the long break exactly when a finished pomodoro brings the count to the cycle length. The step/count invariant is preserved. |
| `Manager.AfterDecrement` | Pomodoro/PomodoroManager.swift:17-44 | A tick on a running countdown keeps the configuration and the invariant `Valid`. It keeps the countdown within its duration when the tick is not negative. The timer stays in progress exactly when time remains. |
| `Manager.AfterStart` | Pomodoro/PomodoroManager.swift:46-62 | Start from not started: the state becomes in progress, the timer on and the remaining time the argument step's duration, while step and count are unchanged. The invariant and configuration are kept. The fraction times the current step's duration equals the argument step's duration. The countdown fits when that duration is no longer. |
| `Manager.AfterPause` | Pomodoro/PomodoroManager.swift:64-71 | In progress becomes paused with the timer off. Remaining time, step and count are kept. The invariant, the duration bound and the fraction are unchanged. |
| `Manager.AfterResume` | Pomodoro/PomodoroManager.swift:73-80 | Paused becomes in progress with the timer on. Remaining time, step and count are kept. The invariant, the duration bound and the fraction are unchanged. |
| `Manager.AfterStop` | Pomodoro/PomodoroManager.swift:82-87 | From any state: step pomodoro, not started, count 0, timer off, fraction 0. The remaining time is left as it was. The invariant is kept. |
| `Manager.PauseResumeRoundTrip` | Pomodoro/PomodoroManager.swift:64-80 | Pause followed by resume restores a valid running record exactly. |
| `Manager.ResumePauseRoundTrip` | Pomodoro/PomodoroManager.swift:64-80 | Resume followed by pause restores a valid paused record exactly. |
| `Manager.DecrementBeforeExpiry` | Pomodoro/PomodoroManager.swift:22-43 | When time remains after the tick, only the remaining time changes, and it drops by exactly the tick. |
| `Manager.DecrementAtExpiry` | Pomodoro/PomodoroManager.swift:22-40 | When the tick exhausts the clock: remaining 0, not started, timer off, and step and count follow the rollover table. |
| `Manager.DecrementAdditive` | Pomodoro/PomodoroManager.swift:17-44 | Two ticks, the first leaving time on the clock, equal one tick of their sum. |
| `Manager.DecrementCount` | Pomodoro/PomodoroManager.swift:27-40 | In a valid running state, the count grows, by exactly one, exactly when a pomodoro completes. It falls, to 0, exactly when a long break completes. It is unchanged by a tick that leaves time and by a completed short break. A long break follows exactly when the count reaches the cycle length. |
| `Manager.StopIdempotent` | Pomodoro/PomodoroManager.swift:82-87 | Stopping twice is the same as stopping once. |
| `Manager.Apply` | Pomodoro/PomodoroManager.swift:17-87 | A command succeeds exactly when its guard holds. It keeps the configuration and, from a valid record, the invariant. |
| `Manager.RunKeepsValid` | Pomodoro/PomodoroManager.swift:13-87 | Any command sequence that runs without trapping keeps the invariant and the configuration. |
| `Manager.RunKeepsWithinDuration` | Pomodoro/PomodoroManager.swift:17-62 | Under the default configuration, a command sequence without negative ticks keeps every countdown within its step's duration. |
| `Manager.ReachableFraction` | Pomodoro/PomodoroData.swift:34-47 | Every state reachable from a fresh manager without negative ticks is valid. Its fraction is in [0, 1], and it is 0 exactly when not started. |
| `Manager.RunAppend` | Pomodoro/PomodoroManager.swift:17-87 | Running a concatenation of commands is running the first part and then the second. |
| `Manager.PauseResumeScenario` | PomodoroTests/PomodoroTests.swift:41-62 | Start, a tick of 0.1, then pause gives paused with 4.9 remaining and the timer off. A further resume gives in progress with 4.9 remaining and the timer on. |
| `Manager.FinishedPomodoroScenario` | PomodoroTests/PomodoroTests.swift:64-83 | Start and a full tick give short break, not started, 0 remaining, count 1. A further stop gives the initial record. |
| `Manager.StopKeepsRemainingTime` | Pomodoro/PomodoroManager.swift:82-87 | Start, a tick of 1, then stop gives not started with 4 still remaining. |
| `Manager.WorkAndShortBreak` | Pomodoro/PomodoroManager.swift:27-36 | A full pomodoro and its short break take an idle pomodoro with count k < 3 to an idle pomodoro with count k + 1. |
| `Manager.FullCycleScenario` | Pomodoro/PomodoroManager.swift:27-40 | Four full pomodoros with three short breaks between them reach the long break with count 4. Completing the long break returns to the initial record. |
| `Manager.PomodoroManager.constructor` | Pomodoro/PomodoroManager.swift:13-15 | The owned record is `Initial()`, and the class invariant holds. |
| `Manager.PomodoroManager.DecrementTimeRemaining` | Pomodoro/PomodoroManager.swift:17-44 | Requires in progress. Applied field by field, the new record is `AfterDecrement` of the old one. The class invariant is kept. A non-negative tick keeps the duration bound. |
| `Manager.PomodoroManager.Start` | Pomodoro/PomodoroManager.swift:46-62 | Requires not started. The new record is `AfterStart` of the old one with the argument step, and it is within duration. |
| `Manager.PomodoroManager.Pause` | Pomodoro/PomodoroManager.swift:64-71 | Requires in progress. The step argument is ignored. The new record is `AfterPause` of the old one. |
| `Manager.PomodoroManager.Resume` | Pomodoro/PomodoroManager.swift:73-80 | Requires paused. The step argument is ignored. The new record is `AfterResume` of the old one. |
| `Manager.ManagerClient` | PomodoroTests/PomodoroTests.swift:41-83 | Drives the class through the unit tests' commands: after start, a 0.1 tick, pause and resume, the record is in progress with 4.9 left and the timer on. A tick of the rest gives an idle short break with count 1. Stop then gives the initial record. |
| `Manager.PomodoroManager.Stop` | Pomodoro/PomodoroManager.swift:82-87 | Legal in every state. The new record is `AfterStop` of the old one. |

## Left out

- Pomodoro/PomodoroViewModel.swift is not part of this model. Lines 11-135 are an older copy of the same types with different behaviour. On rollover it does not zero the remaining time. Its fraction is 0 while paused. It has no `stop`. The rest of the file is Combine publishers, string formatting and a repeating `Timer`, which are timing and observer plumbing.
- Pomodoro/ContentView.swift and Pomodoro/VisualCountdownTimerView.swift are SwiftUI layout and floating-point drawing. They are not part of this model.
- The `@Published`/`ObservableObject` change notifications are not modelled. The manager is modelled as a plain object whose record is replaced. In the program every single field assignment publishes a whole new record, so subscribers also see the in-between records of a command, which may break `Valid` (during an expiring tick, the timer flag is already off while the state is still in progress). The invariant is promised only between commands.
- `TimeInterval`/`Double` rounding is not modelled. Time is an exact real number.
- Session.PomodoroData.PercentTimeRemaining: requires a non-zero duration when a countdown is active. A `Double` division by zero, giving infinity or NaN, is not modelled. Every record a manager holds has positive durations.
- The `fatalError` traps are preconditions of the methods. In command sequences they are a `None` result. Process termination is not modelled.
- The class invariant of `PomodoroManager` pins the default configuration, because the manager never uses another. The pure functions are proved for any well-configured record.
- The 64-bit `Int` overflow of the count is not modelled. The invariant bounds the count by the cycle length, so the overflow cannot occur.
