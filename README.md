# GameClock: a verified model of the tick clock

This project models the tick clock of the Java mini-game shell, class
`GameClock` in `src/GameClock.java`. The clock holds three things: a tick
counter that starts at 0, an append-only list of scheduled tasks, and a
running flag. Each task is an interval plus an action. A Swing timer fires
while the clock runs. Each firing adds one to the counter. It then invokes,
in registration order, every task whose interval divides the new tick. An
action that throws is caught and reported, and the loop goes on with the
next task.

Modules:

- `Tasks` (`tasks.dfy`): the inner class `ScheduledTask`. `Interval` is the
  positive integers. `NewTask` is the constructor's check: it gives
  `Err(InvalidArgument)` for an interval of 0 or less.
- `Dispatch` (`dispatch.dfy`): what one firing does, as functions.
  - `DueActions(tasks, t)` lists the actions invoked on tick `t`.
  - `DueIndices(tasks, t)` lists the positions of the due tasks.
  - `Failures` lists the reports for actions that throw.
  - `Run` and `RunFailures` cover a window of ticks.
  - The lemmas prove the dispatch order and the `floor(k / i)` run counts.
- `Clock` (`clock.dfy`): the class `GameClock`, with fields `tick`, `tasks`
  and `running`. Running an action is recorded by appending its identifier
  to the field `invoked`; a throw appends a report to `failures`. `Fire` is
  the timer's tick listener. `ExecuteTasks` is the `for` loop of
  `executeTasks`, proved against `DueActions` and `Failures`.
- `Usage` (`usage.dfy`): clients. `RunFor` fires a running clock `n` times,
  in place of the timer. The scenario methods check concrete runs: two
  tasks over ten ticks, a task that throws, stop and restart, and a
  rejected interval.

An action is an opaque number (`ActionId`). Whether it throws on a firing
is a parameter of `Fire`: the set `fails` of actions that throw this time.

## Model

| member | source | states |
|---|---|---|
| `Tasks.NewTask` | src/GameClock.java:27-33 | A task is built exactly when the interval is positive, and it keeps the interval and action given; otherwise the result is the InvalidArgument error |
| `Clock.GameClock.constructor` | src/GameClock.java:48-61 | A new clock is at tick 0, has no tasks, is not running, and has invoked and reported nothing |
| `Clock.GameClock.ScheduleTask` | src/GameClock.java:69-71 | Succeeds exactly when the interval is positive. On success, exactly one task with that interval and action is added at the end and the earlier tasks are kept. On failure the list is unchanged. Only `tasks` may change, so the tick and running state are kept |
| `Clock.GameClock.Start` | src/GameClock.java:76-80 | Afterwards the clock is running; only `running` may change, so a start while running changes nothing |
| `Clock.GameClock.Stop` | src/GameClock.java:85-89 | Afterwards the clock is stopped; only `running` may change, so the tick is kept and a stop while stopped changes nothing |
| `Clock.GameClock.GetCurrentTick` | src/GameClock.java:96-98 | Returns the tick counter and changes no state (no modifies clause) |
| `Clock.GameClock.Fire` | src/GameClock.java:54-57 | Requires a running clock; the tick goes up by exactly one, the due actions of the new tick are appended to the invocations, and their failure reports to the reports; tasks and running state are kept |
| `Clock.GameClock.ExecuteTasks` | src/GameClock.java:105-118 | The loop invokes exactly `DueActions(tasks, t)` in order; the reports are exactly `Failures` of those invocations, whichever actions throw |
| `Dispatch.DueIndices` | src/GameClock.java:107-108 | The positions it lists are in range and strictly increasing. A position is listed exactly when its task's interval divides the tick |
| `Dispatch.DueActionsAreDueTasksInOrder` | src/GameClock.java:107-111 | The actions invoked on a tick are, one for one and in order, the actions of the due tasks; so each due task runs once and no other task runs |
| `Dispatch.DueActionsExtend` | src/GameClock.java:107-117 | Visiting the next task appends its action exactly when it is due |
| `Dispatch.AbsentActionNotInvoked` | src/GameClock.java:107-111 | An action that no task carries is never invoked |
| `Dispatch.UniqueActionCount` | src/GameClock.java:107-111 | An action carried by one task only is invoked once on a tick its interval divides and not at all on other ticks |
| `Dispatch.InvocationCount` | src/GameClock.java:54-57 | Over ticks lo+1 to hi, such an action runs once for each multiple of its interval in that window |
| `Dispatch.MultiplesCount` | src/GameClock.java:108 | Ticks lo+1 to hi hold hi / i - lo / i multiples of i |
| `Dispatch.InvocationsOverTicks` | src/GameClock.java:105-118 | Over ticks lo+1 to hi, such an action runs hi / i - lo / i times; over the first k ticks that is floor(k / i) |
| `Dispatch.FailuresExtend` | src/GameClock.java:110-115 | One more invocation adds a report exactly when that action throws |
| `Dispatch.FailuresReportExactlyTheThrowingActions` | src/GameClock.java:110-115 | Each report carries the current tick. There is a report for an action exactly when it was invoked and threw. There are never more reports than invocations |
| `Dispatch.FailuresOfOneAction` | src/GameClock.java:110-115 | When only action a throws, there is one report for each invocation of a |
| `Dispatch.RunFailuresOfOneAction` | src/GameClock.java:110-115 | Over a window of ticks, a throwing action keeps being attempted, and each attempt is reported once |
| `Usage.RunFor` | src/GameClock.java:59-60 | Firing a running clock n times adds n to the tick and appends the invocations and reports of ticks old+1 to old+n; tasks are kept and the clock stays running |
| `Usage.TwoAndFiveOverTicks` | src/GameClock.java:105-118 | For tasks of intervals 2 and 5, over the first k ticks the first runs floor(k / 2) times and the second floor(k / 5) times; if the first always throws, it is reported floor(k / 2) times |
| `Usage.TwoTasksRunTenTicks` | src/GameClock.java:48-71 | A new clock given tasks of intervals 2 and 5, started and fired ten times, is at tick 10 and still running. Its invocations and reports are exactly those of ticks 1 to 10 |
| `Usage.TwoTasksOverTenTicks` | src/GameClock.java:105-118 | Tasks with intervals 2 and 5 run 5 and 2 times over ten ticks |
| `Usage.ThrowingTaskDoesNotStopOthers` | src/GameClock.java:110-115 | If the interval-2 action throws every time, it is still attempted 5 times over ten ticks. Each throw is reported, and the interval-5 task registered after it still runs 2 times |
| `Usage.PauseAndResume` | src/GameClock.java:76-98 | After 3 ticks, a stop leaves the counter at 3. After a double start and 2 more ticks it reads 5: no reset and no double-speed ticking |
| `Usage.RejectZeroInterval` | src/GameClock.java:27-30 | Scheduling with interval 0 returns InvalidArgument and leaves no task scheduled |

## Left out

- The Swing `Timer` (src/GameClock.java:15, 60) and its 600 ms period (line 13). Wall-clock time and the event-dispatch thread cannot be stated here. A firing is the explicit step `Fire`, allowed only while running. `RunFor` stands in for a timer firing repeatedly.
- `AtomicLong` (lines 16, 55): dispatch runs on one thread, so the counter is a plain `nat`.
- Java's 64-bit `long` tick and 32-bit `int` interval are unbounded integers here, so `long` overflow after 2^63 - 1 ticks is not modelled. For a tick of at least 0 and a positive interval, Java's `%` and Dafny's `%` agree.
- The console output (`System.out` at line 106; `System.err` and `printStackTrace` at lines 113-114) is diagnostics only. A failure is kept as a `FailureReport` of the tick and the action.
- What actions do is foreign code. An action is an identifier, and "throws" means it is in the `fails` set of that firing. Only exceptions are modelled (the source catches `Exception`). A Java `Error` escaping an action is not modelled.
- An action that schedules a task while the loop runs would make the Java iterator throw `ConcurrentModificationException`. Actions here cannot reach the clock, so this case is not modelled.
- `Usage.RunFor`: the same actions throw on every firing of the run. A single `Fire` takes any set.
- src/Main.java (window, panel switching), src/WoodcuttingSkill.java (a panel that makes a clock and schedules an interval-2 print task) and src/Minigame.java (a two-method interface) are GUI shell and are not part of this model.
