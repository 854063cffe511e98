/**
 * Clients of the clock. The periodic timer is replaced by RunFor, which
 * fires a running clock a given number of times; the scenarios build a
 * clock, schedule tasks, start and stop it and read back what happened.
 */
module Usage {
  import opened Tasks
  import opened Dispatch
  import opened Clock

  /** The timer firing n times on a running clock, with the same actions throwing each time. */
  method RunFor(c: GameClock, n: nat, fails: set<ActionId>)
    requires c.running
    modifies c
    ensures c.tick == old(c.tick) + n
    ensures c.tasks == old(c.tasks) && c.running
    ensures c.invoked == old(c.invoked) + Run(c.tasks, old(c.tick), c.tick)
    ensures c.failures == old(c.failures) + RunFailures(c.tasks, fails, old(c.tick), c.tick)
  {
    ghost var tasks, start, invoked0, failures0 := c.tasks, c.tick, c.invoked, c.failures;
    var k := 0;
    while k < n
      invariant 0 <= k <= n
      invariant c.tick == start + k && c.tasks == tasks && c.running
      invariant c.invoked == invoked0 + Run(tasks, start, c.tick)
      invariant c.failures == failures0 + RunFailures(tasks, fails, start, c.tick)
    {
      ghost var tick, invoked, failures := c.tick, c.invoked, c.failures;
      c.Fire(fails);
      RunAppendTick(tasks, start, tick, invoked0, invoked, c.invoked);
      RunFailuresAppendTick(tasks, fails, start, tick, failures0, failures, c.failures);
      k := k + 1;
    }
  }

  /**
   * Run counts for two tasks with intervals 2 and 5 over the first k ticks,
   * and the reports when the first one always throws.
   */
  lemma TwoAndFiveOverTicks(tasks: seq<Task>, k: nat)
    requires tasks == [Task(2, 0), Task(5, 1)]
    ensures multiset(Run(tasks, 0, k))[0] == k / 2
    ensures multiset(Run(tasks, 0, k))[1] == k / 5
    ensures |RunFailures(tasks, {0}, 0, k)| == k / 2
  {
    assert tasks[0] == Task(2, 0) && tasks[1] == Task(5, 1);
    assert UniqueAction(tasks, 0) && UniqueAction(tasks, 1);
    InvocationsOverTicks(tasks, 0, 0, k);
    InvocationsOverTicks(tasks, 1, 0, k);
    RunFailuresOfOneAction(tasks, 0, 0, k);
  }

  lemma TenTicks(k: nat)
    requires k == 10
    ensures k / 2 == 5 && k / 5 == 2
  {
  }

  /**
   * A clock with tasks of intervals 2 and 5 (actions 0 and 1), started and
   * fired ten times with the actions in `fails` throwing.
   */
  method TwoTasksRunTenTicks(fails: set<ActionId>) returns (c: GameClock)
    ensures c.tasks == [Task(2, 0), Task(5, 1)] && c.tick == 10 && c.running
    ensures c.invoked == Run(c.tasks, 0, c.tick)
    ensures c.failures == RunFailures(c.tasks, fails, 0, c.tick)
  {
    c := new GameClock();
    var first := c.ScheduleTask(2, 0);
    var second := c.ScheduleTask(5, 1);
    assert c.tasks == [Task(2, 0), Task(5, 1)];
    c.Start();
    RunFor(c, 10, fails);
  }

  /** Intervals 2 and 5 over ten ticks: the first task runs 5 times, the second 2 times. */
  method TwoTasksOverTenTicks() returns (a: nat, b: nat)
    ensures a == 5 && b == 2
  {
    var c := TwoTasksRunTenTicks({});
    TwoAndFiveOverTicks(c.tasks, c.tick);
    TenTicks(c.tick);
    a := multiset(c.invoked)[0];
    b := multiset(c.invoked)[1];
  }

  /**
   * The interval-2 action throws every time it runs. It is still attempted
   * 5 times over ten ticks, each throw is reported, and the interval-5 task
   * registered after it still runs 2 times.
   */
  method ThrowingTaskDoesNotStopOthers() returns (attempts: nat, reports: nat, others: nat)
    ensures attempts == 5 && reports == 5 && others == 2
  {
    var c := TwoTasksRunTenTicks({0});
    TwoAndFiveOverTicks(c.tasks, c.tick);
    TenTicks(c.tick);
    attempts := multiset(c.invoked)[0];
    reports := |c.failures|;
    others := multiset(c.invoked)[1];
  }

  /**
   * Three ticks, a stop, two starts and two more ticks: stopping keeps the
   * counter, a second start changes nothing, and counting resumes from 3.
   */
  method PauseAndResume() returns (atStop: nat, afterResume: nat)
    ensures atStop == 3 && afterResume == 5
  {
    var c := new GameClock();
    c.Start();
    RunFor(c, 3, {});
    c.Stop();
    atStop := c.GetCurrentTick();
    c.Start();
    c.Start();
    RunFor(c, 2, {});
    afterResume := c.GetCurrentTick();
  }

  /** Scheduling with interval 0 fails and leaves the task list empty. */
  method RejectZeroInterval() returns (r: Result<()>, scheduled: nat)
    ensures r == Err(InvalidArgument) && scheduled == 0
  {
    var c := new GameClock();
    r := c.ScheduleTask(0, 0);
    scheduled := |c.tasks|;
  }
}
