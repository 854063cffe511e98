/**
 * The tick clock: a counter, an append-only list of scheduled tasks and a
 * running flag.
 *
 * While running, a periodic timer fires. Each firing adds one to the
 * counter and dispatches the due tasks. The timer's wall-clock period is
 * not modelled; a firing is the explicit step Fire. Running an action is
 * modelled by appending its identifier to `invoked`, and an action that
 * throws by a report appended to `failures`.
 */
module Clock {
  import opened Tasks
  import opened Dispatch

  class GameClock {
    /** Number of firings since construction. */
    var tick: nat
    /** Scheduled tasks, in registration order. */
    var tasks: seq<Task>
    /** Whether the timer is armed. */
    var running: bool
    /** Every action invoked so far, in invocation order. */
    var invoked: seq<ActionId>
    /** Every action failure reported so far, in order. */
    var failures: seq<FailureReport>

    /** A new clock is stopped, at tick 0, with no tasks. */
    constructor ()
      ensures tick == 0 && tasks == [] && !running
      ensures invoked == [] && failures == []
    {
      tick := 0;
      tasks := [];
      running := false;
      invoked := [];
      failures := [];
    }

    /**
     * Appends a task with the given interval and action. A non-positive
     * interval is rejected with InvalidArgument and the clock is unchanged.
     */
    method ScheduleTask(interval: int, action: ActionId) returns (r: Result<()>)
      modifies this`tasks
      ensures r.Ok? <==> interval > 0
      ensures r.Err? ==> r.error == InvalidArgument && tasks == old(tasks)
      ensures r.Ok? ==> |tasks| == |old(tasks)| + 1
                        && tasks[..|old(tasks)|] == old(tasks)
                        && tasks[|old(tasks)|] == Task(interval, action)
    {
      var task := NewTask(interval, action);
      match task
      case Ok(t) =>
        tasks := tasks + [t];
        r := Ok(());
      case Err(e) =>
        r := Err(e);
    }

    /** Arms the timer; a no-op when it is already running. */
    method Start()
      modifies this`running
      ensures running
    {
      if !running {
        running := true;
      }
    }

    /** Disarms the timer; a no-op when it is already stopped. The tick is kept. */
    method Stop()
      modifies this`running
      ensures !running
    {
      if running {
        running := false;
      }
    }

    /** Reads the tick counter; changes nothing. */
    method GetCurrentTick() returns (t: nat)
      ensures t == tick
    {
      t := tick;
    }

    /**
     * One timer firing: the counter goes up by one, then the tasks due on
     * the new tick are dispatched in registration order. Throwing actions
     * are reported and change nothing else.
     */
    method Fire(fails: set<ActionId>)
      requires running
      modifies this`tick, this`invoked, this`failures
      ensures tick == old(tick) + 1
      ensures invoked == old(invoked) + DueActions(tasks, tick)
      ensures failures == old(failures) + Failures(DueActions(tasks, tick), fails, tick)
    {
      tick := tick + 1;
      ExecuteTasks(tick, fails);
    }

    /**
     * Visits the tasks in order and invokes each one whose interval divides
     * t. An action in `fails` throws: it is reported with t and the loop
     * goes on.
     */
    method ExecuteTasks(t: nat, fails: set<ActionId>)
      modifies this`invoked, this`failures
      ensures invoked == old(invoked) + DueActions(tasks, t)
      ensures failures == old(failures) + Failures(DueActions(tasks, t), fails, t)
    {
      var i := 0;
      while i < |tasks|
        invariant 0 <= i <= |tasks|
        invariant invoked == old(invoked) + DueActions(tasks[..i], t)
        invariant failures == old(failures) + Failures(DueActions(tasks[..i], t), fails, t)
      {
        var task := tasks[i];
        ghost var before := DueActions(tasks[..i], t);
        DueActionsExtend(tasks, i, t);
        if t % task.interval == 0 {
          FailuresExtend(before, task.action, fails, t);
          invoked := invoked + [task.action];
          if task.action in fails {
            failures := failures + [FailureReport(t, task.action)];
          }
        } else {
          assert DueActions(tasks[..i + 1], t) == before;
        }
        i := i + 1;
      }
      assert tasks[..|tasks|] == tasks;
    }
  }
}
