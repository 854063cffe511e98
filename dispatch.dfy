/**
 * What one firing of the clock does with its task list, as functions.
 *
 * On tick t every task whose interval divides t is invoked, in the order
 * the tasks were registered. An action that throws is reported with the
 * tick it failed on, and dispatch goes on with the next task.
 */
module Dispatch {
  import opened Tasks

  /** A failure report: the tick on which an action threw, and the action. */
  datatype FailureReport = FailureReport(tick: nat, action: ActionId)

  /** A task is due on tick t when its interval divides t. */
  predicate Due(t: nat, task: Task)
  {
    t % task.interval == 0
  }

  /** The actions invoked on tick t, in registration order. */
  function DueActions(tasks: seq<Task>, t: nat): seq<ActionId>
  {
    if tasks == [] then []
    else
      var last := tasks[|tasks| - 1];
      DueActions(tasks[..|tasks| - 1], t) + (if Due(t, last) then [last.action] else [])
  }

  /** Visiting the task at position i extends the dispatch of the tasks before it. */
  lemma DueActionsExtend(tasks: seq<Task>, i: nat, t: nat)
    requires i < |tasks|
    ensures DueActions(tasks[..i + 1], t)
            == DueActions(tasks[..i], t) + (if Due(t, tasks[i]) then [tasks[i].action] else [])
  {
    assert tasks[..i + 1][..i] == tasks[..i];
  }

  /**
   * The positions of the tasks due on tick t: strictly increasing (so each
   * task at most once, in registration order), and a position is listed
   * exactly when its task is due.
   */
  function DueIndices(tasks: seq<Task>, t: nat): (r: seq<nat>)
    ensures forall j :: 0 <= j < |r| ==> r[j] < |tasks|
    ensures forall j, k :: 0 <= j < k < |r| ==> r[j] < r[k]
    ensures forall i :: 0 <= i < |tasks| ==> (i in r <==> Due(t, tasks[i]))
  {
    if tasks == [] then []
    else
      var n := |tasks| - 1;
      var prefix := DueIndices(tasks[..n], t);
      prefix + (if Due(t, tasks[n]) then [n] else [])
  }

  /**
   * Dispatch order: the j-th invoked action is the action of the j-th due
   * task, so exactly the due tasks run, each once, in registration order.
   */
  lemma {:induction false} DueActionsAreDueTasksInOrder(tasks: seq<Task>, t: nat)
    ensures |DueActions(tasks, t)| == |DueIndices(tasks, t)|
    ensures forall j :: 0 <= j < |DueIndices(tasks, t)| ==>
              DueActions(tasks, t)[j] == tasks[DueIndices(tasks, t)[j]].action
  {
    if tasks != [] {
      var n := |tasks| - 1;
      DueActionsAreDueTasksInOrder(tasks[..n], t);
      var idx := DueIndices(tasks[..n], t);
      forall j | 0 <= j < |idx|
        ensures tasks[..n][idx[j]] == tasks[idx[j]]
      {
      }
    }
  }

  /** An action no task carries is never invoked. */
  lemma {:induction false} AbsentActionNotInvoked(tasks: seq<Task>, t: nat, a: ActionId)
    requires forall i :: 0 <= i < |tasks| ==> tasks[i].action != a
    ensures a !in DueActions(tasks, t)
  {
    if tasks != [] {
      AbsentActionNotInvoked(tasks[..|tasks| - 1], t, a);
    }
  }

  /** No task other than the one at position p carries its action. */
  predicate UniqueAction(tasks: seq<Task>, p: nat)
    requires p < |tasks|
  {
    forall i :: 0 <= i < |tasks| && i != p ==> tasks[i].action != tasks[p].action
  }

  /**
   * The action of the task at position p, carried by no other task, is
   * invoked once on tick t when t is a multiple of that task's interval and
   * not at all otherwise.
   */
  lemma {:induction false} UniqueActionCount(tasks: seq<Task>, t: nat, p: nat)
    requires p < |tasks|
    requires UniqueAction(tasks, p)
    ensures multiset(DueActions(tasks, t))[tasks[p].action]
            == if t % tasks[p].interval == 0 then 1 else 0
  {
    var n := |tasks| - 1;
    DueActionsCountStep(tasks, t, tasks[p].action);
    UniqueActionInPrefix(tasks, p);
    if p == n {
      AbsentActionNotInvoked(tasks[..n], t, tasks[p].action);
    } else {
      UniqueActionCount(tasks[..n], t, p);
    }
  }

  /** The last task adds one invocation of a when it is due and carries a. */
  lemma DueActionsCountStep(tasks: seq<Task>, t: nat, a: ActionId)
    requires tasks != []
    ensures multiset(DueActions(tasks, t))[a]
            == multiset(DueActions(tasks[..|tasks| - 1], t))[a]
               + (if Due(t, tasks[|tasks| - 1]) && tasks[|tasks| - 1].action == a then 1 else 0)
  {
    var last := tasks[|tasks| - 1];
    var added := if Due(t, last) then [last.action] else [];
    assert DueActions(tasks, t) == DueActions(tasks[..|tasks| - 1], t) + added;
  }

  /**
   * Dropping the last task keeps an action unique to its task, and leaves
   * the last task's action out of the rest.
   */
  lemma UniqueActionInPrefix(tasks: seq<Task>, p: nat)
    requires p < |tasks| && UniqueAction(tasks, p)
    ensures p < |tasks| - 1 ==> UniqueAction(tasks[..|tasks| - 1], p)
    ensures p == |tasks| - 1 ==>
              forall i :: 0 <= i < p ==> tasks[..p][i].action != tasks[p].action
  {
  }

  /** The actions invoked over ticks lo+1 .. hi, tick by tick. */
  function Run(tasks: seq<Task>, lo: nat, hi: nat): seq<ActionId>
    decreases hi
  {
    if hi <= lo then [] else Run(tasks, lo, hi - 1) + DueActions(tasks, hi)
  }

  /** Going from tick k-1 to tick k adds one multiple of i exactly when i divides k. */
  lemma DivStep(k: int, i: int)
    requires k >= 1 && i >= 1
    ensures k / i == (k - 1) / i + (if k % i == 0 then 1 else 0)
  {
    var q, r := (k - 1) / i, (k - 1) % i;
    assert k - 1 == q * i + r && 0 <= r < i;
    if r == i - 1 {
      DivUnique(k, i, q + 1, 0);
    } else {
      DivUnique(k, i, q, r + 1);
    }
  }

  /** Quotient and remainder are determined by n == q * d + r with 0 <= r < d. */
  lemma DivUnique(n: int, d: int, q: int, r: int)
    requires d > 0 && 0 <= r < d && n == q * d + r
    ensures n / d == q && n % d == r
  {
    var q', r' := n / d, n % d;
    assert n == q' * d + r' && 0 <= r' < d;
    assert (q - q') * d == r' - r by {
      assert (q - q') * d == q * d - q' * d;
    }
    if q > q' {
      MulAtLeast(q - q', d);
    } else if q < q' {
      MulAtLeast(q' - q, d);
    }
  }

  lemma MulAtLeast(x: int, d: int)
    requires x >= 1 && d >= 1
    ensures x * d >= d
  {
    assert x * d == (x - 1) * d + d;
  }

  /** The number of multiples of i among lo+1 .. hi. */
  function Multiples(lo: nat, hi: nat, i: Interval): nat
    decreases hi
  {
    if hi <= lo then 0 else Multiples(lo, hi - 1, i) + (if hi % i == 0 then 1 else 0)
  }

  /** There are hi / i - lo / i multiples of i among lo+1 .. hi. */
  lemma {:induction false} MultiplesCount(lo: nat, hi: nat, i: Interval)
    requires lo <= hi
    ensures Multiples(lo, hi, i) == hi / i - lo / i
    decreases hi
  {
    if hi > lo {
      MultiplesCount(lo, hi - 1, i);
      DivStep(hi, i);
    }
  }

  /**
   * Over ticks lo+1 .. hi a task whose action no other task shares runs once
   * per multiple of its interval among those ticks.
   */
  lemma {:induction false} InvocationCount(tasks: seq<Task>, p: nat, lo: nat, hi: nat)
    requires p < |tasks| && lo <= hi
    requires UniqueAction(tasks, p)
    ensures multiset(Run(tasks, lo, hi))[tasks[p].action] == Multiples(lo, hi, tasks[p].interval)
    decreases hi
  {
    if hi > lo {
      InvocationCount(tasks, p, lo, hi - 1);
      InvocationCountStep(tasks, p, lo, hi);
    }
  }

  /** Tick hi adds its own invocations to those of ticks lo+1 .. hi-1. */
  lemma RunCountStep(tasks: seq<Task>, lo: nat, hi: nat, a: ActionId)
    requires lo < hi
    ensures multiset(Run(tasks, lo, hi))[a]
            == multiset(Run(tasks, lo, hi - 1))[a] + multiset(DueActions(tasks, hi))[a]
  {
    assert Run(tasks, lo, hi) == Run(tasks, lo, hi - 1) + DueActions(tasks, hi);
  }

  /** Tick hi adds one invocation of the task at p exactly when hi is a multiple of its interval. */
  lemma InvocationCountStep(tasks: seq<Task>, p: nat, lo: nat, hi: nat)
    requires p < |tasks| && lo < hi
    requires UniqueAction(tasks, p)
    requires multiset(Run(tasks, lo, hi - 1))[tasks[p].action] == Multiples(lo, hi - 1, tasks[p].interval)
    ensures multiset(Run(tasks, lo, hi))[tasks[p].action] == Multiples(lo, hi, tasks[p].interval)
  {
    UniqueActionCount(tasks, hi, p);
    RunCountStep(tasks, lo, hi, tasks[p].action);
  }

  /**
   * Over ticks lo+1 .. hi a task whose action no other task shares runs
   * hi / i - lo / i times, i being its interval; from tick 0 that is
   * floor(k / i) runs over k ticks.
   */
  lemma InvocationsOverTicks(tasks: seq<Task>, p: nat, lo: nat, hi: nat)
    requires p < |tasks| && lo <= hi
    requires UniqueAction(tasks, p)
    ensures multiset(Run(tasks, lo, hi))[tasks[p].action]
            == hi / tasks[p].interval - lo / tasks[p].interval
  {
    InvocationCount(tasks, p, lo, hi);
    MultiplesCount(lo, hi, tasks[p].interval);
  }

  /** The failure reports one firing on tick t produces, in invocation order. */
  function Failures(invoked: seq<ActionId>, fails: set<ActionId>, t: nat): seq<FailureReport>
  {
    if invoked == [] then []
    else
      var last := invoked[|invoked| - 1];
      Failures(invoked[..|invoked| - 1], fails, t)
        + (if last in fails then [FailureReport(t, last)] else [])
  }

  /** Invoking one more action adds a report exactly when that action throws. */
  lemma FailuresExtend(invoked: seq<ActionId>, a: ActionId, fails: set<ActionId>, t: nat)
    ensures Failures(invoked + [a], fails, t)
            == Failures(invoked, fails, t) + (if a in fails then [FailureReport(t, a)] else [])
  {
    assert (invoked + [a])[..|invoked|] == invoked;
  }

  /**
   * A report names tick t and an action that was both invoked and throwing,
   * and every invoked throwing action is reported.
   */
  lemma {:induction false} FailuresReportExactlyTheThrowingActions(
    invoked: seq<ActionId>, fails: set<ActionId>, t: nat)
    ensures forall f :: f in Failures(invoked, fails, t) ==> f.tick == t
    ensures forall a :: FailureReport(t, a) in Failures(invoked, fails, t)
                        <==> a in invoked && a in fails
    ensures |Failures(invoked, fails, t)| <= |invoked|
  {
    if invoked != [] {
      var n := |invoked| - 1;
      FailuresReportExactlyTheThrowingActions(invoked[..n], fails, t);
      assert invoked == invoked[..n] + [invoked[n]];
    }
  }

  /** The failure reports of ticks lo+1 .. hi, tick by tick. */
  function RunFailures(tasks: seq<Task>, fails: set<ActionId>, lo: nat, hi: nat): seq<FailureReport>
    decreases hi
  {
    if hi <= lo then []
    else RunFailures(tasks, fails, lo, hi - 1) + Failures(DueActions(tasks, hi), fails, hi)
  }

  /**
   * A log that held the invocations of ticks lo+1 .. hi and then received
   * those of tick hi+1 holds the invocations of ticks lo+1 .. hi+1.
   */
  lemma RunAppendTick(tasks: seq<Task>, lo: nat, hi: nat,
                      base: seq<ActionId>, before: seq<ActionId>, after: seq<ActionId>)
    requires lo <= hi
    requires before == base + Run(tasks, lo, hi)
    requires after == before + DueActions(tasks, hi + 1)
    ensures after == base + Run(tasks, lo, hi + 1)
  {
    var ran, now := Run(tasks, lo, hi), DueActions(tasks, hi + 1);
    calc {
      after;
      base + ran + now;
      { SeqAppendAssoc(base, ran, now); }
      base + (ran + now);
      base + Run(tasks, lo, hi + 1);
    }
  }

  /**
   * A report log that held the reports of ticks lo+1 .. hi and then
   * received those of tick hi+1 holds the reports of ticks lo+1 .. hi+1.
   */
  lemma RunFailuresAppendTick(tasks: seq<Task>, fails: set<ActionId>, lo: nat, hi: nat,
                              base: seq<FailureReport>, before: seq<FailureReport>,
                              after: seq<FailureReport>)
    requires lo <= hi
    requires before == base + RunFailures(tasks, fails, lo, hi)
    requires after == before + Failures(DueActions(tasks, hi + 1), fails, hi + 1)
    ensures after == base + RunFailures(tasks, fails, lo, hi + 1)
  {
    var reported, now := RunFailures(tasks, fails, lo, hi), Failures(DueActions(tasks, hi + 1), fails, hi + 1);
    calc {
      after;
      base + reported + now;
      { SeqAppendAssoc(base, reported, now); }
      base + (reported + now);
      base + RunFailures(tasks, fails, lo, hi + 1);
    }
  }

  lemma SeqAppendAssoc<T>(a: seq<T>, b: seq<T>, c: seq<T>)
    ensures a + b + c == a + (b + c)
  {
  }

  /** When only action a throws, one report is made per invocation of a. */
  lemma {:induction false} FailuresOfOneAction(invoked: seq<ActionId>, a: ActionId, t: nat)
    ensures |Failures(invoked, {a}, t)| == multiset(invoked)[a]
  {
    if invoked != [] {
      var n := |invoked| - 1;
      FailuresOfOneAction(invoked[..n], a, t);
      assert invoked == invoked[..n] + [invoked[n]];
    }
  }

  /**
   * When only action a throws, over ticks lo+1 .. hi the clock reports as
   * many failures as it invokes a: a throwing action is still attempted on
   * every due tick, and each attempt is reported once.
   */
  lemma {:induction false} RunFailuresOfOneAction(tasks: seq<Task>, a: ActionId, lo: nat, hi: nat)
    ensures |RunFailures(tasks, {a}, lo, hi)| == multiset(Run(tasks, lo, hi))[a]
    decreases hi
  {
    if hi > lo {
      RunFailuresOfOneAction(tasks, a, lo, hi - 1);
      RunFailuresOfOneActionStep(tasks, a, lo, hi);
    }
  }

  /** Tick hi adds as many reports as invocations of a. */
  lemma RunFailuresOfOneActionStep(tasks: seq<Task>, a: ActionId, lo: nat, hi: nat)
    requires lo < hi
    requires |RunFailures(tasks, {a}, lo, hi - 1)| == multiset(Run(tasks, lo, hi - 1))[a]
    ensures |RunFailures(tasks, {a}, lo, hi)| == multiset(Run(tasks, lo, hi))[a]
  {
    FailuresOfOneAction(DueActions(tasks, hi), a, hi);
    RunCountStep(tasks, lo, hi, a);
  }
}
