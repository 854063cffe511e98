/**
 * Scheduled tasks of the tick clock: an interval in ticks and an action.
 *
 * Actions are foreign code; the model identifies each one by an opaque
 * number. Building a task validates its interval, and an interval that is
 * not positive is rejected with an invalid-argument error.
 */
module Tasks {

  /** Identifies the action a task runs. */
  type ActionId = nat

  /** A task interval: a positive number of ticks. */
  type Interval = i: int | i > 0 witness 1

  /** A scheduled task; immutable once built. */
  datatype Task = Task(interval: Interval, action: ActionId)

  datatype Error = InvalidArgument

  datatype Result<T> = Ok(value: T) | Err(error: Error)

  /** Builds a task, rejecting an interval that is zero or negative. */
  function NewTask(interval: int, action: ActionId): (r: Result<Task>)
    ensures r.Ok? <==> interval > 0
    ensures r.Ok? ==> r.value.interval == interval && r.value.action == action
    ensures r.Err? ==> r.error == InvalidArgument
  {
    if interval <= 0 then Err(InvalidArgument) else Ok(Task(interval, action))
  }
}
