/** Scheduled maintenance tasks and the "earlier of two tasks" choice the
    scheduler makes between its own commit task and the backend's task. */
module Tasks {
  import opened Wrappers

  /** What a task does when it falls due: commit positions, or some action
      the backend defined (a keep-alive, say), identified by a tag. */
  datatype Action = CommitPositionsAction | BackendAction(tag: string)

  /** A maintenance action and the tick at which it falls due. */
  datatype ScheduledTask = ScheduledTask(due: int, action: Action, name: string)

  /** Name under which the scheduler reports its own commit task. */
  const CommitTaskName: string := "commit_position"

  /** The scheduler's commit task, due at `due`. */
  function CommitTask(due: int): ScheduledTask {
    ScheduledTask(due, CommitPositionsAction, CommitTaskName)
  }

  /** `a > b` on tasks: tasks are ordered by due time. */
  predicate Later(a: ScheduledTask, b: ScheduledTask) {
    a.due > b.due
  }

  /** The task to run first among `local` and an optional `proposed` one.
      The proposed task wins only when it is strictly earlier. */
  function Earliest(local: ScheduledTask, proposed: Option<ScheduledTask>): (t: ScheduledTask)
    ensures t == local || (proposed.Some? && t == proposed.value)
    ensures t.due <= local.due
    ensures proposed.Some? ==> t.due <= proposed.value.due
    ensures proposed.Some? && proposed.value.due < local.due ==> t == proposed.value
    ensures proposed.None? || local.due <= proposed.value.due ==> t == local
  {
    if proposed.Some? && Later(local, proposed.value) then proposed.value else local
  }
}
