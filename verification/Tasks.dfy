/** Tasks, their priorities and the errors of the scheduling layer. */
module Tasks {

  /** A UUID; its ordering is the ordering of its 128-bit value. */
  type TaskId = int

  datatype TaskPriority = Background | Low | Normal | High | Critical {
    function Rank(): nat {
      match this
      case Background => 0
      case Low => 1
      case Normal => 2
      case High => 3
      case Critical => 4
    }
  }

  datatype TaskStatus = Pending | Queued | Running | Completed | Failed | Cancelled

  datatype Task = Task(
    id: TaskId,
    priority: TaskPriority,
    status: TaskStatus,
    dependencies: seq<TaskId>)

  datatype Error = CyclicDAG | Deadlock

  datatype Result<+T> = Ok(value: T) | Err(error: Error)
}
