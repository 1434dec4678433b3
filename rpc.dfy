/** Shared types of the coordinator/worker protocol: task states, the per-task
    record kept by the coordinator, worker locators and the RPC replies. */
module Rpc {

  /** Lifecycle of a task. The source encodes these as the integers
      WAITING = 0, IN_PROGRESS = 1, FINISH = 2; WAITING is the zero value. */
  datatype TaskState = Waiting | InProgress | Finish {
    /** The integer the source uses for this state. */
    function Code(): (c: int)
      ensures 0 <= c <= 2
      ensures c == 0 <==> this == Waiting
    {
      match this
      case Waiting => 0
      case InProgress => 1
      case Finish => 2
    }
  }

  /** Opaque locator of a worker: the directory where it writes its output. */
  datatype Machine = Machine(path: string)

  /** One map or reduce task. `startTime` is the lease start, an integer
      number of nanoseconds (the source keeps a wall-clock time). */
  datatype Task = Task(state: TaskState, workerMachine: Machine, startTime: int)

  /** The zero value of a task: WAITING, empty locator, the zero time. */
  const ZeroTask := Task(Waiting, Machine(""), 0)

  /** Reply to AskMapTask. Fields left unset by the handler keep their zero values. */
  datatype AskMapReply = AskMapReply(path: string, fileName: string, taskId: int, nReduce: int, over: bool)

  /** Reply to AskReduceTask. */
  datatype AskReduceReply = AskReduceReply(intermediateMachine: seq<Machine>, taskId: int, over: bool)

  /** The "no task" replies: `over` tells "phase complete" from "retry later". */
  function NoMapTask(over: bool): (r: AskMapReply)
    ensures r.taskId == -1 && r.over == over
  {
    AskMapReply("", "", -1, 0, over)
  }

  function NoReduceTask(over: bool): (r: AskReduceReply)
    ensures r.taskId == -1 && r.over == over && r.intermediateMachine == []
  {
    AskReduceReply([], -1, over)
  }
}
