/** The coordinator: the task table of both phases and its RPC handlers. Every
    handler runs under one mutex, so each is modelled as one atomic method; the
    current time is a parameter. */
module Coordination {
  import opened Rpc
  import opened TaskTable

  /** The scan both ask handlers run: hand the first eligible task, in index
      order, to `worker` with a lease starting at `now`. */
  method LeaseFirst(tasks: array<Task>, worker: Machine, now: int) returns (id: int)
    modifies tasks
    ensures id == FirstEligible(old(tasks[..]), now)
    ensures tasks[..] == if id < 0 then old(tasks[..]) else Leased(old(tasks[..]), id, worker, now)
  {
    var i := 0;
    while i < tasks.Length
      invariant 0 <= i <= tasks.Length
      invariant tasks[..] == old(tasks[..])
      invariant forall k :: 0 <= k < i ==> !Eligible(tasks[k], now)
    {
      if Eligible(tasks[i], now) {
        tasks[i] := Task(InProgress, worker, now);
        return i;
      }
      i := i + 1;
    }
    return -1;
  }

  /** The locator list of an AskReduceTask reply, appended map task by map task. */
  method CollectMachines(tasks: array<Task>) returns (ms: seq<Machine>)
    ensures |ms| == tasks.Length
    ensures forall k :: 0 <= k < tasks.Length ==> ms[k] == tasks[k].workerMachine
  {
    ms := [];
    var i := 0;
    while i < tasks.Length
      invariant 0 <= i <= tasks.Length
      invariant |ms| == i
      invariant forall k :: 0 <= k < i ==> ms[k] == tasks[k].workerMachine
    {
      ms := ms + [tasks[i].workerMachine];
      i := i + 1;
    }
  }

  class Coordinator {
    const mapTask: array<Task>
    const reduceTask: array<Task>
    /** The coordinator's working directory, where the input files live. */
    const path: string
    const fileName: seq<string>
    var mapRemain: int
    var reduceRemain: int

    ghost predicate Valid()
      reads this
    {
      mapTask != reduceTask && |fileName| == mapTask.Length
    }

    /** The counter invariant of the map phase: `mapRemain` is the number of
        map tasks that are not FINISH. */
    ghost predicate MapCountExact()
      reads this, mapTask
    {
      mapRemain == NotFinished(mapTask[..])
    }

    ghost predicate ReduceCountExact()
      reads this, reduceTask
    {
      reduceRemain == NotFinished(reduceTask[..])
    }

    /** MakeCoordinator without the RPC server: one WAITING map task per input
        file, `nReduce` WAITING reduce tasks, both counters exact. */
    constructor (files: seq<string>, nReduce: nat, cwd: string)
      ensures Valid() && fresh(mapTask) && fresh(reduceTask)
      ensures mapTask[..] == seq(|files|, _ => ZeroTask)
      ensures reduceTask[..] == seq(nReduce, _ => ZeroTask)
      ensures fileName == files && path == cwd
      ensures mapRemain == |files| && reduceRemain == nReduce
      ensures MapCountExact() && ReduceCountExact()
    {
      mapTask := new Task[|files|](_ => ZeroTask);
      reduceTask := new Task[nReduce](_ => ZeroTask);
      path := cwd;
      fileName := files;
      mapRemain := |files|;
      reduceRemain := nReduce;
      new;
      NoneFinishedCount(mapTask[..]);
      NoneFinishedCount(reduceTask[..]);
    }

    /** Phase complete when the counter is 0; otherwise lease the first eligible
        map task to `worker`, or report that none is available now. */
    method AskMapTask(worker: Machine, now: int) returns (reply: AskMapReply)
      requires Valid()
      modifies mapTask
      ensures Valid()
      ensures mapRemain == old(mapRemain) && reduceRemain == old(reduceRemain)
      ensures reduceTask[..] == old(reduceTask[..])
      ensures old(mapRemain) == 0 ==> reply == NoMapTask(true) && mapTask[..] == old(mapTask[..])
      ensures old(mapRemain) != 0 ==>
                var i := FirstEligible(old(mapTask[..]), now);
                if i < 0 then
                  reply == NoMapTask(false) && mapTask[..] == old(mapTask[..])
                else
                  && reply == AskMapReply(path, fileName[i], i, reduceTask.Length, false)
                  && mapTask[..] == Leased(old(mapTask[..]), i, worker, now)
      ensures old(MapCountExact()) ==> MapCountExact()
      ensures forall k :: 0 <= k < mapTask.Length ==> Advances(old(mapTask[k].state), mapTask[k].state)
    {
      if mapRemain == 0 {
        return NoMapTask(true);
      }
      ghost var before := mapTask[..];
      var i := LeaseFirst(mapTask, worker, now);
      if i >= 0 {
        LeaseKeepsCount(before, i, worker, now);
        LeaseAdvances(before, i, worker, now);
        reply := AskMapReply(path, fileName[i], i, reduceTask.Length, false);
      } else {
        reply := NoMapTask(false);
      }
    }

    /** A completion report: the task becomes FINISH and the counter drops by
        one whatever the task's state was, so the counter stays exact exactly
        when the task was not FINISH already. */
    method MapTaskOver(idx: int)
      requires Valid() && 0 <= idx < mapTask.Length
      modifies this`mapRemain, mapTask
      ensures Valid()
      ensures mapTask[..] == Finished(old(mapTask[..]), idx)
      ensures mapRemain == old(mapRemain) - 1
      ensures reduceRemain == old(reduceRemain) && reduceTask[..] == old(reduceTask[..])
      ensures old(MapCountExact()) ==> (MapCountExact() <==> old(mapTask[idx].state) != Finish)
      ensures forall k :: 0 <= k < mapTask.Length ==> Advances(old(mapTask[k].state), mapTask[k].state)
    {
      ghost var before := mapTask[..];
      mapTask[idx] := mapTask[idx].(state := Finish);
      mapRemain := mapRemain - 1;
      FinishCount(before, idx);
      FinishAdvances(before, idx);
    }

    /** Like AskMapTask over the reduce tasks; an assignment also carries the
        locators of all map workers. `mapRemain` plays no part. */
    method AskReduceTask(worker: Machine, now: int) returns (reply: AskReduceReply)
      requires Valid()
      modifies reduceTask
      ensures Valid()
      ensures mapRemain == old(mapRemain) && reduceRemain == old(reduceRemain)
      ensures mapTask[..] == old(mapTask[..])
      ensures old(reduceRemain) == 0 ==> reply == NoReduceTask(true) && reduceTask[..] == old(reduceTask[..])
      ensures old(reduceRemain) != 0 ==>
                var i := FirstEligible(old(reduceTask[..]), now);
                if i < 0 then
                  reply == NoReduceTask(false) && reduceTask[..] == old(reduceTask[..])
                else
                  && reply == AskReduceReply(Machines(mapTask[..]), i, false)
                  && reduceTask[..] == Leased(old(reduceTask[..]), i, worker, now)
      ensures old(ReduceCountExact()) ==> ReduceCountExact()
      ensures forall k :: 0 <= k < reduceTask.Length ==> Advances(old(reduceTask[k].state), reduceTask[k].state)
    {
      if reduceRemain == 0 {
        return NoReduceTask(true);
      }
      ghost var before := reduceTask[..];
      var i := LeaseFirst(reduceTask, worker, now);
      if i >= 0 {
        LeaseKeepsCount(before, i, worker, now);
        LeaseAdvances(before, i, worker, now);
        var machines := CollectMachines(mapTask);
        reply := AskReduceReply(machines, i, false);
      } else {
        reply := NoReduceTask(false);
      }
    }

    /** Same discipline as MapTaskOver, on the reduce tasks. */
    method ReduceTaskOver(idx: int)
      requires Valid() && 0 <= idx < reduceTask.Length
      modifies this`reduceRemain, reduceTask
      ensures Valid()
      ensures reduceTask[..] == Finished(old(reduceTask[..]), idx)
      ensures reduceRemain == old(reduceRemain) - 1
      ensures mapRemain == old(mapRemain) && mapTask[..] == old(mapTask[..])
      ensures old(ReduceCountExact()) ==> (ReduceCountExact() <==> old(reduceTask[idx].state) != Finish)
      ensures forall k :: 0 <= k < reduceTask.Length ==> Advances(old(reduceTask[k].state), reduceTask[k].state)
    {
      ghost var before := reduceTask[..];
      reduceTask[idx] := reduceTask[idx].(state := Finish);
      reduceRemain := reduceRemain - 1;
      FinishCount(before, idx);
      FinishAdvances(before, idx);
    }

    /** The job is done when the reduce counter is 0; while that counter is
        exact, this means every reduce task is FINISH. */
    method Done() returns (r: bool)
      ensures r <==> reduceRemain == 0
      ensures ReduceCountExact() ==> (r <==> AllFinished(reduceTask[..]))
    {
      NoneLeftIffAllFinished(reduceTask[..]);
      r := reduceRemain == 0;
    }
  }
}
