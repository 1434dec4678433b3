/** Runs of the coordinator derived from the handlers' contracts alone. */
module Scenarios {
  import opened Rpc
  import opened TaskTable
  import opened Coordination

  /** Two input files, two partitions: two map and two reduce tasks; the job is
      not done until both reduce tasks are reported, and a reduce assignment
      lists the map workers' locators in map-task order. */
  method TwoByTwoJob() returns (doneBefore: bool, doneAfterOne: bool, doneAfterBoth: bool, machines: seq<Machine>)
    ensures !doneBefore && !doneAfterOne && doneAfterBoth
    ensures machines == [Machine("/w1"), Machine("/w2")]
  {
    var c := new Coordinator(["pg-a.txt", "pg-b.txt"], 2, "/job");
    assert c.mapTask[..] == [ZeroTask, ZeroTask];
    assert c.reduceTask[..] == [ZeroTask, ZeroTask];
    var m0 := c.AskMapTask(Machine("/w1"), 0);
    assert FirstEligible([ZeroTask, ZeroTask], 0) == 0;
    assert c.mapTask[..] == [Task(InProgress, Machine("/w1"), 0), ZeroTask];
    var m1 := c.AskMapTask(Machine("/w2"), 1);
    assert FirstEligible([Task(InProgress, Machine("/w1"), 0), ZeroTask], 1) == 1;
    assert c.mapTask[..] == [Task(InProgress, Machine("/w1"), 0), Task(InProgress, Machine("/w2"), 1)];
    var none := c.AskMapTask(Machine("/w3"), 2);
    assert none == NoMapTask(false);
    c.MapTaskOver(0);
    c.MapTaskOver(1);
    assert c.mapRemain == 0;
    var over := c.AskMapTask(Machine("/w3"), 3);
    assert over == NoMapTask(true);
    var r0 := c.AskReduceTask(Machine("/w1"), 4);
    assert FirstEligible([ZeroTask, ZeroTask], 4) == 0;
    assert c.reduceTask[..] == [Task(InProgress, Machine("/w1"), 4), ZeroTask];
    var r1 := c.AskReduceTask(Machine("/w2"), 5);
    assert FirstEligible([Task(InProgress, Machine("/w1"), 4), ZeroTask], 5) == 1;
    assert c.reduceTask[..] == [Task(InProgress, Machine("/w1"), 4), Task(InProgress, Machine("/w2"), 5)];
    machines := r1.intermediateMachine;
    assert c.reduceRemain == 2;
    doneBefore := c.Done();
    c.ReduceTaskOver(0);
    doneAfterOne := c.Done();
    c.ReduceTaskOver(1);
    doneAfterBoth := c.Done();
  }

  /** A worker takes the only map task and never reports. At exactly the
      timeout nobody gets it; just after, one requester does, and the renewed
      lease then keeps it from a third requester. */
  method LeaseExpiry() returns (atTimeout: AskMapReply, afterTimeout: AskMapReply, third: AskMapReply)
    ensures atTimeout == NoMapTask(false)
    ensures afterTimeout.taskId == 0 && !afterTimeout.over
    ensures third == NoMapTask(false)
  {
    var c := new Coordinator(["pg-a.txt"], 1, "/job");
    assert c.mapTask[..] == [ZeroTask];
    var first := c.AskMapTask(Machine("/w1"), 0);
    assert first.taskId == 0;
    atTimeout := c.AskMapTask(Machine("/w2"), LeaseTimeout);
    afterTimeout := c.AskMapTask(Machine("/w2"), LeaseTimeout + 1);
    third := c.AskMapTask(Machine("/w3"), LeaseTimeout + 2);
  }

  /** A slow worker and its replacement both report map task 0. The counter
      then reads 0 and the next request is told the map phase is over, while
      map task 1 was never handed out. */
  method DuplicateReport() returns (reply: AskMapReply, task1: TaskState)
    ensures reply == NoMapTask(true)
    ensures task1 == Waiting
  {
    var c := new Coordinator(["pg-a.txt", "pg-b.txt"], 1, "/job");
    assert c.mapTask[..] == [ZeroTask, ZeroTask];
    var a := c.AskMapTask(Machine("/w1"), 0);
    assert a.taskId == 0;
    c.MapTaskOver(0);
    c.MapTaskOver(0);
    reply := c.AskMapTask(Machine("/w2"), 1);
    task1 := c.mapTask[1].state;
  }

  /** The reduce handler does not wait for the map phase: with no map task
      done, a reduce request still gets a task. */
  method ReduceBeforeMapsDone() returns (reply: AskReduceReply, mapsLeft: int)
    ensures reply.taskId == 0 && !reply.over
    ensures mapsLeft == 1
  {
    var c := new Coordinator(["pg-a.txt"], 1, "/job");
    assert c.reduceTask[..] == [ZeroTask];
    reply := c.AskReduceTask(Machine("/w1"), 0);
    mapsLeft := c.mapRemain;
  }

  /** Map task 0 goes to /w1, whose lease expires, then to /w2. /w1 finishes
      and reports; the reduce reply then names /w2, the last holder of the
      lease, as the place to fetch map task 0's output, although the output
      that was reported complete is the one /w1 wrote. */
  method StaleLocator() returns (reply: AskReduceReply, mapsLeft: int)
    ensures reply.intermediateMachine == [Machine("/w2")]
    ensures mapsLeft == 0
  {
    var c := new Coordinator(["pg-a.txt"], 1, "/job");
    assert c.mapTask[..] == [ZeroTask];
    var first := c.AskMapTask(Machine("/w1"), 0);
    assert c.mapTask[..] == [Task(InProgress, Machine("/w1"), 0)];
    var second := c.AskMapTask(Machine("/w2"), LeaseTimeout + 1);
    assert c.mapTask[..] == [Task(InProgress, Machine("/w2"), LeaseTimeout + 1)];
    c.MapTaskOver(0);
    mapsLeft := c.mapRemain;
    assert c.reduceTask[..] == [ZeroTask];
    reply := c.AskReduceTask(Machine("/w3"), LeaseTimeout + 2);
  }
}
