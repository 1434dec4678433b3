/** The coordinator's task table as values: which task a request may take,
    the updates the handlers make, and the count of unfinished tasks that the
    `MapRemain`/`ReduceRemain` counters are meant to track. */
module TaskTable {
  import opened Rpc

  /** The lease length: 10 seconds, in nanoseconds. */
  const LeaseTimeout: int := 10_000_000_000

  /** A task may be handed out when it is WAITING, or IN_PROGRESS with a lease
      older than the timeout (strictly). */
  predicate Eligible(t: Task, now: int)
    ensures t.state == Waiting ==> Eligible(t, now)
    ensures t.state == Finish ==> !Eligible(t, now)
    ensures t.state == InProgress && now - t.startTime <= LeaseTimeout ==> !Eligible(t, now)
  {
    (now - t.startTime > LeaseTimeout && t.state == InProgress) || t.state == Waiting
  }

  /** The index a handler's scan picks: the lowest eligible index, or -1. */
  function FirstEligible(tasks: seq<Task>, now: int): (r: int)
    ensures -1 <= r < |tasks|
    ensures r >= 0 ==> Eligible(tasks[r], now)
    ensures r >= 0 ==> forall k :: 0 <= k < r ==> !Eligible(tasks[k], now)
    ensures r == -1 <==> forall k :: 0 <= k < |tasks| ==> !Eligible(tasks[k], now)
  {
    if tasks == [] then -1
    else if Eligible(tasks[0], now) then 0
    else
      var r := FirstEligible(tasks[1..], now);
      assert forall k :: 1 <= k < |tasks| ==> tasks[k] == tasks[1..][k - 1];
      if r == -1 then -1 else r + 1
  }

  /** Task `i` after it is handed to `worker` at time `now`. */
  function Leased(tasks: seq<Task>, i: nat, worker: Machine, now: int): (r: seq<Task>)
    requires i < |tasks|
    ensures |r| == |tasks|
    ensures r[i].state == InProgress && r[i].workerMachine == worker && r[i].startTime == now
    ensures !Eligible(r[i], now)
    ensures forall k :: 0 <= k < |tasks| && k != i ==> r[k] == tasks[k]
  {
    tasks[i := Task(InProgress, worker, now)]
  }

  /** Task `idx` after a completion report: only its state changes. */
  function Finished(tasks: seq<Task>, idx: nat): (r: seq<Task>)
    requires idx < |tasks|
    ensures |r| == |tasks|
    ensures r[idx].state == Finish
    ensures r[idx].workerMachine == tasks[idx].workerMachine && r[idx].startTime == tasks[idx].startTime
    ensures forall now :: !Eligible(r[idx], now)
    ensures forall k :: 0 <= k < |tasks| && k != idx ==> r[k] == tasks[k]
  {
    tasks[idx := tasks[idx].(state := Finish)]
  }

  /** 1 for a task that is not FINISH, 0 otherwise. */
  function Open(t: Task): nat {
    if t.state == Finish then 0 else 1
  }

  /** The number of tasks that are not FINISH. */
  function NotFinished(tasks: seq<Task>): (n: nat)
    ensures n <= |tasks|
  {
    if tasks == [] then 0 else Open(tasks[0]) + NotFinished(tasks[1..])
  }

  predicate AllFinished(tasks: seq<Task>) {
    forall k :: 0 <= k < |tasks| ==> tasks[k].state == Finish
  }

  /** The locators of the tasks' workers, in index order. */
  function Machines(tasks: seq<Task>): (ms: seq<Machine>)
    ensures |ms| == |tasks|
    ensures forall k :: 0 <= k < |tasks| ==> ms[k] == tasks[k].workerMachine
  {
    if tasks == [] then []
    else
      assert forall k :: 1 <= k < |tasks| ==> tasks[k] == tasks[1..][k - 1];
      [tasks[0].workerMachine] + Machines(tasks[1..])
  }

  /** State order WAITING < IN_PROGRESS < FINISH: a step from `a` to `b` never
      moves back, and so never writes WAITING over another state. */
  predicate Advances(a: TaskState, b: TaskState) {
    a.Code() <= b.Code()
  }

  /** Replacing one task changes the count by that task's contribution only. */
  lemma {:induction false} ReplaceCount(tasks: seq<Task>, i: nat, t: Task)
    requires i < |tasks|
    ensures NotFinished(tasks[i := t]) == NotFinished(tasks) - Open(tasks[i]) + Open(t)
  {
    if i > 0 {
      assert tasks[i := t][1..] == tasks[1..][i - 1 := t];
      ReplaceCount(tasks[1..], i - 1, t);
    } else {
      assert tasks[i := t][1..] == tasks[1..];
    }
  }

  /** With no FINISH task, every task counts. */
  lemma {:induction false} NoneFinishedCount(tasks: seq<Task>)
    requires forall k :: 0 <= k < |tasks| ==> tasks[k].state != Finish
    ensures NotFinished(tasks) == |tasks|
  {
    if tasks != [] {
      assert forall k :: 1 <= k < |tasks| ==> tasks[k] == tasks[1..][k - 1];
      NoneFinishedCount(tasks[1..]);
    }
  }

  /** The count is zero exactly when every task is FINISH. */
  lemma {:induction false} NoneLeftIffAllFinished(tasks: seq<Task>)
    ensures NotFinished(tasks) == 0 <==> AllFinished(tasks)
  {
    if tasks != [] {
      NoneLeftIffAllFinished(tasks[1..]);
      assert forall k :: 1 <= k < |tasks| ==> tasks[k] == tasks[1..][k - 1];
    }
  }

  /** Handing out an eligible task keeps the count: the task was not FINISH
      and becomes IN_PROGRESS. */
  lemma LeaseKeepsCount(tasks: seq<Task>, i: nat, worker: Machine, now: int)
    requires i < |tasks| && Eligible(tasks[i], now)
    ensures NotFinished(Leased(tasks, i, worker, now)) == NotFinished(tasks)
  {
    ReplaceCount(tasks, i, Task(InProgress, worker, now));
  }

  /** A completion report lowers the count by one if the task was not yet
      FINISH, and leaves it as it was otherwise. */
  lemma FinishCount(tasks: seq<Task>, idx: nat)
    requires idx < |tasks|
    ensures NotFinished(Finished(tasks, idx))
            == NotFinished(tasks) - (if tasks[idx].state == Finish then 0 else 1)
  {
    ReplaceCount(tasks, idx, tasks[idx].(state := Finish));
  }

  /** A lease never moves a task backwards and touches only its index. */
  lemma LeaseAdvances(tasks: seq<Task>, i: nat, worker: Machine, now: int)
    requires i < |tasks| && Eligible(tasks[i], now)
    ensures forall k :: 0 <= k < |tasks| ==> Advances(tasks[k].state, Leased(tasks, i, worker, now)[k].state)
    ensures forall k :: 0 <= k < |tasks| && k != i ==> Leased(tasks, i, worker, now)[k] == tasks[k]
  {
  }

  /** A completion report, on a task in any state, never moves a task
      backwards and touches only its index. */
  lemma FinishAdvances(tasks: seq<Task>, idx: nat)
    requires idx < |tasks|
    ensures forall k :: 0 <= k < |tasks| ==> Advances(tasks[k].state, Finished(tasks, idx)[k].state)
    ensures forall k :: 0 <= k < |tasks| && k != idx ==> Finished(tasks, idx)[k] == tasks[k]
  {
  }

  /** A task leased at `now` is not picked again while its lease is fresh,
      whoever asks. */
  lemma FreshLeaseNotReassigned(tasks: seq<Task>, i: nat, worker: Machine, now: int, later: int)
    requires i < |tasks|
    requires later - now <= LeaseTimeout
    ensures FirstEligible(Leased(tasks, i, worker, now), later) != i
  {
  }

  /** Once the lease of an unfinished IN_PROGRESS task has expired, the next
      scan picks that task or one with a lower index. */
  lemma ExpiredLeaseReassignable(tasks: seq<Task>, i: nat, later: int)
    requires i < |tasks| && tasks[i].state == InProgress
    requires later - tasks[i].startTime > LeaseTimeout
    ensures 0 <= FirstEligible(tasks, later) <= i
  {
  }

  /** Two completion reports for one task, as the handlers process them (one
      unconditional decrement each), bring a counter that was exact for two
      tasks down to 0 while the other task is still WAITING. */
  lemma DuplicateReportUndercounts()
    ensures var tasks := [Task(InProgress, Machine("/w1"), 0), ZeroTask];
            var after := Finished(Finished(tasks, 0), 0);
            && NotFinished(tasks) == 2
            && NotFinished(after) == 1
            && after[1].state == Waiting
  {
    var tasks := [Task(InProgress, Machine("/w1"), 0), ZeroTask];
    assert NotFinished(tasks[1..]) == 1 by {
      assert tasks[1..][1..] == [];
    }
    var after := Finished(Finished(tasks, 0), 0);
    assert after[1..][1..] == [];
  }
}
