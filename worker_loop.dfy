/** The worker's main loop: run map stages until the coordinator says the map
    phase is over, then reduce stages until it says the reduce phase is over,
    reporting every task a stage completed. The stages' results are given as
    a sequence, consumed one per iteration. */
module WorkerLoop {
  import opened Stages

  /** What the loop does, in order: a stage attempt with its result, and the
      completion report that follows a successful attempt. */
  datatype Event =
    | MapAttempt(result: StageResult)
    | MapReport(taskId: int)
    | ReduceAttempt(result: StageResult)
    | ReduceReport(taskId: int)
  {
    predicate IsAttempt() {
      MapAttempt? || ReduceAttempt?
    }

    predicate IsReduce() {
      ReduceAttempt? || ReduceReport?
    }

    /** An attempt that completed a task, which the loop must report. */
    predicate Completed() {
      IsAttempt() && result.ret >= 0
    }

    /** A map attempt told that the map phase is over. */
    predicate MapOver() {
      MapAttempt? && result.ret < 0 && result.done
    }

    predicate ReduceOver() {
      ReduceAttempt? && result.ret < 0 && result.done
    }
  }

  /** The report a completed attempt calls for. */
  function ReportFor(e: Event): (r: Event)
    requires e.Completed()
    ensures !r.IsAttempt() && r.IsReduce() == e.IsReduce()
  {
    if e.MapAttempt? then MapReport(e.result.ret) else ReduceReport(e.result.ret)
  }

  /** The stage results of the attempts, in order. */
  function Attempts(trace: seq<Event>): seq<StageResult> {
    if trace == [] then []
    else Attempts(trace[..|trace| - 1])
         + if trace[|trace| - 1].IsAttempt() then [trace[|trace| - 1].result] else []
  }

  /** Every completed attempt is followed at once by its report, and every
      report comes right after the attempt it reports. */
  predicate ReportsPaired(trace: seq<Event>) {
    && (forall a :: 0 <= a < |trace| && trace[a].Completed() ==>
          a + 1 < |trace| && trace[a + 1] == ReportFor(trace[a]))
    && (forall a :: 0 <= a < |trace| && !trace[a].IsAttempt() ==>
          0 < a && trace[a - 1].Completed() && trace[a] == ReportFor(trace[a - 1]))
  }

  /** No map event after a reduce event. */
  predicate PhasesOrdered(trace: seq<Event>) {
    forall a, b :: 0 <= a < b < |trace| && trace[a].IsReduce() ==> trace[b].IsReduce()
  }

  /** A reduce stage is attempted only once a map attempt was told the map
      phase is over. */
  predicate ReduceAfterMapOver(trace: seq<Event>) {
    forall a :: 0 <= a < |trace| && trace[a].ReduceAttempt? ==> exists b :: 0 <= b < a && trace[b].MapOver()
  }

  predicate SawMapOver(trace: seq<Event>) {
    exists a :: 0 <= a < |trace| && trace[a].MapOver()
  }

  predicate SawReduceOver(trace: seq<Event>) {
    exists a :: 0 <= a < |trace| && trace[a].ReduceOver()
  }

  /** Each attempt runs the stage of the phase the loop is in: a reduce
      stage exactly when an earlier map attempt was told the map phase is
      over. */
  predicate AttemptsInPhase(trace: seq<Event>) {
    forall a :: 0 <= a < |trace| && trace[a].IsAttempt() ==> (trace[a].IsReduce() <==> SawMapOver(trace[..a]))
  }

  /** The loop stops at the first attempt told the reduce phase is over. */
  predicate StopsAtReduceOver(trace: seq<Event>) {
    forall a :: 0 <= a < |trace| && trace[a].ReduceOver() ==> a == |trace| - 1
  }

  lemma AttemptsSnoc(trace: seq<Event>, e: Event)
    ensures Attempts(trace + [e]) == Attempts(trace) + if e.IsAttempt() then [e.result] else []
  {
    assert (trace + [e])[..|trace|] == trace;
  }

  lemma PrefixSnoc(results: seq<StageResult>, n: nat)
    requires n < |results|
    ensures results[..n + 1] == results[..n] + [results[n]]
  {
  }

  /** The events of one iteration: the attempt of the current phase's stage,
      and its report when it completed a task. */
  function StepEvents(mapDone: bool, result: StageResult): (step: seq<Event>)
    ensures 1 <= |step| <= 2 && step[0].IsAttempt() && step[0].result == result
    ensures step[0].IsReduce() == mapDone
    ensures |step| == 2 <==> result.ret >= 0
    ensures |step| == 2 ==> step[1] == ReportFor(step[0])
  {
    var attempt := if !mapDone then MapAttempt(result) else ReduceAttempt(result);
    if result.ret >= 0 then [attempt, ReportFor(attempt)] else [attempt]
  }

  /** One iteration adds exactly its stage result to the attempts. */
  lemma StepAttempts(trace: seq<Event>, mapDone: bool, result: StageResult)
    ensures Attempts(trace + StepEvents(mapDone, result)) == Attempts(trace) + [result]
  {
    var step := StepEvents(mapDone, result);
    AttemptsSnoc(trace, step[0]);
    if |step| == 2 {
      AttemptsSnoc(trace + [step[0]], step[1]);
      assert trace + step == trace + [step[0]] + [step[1]];
    } else {
      assert step == [step[0]];
    }
  }

  lemma StepPaired(trace: seq<Event>, mapDone: bool, result: StageResult)
    requires ReportsPaired(trace)
    ensures ReportsPaired(trace + StepEvents(mapDone, result))
  {
    var step := StepEvents(mapDone, result);
    var t := trace + step;
    forall a | 0 <= a < |t| && t[a].Completed()
      ensures a + 1 < |t| && t[a + 1] == ReportFor(t[a])
    {
      if a < |trace| {
        assert t[a] == trace[a];
      }
    }
    forall a | 0 <= a < |t| && !t[a].IsAttempt()
      ensures 0 < a && t[a - 1].Completed() && t[a] == ReportFor(t[a - 1])
    {
      if a < |trace| {
        assert t[a] == trace[a];
      }
    }
  }

  lemma StepOrdered(trace: seq<Event>, mapDone: bool, result: StageResult)
    requires PhasesOrdered(trace)
    requires !mapDone ==> forall a :: 0 <= a < |trace| ==> !trace[a].IsReduce()
    ensures PhasesOrdered(trace + StepEvents(mapDone, result))
    ensures !mapDone ==> forall a :: 0 <= a < |trace + StepEvents(mapDone, result)| ==> !(trace + StepEvents(mapDone, result))[a].IsReduce()
  {
    var t := trace + StepEvents(mapDone, result);
    assert forall a :: |trace| <= a < |t| ==> t[a].IsReduce() == mapDone;
  }

  lemma StepSaw(trace: seq<Event>, mapDone: bool, result: StageResult)
    ensures SawMapOver(trace + StepEvents(mapDone, result)) <==> SawMapOver(trace) || (!mapDone && result.ret < 0 && result.done)
    ensures SawReduceOver(trace + StepEvents(mapDone, result)) <==> SawReduceOver(trace) || (mapDone && result.ret < 0 && result.done)
  {
    var step := StepEvents(mapDone, result);
    var t := trace + step;
    assert forall a :: 0 <= a < |trace| ==> t[a] == trace[a];
    assert t[|trace|] == step[0];
    if |step| == 2 {
      assert !t[|trace| + 1].IsAttempt();
    }
  }

  lemma StepReduceAfter(trace: seq<Event>, mapDone: bool, result: StageResult)
    requires ReduceAfterMapOver(trace)
    requires mapDone ==> SawMapOver(trace)
    ensures ReduceAfterMapOver(trace + StepEvents(mapDone, result))
  {
    var t := trace + StepEvents(mapDone, result);
    forall a | 0 <= a < |t| && t[a].ReduceAttempt?
      ensures exists b :: 0 <= b < a && t[b].MapOver()
    {
      if a < |trace| {
        assert t[a] == trace[a];
        var b :| 0 <= b < a && trace[b].MapOver();
        assert t[b] == trace[b];
      } else {
        var b :| 0 <= b < |trace| && trace[b].MapOver();
        assert t[b] == trace[b];
      }
    }
  }

  lemma StepInPhase(trace: seq<Event>, mapDone: bool, result: StageResult)
    requires AttemptsInPhase(trace)
    requires mapDone <==> SawMapOver(trace)
    ensures AttemptsInPhase(trace + StepEvents(mapDone, result))
  {
    var step := StepEvents(mapDone, result);
    var t := trace + step;
    forall a | 0 <= a < |t| && t[a].IsAttempt()
      ensures t[a].IsReduce() <==> SawMapOver(t[..a])
    {
      if a < |trace| {
        assert t[a] == trace[a];
        assert t[..a] == trace[..a];
      } else {
        assert a == |trace|;
        assert t[..a] == trace;
      }
    }
  }

  lemma StepStops(trace: seq<Event>, mapDone: bool, result: StageResult)
    requires !SawReduceOver(trace)
    ensures StopsAtReduceOver(trace + StepEvents(mapDone, result))
  {
    var step := StepEvents(mapDone, result);
    var t := trace + step;
    assert forall a :: 0 <= a < |trace| ==> t[a] == trace[a];
    forall a | 0 <= a < |t| && t[a].ReduceOver()
      ensures a == |t| - 1
    {
      if a == |trace| + 1 {
        assert !t[a].IsAttempt();
      }
    }
  }

  /** Worker: loop until both phases are over. While the map phase is not
      over, run a map stage; afterwards, a reduce stage. A result with a task
      id is reported (the report is retried until the call succeeds, so it
      is one event here); a result without one ends the phase when the
      coordinator said it is over, and is otherwise retried. */
  method Worker(results: seq<StageResult>) returns (trace: seq<Event>, mapDone: bool, reduceDone: bool, used: nat)
    ensures used <= |results|
    ensures Attempts(trace) == results[..used]
    ensures !(mapDone && reduceDone) ==> used == |results|
    ensures mapDone <==> SawMapOver(trace)
    ensures reduceDone <==> SawReduceOver(trace)
    ensures reduceDone ==> mapDone
    ensures ReportsPaired(trace) && PhasesOrdered(trace) && ReduceAfterMapOver(trace)
    ensures AttemptsInPhase(trace) && StopsAtReduceOver(trace)
  {
    trace, mapDone, reduceDone, used := [], false, false, 0;
    while (!mapDone || !reduceDone) && used < |results|
      invariant used <= |results|
      invariant Attempts(trace) == results[..used]
      invariant mapDone <==> SawMapOver(trace)
      invariant reduceDone <==> SawReduceOver(trace)
      invariant reduceDone ==> mapDone
      invariant ReportsPaired(trace) && PhasesOrdered(trace) && ReduceAfterMapOver(trace)
      invariant !mapDone ==> forall a :: 0 <= a < |trace| ==> !trace[a].IsReduce()
      invariant AttemptsInPhase(trace) && StopsAtReduceOver(trace)
      decreases |results| - used
    {
      var result := results[used];
      StepAttempts(trace, mapDone, result);
      StepPaired(trace, mapDone, result);
      StepOrdered(trace, mapDone, result);
      StepSaw(trace, mapDone, result);
      StepReduceAfter(trace, mapDone, result);
      StepInPhase(trace, mapDone, result);
      StepStops(trace, mapDone, result);
      PrefixSnoc(results, used);
      trace := trace + StepEvents(mapDone, result);
      if !mapDone {
        if result.ret < 0 && result.done {
          mapDone := true;
        }
      } else {
        if result.ret < 0 && result.done {
          reduceDone := true;
        }
      }
      used := used + 1;
    }
  }
}
