/** One map stage and one reduce stage of a worker. The working directory,
    the RPC reply and the file system are parameters; files hold the decoded
    key/value pairs, so JSON coding is not modelled. */
module Stages {
  import opened Rpc
  import opened Keys
  import opened Partition
  import opened Naming
  import opened Grouping

  datatype Option<T> = None | Some(value: T)

  /** What a stage returns to the worker loop: the task id to report (-1 for
      none) and whether the coordinator said the phase is over. */
  datatype StageResult = StageResult(ret: int, done: bool)

  /** A file a stage leaves behind, with the pairs it holds. */
  datatype File = File(name: string, contents: seq<KeyValue>)

  /** A map stage either returns, leaving intermediate files behind, or
      stops the worker because the input file cannot be read. */
  datatype MapOutcome =
    | MapReturned(result: StageResult, files: seq<File>)
    | MapFatal(path: string)

  /** A reduce stage returns, and on success publishes one output file. */
  datatype ReduceOutcome = ReduceOutcome(result: StageResult, output: seq<File>)

  /** Bucket `b` cannot be written: its file could not be created, and the
      bucket has a pair to encode into it. */
  predicate Unwritable(fnv: string -> Uint32, nReduce: int, kva: seq<KeyValue>, createFails: int -> bool, b: int)
    requires nReduce > 0
  {
    createFails(b) && Bucket(fnv, nReduce, kva, b) != []
  }

  /** The intermediate files of map task `taskId` for buckets below `upTo`;
      a bucket whose file could not be created leaves nothing. */
  function MapFiles(dir: string, taskId: nat, fnv: string -> Uint32, nReduce: int, kva: seq<KeyValue>,
                    createFails: int -> bool, upTo: nat): (files: seq<File>)
    requires nReduce > 0
    ensures |files| <= upTo
    ensures (forall b :: 0 <= b < upTo ==> !createFails(b)) ==> |files| == upTo
  {
    if upTo == 0 then []
    else
      MapFiles(dir, taskId, fnv, nReduce, kva, createFails, upTo - 1)
      + if createFails(upTo - 1) then []
        else [File(dir + "/" + WriteName(taskId, upTo - 1), Bucket(fnv, nReduce, kva, upTo - 1))]
  }

  /** Every created bucket below `upTo` is among the files, holding that
      bucket's pairs under its own name. */
  lemma {:induction false} MapFilesHoldBuckets(dir: string, taskId: nat, fnv: string -> Uint32, nReduce: int,
                                               kva: seq<KeyValue>, createFails: int -> bool, upTo: nat, b: nat)
    requires nReduce > 0 && b < upTo && !createFails(b)
    ensures File(dir + "/" + WriteName(taskId, b), Bucket(fnv, nReduce, kva, b))
              in MapFiles(dir, taskId, fnv, nReduce, kva, createFails, upTo)
  {
    if b < upTo - 1 {
      MapFilesHoldBuckets(dir, taskId, fnv, nReduce, kva, createFails, upTo - 1, b);
    }
  }

  /** Nothing else is among the files: each is a created bucket below `upTo`. */
  lemma {:induction false} MapFilesOnlyBuckets(dir: string, taskId: nat, fnv: string -> Uint32, nReduce: int,
                                               kva: seq<KeyValue>, createFails: int -> bool, upTo: nat, f: File)
    requires nReduce > 0 && f in MapFiles(dir, taskId, fnv, nReduce, kva, createFails, upTo)
    ensures exists b :: && 0 <= b < upTo && !createFails(b)
                        && f == File(dir + "/" + WriteName(taskId, b), Bucket(fnv, nReduce, kva, b))
  {
    if f !in MapFiles(dir, taskId, fnv, nReduce, kva, createFails, upTo - 1) {
      assert !createFails(upTo - 1);
    } else {
      MapFilesOnlyBuckets(dir, taskId, fnv, nReduce, kva, createFails, upTo - 1, f);
    }
  }

  /** MapStage: ask for a map task, run `mapf` on its input file, split the
      pairs into `nReduce` buckets by key hash, and write each bucket to
      "mr-<task><bucket>" in the working directory. */
  method MapStage(cwd: Option<string>, reply: Option<AskMapReply>, inputs: map<string, string>,
                  mapf: (string, string) -> seq<KeyValue>, fnv: string -> Uint32, createFails: int -> bool)
    returns (outcome: MapOutcome)
    requires reply.Some? && reply.value.taskId != -1 ==> reply.value.taskId >= 0 && reply.value.nReduce > 0
    ensures cwd.None? || reply.None? ==> outcome == MapReturned(StageResult(-1, false), [])
    ensures cwd.Some? && reply.Some? && reply.value.taskId == -1 ==>
              outcome == MapReturned(StageResult(-1, reply.value.over), [])
    ensures cwd.Some? && reply.Some? && reply.value.taskId != -1 ==>
              var r := reply.value;
              var filePath := r.path + "/" + r.fileName;
              if filePath !in inputs then outcome == MapFatal(filePath)
              else
                var kva := mapf(r.fileName, inputs[filePath]);
                && outcome.MapReturned?
                && !outcome.result.done
                && (outcome.result.ret >= 0 <==> forall b :: 0 <= b < r.nReduce ==> !Unwritable(fnv, r.nReduce, kva, createFails, b))
                && (outcome.result.ret >= 0 ==>
                      outcome.result.ret == r.taskId
                      && outcome.files == MapFiles(cwd.value, r.taskId, fnv, r.nReduce, kva, createFails, r.nReduce))
                && (outcome.result.ret < 0 ==>
                      outcome.result.ret == -1
                      && (exists b0 :: && 0 <= b0 < r.nReduce
                                       && Unwritable(fnv, r.nReduce, kva, createFails, b0)
                                       && (forall b :: 0 <= b < b0 ==> !Unwritable(fnv, r.nReduce, kva, createFails, b))
                                       && outcome.files == MapFiles(cwd.value, r.taskId, fnv, r.nReduce, kva, createFails, b0)))
  {
    if cwd.None? || reply.None? {
      return MapReturned(StageResult(-1, false), []);
    }
    var r := reply.value;
    if r.taskId == -1 {
      return MapReturned(StageResult(-1, r.over), []);
    }
    var taskId, nReduce := r.taskId, r.nReduce;
    var filePath := r.path + "/" + r.fileName;
    if filePath !in inputs {
      return MapFatal(filePath);
    }
    var kva := mapf(r.fileName, inputs[filePath]);
    var intermediate := PartitionPairs(fnv, nReduce, kva);
    var files := [];
    var i := 0;
    while i < nReduce
      invariant 0 <= i <= nReduce
      invariant forall b :: 0 <= b < i ==> !Unwritable(fnv, nReduce, kva, createFails, b)
      invariant files == MapFiles(cwd.value, taskId, fnv, nReduce, kva, createFails, i)
    {
      var filename := WriteName(taskId, i);
      if createFails(i) {
        if intermediate[i] != [] {
          assert Unwritable(fnv, nReduce, kva, createFails, i);
          return MapReturned(StageResult(-1, false), files);
        }
      } else {
        files := files + [File(cwd.value + "/" + filename, intermediate[i])];
      }
      i := i + 1;
    }
    return MapReturned(StageResult(taskId, false), files);
  }

  /** Every locator's file for reduce task `r` exists, for map tasks below `upTo`. */
  predicate AllPresent(ms: seq<Machine>, r: nat, fs: map<string, seq<KeyValue>>, upTo: nat)
    requires upTo <= |ms|
  {
    forall i :: 0 <= i < upTo ==> ReadName(ms[i], i, r) in fs
  }

  /** The pairs a reduce task collects: the contents of each map task's file
      for it, concatenated in map-task order. */
  function Gathered(ms: seq<Machine>, r: nat, fs: map<string, seq<KeyValue>>, upTo: nat): (g: seq<KeyValue>)
    requires upTo <= |ms| && AllPresent(ms, r, fs, upTo)
    ensures forall p :: p in g ==> exists i :: 0 <= i < upTo && p in fs[ReadName(ms[i], i, r)]
  {
    if upTo == 0 then [] else Gathered(ms, r, fs, upTo - 1) + fs[ReadName(ms[upTo - 1], upTo - 1, r)]
  }

  /** The records a reduce task writes for the pairs it collected. */
  function Reduced(intermediate: seq<KeyValue>, reducef: (string, seq<string>) -> string): (out: seq<KeyValue>)
    ensures forall a, b :: 0 <= a < b < |out| ==> KeyLess(out[a].key, out[b].key)
    ensures forall a :: 0 <= a < |out| ==> out[a].value == reducef(out[a].key, ValuesWithKey(SortByKey(intermediate), out[a].key))
  {
    ReducedOutput(SortByKey(intermediate), reducef);
    assert var out := ReduceAll(GroupsFrom(SortByKey(intermediate), 0), reducef);
           forall a, b :: 0 <= a < b < |out| ==> KeyLess(out[a].key, out[b].key);
    ReduceAll(GroupsFrom(SortByKey(intermediate), 0), reducef)
  }

  /** ReduceStage: ask for a reduce task, read every map task's file for it
      from that map worker's directory, sort by key, apply `reducef` per key
      into a temporary file and rename it to "mr-out-<task>". */
  method ReduceStage(cwd: Option<string>, reply: Option<AskReduceReply>, fs: map<string, seq<KeyValue>>,
                     reducef: (string, seq<string>) -> string, tmpOk: bool, renameOk: bool)
    returns (outcome: ReduceOutcome)
    requires reply.Some? && reply.value.taskId != -1 ==> reply.value.taskId >= 0
    ensures !outcome.result.done || outcome.result.ret == -1
    ensures cwd.None? || reply.None? ==> outcome == ReduceOutcome(StageResult(-1, false), [])
    ensures cwd.Some? && reply.Some? && reply.value.taskId == -1 ==>
              outcome == ReduceOutcome(StageResult(-1, reply.value.over), [])
    ensures cwd.Some? && reply.Some? && reply.value.taskId != -1 ==>
              var ms, r := reply.value.intermediateMachine, reply.value.taskId;
              if AllPresent(ms, r, fs, |ms|) && tmpOk && renameOk then
                outcome == ReduceOutcome(StageResult(r, false),
                                         [File(OutputName(cwd.value, r), Reduced(Gathered(ms, r, fs, |ms|), reducef))])
              else
                outcome == ReduceOutcome(StageResult(-1, false), [])
  {
    if cwd.None? || reply.None? {
      return ReduceOutcome(StageResult(-1, false), []);
    }
    if reply.value.taskId == -1 {
      return ReduceOutcome(StageResult(-1, reply.value.over), []);
    }
    var intermediate := [];
    var ms := reply.value.intermediateMachine;
    var taskId := reply.value.taskId;
    var i := 0;
    while i < |ms|
      invariant 0 <= i <= |ms|
      invariant AllPresent(ms, taskId, fs, i)
      invariant intermediate == Gathered(ms, taskId, fs, i)
    {
      var fileName := ReadName(ms[i], i, taskId);
      if fileName !in fs {
        return ReduceOutcome(StageResult(-1, false), []);
      }
      intermediate := intermediate + fs[fileName];
      i := i + 1;
    }
    var sorted := SortByKey(intermediate);
    if !tmpOk {
      return ReduceOutcome(StageResult(-1, false), []);
    }
    var records := ReduceRuns(sorted, reducef);
    if !renameOk {
      return ReduceOutcome(StageResult(-1, false), []);
    }
    return ReduceOutcome(StageResult(taskId, false), [File(OutputName(cwd.value, taskId), records)]);
  }
}
