/** What the stages add up to. A reduce task's output holds one record per
    key it collected; when the map tasks' files are where the locators point,
    reduce task `r` collects exactly the keys that hash to `r`, each with the
    values every map task emitted for it. */
module Job {
  import opened Rpc
  import opened Keys
  import opened Partition
  import opened Naming
  import opened Grouping
  import opened Stages

  /** A key has a record in the output exactly when the collected pairs hold
      a value for it. */
  lemma ReducedHasKey(g: seq<KeyValue>, reducef: (string, seq<string>) -> string, k: string)
    ensures ValuesWithKey(g, k) != [] <==> exists a :: 0 <= a < |Reduced(g, reducef)| && Reduced(g, reducef)[a].key == k
  {
    var s := SortByKey(g);
    var out := Reduced(g, reducef);
    SortKeepsValues(g, k);
    assert |multiset(ValuesWithKey(s, k))| == |multiset(ValuesWithKey(g, k))|;
    if ValuesWithKey(g, k) != [] {
      ValuesWithKeyOccurs(s, k);
      var m :| 0 <= m < |s| && s[m].key == k;
      EveryKeyHasGroup(s, 0, m);
    }
    if a :| 0 <= a < |out| && out[a].key == k {
      EveryGroupHasKey(s, 0, a);
      var m :| 0 <= m < |s| && s[m].key == k;
      OccursHasValues(s, k, m);
    }
  }

  /** The output of a reduce task over the pairs `g` it collected: keys in
      strictly increasing order, each key of `g` exactly once, and each
      record the reduce function applied to all of its key's values (the
      sort may reorder values of one key, never add or drop them). */
  lemma ReducedMeaning(g: seq<KeyValue>, reducef: (string, seq<string>) -> string)
    ensures var out := Reduced(g, reducef);
            && (forall a, b :: 0 <= a < b < |out| ==> KeyLess(out[a].key, out[b].key))
            && (forall a :: 0 <= a < |out| ==>
                  out[a].value == reducef(out[a].key, ValuesWithKey(SortByKey(g), out[a].key)))
            && (forall k :: multiset(ValuesWithKey(SortByKey(g), k)) == multiset(ValuesWithKey(g, k)))
            && (forall k :: ValuesWithKey(g, k) != [] <==> exists a :: 0 <= a < |out| && out[a].key == k)
  {
    ReducedOutput(SortByKey(g), reducef);
    assert Reduced(g, reducef) == ReduceAll(GroupsFrom(SortByKey(g), 0), reducef);
    forall k
      ensures multiset(ValuesWithKey(SortByKey(g), k)) == multiset(ValuesWithKey(g, k))
      ensures ValuesWithKey(g, k) != [] <==> exists a :: 0 <= a < |Reduced(g, reducef)| && Reduced(g, reducef)[a].key == k
    {
      SortKeepsValues(g, k);
      ReducedHasKey(g, reducef, k);
    }
  }

  /** The map side of a job as seen by reduce task `r`: map task `i` emitted
      `kvas[i]`, and the file the reduce task reads for map task `i` holds
      that task's bucket `r`. */
  predicate MapOutputsInPlace(ms: seq<Machine>, r: nat, fs: map<string, seq<KeyValue>>,
                              fnv: string -> Uint32, nReduce: int, kvas: seq<seq<KeyValue>>)
    requires nReduce > 0
  {
    && |kvas| == |ms|
    && forall i :: 0 <= i < |ms| ==>
         ReadName(ms[i], i, r) in fs && fs[ReadName(ms[i], i, r)] == Bucket(fnv, nReduce, kvas[i], r)
  }

  /** The values map tasks below `upTo` emitted for key `k`, task by task. */
  function AllValues(kvas: seq<seq<KeyValue>>, k: string, upTo: nat): seq<string>
    requires upTo <= |kvas|
  {
    if upTo == 0 then [] else AllValues(kvas, k, upTo - 1) + ValuesWithKey(kvas[upTo - 1], k)
  }

  /** What a reduce task collects for a key: everything the map tasks emitted
      for it when the key hashes to this task, nothing otherwise. */
  lemma {:induction false} GatheredValues(ms: seq<Machine>, r: nat, fs: map<string, seq<KeyValue>>,
                                          fnv: string -> Uint32, nReduce: int, kvas: seq<seq<KeyValue>>,
                                          k: string, upTo: nat)
    requires nReduce > 0 && MapOutputsInPlace(ms, r, fs, fnv, nReduce, kvas) && upTo <= |ms|
    ensures AllPresent(ms, r, fs, upTo)
    ensures ValuesWithKey(Gathered(ms, r, fs, upTo), k)
            == if BucketOf(fnv, nReduce, k) == r then AllValues(kvas, k, upTo) else []
  {
    if upTo > 0 {
      GatheredValues(ms, r, fs, fnv, nReduce, kvas, k, upTo - 1);
      var last := fs[ReadName(ms[upTo - 1], upTo - 1, r)];
      ValuesWithKeyConcat(Gathered(ms, r, fs, upTo - 1), last, k);
      BucketKeepsKey(fnv, nReduce, kvas[upTo - 1], r, k);
    }
  }

  /** End to end: when reduce task `r` finds every map task's file in place,
      its output has a record for a key exactly when the key hashes to `r`
      and some map task emitted it, and that record reduces a reordering of
      all the values the map tasks emitted for the key. */
  lemma ReduceTaskCoversItsKeys(ms: seq<Machine>, r: nat, fs: map<string, seq<KeyValue>>,
                                fnv: string -> Uint32, nReduce: int, kvas: seq<seq<KeyValue>>,
                                reducef: (string, seq<string>) -> string)
    requires nReduce > 0 && MapOutputsInPlace(ms, r, fs, fnv, nReduce, kvas)
    ensures AllPresent(ms, r, fs, |ms|)
    ensures var g := Gathered(ms, r, fs, |ms|);
            var out := Reduced(g, reducef);
            forall k ::
              && ((exists a :: 0 <= a < |out| && out[a].key == k)
                    <==> BucketOf(fnv, nReduce, k) == r && AllValues(kvas, k, |ms|) != [])
              && multiset(ValuesWithKey(SortByKey(g), k))
                   == multiset(if BucketOf(fnv, nReduce, k) == r then AllValues(kvas, k, |ms|) else [])
  {
    GatheredValues(ms, r, fs, fnv, nReduce, kvas, "", |ms|);
    var g := Gathered(ms, r, fs, |ms|);
    ReducedMeaning(g, reducef);
    forall k
      ensures ValuesWithKey(g, k) == if BucketOf(fnv, nReduce, k) == r then AllValues(kvas, k, |ms|) else []
    {
      GatheredValues(ms, r, fs, fnv, nReduce, kvas, k, |ms|);
    }
  }

  /** A map task's successful stage leaves, in its worker's directory, the
      file every reduce task looks up for it through that worker's locator,
      except for an empty bucket whose file could not be created. */
  lemma MapFilesWhereReduceLooks(cwd: string, taskId: nat, fnv: string -> Uint32, nReduce: int,
                                 kva: seq<KeyValue>, createFails: int -> bool, r: nat)
    requires nReduce > 0 && r < nReduce
    requires forall b :: 0 <= b < nReduce ==> !Unwritable(fnv, nReduce, kva, createFails, b)
    ensures || File(ReadName(Machine(cwd), taskId, r), Bucket(fnv, nReduce, kva, r))
                 in MapFiles(cwd, taskId, fnv, nReduce, kva, createFails, nReduce)
            || (createFails(r) && Bucket(fnv, nReduce, kva, r) == [])
  {
    if !createFails(r) {
      MapFilesHoldBuckets(cwd, taskId, fnv, nReduce, kva, createFails, nReduce, r);
      ReadFindsWritten(cwd, taskId, r);
      assert ReadName(Machine(cwd), taskId, r) == cwd + "/" + WriteName(taskId, r);
      assert File(cwd + "/" + WriteName(taskId, r), Bucket(fnv, nReduce, kva, r)) in MapFiles(cwd, taskId, fnv, nReduce, kva, createFails, nReduce);
    } else {
      assert !Unwritable(fnv, nReduce, kva, createFails, r);
    }
  }
}
