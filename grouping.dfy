/** The reduce side's grouping: a sequence sorted by key is cut into maximal
    runs of equal keys, and the reduce function is applied once per run. */
module Grouping {
  import opened Keys

  /** One call's arguments: a key and the values of its run, in order. */
  datatype Group = Group(key: string, values: seq<string>)

  /** The end of the run of equal keys that starts at `i`. */
  function RunEnd(s: seq<KeyValue>, i: nat): (j: nat)
    requires i < |s|
    ensures i < j <= |s|
    ensures forall k :: i <= k < j ==> s[k].key == s[i].key
    ensures j < |s| ==> s[j].key != s[i].key
    decreases |s| - i
  {
    if i + 1 < |s| && s[i + 1].key == s[i].key then RunEnd(s, i + 1) else i + 1
  }

  /** The values of the pairs, in order. */
  function Values(s: seq<KeyValue>): (vs: seq<string>)
    ensures |vs| == |s|
    ensures forall i :: 0 <= i < |s| ==> vs[i] == s[i].value
  {
    if s == [] then []
    else
      assert forall i :: 1 <= i < |s| ==> s[i] == s[1..][i - 1];
      [s[0].value] + Values(s[1..])
  }

  /** The maximal runs of equal keys from index `i` on, left to right. */
  function GroupsFrom(s: seq<KeyValue>, i: nat): seq<Group>
    requires i <= |s|
    decreases |s| - i
  {
    if i == |s| then []
    else
      var j := RunEnd(s, i);
      [Group(s[i].key, Values(s[i..j]))] + GroupsFrom(s, j)
  }

  /** The pairs a group stands for. */
  function Pairs(g: Group): (r: seq<KeyValue>)
    ensures |r| == |g.values|
    ensures forall i :: 0 <= i < |r| ==> r[i] == KeyValue(g.key, g.values[i])
  {
    seq(|g.values|, i requires 0 <= i < |g.values| => KeyValue(g.key, g.values[i]))
  }

  /** The groups expanded back into pairs, one group after another. */
  function Ungroup(gs: seq<Group>): seq<KeyValue> {
    if gs == [] then [] else Pairs(gs[0]) + Ungroup(gs[1..])
  }

  /** One output record per group: the key and what `reducef` returns for it. */
  function ReduceAll(gs: seq<Group>, reducef: (string, seq<string>) -> string): (out: seq<KeyValue>)
    ensures |out| == |gs|
    ensures forall a :: 0 <= a < |gs| ==> out[a] == KeyValue(gs[a].key, reducef(gs[a].key, gs[a].values))
  {
    if gs == [] then []
    else
      assert forall a :: 1 <= a < |gs| ==> gs[a] == gs[1..][a - 1];
      [KeyValue(gs[0].key, reducef(gs[0].key, gs[0].values))] + ReduceAll(gs[1..], reducef)
  }

  lemma {:induction false} UngroupGroupsFrom(s: seq<KeyValue>, i: nat)
    requires i <= |s|
    ensures Ungroup(GroupsFrom(s, i)) == s[i..]
    decreases |s| - i
  {
    if i < |s| {
      var j := RunEnd(s, i);
      var g := Group(s[i].key, Values(s[i..j]));
      UngroupGroupsFrom(s, j);
      assert ([g] + GroupsFrom(s, j))[1..] == GroupsFrom(s, j);
      assert Pairs(g) == s[i..j];
      assert s[i..] == s[i..j] + s[j..];
    }
  }

  /** Grouping loses nothing and reorders nothing: expanding the groups gives
      back the sequence. */
  lemma UngroupGroups(s: seq<KeyValue>)
    ensures Ungroup(GroupsFrom(s, 0)) == s
  {
    UngroupGroupsFrom(s, 0);
  }

  /** Every group is non-empty and neighbouring groups have different keys:
      the runs are maximal. */
  lemma {:induction false} GroupsAreMaximalRuns(s: seq<KeyValue>, i: nat)
    requires i <= |s|
    ensures forall a :: 0 <= a < |GroupsFrom(s, i)| ==> |GroupsFrom(s, i)[a].values| > 0
    ensures forall a :: 0 <= a < |GroupsFrom(s, i)| - 1 ==> GroupsFrom(s, i)[a].key != GroupsFrom(s, i)[a + 1].key
    ensures i < |s| ==> |GroupsFrom(s, i)| > 0 && GroupsFrom(s, i)[0].key == s[i].key
    decreases |s| - i
  {
    if i < |s| {
      var j := RunEnd(s, i);
      var rest := GroupsFrom(s, j);
      GroupsAreMaximalRuns(s, j);
      assert forall a :: 1 <= a < |GroupsFrom(s, i)| ==> GroupsFrom(s, i)[a] == rest[a - 1];
    }
  }

  /** In a sorted sequence, every key past the run at `i` is strictly above
      the run's key. */
  lemma SortedPastRun(s: seq<KeyValue>, i: nat)
    requires SortedByKey(s) && i < |s|
    ensures forall m :: RunEnd(s, i) <= m < |s| ==> KeyLess(s[i].key, s[m].key)
  {
    var k, j := s[i].key, RunEnd(s, i);
    forall m | j <= m < |s|
      ensures KeyLess(k, s[m].key)
    {
      KeyLessTotal(k, s[j].key);
      if m > j {
        KeyLessLe(k, s[j].key, s[m].key);
      }
    }
  }

  /** In a sorted sequence, group keys strictly increase. */
  lemma {:induction false} SortedGroupsIncrease(s: seq<KeyValue>, i: nat)
    requires SortedByKey(s) && i <= |s|
    ensures forall a, b :: 0 <= a < b < |GroupsFrom(s, i)| ==> KeyLess(GroupsFrom(s, i)[a].key, GroupsFrom(s, i)[b].key)
    decreases |s| - i
  {
    if i < |s| {
      var j := RunEnd(s, i);
      var rest := GroupsFrom(s, j);
      var gs := GroupsFrom(s, i);
      SortedGroupsIncrease(s, j);
      GroupsAreMaximalRuns(s, j);
      assert forall a :: 1 <= a < |gs| ==> gs[a] == rest[a - 1];
      if rest != [] {
        SortedPastRun(s, i);
        assert KeyLess(s[i].key, rest[0].key);
        forall b | 1 <= b < |gs|
          ensures KeyLess(gs[0].key, gs[b].key)
        {
          if b > 1 {
            KeyLessTransitive(s[i].key, rest[0].key, rest[b - 1].key);
          }
        }
      }
    }
  }

  /** Every key of the sequence from `i` on is the key of a group. */
  lemma {:induction false} EveryKeyHasGroup(s: seq<KeyValue>, i: nat, m: nat)
    requires i <= m < |s|
    ensures exists a :: 0 <= a < |GroupsFrom(s, i)| && GroupsFrom(s, i)[a].key == s[m].key
    decreases |s| - i
  {
    var j := RunEnd(s, i);
    var gs := GroupsFrom(s, i);
    if m < j {
      assert gs[0].key == s[m].key;
    } else {
      EveryKeyHasGroup(s, j, m);
      var a :| 0 <= a < |GroupsFrom(s, j)| && GroupsFrom(s, j)[a].key == s[m].key;
      assert gs[a + 1] == GroupsFrom(s, j)[a];
    }
  }

  /** Every group's key occurs in the sequence from `i` on. */
  lemma {:induction false} EveryGroupHasKey(s: seq<KeyValue>, i: nat, a: nat)
    requires i <= |s| && a < |GroupsFrom(s, i)|
    ensures exists m :: i <= m < |s| && s[m].key == GroupsFrom(s, i)[a].key
    decreases |s| - i
  {
    var j := RunEnd(s, i);
    if a > 0 {
      assert GroupsFrom(s, i)[a] == GroupsFrom(s, j)[a - 1];
      EveryGroupHasKey(s, j, a - 1);
    } else {
      assert s[i].key == GroupsFrom(s, i)[0].key;
    }
  }

  /** When all keys are `k`, the values of `k` are all the values. */
  lemma {:induction false} OneKeyValues(s: seq<KeyValue>, k: string)
    requires forall i :: 0 <= i < |s| ==> s[i].key == k
    ensures ValuesWithKey(s, k) == Values(s)
  {
    if s != [] {
      OneKeyValues(s[1..], k);
    }
  }

  /** In a sorted sequence, a group holds every value of its key found from
      `i` on: its run is the only place the key occurs. */
  lemma {:induction false} SortedGroupHoldsAllValues(s: seq<KeyValue>, i: nat)
    requires SortedByKey(s) && i <= |s|
    ensures forall a :: 0 <= a < |GroupsFrom(s, i)| ==>
              GroupsFrom(s, i)[a].values == ValuesWithKey(s[i..], GroupsFrom(s, i)[a].key)
    decreases |s| - i
  {
    if i < |s| {
      var k, j := s[i].key, RunEnd(s, i);
      var rest := GroupsFrom(s, j);
      var gs := GroupsFrom(s, i);
      SortedGroupHoldsAllValues(s, j);
      SortedGroupsIncrease(s, i);
      GroupsAreMaximalRuns(s, i);
      assert forall a :: 1 <= a < |gs| ==> gs[a] == rest[a - 1];
      assert s[i..] == s[i..j] + s[j..];
      SortedPastRun(s, i);
      KeyLessIrreflexive(k);
      ValuesWithKeyConcat(s[i..j], s[j..], k);
      ValuesWithAbsentKey(s[j..], k);
      OneKeyValues(s[i..j], k);
      forall a | 1 <= a < |gs|
        ensures gs[a].values == ValuesWithKey(s[i..], gs[a].key)
      {
        KeyLessIrreflexive(gs[a].key);
        ValuesWithKeyConcat(s[i..j], s[j..], gs[a].key);
        ValuesWithAbsentKey(s[i..j], gs[a].key);
      }
    }
  }

  lemma ValuesSnoc(s: seq<KeyValue>, i: nat, k: nat)
    requires i <= k < |s|
    ensures Values(s[i..k + 1]) == Values(s[i..k]) + [s[k].value]
  {
  }

  lemma ReduceAllCons(g: Group, gs: seq<Group>, reducef: (string, seq<string>) -> string)
    ensures ReduceAll([g] + gs, reducef) == [KeyValue(g.key, reducef(g.key, g.values))] + ReduceAll(gs, reducef)
  {
    assert ([g] + gs)[1..] == gs;
  }

  /** The inner loop of the reduce side: the values of pairs `i` to `j - 1`. */
  method RunValues(s: seq<KeyValue>, i: nat, j: nat) returns (values: seq<string>)
    requires i <= j <= |s|
    ensures values == Values(s[i..j])
  {
    values := [];
    var k := i;
    while k < j
      invariant i <= k <= j
      invariant values == Values(s[i..k])
    {
      ValuesSnoc(s, i, k);
      values := values + [s[k].value];
      k := k + 1;
    }
  }

  /** The i/j loop of the reduce side: find the end of the run starting at i,
      collect its values, call `reducef` once, continue after the run. */
  method ReduceRuns(s: seq<KeyValue>, reducef: (string, seq<string>) -> string) returns (out: seq<KeyValue>)
    ensures out == ReduceAll(GroupsFrom(s, 0), reducef)
  {
    out := [];
    var i := 0;
    while i < |s|
      invariant 0 <= i <= |s|
      invariant out + ReduceAll(GroupsFrom(s, i), reducef) == ReduceAll(GroupsFrom(s, 0), reducef)
    {
      var j := i + 1;
      while j < |s| && s[j].key == s[i].key
        invariant i < j <= |s|
        invariant forall k :: i <= k < j ==> s[k].key == s[i].key
      {
        j := j + 1;
      }
      var values := RunValues(s, i, j);
      var record := KeyValue(s[i].key, reducef(s[i].key, values));
      assert j == RunEnd(s, i);
      ReduceAllCons(Group(s[i].key, values), GroupsFrom(s, j), reducef);
      assert (out + [record]) + ReduceAll(GroupsFrom(s, j), reducef) == out + ReduceAll(GroupsFrom(s, i), reducef);
      out := out + [record];
      i := j;
    }
  }

  /** What the reduce side writes for a sorted input: one record per distinct
      key, keys strictly increasing, each the reduce function applied to all
      of that key's values in sequence order. */
  lemma ReducedOutput(s: seq<KeyValue>, reducef: (string, seq<string>) -> string)
    requires SortedByKey(s)
    ensures var out := ReduceAll(GroupsFrom(s, 0), reducef);
            && (forall a, b :: 0 <= a < b < |out| ==> KeyLess(out[a].key, out[b].key))
            && (forall a :: 0 <= a < |out| ==> out[a].value == reducef(out[a].key, ValuesWithKey(s, out[a].key)))
            && (forall a :: 0 <= a < |out| ==> ValuesWithKey(s, out[a].key) != [])
  {
    SortedGroupsIncrease(s, 0);
    SortedGroupHoldsAllValues(s, 0);
    GroupsAreMaximalRuns(s, 0);
    assert s[0..] == s;
  }
}
