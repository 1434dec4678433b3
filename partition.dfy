/** How a map task splits its output among the reduce tasks: every pair goes
    to the bucket chosen by hashing its key. */
module Partition {
  import opened Keys

  /** An unsigned 32-bit value, as FNV-1a's `Sum32` returns it. */
  newtype Uint32 = x: int | 0 <= x < 0x1_0000_0000

  /** The hash a worker uses: the 32-bit FNV-1a sum of the key with bit 31
      cleared. Clearing the top bit of a 32-bit value keeps it modulo 2^31,
      so the mask is written as that remainder; FNV-1a itself is a parameter. */
  function IHash(fnv: string -> Uint32, key: string): (h: int)
    ensures 0 <= h < 0x8000_0000
    ensures fnv(key) < 0x8000_0000 ==> h == fnv(key) as int
    ensures fnv(key) >= 0x8000_0000 ==> h == fnv(key) as int - 0x8000_0000
  {
    (fnv(key) as int) % 0x8000_0000
  }

  /** The reduce task a key belongs to. */
  function BucketOf(fnv: string -> Uint32, nReduce: int, key: string): (b: int)
    requires nReduce > 0
    ensures 0 <= b < nReduce
  {
    IHash(fnv, key) % nReduce
  }

  /** The pairs of `kva` that go to bucket `b`, in emission order. */
  function Bucket(fnv: string -> Uint32, nReduce: int, kva: seq<KeyValue>, b: int): (r: seq<KeyValue>)
    requires nReduce > 0
    ensures |r| <= |kva|
    ensures forall j :: 0 <= j < |r| ==> BucketOf(fnv, nReduce, r[j].key) == b
  {
    if kva == [] then []
    else (if BucketOf(fnv, nReduce, kva[0].key) == b then [kva[0]] else []) + Bucket(fnv, nReduce, kva[1..], b)
  }

  lemma {:induction false} BucketConcat(fnv: string -> Uint32, nReduce: int, a: seq<KeyValue>, c: seq<KeyValue>, b: int)
    requires nReduce > 0
    ensures Bucket(fnv, nReduce, a + c, b) == Bucket(fnv, nReduce, a, b) + Bucket(fnv, nReduce, c, b)
  {
    if a == [] {
      assert a + c == c;
    } else {
      assert (a + c)[0] == a[0];
      assert (a + c)[1..] == a[1..] + c;
      BucketConcat(fnv, nReduce, a[1..], c, b);
    }
  }

  /** Appending one pair extends exactly its own bucket. */
  lemma BucketSnoc(fnv: string -> Uint32, nReduce: int, kva: seq<KeyValue>, k: nat, b: int)
    requires nReduce > 0 && k < |kva|
    ensures Bucket(fnv, nReduce, kva[..k + 1], b)
            == Bucket(fnv, nReduce, kva[..k], b) + (if BucketOf(fnv, nReduce, kva[k].key) == b then [kva[k]] else [])
  {
    assert kva[..k + 1] == kva[..k] + [kva[k]];
    BucketConcat(fnv, nReduce, kva[..k], [kva[k]], b);
    assert [kva[k]][1..] == [];
  }

  /** The loop over the map output: append every pair to the bucket of its
      key. */
  method PartitionPairs(fnv: string -> Uint32, nReduce: int, kva: seq<KeyValue>) returns (intermediate: seq<seq<KeyValue>>)
    requires nReduce > 0
    ensures |intermediate| == nReduce
    ensures forall b :: 0 <= b < nReduce ==> intermediate[b] == Bucket(fnv, nReduce, kva, b)
  {
    intermediate := seq(nReduce, _ => []);
    var k := 0;
    while k < |kva|
      invariant 0 <= k <= |kva|
      invariant |intermediate| == nReduce
      invariant forall b :: 0 <= b < nReduce ==> intermediate[b] == Bucket(fnv, nReduce, kva[..k], b)
    {
      var kv := kva[k];
      var i := IHash(fnv, kv.key) % nReduce;
      ghost var next := intermediate[i := intermediate[i] + [kv]];
      forall b | 0 <= b < nReduce
        ensures next[b] == Bucket(fnv, nReduce, kva[..k + 1], b)
      {
        BucketSnoc(fnv, nReduce, kva, k, b);
      }
      intermediate := intermediate[i := intermediate[i] + [kv]];
      k := k + 1;
    }
    assert kva[..k] == kva;
  }

  /** Each pair lands in its own bucket and in no other, as often as it was
      emitted: the buckets split the map output exactly. */
  lemma {:induction false} BucketCount(fnv: string -> Uint32, nReduce: int, kva: seq<KeyValue>, b: int, x: KeyValue)
    requires nReduce > 0
    ensures multiset(Bucket(fnv, nReduce, kva, b))[x]
            == if BucketOf(fnv, nReduce, x.key) == b then multiset(kva)[x] else 0
  {
    if kva != [] {
      BucketCount(fnv, nReduce, kva[1..], b, x);
      assert kva == [kva[0]] + kva[1..];
    }
  }

  /** All pairs of one key go to one bucket, in emission order: the values a
      bucket holds for a key are all of that key's values when the key hashes
      there, and none otherwise. */
  lemma {:induction false} BucketKeepsKey(fnv: string -> Uint32, nReduce: int, kva: seq<KeyValue>, b: int, key: string)
    requires nReduce > 0
    ensures ValuesWithKey(Bucket(fnv, nReduce, kva, b), key)
            == if BucketOf(fnv, nReduce, key) == b then ValuesWithKey(kva, key) else []
  {
    if kva != [] {
      var head := if BucketOf(fnv, nReduce, kva[0].key) == b then [kva[0]] else [];
      BucketKeepsKey(fnv, nReduce, kva[1..], b, key);
      ValuesWithKeyConcat(head, Bucket(fnv, nReduce, kva[1..], b), key);
      if head != [] {
        assert head[1..] == [];
      }
    }
  }
}
