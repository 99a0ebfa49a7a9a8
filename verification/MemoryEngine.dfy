/** The in-memory storage engine, the plain reference the other engine must agree with. */
module MemoryEngine {
  import opened ByteStrings
  import opened KeyOrder
  import opened Keyspace
  import opened Sums
  import opened Wrappers

  type Bucket = map<Bytes, Bytes>

  type Buckets = map<Name, Bucket>

  datatype Entry = Entry(key: Bytes, value: Bytes)

  function BucketOf(buckets: Buckets, name: Name): Bucket {
    if name in buckets then buckets[name] else map[]
  }

  function ValueIn(bucket: Bucket, key: Bytes): Option<Bytes> {
    if key in bucket then Some(bucket[key]) else None
  }

  lemma ItselfDistinct(keys: set<Bytes>)
    ensures DistinctBy(keys, Itself)
  {
  }

  function KeysWithin(bucket: Bucket, keys: KeyRange): set<Bytes> {
    set k | k in bucket && Within(k, keys)
  }

  /** The entries in range, in key order. */
  function Entries(bucket: Bucket, keys: KeyRange): (r: seq<Entry>)
    ensures |r| == |KeysWithin(bucket, keys)|
  {
    ItselfDistinct(KeysWithin(bucket, keys));
    var ordered := Ascending(KeysWithin(bucket, keys), Itself);
    assert forall i :: 0 <= i < |ordered| ==> ordered[i] in ordered;
    seq(|ordered|, i requires 0 <= i < |ordered| => Entry(ordered[i], bucket[ordered[i]]))
  }

  /** What a visitor sees: it is shown one entry after another until it says to stop. */
  function Visited(entries: seq<Entry>, keep: Entry -> bool): (r: seq<Entry>)
    ensures r <= entries
  {
    if entries == [] then []
    else if !keep(entries[0]) then [entries[0]]
    else [entries[0]] + Visited(entries[1..], keep)
  }

  function Sizes(bucket: Bucket): map<Bytes, nat> {
    map k | k in bucket :: |k| + |bucket[k]|
  }

  ghost function SizeOf(bucket: Bucket): nat {
    SumOf(Sizes(bucket))
  }

  ghost function BucketSizes(buckets: Buckets): map<Name, nat> {
    map n | n in buckets :: SizeOf(buckets[n])
  }

  ghost function UsedBy(buckets: Buckets): nat {
    SumOf(BucketSizes(buckets))
  }

  lemma VisitedNext(all: seq<Entry>, n: nat, keep: Entry -> bool, seen: seq<Entry>)
    requires n < |all|
    ensures seen + Visited(all[n..], keep)
         == if keep(all[n]) then (seen + [all[n]]) + Visited(all[n + 1..], keep) else seen + [all[n]]
  {
    assert all[n..][0] == all[n] && all[n..][1..] == all[n + 1..];
    var later := Visited(all[n + 1..], keep);
    assert seen + ([all[n]] + later) == (seen + [all[n]]) + later;
  }

  method Visit(entries: seq<Entry>, keep: Entry -> bool) returns (seen: seq<Entry>)
    ensures seen == Visited(entries, keep)
  {
    seen := [];
    assert entries[0..] == entries;
    for i := 0 to |entries|
      invariant seen + Visited(entries[i..], keep) == Visited(entries, keep)
    {
      VisitedNext(entries, i, keep, seen);
      seen := seen + [entries[i]];
      if !keep(entries[i]) {
        return;
      }
    }
  }

  method BucketBytes(bucket: Bucket) returns (used: nat)
    ensures used == SizeOf(bucket)
  {
    used := 0;
    var keys := bucket.Keys;
    ghost var left := Sizes(bucket);
    while keys != {}
      invariant keys <= bucket.Keys && left.Keys == keys
      invariant forall k :: k in keys ==> left[k] == |k| + |bucket[k]|
      invariant used + SumOf(left) == SizeOf(bucket)
      decreases keys
    {
      var key :| key in keys;
      SumDrop(left, key);
      left := left - {key};
      used := used + |key| + |bucket[key]|;
      keys := keys - {key};
    }
    assert left == map[];
  }

  /** A visitor sees the first entries, and stops after the first that it does not want to go on from. */
  lemma {:induction false} VisitedAre(entries: seq<Entry>, keep: Entry -> bool)
    ensures var n := |Visited(entries, keep)|;
      && Visited(entries, keep) == entries[..n]
      && (forall i | 0 <= i < n - 1 :: keep(entries[i]))
      && (n == |entries| || (n > 0 && !keep(entries[n - 1])))
    decreases |entries|
  {
    if entries != [] {
      VisitedAre(entries[1..], keep);
      forall i | 0 <= i < |Visited(entries, keep)| - 1
        ensures keep(entries[i])
      {
        assert i > 0 ==> entries[i] == entries[1..][i - 1];
      }
    }
  }

  /** The entries of a scan are those whose keys are in range, each once and in the order of the keys. */
  lemma EntriesAre(bucket: Bucket, keys: KeyRange, key: Bytes, value: Bytes)
    ensures Entry(key, value) in Entries(bucket, keys)
      <==> key in bucket && bucket[key] == value && AtMost(keys.firstIncluded, key)
           && (keys.firstExcluded.Some? ==> Less(key, keys.firstExcluded.value))
    ensures var entries := Entries(bucket, keys);
      forall i, j | 0 <= i < j < |entries| :: Less(entries[i].key, entries[j].key)
  {
    ItselfDistinct(KeysWithin(bucket, keys));
    var ordered, entries := Ascending(KeysWithin(bucket, keys), Itself), Entries(bucket, keys);
    if key in KeysWithin(bucket, keys) {
      assert key in ordered;
      var i :| 0 <= i < |ordered| && ordered[i] == key;
      assert entries[i] == Entry(key, bucket[key]);
    }
    if Entry(key, value) in entries {
      var i :| 0 <= i < |entries| && entries[i] == Entry(key, value);
      assert ordered[i] in ordered;
    }
  }

  /** A bucket's size is the bytes of its keys and values. */
  lemma SizeIs(bucket: Bucket, key: Bytes, value: Bytes)
    ensures SizeOf(map[]) == 0
    ensures SizeOf(bucket[key := value]) == |key| + |value| + SizeOf(bucket - {key})
  {
    SumUpdate(Sizes(bucket), key, |key| + |value|);
    assert Sizes(bucket)[key := |key| + |value|] == Sizes(bucket[key := value]);
    assert Sizes(bucket) - {key} == Sizes(bucket - {key});
    assert Sizes(map[]) == map[];
  }

  lemma SizesOfBuckets(buckets: Buckets, name: Name, bucket: Bucket)
    ensures BucketSizes(buckets[name := bucket]) == BucketSizes(buckets)[name := SizeOf(bucket)]
    ensures BucketSizes(buckets - {name}) == BucketSizes(buckets) - {name}
  {
  }

  /** The bytes in use are the sizes of all buckets together. */
  lemma UsedIs(buckets: Buckets, name: Name, bucket: Bucket)
    ensures UsedBy(map[]) == 0
    ensures UsedBy(buckets[name := bucket]) == SizeOf(bucket) + UsedBy(buckets - {name})
  {
    SizesOfBuckets(buckets, name, bucket);
    SumUpdate(BucketSizes(buckets), name, SizeOf(bucket));
    assert BucketSizes(map[]) == map[];
  }
}
