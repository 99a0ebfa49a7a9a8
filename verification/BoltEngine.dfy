/** The bolt storage engine's buckets with their length counters: libraries/vaultengines/boltvault. */
module BoltEngine {
  import opened Arithmetic
  import opened ByteStrings
  import opened KeyOrder
  import opened Keyspace
  import opened MemoryEngine
  import opened Successors
  import opened VarInts
  import opened Wrappers

  const LENGTH_WIDTH := 8

  function BigEndian(n: nat, width: nat): (s: Bytes)
    ensures |s| == width
  {
    if width == 0 then [] else BigEndian(n / 256, width - 1) + [n % 256]
  }

  function FromBigEndian(s: Bytes): nat {
    if s == [] then 0 else 256 * FromBigEndian(s[..|s| - 1]) + s[|s| - 1]
  }

  lemma {:induction false} BigEndianReadsBack(n: nat, width: nat)
    requires n < Power256(width)
    ensures FromBigEndian(BigEndian(n, width)) == n
  {
    if width > 0 {
      var s := BigEndian(n, width);
      assert s[..|s| - 1] == BigEndian(n / 256, width - 1);
      BigEndianReadsBack(n / 256, width - 1);
    }
  }

  lemma EightBytesHoldEveryLength()
    ensures MAX_INT < Power256(LENGTH_WIDTH)
  {
    assert Power256(4) == 0x1_0000_0000;
    assert Power256(6) == 0x1_0000 * Power256(4);
    assert Power256(8) == 0x1_0000 * Power256(6);
  }

  /** The stored counter of a bucket; a bucket without one is empty, and a bad one is an error. */
  function DecodedLength(raw: Option<Bytes>): Option<nat> {
    match raw
    case None => Some(0)
    case Some(bytes) =>
      if |bytes| != LENGTH_WIDTH || FromBigEndian(bytes) > MAX_INT then None else Some(FromBigEndian(bytes))
  }

  type Lengths = map<Name, Bytes>

  function CounterOf(lengths: Lengths, name: Name): Option<Bytes> {
    if name in lengths then Some(lengths[name]) else None
  }

  /** The counters with one changed, but never below zero; none when it cannot be read. */
  function Adjusted(lengths: Lengths, name: Name, delta: int): Option<Lengths> {
    match DecodedLength(CounterOf(lengths, name))
    case None => None
    case Some(n) => Some(lengths[name := BigEndian(if n + delta < 0 then 0 else n + delta, LENGTH_WIDTH)])
  }

  function LengthsAfterPut(bucket: Bucket, lengths: Lengths, name: Name, key: Bytes): Option<Lengths> {
    if key in bucket then Some(lengths) else Adjusted(lengths, name, 1)
  }

  function LengthsAfterDelete(bucket: Bucket, lengths: Lengths, name: Name, key: Bytes): Option<Lengths> {
    if key in bucket then Adjusted(lengths, name, -1) else Some(lengths)
  }

  lemma LengthReadsBack(n: nat)
    requires n <= MAX_INT
    ensures DecodedLength(Some(BigEndian(n, LENGTH_WIDTH))) == Some(n)
  {
    EightBytesHoldEveryLength();
    BigEndianReadsBack(n, LENGTH_WIDTH);
  }

  lemma PutCounts(bucket: Bucket, key: Bytes, value: Bytes)
    ensures |bucket[key := value]| == |bucket| + if key in bucket then 0 else 1
  {
    if key in bucket {
      assert bucket[key := value].Keys == bucket.Keys;
    } else {
      assert bucket[key := value].Keys == bucket.Keys + {key};
    }
  }

  lemma DeleteCounts(bucket: Bucket, key: Bytes)
    requires key in bucket
    ensures |bucket - {key}| == |bucket| - 1 && |bucket| > 0
  {
    assert bucket.Keys == (bucket - {key}).Keys + {key};
  }

  /** The keys from one place of the cursor's order up to another are those in range. */
  ghost predicate Bounds(ordered: seq<Bytes>, keys: KeyRange, i: nat, j: nat) {
    && i <= j <= |ordered|
    && (forall n | 0 <= n < i :: Less(ordered[n], keys.firstIncluded))
    && (forall n | i <= n < j :: Within(ordered[n], keys))
    && (forall n | j <= n < |ordered| :: !Below(ordered[n], keys.firstExcluded))
  }

  lemma SliceHoldsTheRange(bucket: Bucket, keys: KeyRange, ordered: seq<Bytes>, i: nat, j: nat, k: Bytes)
    requires forall k :: k in ordered <==> k in bucket
    requires Bounds(ordered, keys, i, j)
    ensures k in ordered[i..j] <==> k in KeysWithin(bucket, keys)
  {
    if k in ordered[i..j] {
      var n :| i <= n < j && ordered[n] == k;
      assert ordered[n] in ordered;
    }
    if k in KeysWithin(bucket, keys) {
      var n :| 0 <= n < |ordered| && ordered[n] == k;
      NotBothWays(k, keys.firstIncluded);
      assert i <= n < j;
      assert ordered[i..j][n - i] == k;
    }
  }

  lemma RangeIsASlice(bucket: Bucket, keys: KeyRange, ordered: seq<Bytes>, i: nat, j: nat)
    requires AscendsBy(ordered, Itself) && (forall k :: k in ordered <==> k in bucket)
    requires Bounds(ordered, keys, i, j)
    ensures DistinctBy(KeysWithin(bucket, keys), Itself)
    ensures Ascending(KeysWithin(bucket, keys), Itself) == ordered[i..j]
  {
    ItselfDistinct(KeysWithin(bucket, keys));
    forall k: Bytes
      ensures k in ordered[i..j] <==> k in KeysWithin(bucket, keys)
    {
      SliceHoldsTheRange(bucket, keys, ordered, i, j, k);
    }
    AscendingIsUnique(ordered[i..j], KeysWithin(bucket, keys), Itself);
  }

  /** The entries under keys in the order in which a cursor comes to them. */
  function EntriesUnder(bucket: Bucket, ks: seq<Bytes>): (r: seq<Entry>)
    requires forall n | 0 <= n < |ks| :: ks[n] in bucket
    ensures |r| == |ks|
  {
    seq(|ks|, n requires 0 <= n < |ks| => Entry(ks[n], bucket[ks[n]]))
  }

  lemma EntriesInRange(bucket: Bucket, keys: KeyRange, ks: seq<Bytes>)
    requires DistinctBy(KeysWithin(bucket, keys), Itself) && ks == Ascending(KeysWithin(bucket, keys), Itself)
    ensures forall n | 0 <= n < |ks| :: ks[n] in bucket
    ensures Entries(bucket, keys) == EntriesUnder(bucket, ks)
  {
    assert forall n | 0 <= n < |ks| :: ks[n] in ks;
  }

  lemma NotBothWays(a: Key, b: Key)
    ensures !(Less(a, b) && AtMost(b, a))
  {
    LessIrreflexive(a);
    if Less(a, b) {
      LessAsymmetric(a, b);
    }
  }

  lemma BelowIsLeftForGood(a: Bytes, b: Bytes, keys: KeyRange)
    requires Less(a, b) && !Below(a, keys.firstExcluded)
    ensures !Below(b, keys.firstExcluded)
  {
    if Below(b, keys.firstExcluded) {
      LessTransitive(a, b, keys.firstExcluded.value);
    }
  }

  lemma AtLeastForGood(a: Bytes, b: Bytes, keys: KeyRange)
    requires Less(a, b) && AtMost(keys.firstIncluded, a)
    ensures AtMost(keys.firstIncluded, b)
  {
    if keys.firstIncluded != a {
      LessTransitive(keys.firstIncluded, a, b);
    }
  }

  /** A bucket as a transaction sees it, with the bucket that holds every length counter. */
  class BoltBucket {
    const name: Name
    var entries: Bucket
    var lengths: Lengths

    constructor (name: Name, entries: Bucket, lengths: Lengths)
      ensures this.name == name && this.entries == entries && this.lengths == lengths
      ensures entries == map[] && name !in lengths ==> Valid()
    {
      this.name, this.entries, this.lengths := name, entries, lengths;
    }

    function Counter(): Option<Bytes>
      reads this
    {
      CounterOf(lengths, name)
    }

    /** The counter is the number of entries. */
    predicate Valid()
      reads this
    {
      |entries| <= MAX_INT && DecodedLength(Counter()) == Some(|entries|)
    }

    method AdjustLength(delta: int) returns (ok: bool)
      modifies this`lengths
      ensures ok <==> DecodedLength(old(Counter())).Some?
      ensures !ok ==> lengths == old(lengths)
      ensures ok ==> var n := DecodedLength(old(Counter())).value + delta;
                     lengths == old(lengths)[name := BigEndian(if n < 0 then 0 else n, LENGTH_WIDTH)]
    {
      var current := DecodedLength(Counter());
      if current.None? {
        return false;
      }
      var adjusted := current.value + delta;
      lengths := lengths[name := BigEndian(if adjusted < 0 then 0 else adjusted, LENGTH_WIDTH)];
      ok := true;
    }

    method Get(key: Bytes) returns (value: Option<Bytes>)
      ensures value == if key in entries then Some(entries[key]) else None
    {
      value := if key in entries then Some(entries[key]) else None;
    }

    method Put(key: Bytes, value: Bytes) returns (ok: bool)
      requires Valid() && |entries[key := value]| <= MAX_INT
      modifies this`entries, this`lengths
      ensures ok && Valid() && entries == old(entries)[key := value]
      ensures Some(lengths) == LengthsAfterPut(old(entries), old(lengths), name, key)
      ensures lengths - {name} == old(lengths) - {name}
    {
      PutCounts(entries, key, value);
      var inserted := key !in entries;
      entries := entries[key := value];
      if !inserted {
        return true;
      }
      LengthReadsBack(|entries|);
      ok := AdjustLength(1);
    }

    method Delete(key: Bytes) returns (deleted: bool)
      requires Valid()
      modifies this`entries, this`lengths
      ensures Valid() && entries == old(entries) - {key} && (deleted <==> key in old(entries))
      ensures Some(lengths) == LengthsAfterDelete(old(entries), old(lengths), name, key)
      ensures lengths - {name} == old(lengths) - {name}
    {
      if key !in entries {
        assert entries - {key} == entries;
        return false;
      }
      DeleteCounts(entries, key);
      entries := entries - {key};
      LengthReadsBack(|entries|);
      var ok := AdjustLength(-1);
      deleted := true;
    }

    method Len() returns (n: Option<nat>)
      requires Valid()
      ensures n == Some(|entries|)
    {
      n := DecodedLength(Counter());
    }

    /** Moves a cursor over the entries in range, in the order of their keys, until told to stop. */
    method Scan(keys: KeyRange, keep: Entry -> bool) returns (seen: seq<Entry>)
      ensures seen == Visited(Entries(entries, keys), keep)
    {
      ItselfDistinct(entries.Keys);
      var ordered := Ascending(entries.Keys, Itself);
      var first := Seek(ordered, keys);
      ghost var end := EndOfRange(ordered, keys, first);
      EntriesAreBetween(entries, keys, ordered, first, end);
      seen := Walk(entries, ordered, first, end, keys, keep, Entries(entries, keys));
    }
  }

  method Walk(bucket: Bucket, ordered: seq<Bytes>, first: nat, ghost end: nat, keys: KeyRange, keep: Entry -> bool,
              ghost all: seq<Entry>)
    returns (seen: seq<Entry>)
    requires first <= end <= |ordered| && |all| == end - first
    requires forall c | first <= c < end :: ordered[c] in bucket && Below(ordered[c], keys.firstExcluded)
    requires forall c | first <= c < end :: all[c - first] == Entry(ordered[c], bucket[ordered[c]])
    requires forall c | end <= c < |ordered| :: !Below(ordered[c], keys.firstExcluded)
    ensures seen == Visited(all, keep)
  {
    seen := [];
    assert all[0..] == all;
    var cursor: nat := first;
    while cursor < |ordered| && Below(ordered[cursor], keys.firstExcluded)
      invariant first <= cursor <= end
      invariant seen + Visited(all[cursor - first..], keep) == Visited(all, keep)
    {
      VisitedNext(all, cursor - first, keep, seen);
      var entry := Entry(ordered[cursor], bucket[ordered[cursor]]);
      seen := seen + [entry];
      if !keep(entry) {
        return;
      }
      cursor := cursor + 1;
    }
    VisitedEnds(all, seen, keep);
  }

  lemma VisitedEnds(all: seq<Entry>, seen: seq<Entry>, keep: Entry -> bool)
    ensures seen + Visited(all[|all|..], keep) == seen
  {
    assert all[|all|..] == [];
    assert seen + [] == seen;
  }

  lemma EntriesAlong(bucket: Bucket, ordered: seq<Bytes>, i: nat, j: nat)
    requires i <= j <= |ordered| && forall n | 0 <= n < j - i :: ordered[i..j][n] in bucket
    ensures forall c | i <= c < j :: ordered[c] in bucket
    ensures forall c | i <= c < j ::
              EntriesUnder(bucket, ordered[i..j])[c - i] == Entry(ordered[c], bucket[ordered[c]])
  {
    forall c | i <= c < j
      ensures ordered[c] in bucket
    {
      assert ordered[i..j][c - i] == ordered[c];
    }
  }

  lemma EntriesAreBetween(bucket: Bucket, keys: KeyRange, ordered: seq<Bytes>, i: nat, j: nat)
    requires AscendsBy(ordered, Itself) && (forall k :: k in ordered <==> k in bucket)
    requires Bounds(ordered, keys, i, j)
    ensures |Entries(bucket, keys)| == j - i
    ensures forall c | i <= c < j :: ordered[c] in bucket && Below(ordered[c], keys.firstExcluded)
    ensures forall c | i <= c < j :: Entries(bucket, keys)[c - i] == Entry(ordered[c], bucket[ordered[c]])
  {
    RangeIsASlice(bucket, keys, ordered, i, j);
    EntriesInRange(bucket, keys, ordered[i..j]);
    EntriesAlong(bucket, ordered, i, j);
  }

  /** The place of the first key that is in range or after it. */
  method Seek(ordered: seq<Bytes>, keys: KeyRange) returns (i: nat)
    requires AscendsBy(ordered, Itself)
    ensures i <= |ordered|
    ensures forall n | 0 <= n < i :: Less(ordered[n], keys.firstIncluded)
    ensures forall n | i <= n < |ordered| :: AtMost(keys.firstIncluded, ordered[n])
  {
    i := 0;
    while i < |ordered| && Less(ordered[i], keys.firstIncluded)
      invariant i <= |ordered|
      invariant forall n | 0 <= n < i :: Less(ordered[n], keys.firstIncluded)
    {
      i := i + 1;
    }
    forall n | i <= n < |ordered|
      ensures AtMost(keys.firstIncluded, ordered[n])
    {
      LessTotal(ordered[i], keys.firstIncluded);
      if n > i {
        assert Less(Itself(ordered[i]), Itself(ordered[n]));
        AtLeastForGood(ordered[i], ordered[n], keys);
      }
    }
  }

  lemma EndOfRange(ordered: seq<Bytes>, keys: KeyRange, i: nat) returns (j: nat)
    requires AscendsBy(ordered, Itself) && i <= |ordered|
    requires forall n | 0 <= n < i :: Less(ordered[n], keys.firstIncluded)
    requires forall n | i <= n < |ordered| :: AtMost(keys.firstIncluded, ordered[n])
    ensures Bounds(ordered, keys, i, j)
  {
    j := i;
    while j < |ordered| && Below(ordered[j], keys.firstExcluded)
      invariant i <= j <= |ordered|
      invariant forall n | i <= n < j :: Within(ordered[n], keys)
    {
      j := j + 1;
    }
    forall n | j <= n < |ordered|
      ensures !Below(ordered[n], keys.firstExcluded)
    {
      if n > j {
        assert Less(Itself(ordered[j]), Itself(ordered[n]));
        BelowIsLeftForGood(ordered[j], ordered[n], keys);
      }
    }
  }

  /** A counter is eight bytes, the high one first; any other length, and a negative number, is an error. */
  lemma CounterIs(bytes: Bytes, n: nat)
    ensures DecodedLength(None) == Some(0)
    ensures DecodedLength(Some(bytes)) ==
      if |bytes| != 8 || FromBigEndian(bytes) > 0x7fff_ffff_ffff_ffff then None else Some(FromBigEndian(bytes))
    ensures FromBigEndian([]) == 0
    ensures bytes != [] ==>
      FromBigEndian(bytes) == 256 * FromBigEndian(bytes[..|bytes| - 1]) + bytes[|bytes| - 1]
    ensures n <= 0x7fff_ffff_ffff_ffff ==>
      DecodedLength(Some(BigEndian(n, 8))) == Some(n)
  {
    if n <= MAX_INT {
      LengthReadsBack(n);
    }
  }
}
