/** All buckets in one ordered keyspace, with a running tally of each, and what a reader finds there. */
module PebbleEngine {
  import opened ByteStrings
  import opened KeyOrder
  import opened Keyspace
  import opened MemoryEngine
  import opened Successors
  import opened Sums
  import opened VarInts
  import opened Wrappers

  /** Everything that is stored, by absolute key. */
  type Store = map<Bytes, Bytes>

  datatype Tally = Tally(entries: int, bytes: int)

  // ------------------------------------------------------------------- tallies

  function Max(a: int, b: int): int {
    if a < b then b else a
  }

  function EncodedTally(t: Tally): Bytes {
    Uvarint(Max(t.entries, 0)) + Varint(Max(t.bytes, 0))
  }

  /** A missing tally, and a field past the end, count zero; a count may not exceed an int. */
  function DecodedTally(raw: Bytes): Option<Tally> {
    if raw == [] then Some(Tally(0, 0))
    else
      match ReadUvarint(raw)
      case None => None
      case Some((entries, rest)) =>
        if entries > MAX_INT then None
        else if rest == [] then Some(Tally(entries, 0))
        else
          match ReadVarint(rest)
          case None => None
          case Some((bytes, _)) => Some(Tally(entries, bytes))
  }

  lemma TallyReadsBack(t: Tally)
    requires 0 <= t.entries <= MAX_INT && 0 <= t.bytes <= MAX_INT
    ensures DecodedTally(EncodedTally(t)) == Some(t)
  {
    UvarintReadsBack(t.entries, Varint(t.bytes));
    VarintReadsBack(t.bytes, []);
    assert Varint(t.bytes) + [] == Varint(t.bytes);
  }

  function BucketKey(name: Name, key: Bytes): Bytes {
    BucketPrefix(name) + key
  }

  function TallyKey(name: Name): Bytes {
    TALLY_PREFIX + name
  }

  function ValueOr(store: Store, key: Bytes): Bytes {
    if key in store then store[key] else []
  }

  function StoredTally(store: Store, name: Name): Option<Tally> {
    DecodedTally(ValueOr(store, TallyKey(name)))
  }

  function TallyOf(store: Store, name: Name): Tally {
    match StoredTally(store, name)
    case None => Tally(0, 0)
    case Some(t) => t
  }

  // ---------------------------------------------------------------- abstraction

  function RelativeKeys(store: Store, prefix: Bytes): (keys: set<Bytes>)
    ensures forall k: Bytes :: k in keys <==> prefix + k in store
  {
    var keys := set a | a in store && prefix <= a :: a[|prefix|..];
    assert forall k: Bytes :: k in keys <==> prefix + k in store by {
      forall k: Bytes ensures k in keys <==> prefix + k in store {
        if k in keys {
          var a :| a in store && prefix <= a && a[|prefix|..] == k;
          assert a == prefix + k;
        }
        assert (prefix + k)[|prefix|..] == k;
      }
    }
    keys
  }

  /** What the keyspace holds of one region, by relative key. */
  function Region(store: Store, prefix: Bytes): (r: Bucket)
    ensures forall k: Bytes :: k in r <==> prefix + k in store
    ensures forall k: Bytes :: k in r ==> r[k] == store[prefix + k]
  {
    map k | k in RelativeKeys(store, prefix) :: store[prefix + k]
  }

  function BucketIn(store: Store, name: Name): Bucket {
    Region(store, BucketPrefix(name))
  }

  /** The tally of a bucket is its number of entries and the bytes of its keys and values. */
  ghost predicate TallyExact(store: Store, name: Name) {
    StoredTally(store, name) == Some(Tally(|BucketIn(store, name)|, SizeOf(BucketIn(store, name))))
  }

  /** The machine counts entries and bytes in 64-bit integers. */
  ghost predicate Countable(bucket: Bucket) {
    |bucket| <= MAX_INT && SizeOf(bucket) <= MAX_INT
  }

  ghost predicate Answers(store: Store, buckets: Buckets, name: Name) {
    && BucketIn(store, name) == BucketOf(buckets, name)
    && TallyExact(store, name)
    && Countable(BucketIn(store, name))
  }

  /** The store has every bucket, none that is not provisioned, and exact tallies. */
  ghost predicate Represents(store: Store, buckets: Buckets) {
    forall n: Name :: Answers(store, buckets, n)
  }

  lemma EmptyRepresents(provisioned: Buckets)
    requires forall n :: n in provisioned ==> provisioned[n] == map[]
    ensures Represents(map[], provisioned)
  {
    forall n: Name ensures Answers(map[], provisioned, n) {
      EmptyBucket(n);
    }
  }

  lemma EmptyBucket(n: Name)
    ensures BucketIn(map[], n) == map[] && TallyExact(map[], n) && Countable(map[])
  {
    assert BucketIn(map[], n) == map[];
    assert Sizes(map[]) == map[];
    assert StoredTally(map[], n) == Some(Tally(0, 0));
  }

  // -------------------------------------------------------------------- writing

  function WithTally(store: Store, name: Name, t: Tally): Store {
    store[TallyKey(name) := EncodedTally(t)]
  }

  function AdjustedBy(t: Tally, entries: int, bytes: int): Tally {
    Tally(t.entries + entries, t.bytes + bytes)
  }

  function TallyAfterPut(t: Tally, previous: Option<Bytes>, key: Bytes, value: Bytes): Tally {
    match previous
    case None => AdjustedBy(t, 1, |key| + |value|)
    case Some(replaced) => AdjustedBy(t, 0, |value| - |replaced|)
  }

  /** What a put stages, given the bucket's tally. */
  function Put(store: Store, name: Name, key: Bytes, value: Bytes, t: Tally): Store {
    var absolute := BucketKey(name, key);
    WithTally(store[absolute := value], name, TallyAfterPut(t, ValueIn(store, absolute), key, value))
  }

  function Delete(store: Store, name: Name, key: Bytes, t: Tally): Store {
    var absolute := BucketKey(name, key);
    if absolute !in store then store
    else WithTally(store - {absolute}, name, AdjustedBy(t, -1, -|key| - |store[absolute]|))
  }

  lemma TallyWriteLeavesBuckets(store: Store, name: Name, t: Tally, n: Name)
    ensures BucketIn(WithTally(store, name, t), n) == BucketIn(store, n)
  {
    var a, b := BucketIn(WithTally(store, name, t), n), BucketIn(store, n);
    forall k: Bytes ensures k in a <==> k in b
                    ensures k in a ==> a[k] == b[k]
    {
      RegionsAreDisjoint(n, n, k, name);
    }
  }

  lemma BucketWrite(store: Store, name: Name, key: Bytes, value: Bytes, n: Name)
    ensures BucketIn(store[BucketKey(name, key) := value], n)
         == if n == name then BucketIn(store, n)[key := value] else BucketIn(store, n)
  {
    var a, b := BucketIn(store[BucketKey(name, key) := value], n), BucketIn(store, n);
    var c := if n == name then b[key := value] else b;
    forall k: Bytes ensures k in a <==> k in c
                    ensures k in a ==> a[k] == c[k]
    {
      RegionsAreDisjoint(n, name, k, key);
    }
    assert a == c;
  }

  lemma BucketRemoval(store: Store, name: Name, key: Bytes, n: Name)
    ensures BucketIn(store - {BucketKey(name, key)}, n)
         == if n == name then BucketIn(store, n) - {key} else BucketIn(store, n)
  {
    var a, b := BucketIn(store - {BucketKey(name, key)}, n), BucketIn(store, n);
    var c := if n == name then b - {key} else b;
    forall k: Bytes ensures k in a <==> k in c
                    ensures k in a ==> a[k] == c[k]
    {
      RegionsAreDisjoint(n, name, k, key);
    }
    assert a == c;
  }

  lemma PutTally(bucket: Bucket, key: Bytes, value: Bytes)
    ensures TallyAfterPut(Tally(|bucket|, SizeOf(bucket)), ValueIn(bucket, key), key, value)
         == Tally(|bucket[key := value]|, SizeOf(bucket[key := value]))
  {
    SizeAfterPut(bucket, key, value);
    CountAfterPut(bucket, key, value);
  }

  lemma SizesAfterPut(bucket: Bucket, key: Bytes, value: Bytes)
    ensures Sizes(bucket[key := value]) == Sizes(bucket)[key := |key| + |value|]
  {
  }

  lemma SizeAfterPut(bucket: Bucket, key: Bytes, value: Bytes)
    ensures SizeOf(bucket[key := value])
         == SizeOf(bucket) + |value| + (if key in bucket then -|bucket[key]| else |key|)
  {
    SizesAfterPut(bucket, key, value);
    SumUpdate(Sizes(bucket), key, |key| + |value|);
    SumDrop(Sizes(bucket), key);
  }

  lemma CountAfterPut(bucket: Bucket, key: Bytes, value: Bytes)
    ensures |bucket[key := value]| == |bucket| + (if key in bucket then 0 else 1)
  {
    var grown := bucket[key := value];
    assert |grown| == |grown.Keys| && |bucket| == |bucket.Keys|;
    assert grown.Keys == bucket.Keys + {key};
  }

  lemma SizesAfterDelete(bucket: Bucket, key: Bytes)
    ensures Sizes(bucket - {key}) == Sizes(bucket) - {key}
  {
  }

  lemma SizeAfterDelete(bucket: Bucket, key: Bytes)
    requires key in bucket
    ensures SizeOf(bucket - {key}) == SizeOf(bucket) - |key| - |bucket[key]|
  {
    SizesAfterDelete(bucket, key);
    SumDrop(Sizes(bucket), key);
  }

  lemma DeleteTally(bucket: Bucket, key: Bytes)
    requires key in bucket
    ensures |bucket - {key}| == |bucket| - 1
    ensures SizeOf(bucket - {key}) == SizeOf(bucket) - |key| - |bucket[key]|
  {
    SizeAfterDelete(bucket, key);
    Fewer(bucket, key);
  }

  lemma TallyWritten(store: Store, name: Name, t: Tally, n: Name)
    requires 0 <= t.entries <= MAX_INT && 0 <= t.bytes <= MAX_INT
    ensures StoredTally(WithTally(store, name, t), n)
         == if n == name then Some(t) else StoredTally(store, n)
  {
    TallyReadsBack(t);
    assert TallyKey(n)[1..] == n && TallyKey(name)[1..] == name;
  }

  lemma BucketWriteLeavesTallies(store: Store, name: Name, key: Bytes, value: Bytes, n: Name)
    ensures StoredTally(store[BucketKey(name, key) := value], n) == StoredTally(store, n)
    ensures StoredTally(store - {BucketKey(name, key)}, n) == StoredTally(store, n)
  {
    RegionsAreDisjoint(name, name, key, n);
  }

  /** The store changed in no bucket but the one. */
  ghost predicate WroteBucket(store: Store, written: Store, name: Name, bucket: Bucket, n: Name) {
    && BucketIn(written, n) == (if n == name then bucket else BucketIn(store, n))
    && StoredTally(written, n) == StoredTally(store, n)
  }

  lemma WriteAnswers(store: Store, buckets: Buckets, name: Name, written: Store, bucket: Bucket, n: Name)
    requires Answers(store, buckets, n) && Countable(bucket)
    requires WroteBucket(store, written, name, bucket, n)
    ensures Answers(WithTally(written, name, Tally(|bucket|, SizeOf(bucket))), buckets[name := bucket], n)
  {
    var t := Tally(|bucket|, SizeOf(bucket));
    var store' := WithTally(written, name, t);
    TallyWriteLeavesBuckets(written, name, t, n);
    TallyWritten(written, name, t, n);
    if n == name {
      assert BucketIn(store', n) == bucket && StoredTally(store', n) == Some(t);
    } else {
      assert BucketIn(store', n) == BucketIn(store, n) && StoredTally(store', n) == StoredTally(store, n);
    }
  }

  /** One bucket's write and its tally's, together. */
  lemma WritesRepresent(store: Store, buckets: Buckets, name: Name, written: Store, bucket: Bucket)
    requires Represents(store, buckets) && Countable(bucket)
    requires forall n: Name :: WroteBucket(store, written, name, bucket, n)
    ensures Represents(WithTally(written, name, Tally(|bucket|, SizeOf(bucket))), buckets[name := bucket])
  {
    var store', buckets' := WithTally(written, name, Tally(|bucket|, SizeOf(bucket))), buckets[name := bucket];
    forall n: Name ensures Answers(store', buckets', n) {
      assert Answers(store, buckets, n) && WroteBucket(store, written, name, bucket, n);
      WriteAnswers(store, buckets, name, written, bucket, n);
    }
  }

  lemma AnswersTally(store: Store, buckets: Buckets, name: Name)
    requires Represents(store, buckets) && name in buckets
    ensures BucketIn(store, name) == buckets[name]
    ensures TallyOf(store, name) == Tally(|buckets[name]|, SizeOf(buckets[name]))
    ensures Countable(buckets[name])
  {
    assert Answers(store, buckets, name);
  }

  /** A put keeps the store answering for the buckets, and the clamps of the tally never act. */
  lemma PutRepresents(store: Store, buckets: Buckets, name: Name, key: Bytes, value: Bytes)
    requires Represents(store, buckets) && name in buckets
    requires Countable(buckets[name][key := value])
    ensures Represents(Put(store, name, key, value, TallyOf(store, name)),
                       buckets[name := buckets[name][key := value]])
  {
    var bucket := buckets[name][key := value];
    var written := store[BucketKey(name, key) := value];
    AnswersTally(store, buckets, name);
    PutTally(buckets[name], key, value);
    forall n: Name ensures WroteBucket(store, written, name, bucket, n) {
      BucketWrite(store, name, key, value, n);
      BucketWriteLeavesTallies(store, name, key, value, n);
    }
    WritesRepresent(store, buckets, name, written, bucket);
    assert ValueIn(store, BucketKey(name, key)) == ValueIn(buckets[name], key);
    assert TallyAfterPut(TallyOf(store, name), ValueIn(store, BucketKey(name, key)), key, value)
        == Tally(|bucket|, SizeOf(bucket));
  }

  lemma DeleteRepresents(store: Store, buckets: Buckets, name: Name, key: Bytes)
    requires Represents(store, buckets) && name in buckets
    ensures Represents(Delete(store, name, key, TallyOf(store, name)),
                       buckets[name := buckets[name] - {key}])
  {
    AnswersTally(store, buckets, name);
    assert key in buckets[name] <==> BucketKey(name, key) in store;
    if key !in buckets[name] {
      assert buckets[name] - {key} == buckets[name];
      assert buckets[name := buckets[name] - {key}] == buckets;
    } else {
      PresentDeleteRepresents(store, buckets, name, key);
    }
  }

  lemma PresentDeleteRepresents(store: Store, buckets: Buckets, name: Name, key: Bytes)
    requires Represents(store, buckets) && name in buckets
    requires key in buckets[name]
    ensures Represents(Delete(store, name, key, TallyOf(store, name)),
                       buckets[name := buckets[name] - {key}])
  {
    var bucket := buckets[name] - {key};
    var written := store - {BucketKey(name, key)};
    AnswersTally(store, buckets, name);
    DeleteTally(buckets[name], key);
    forall n: Name ensures WroteBucket(store, written, name, bucket, n) {
      BucketRemoval(store, name, key, n);
      BucketWriteLeavesTallies(store, name, key, [], n);
    }
    WritesRepresent(store, buckets, name, written, bucket);
    assert ValueIn(store, BucketKey(name, key)) == ValueIn(buckets[name], key);
    assert AdjustedBy(TallyOf(store, name), -1, -|key| - |buckets[name][key]|) == Tally(|bucket|, SizeOf(bucket));
  }

  // -------------------------------------------------------------------- reading

  /** The absolute keys between the bounds of a scan. */
  function KeysBetween(store: Store, prefix: Bytes, keys: KeyRange): set<Bytes>
    requires Successor(prefix).Some?
  {
    var (lower, upper) := BoundsFor(prefix, keys);
    set a | a in store && AtMost(lower, a) && Less(a, upper)
  }

  lemma KeysBetweenAreInRange(store: Store, prefix: Bytes, keys: KeyRange)
    requires Successor(prefix).Some?
    ensures forall a :: a in KeysBetween(store, prefix, keys) <==>
      a in store && prefix <= a && Within(a[|prefix|..], keys)
  {
    forall a | a in store
      ensures a in KeysBetween(store, prefix, keys) <==> prefix <= a && Within(a[|prefix|..], keys)
    {
      BoundsAreTheRange(prefix, keys, a);
    }
  }

  /** The entries that the iterator of a scan finds, with their relative keys. */
  function FoundEntries(store: Store, prefix: Bytes, keys: KeyRange): (r: seq<Entry>)
    requires Successor(prefix).Some?
  {
    ItselfDistinct(KeysBetween(store, prefix, keys));
    KeysBetweenAreInRange(store, prefix, keys);
    var found := Ascending(KeysBetween(store, prefix, keys), Itself);
    assert forall i :: 0 <= i < |found| ==> found[i] in found;
    seq(|found|, i requires 0 <= i < |found| => Entry(found[i][|prefix|..], store[found[i]]))
  }

  /** A scan of a region gives what a scan of the region alone would give, in relative key order. */
  lemma ScanIsolated(store: Store, prefix: Bytes, keys: KeyRange)
    requires Successor(prefix).Some?
    ensures FoundEntries(store, prefix, keys) == Entries(Region(store, prefix), keys)
  {
    var found, relative := RelativeKeysFound(store, prefix, keys);
    RelativeIsTheScan(store, prefix, keys, found, relative);
    SameEntries(store, prefix, found, relative);
  }

  lemma RelativeKeysFound(store: Store, prefix: Bytes, keys: KeyRange) returns (found: seq<Bytes>, relative: seq<Bytes>)
    requires Successor(prefix).Some?
    ensures DistinctBy(KeysBetween(store, prefix, keys), Itself)
    ensures found == Ascending(KeysBetween(store, prefix, keys), Itself)
    ensures forall a :: a in found <==> a in store && prefix <= a && Within(a[|prefix|..], keys)
    ensures |relative| == |found| && forall i :: 0 <= i < |relative| ==> found[i] == prefix + relative[i]
  {
    var between := KeysBetween(store, prefix, keys);
    ItselfDistinct(between);
    KeysBetweenAreInRange(store, prefix, keys);
    found := Ascending(between, Itself);
    relative := RelativeTo(found, prefix, between);
  }

  function EntriesAt(store: Store, ks: seq<Bytes>): (r: seq<Entry>)
    requires forall i :: 0 <= i < |ks| ==> ks[i] in store
    ensures |r| == |ks|
  {
    seq(|ks|, i requires 0 <= i < |ks| => Entry(ks[i], store[ks[i]]))
  }

  lemma SameEntries(store: Store, prefix: Bytes, found: seq<Bytes>, relative: seq<Bytes>)
    requires forall a :: a in found ==> a in store && prefix <= a
    requires |relative| == |found| && forall i :: 0 <= i < |relative| ==> found[i] == prefix + relative[i]
    ensures forall i :: 0 <= i < |relative| ==> relative[i] in Region(store, prefix)
    ensures EntriesAt(Region(store, prefix), relative)
         == seq(|found|, i requires 0 <= i < |found| && found[i] in store && prefix <= found[i] =>
                  Entry(found[i][|prefix|..], store[found[i]]))
  {
    forall i | 0 <= i < |relative|
      ensures relative[i] in Region(store, prefix) && found[i][|prefix|..] == relative[i]
      ensures Region(store, prefix)[relative[i]] == store[found[i]]
    {
      AfterPrefix(prefix, relative[i]);
      assert found[i] in found;
    }
  }

  lemma RelativeIsTheScan(store: Store, prefix: Bytes, keys: KeyRange, found: seq<Bytes>, relative: seq<Bytes>)
    requires Successor(prefix).Some? && AscendsBy(found, Itself)
    requires forall a :: a in found <==> a in store && prefix <= a && Within(a[|prefix|..], keys)
    requires |relative| == |found| && forall i :: 0 <= i < |relative| ==> found[i] == prefix + relative[i]
    ensures DistinctBy(KeysWithin(Region(store, prefix), keys), Itself)
    ensures relative == Ascending(KeysWithin(Region(store, prefix), keys), Itself)
  {
    RelativeAscends(found, relative, prefix);
    RelativeCovers(store, prefix, keys, found, relative);
    ItselfDistinct(KeysWithin(Region(store, prefix), keys));
    AscendingIsUnique(relative, KeysWithin(Region(store, prefix), keys), Itself);
  }

  function RelativeTo(found: seq<Bytes>, prefix: Bytes, between: set<Bytes>): (r: seq<Bytes>)
    requires forall a :: a in found <==> a in between
    requires forall a :: a in between ==> prefix <= a
    ensures |r| == |found| && forall i :: 0 <= i < |r| ==> found[i] == prefix + r[i]
  {
    assert forall i :: 0 <= i < |found| ==> found[i] in found;
    seq(|found|, i requires 0 <= i < |found| => found[i][|prefix|..])
  }

  lemma RelativeAscends(found: seq<Bytes>, relative: seq<Bytes>, prefix: Bytes)
    requires AscendsBy(found, Itself)
    requires |relative| == |found| && forall i :: 0 <= i < |relative| ==> found[i] == prefix + relative[i]
    ensures AscendsBy(relative, Itself)
  {
    forall i, j | 0 <= i < j < |relative| ensures Less(Itself(relative[i]), Itself(relative[j])) {
      assert Less(Itself(found[i]), Itself(found[j]));
      LessUnderPrefix(prefix, relative[i], relative[j]);
    }
  }

  lemma RelativeCovers(store: Store, prefix: Bytes, keys: KeyRange, found: seq<Bytes>, relative: seq<Bytes>)
    requires Successor(prefix).Some?
    requires forall a :: a in found <==> a in store && prefix <= a && Within(a[|prefix|..], keys)
    requires |relative| == |found| && forall i :: 0 <= i < |relative| ==> found[i] == prefix + relative[i]
    ensures forall k :: k in relative <==> k in KeysWithin(Region(store, prefix), keys)
  {
    forall k: Bytes ensures k in relative <==> k in KeysWithin(Region(store, prefix), keys) {
      InRelative(prefix, found, relative, k);
      AfterPrefix(prefix, k);
    }
  }

  lemma AfterPrefix(prefix: Bytes, k: Bytes)
    ensures (prefix + k)[|prefix|..] == k && prefix <= prefix + k
  {
  }

  lemma InRelative(prefix: Bytes, found: seq<Bytes>, relative: seq<Bytes>, k: Bytes)
    requires |relative| == |found| && forall i :: 0 <= i < |relative| ==> found[i] == prefix + relative[i]
    ensures k in relative <==> prefix + k in found
  {
    if k in relative {
      var i :| 0 <= i < |relative| && relative[i] == k;
      assert found[i] in found;
    }
    if prefix + k in found {
      var i :| 0 <= i < |found| && found[i] == prefix + k;
      AfterPrefix(prefix, k);
      AfterPrefix(prefix, relative[i]);
      assert relative[i] in relative;
    }
  }

  /** The bytes every tally holds. */
  function TallyBytes(store: Store): map<Name, nat> {
    map n | n in Region(store, TALLY_PREFIX) :: Max(TallyOf(store, n).bytes, 0)
  }

  /** The tallies add up to the bytes of all keys and values. */
  lemma TalliesAddUp(store: Store, buckets: Buckets)
    requires Represents(store, buckets)
    ensures SumOf(TallyBytes(store)) == UsedBy(buckets)
  {
    var a, b := TallyBytes(store), BucketSizes(buckets);
    forall n: Name ensures ValueAt(a, n) == ValueAt(b, n) {
      assert Answers(store, buckets, n);
      assert Sizes(map[]) == map[];
    }
    SumAgrees(a, b);
  }

  /** The sum of the tallies a scan found; none if one cannot be read. */
  function HeldAlong(tallies: seq<Entry>): Option<int> {
    if tallies == [] then Some(0)
    else
      match (DecodedTally(tallies[0].value), HeldAlong(tallies[1..]))
      case (Some(t), Some(rest)) => Some(t.bytes + rest)
      case _ => None
  }

  function KeysOf(entries: seq<Entry>): (keys: seq<Bytes>)
    ensures |keys| == |entries| && forall i :: 0 <= i < |keys| ==> keys[i] == entries[i].key
  {
    seq(|entries|, i requires 0 <= i < |entries| => entries[i].key)
  }

  lemma AllEntriesListed(bucket: Bucket)
    ensures var entries := Entries(bucket, EVERY_KEY);
      && (forall i :: 0 <= i < |entries| ==> entries[i].key in bucket && entries[i].value == bucket[entries[i].key])
      && (forall k :: k in KeysOf(entries) <==> k in bucket)
      && (forall i, j :: 0 <= i < j < |entries| ==> entries[i].key != entries[j].key)
  {
    var keys := KeysWithin(bucket, EVERY_KEY);
    forall k ensures k in keys <==> k in bucket {
      PrefixComesFirst([], k);
      assert [] + k == k;
    }
    ItselfDistinct(keys);
    var ordered, entries := Ascending(keys, Itself), Entries(bucket, EVERY_KEY);
    assert KeysOf(entries) == ordered;
    forall i, j | 0 <= i < j < |entries| ensures entries[i].key != entries[j].key {
      LessIrreflexive(Itself(ordered[i]));
      assert Less(Itself(ordered[i]), Itself(ordered[j]));
    }
  }

  lemma {:induction false} HeldAlongIsTheSum(tallies: seq<Entry>, sizes: map<Bytes, nat>)
    requires forall i :: 0 <= i < |tallies| ==> (
      && tallies[i].key in sizes
      && DecodedTally(tallies[i].value).Some?
      && DecodedTally(tallies[i].value).value.bytes == sizes[tallies[i].key])
    ensures forall k :: k in KeysOf(tallies) ==> k in sizes
    ensures HeldAlong(tallies) == Some(SumAlong(KeysOf(tallies), sizes))
  {
    if tallies != [] {
      assert KeysOf(tallies)[1..] == KeysOf(tallies[1..]);
      HeldAlongIsTheSum(tallies[1..], sizes);
    }
  }

  lemma TallyHeld(store: Store, buckets: Buckets, tally: Entry)
    requires Represents(store, buckets)
    requires tally.key in Region(store, TALLY_PREFIX) && tally.value == Region(store, TALLY_PREFIX)[tally.key]
    ensures tally.key in TallyBytes(store) && DecodedTally(tally.value).Some?
    ensures DecodedTally(tally.value).value.bytes == TallyBytes(store)[tally.key]
  {
    assert Answers(store, buckets, tally.key);
    assert TallyKey(tally.key) in store;
  }

  /** What the tallies of the store add up to is what the in-memory engine would add up. */
  lemma TalliesHeld(store: Store, buckets: Buckets)
    requires Represents(store, buckets)
    ensures Successor(TALLY_PREFIX).Some?
    ensures HeldAlong(FoundEntries(store, TALLY_PREFIX, EVERY_KEY)) == Some(UsedBy(buckets))
  {
    RegionsEnd([]);
    var tallies, sizes := FoundEntries(store, TALLY_PREFIX, EVERY_KEY), TallyBytes(store);
    ScanIsolated(store, TALLY_PREFIX, EVERY_KEY);
    AllEntriesListed(Region(store, TALLY_PREFIX));
    forall i | 0 <= i < |tallies|
      ensures tallies[i].key in sizes && DecodedTally(tallies[i].value).Some?
      ensures DecodedTally(tallies[i].value).value.bytes == sizes[tallies[i].key]
    {
      TallyHeld(store, buckets, tallies[i]);
    }
    HeldAlongIsTheSum(tallies, sizes);
    SumAlongAll(KeysOf(tallies), sizes);
    TalliesAddUp(store, buckets);
  }

  /** Where a bucket's entries and its tally are, and what a tally's bytes are. */
  lemma KeysAre(name: Name, key: Bytes, t: Tally)
    ensures BucketKey(name, key) == [1] + Uvarint(|name|) + name + key && TallyKey(name) == [2] + name
    ensures t.entries >= 0 && t.bytes >= 0 ==> EncodedTally(t) == Uvarint(t.entries) + Varint(t.bytes)
  {
  }

  /** A tally that ends early has zeros; one with a malformed number or too many entries is an error. */
  lemma DecodedTallyIs(raw: Bytes)
    ensures DecodedTally([]) == Some(Tally(0, 0))
    ensures raw != [] && (ReadUvarint(raw).None? || ReadUvarint(raw).value.0 > 0x7fff_ffff_ffff_ffff) ==>
      DecodedTally(raw) == None
    ensures raw != [] && ReadUvarint(raw).Some? && ReadUvarint(raw).value.0 <= 0x7fff_ffff_ffff_ffff ==>
      var (entries, rest) := ReadUvarint(raw).value;
      DecodedTally(raw) ==
      if rest == [] then Some(Tally(entries, 0))
      else if ReadVarint(rest).None? then None else Some(Tally(entries, ReadVarint(rest).value.0))
  {
  }
}
