/** The bolt engine over whole runs of transactions, against the in-memory engine. */
module BoltRuns {
  import opened BoltEngine
  import opened ByteStrings
  import opened Keyspace
  import opened MemoryEngine
  import opened MemoryRuns
  import opened VarInts
  import opened Wrappers

  /** The name of the bucket of counters, which no caller may provision. */
  const LENGTH_BUCKET: Name :=
    ['_' as int, '_' as int, 'l' as int, 'e' as int, 'n' as int, 'g' as int, 't' as int, 'h' as int, 's' as int,
     '_' as int, '_' as int]

  /** The buckets of a store, and the counters beside them. */
  datatype Counted = Counted(buckets: Buckets, lengths: Lengths)

  datatype Bolt = Bolt(committed: Counted, staged: Counted)

  function PutIn(s: Counted, name: Name, key: Bytes, value: Bytes): (Counted, Answer) {
    var bucket := BucketOf(s.buckets, name);
    var written := s.(buckets := s.buckets[name := bucket[key := value]]);
    match LengthsAfterPut(bucket, s.lengths, name, key)
    case None => (written, Failed)
    case Some(lengths) => (written.(lengths := lengths), Done)
  }

  function DeleteIn(s: Counted, name: Name, key: Bytes): (Counted, Answer) {
    var bucket := BucketOf(s.buckets, name);
    var written := s.(buckets := s.buckets[name := bucket - {key}]);
    match LengthsAfterDelete(bucket, s.lengths, name, key)
    case None => (written, Failed)
    case Some(lengths) => (written.(lengths := lengths), Deleted(key in bucket))
  }

  function LengthIn(s: Counted, name: Name): Answer {
    match DecodedLength(CounterOf(s.lengths, name))
    case None => Failed
    case Some(n) => Length(n)
  }

  /** What bolt does and answers; the bytes that it uses are counted in pages, and are not modelled. */
  function BoltStep(b: Bolt, c: Call): (Bolt, Answer) {
    match c
    case Begin => (b.(staged := b.committed), Done)
    case Get(name, key) => (b, Value(ValueIn(BucketOf(b.staged.buckets, name), key)))
    case Put(name, key, value) =>
      var (staged, answer) := PutIn(b.staged, name, key, value);
      (b.(staged := staged), answer)
    case Delete(name, key) =>
      var (staged, answer) := DeleteIn(b.staged, name, key);
      (b.(staged := staged), answer)
    case Len(name) => (b, LengthIn(b.staged, name))
    case Scan(name, keys, keep) => (b, Seen(Visited(Entries(BucketOf(b.staged.buckets, name), keys), keep)))
    case Commit => (b.(committed := b.staged), Done)
    case Abort => (b.(staged := b.committed), Done)
    case UsedBytes => (b, Failed)
    case Provision(name) =>
      if name == LENGTH_BUCKET then (b, Failed)
      else
        var provisioned := b.committed.buckets[name := BucketOf(b.committed.buckets, name)];
        (b.(committed := b.committed.(buckets := provisioned)), Done)
  }

  // ----------------------------------------------------------------- agreement

  /** The counter of a bucket is the number of its entries, and that is a machine integer. */
  ghost predicate CounterExact(s: Counted, name: Name) {
    && |BucketOf(s.buckets, name)| <= MAX_INT
    && DecodedLength(CounterOf(s.lengths, name)) == Some(|BucketOf(s.buckets, name)|)
  }

  /** The store has exactly these buckets, and exact counters. */
  ghost predicate Keeps(s: Counted, buckets: Buckets) {
    s.buckets == buckets && forall n: Name :: CounterExact(s, n)
  }

  ghost predicate Agreeing(b: Bolt, m: Memory) {
    Keeps(b.committed, m.committed) && Keeps(b.staged, m.staged)
  }

  /** The call names a provisioned bucket, and a put leaves no more entries than integers count. */
  ghost predicate Permitted(m: Memory, c: Call) {
    match c
    case Get(name, _) => name in m.staged
    case Put(name, key, value) => name in m.staged && |m.staged[name][key := value]| <= MAX_INT
    case Delete(name, _) => name in m.staged
    case Len(name) => name in m.staged
    case Scan(name, _, _) => name in m.staged
    case UsedBytes => false
    case Provision(name) => name != LENGTH_BUCKET
    case _ => true
  }

  /** Changing one counter to what its bucket holds then keeps all of them exact. */
  lemma WrittenKeeps(s: Counted, name: Name, bucket: Bucket, lengths: Lengths)
    requires (forall n: Name :: CounterExact(s, n)) && |bucket| <= MAX_INT
    requires (|bucket| == |BucketOf(s.buckets, name)| && lengths == s.lengths)
          || lengths == s.lengths[name := BigEndian(|bucket|, LENGTH_WIDTH)]
    ensures Keeps(Counted(s.buckets[name := bucket], lengths), s.buckets[name := bucket])
  {
    var written := Counted(s.buckets[name := bucket], lengths);
    LengthReadsBack(|bucket|);
    forall n: Name
      ensures CounterExact(written, n)
    {
      assert CounterExact(s, n);
    }
  }

  lemma PutKeeps(s: Counted, name: Name, key: Bytes, value: Bytes)
    requires (forall n: Name :: CounterExact(s, n)) && name in s.buckets
    requires |s.buckets[name][key := value]| <= MAX_INT
    ensures Keeps(PutIn(s, name, key, value).0, s.buckets[name := s.buckets[name][key := value]])
    ensures PutIn(s, name, key, value).1 == Done
  {
    var bucket := s.buckets[name];
    assert CounterExact(s, name);
    PutCounts(bucket, key, value);
    WrittenKeeps(s, name, bucket[key := value], PutIn(s, name, key, value).0.lengths);
  }

  lemma DeleteKeeps(s: Counted, name: Name, key: Bytes)
    requires (forall n: Name :: CounterExact(s, n)) && name in s.buckets
    ensures Keeps(DeleteIn(s, name, key).0, s.buckets[name := s.buckets[name] - {key}])
    ensures DeleteIn(s, name, key).1 == Deleted(key in s.buckets[name])
  {
    var bucket := s.buckets[name];
    assert CounterExact(s, name);
    if key in bucket {
      DeleteCounts(bucket, key);
    } else {
      assert bucket - {key} == bucket;
    }
    WrittenKeeps(s, name, bucket - {key}, DeleteIn(s, name, key).0.lengths);
  }

  lemma ProvisionKeeps(s: Counted, name: Name)
    requires forall n: Name :: CounterExact(s, n)
    ensures var provisioned := s.buckets[name := BucketOf(s.buckets, name)];
            Keeps(s.(buckets := provisioned), provisioned)
  {
    assert CounterExact(s, name);
    WrittenKeeps(s, name, BucketOf(s.buckets, name), s.lengths);
  }

  lemma StepsAgree(b: Bolt, m: Memory, c: Call)
    requires Agreeing(b, m) && Permitted(m, c)
    ensures Agreeing(BoltStep(b, c).0, MemoryStep(m, c).0)
    ensures BoltStep(b, c).1 == MemoryStep(m, c).1
  {
    match c
    case Put(name, key, value) => PutKeeps(b.staged, name, key, value);
    case Delete(name, key) => DeleteKeeps(b.staged, name, key);
    case Len(name) => assert CounterExact(b.staged, name);
    case Provision(name) => ProvisionKeeps(b.committed, name);
    case _ =>
  }

  // ---------------------------------------------------------------------- runs

  function BoltRun(b: Bolt, calls: seq<Call>): seq<Answer>
    decreases |calls|
  {
    if calls == [] then []
    else
      var (b', answer) := BoltStep(b, calls[0]);
      [answer] + BoltRun(b', calls[1..])
  }

  ghost predicate PermittedRun(m: Memory, calls: seq<Call>)
    decreases |calls|
  {
    calls == [] || (Permitted(m, calls[0]) && PermittedRun(MemoryStep(m, calls[0]).0, calls[1..]))
  }

  lemma {:induction false} RunsAgree(b: Bolt, m: Memory, calls: seq<Call>)
    requires Agreeing(b, m) && PermittedRun(m, calls)
    ensures BoltRun(b, calls) == MemoryRun(m, calls)
    decreases |calls|
  {
    if calls != [] {
      StepsAgree(b, m, calls[0]);
      RunsAgree(BoltStep(b, calls[0]).0, MemoryStep(m, calls[0]).0, calls[1..]);
    }
  }

  /** From empty storage, every run of provisioning and of committed and aborted transactions gets the
      same values, deletions, scans and lengths from bolt as from the in-memory engine. */
  lemma BoltRefinesMemory(calls: seq<Call>)
    requires PermittedRun(Memory(map[], map[]), calls)
    ensures BoltRun(Bolt(Counted(map[], map[]), Counted(map[], map[])), calls)
         == MemoryRun(Memory(map[], map[]), calls)
  {
    var empty := Counted(map[], map[]);
    assert forall n: Name :: CounterExact(empty, n);
    RunsAgree(Bolt(empty, empty), Memory(map[], map[]), calls);
  }

  /** The engines differ over one name: bolt keeps its counters under it and refuses to provision it. */
  lemma OnlyTheReservedNameIsRefused(b: Bolt, m: Memory, name: Name)
    requires Agreeing(b, m)
    ensures BoltStep(b, Call.Provision(name)).1 == MemoryStep(m, Call.Provision(name)).1 <==> name != LENGTH_BUCKET
  {
    if name != LENGTH_BUCKET {
      StepsAgree(b, m, Call.Provision(name));
    }
  }
}
