/** Both engines behind one interface: every run of transactions gets the same answers. */
module EngineRuns {
  import opened ByteStrings
  import opened Keyspace
  import opened MemoryEngine
  import opened MemoryRuns
  import opened PebbleEngine
  import opened Successors
  import opened Wrappers

  datatype Pebble = Pebble(committed: Store, staged: Store)

  ghost function PebbleStep(p: Pebble, c: Call): (Pebble, Answer) {
    match c
    case Begin => (p.(staged := p.committed), Done)
    case Get(name, key) => (p, Value(ValueIn(p.staged, BucketKey(name, key))))
    case Put(name, key, value) =>
      (p.(staged := PebbleEngine.Put(p.staged, name, key, value, TallyOf(p.staged, name))), Done)
    case Delete(name, key) =>
      (p.(staged := PebbleEngine.Delete(p.staged, name, key, TallyOf(p.staged, name))),
       Deleted(BucketKey(name, key) in p.staged))
    case Len(name) => (p, Length(TallyOf(p.staged, name).entries))
    case Scan(name, keys, keep) =>
      RegionsEnd(name);
      (p, Seen(Visited(FoundEntries(p.staged, BucketPrefix(name), keys), keep)))
    case Commit => (p.(committed := p.staged), Done)
    case Abort => (p.(staged := p.committed), Done)
    case UsedBytes =>
      RegionsEnd([]);
      (p, match HeldAlong(FoundEntries(p.committed, TALLY_PREFIX, EVERY_KEY))
          case None => Failed
          case Some(held) => Used(held))
    case Provision(_) => (p, Done)
  }

  // ----------------------------------------------------------------- agreement

  ghost predicate Agreeing(p: Pebble, m: Memory) {
    Represents(p.committed, m.committed) && Represents(p.staged, m.staged)
  }

  /** The call names a provisioned bucket, and a put leaves it within what 64-bit integers count. */
  ghost predicate Permitted(m: Memory, c: Call) {
    match c
    case Get(name, _) => name in m.staged
    case Put(name, key, value) => name in m.staged && Countable(m.staged[name][key := value])
    case Delete(name, _) => name in m.staged
    case Len(name) => name in m.staged
    case Scan(name, _, _) => name in m.staged
    case _ => true
  }

  lemma ReadsAgree(p: Pebble, m: Memory, c: Call)
    requires Agreeing(p, m) && Permitted(m, c)
    requires c.Get? || c.Len? || c.Scan? || c.UsedBytes?
    ensures PebbleStep(p, c) == (p, MemoryStep(m, c).1) && MemoryStep(m, c).0 == m
  {
    match c
    case Get(name, key) => AnswersTally(p.staged, m.staged, name);
    case Len(name) => AnswersTally(p.staged, m.staged, name);
    case Scan(name, keys, keep) =>
      AnswersTally(p.staged, m.staged, name);
      RegionsEnd(name);
      ScanIsolated(p.staged, BucketPrefix(name), keys);
    case UsedBytes => TalliesHeld(p.committed, m.committed);
  }

  lemma WritesAgree(p: Pebble, m: Memory, c: Call)
    requires Agreeing(p, m) && Permitted(m, c)
    requires c.Put? || c.Delete?
    ensures Agreeing(PebbleStep(p, c).0, MemoryStep(m, c).0)
    ensures PebbleStep(p, c).1 == MemoryStep(m, c).1
  {
    match c
    case Put(name, key, value) =>
      PutRepresents(p.staged, m.staged, name, key, value);
    case Delete(name, key) =>
      AnswersTally(p.staged, m.staged, name);
      DeleteRepresents(p.staged, m.staged, name, key);
  }

  /** A bucket without entries is like none, so provisioning one needs nothing in the keyspace. */
  lemma ProvisionedRepresents(store: Store, buckets: Buckets, name: Name)
    requires Represents(store, buckets)
    ensures Represents(store, buckets[name := BucketOf(buckets, name)])
  {
    var provisioned := buckets[name := BucketOf(buckets, name)];
    forall n: Name
      ensures Answers(store, provisioned, n)
    {
      assert Answers(store, buckets, n);
    }
  }

  lemma StepsAgree(p: Pebble, m: Memory, c: Call)
    requires Agreeing(p, m) && Permitted(m, c)
    ensures Agreeing(PebbleStep(p, c).0, MemoryStep(m, c).0)
    ensures PebbleStep(p, c).1 == MemoryStep(m, c).1
  {
    if c.Get? || c.Len? || c.Scan? || c.UsedBytes? {
      ReadsAgree(p, m, c);
    } else if c.Put? || c.Delete? {
      WritesAgree(p, m, c);
    } else if c.Provision? {
      ProvisionedRepresents(p.committed, m.committed, c.name);
    }
  }

  ghost function PebbleRun(p: Pebble, calls: seq<Call>): seq<Answer>
    decreases |calls|
  {
    if calls == [] then []
    else
      var (p', answer) := PebbleStep(p, calls[0]);
      [answer] + PebbleRun(p', calls[1..])
  }

  ghost predicate PermittedRun(m: Memory, calls: seq<Call>)
    decreases |calls|
  {
    calls == [] || (Permitted(m, calls[0]) && PermittedRun(MemoryStep(m, calls[0]).0, calls[1..]))
  }

  lemma {:induction false} RunsAgree(p: Pebble, m: Memory, calls: seq<Call>)
    requires Agreeing(p, m) && PermittedRun(m, calls)
    ensures PebbleRun(p, calls) == MemoryRun(m, calls)
    decreases |calls|
  {
    if calls != [] {
      StepsAgree(p, m, calls[0]);
      RunsAgree(PebbleStep(p, calls[0]).0, MemoryStep(m, calls[0]).0, calls[1..]);
    }
  }

  /** From empty storage, every run of committed and aborted transactions over provisioned buckets
      gets the same answers from both engines: values, deletions, scans, lengths and used bytes. */
  lemma PebbleRefinesMemory(provisioned: Buckets, calls: seq<Call>)
    requires forall n :: n in provisioned ==> provisioned[n] == map[]
    requires PermittedRun(Memory(provisioned, provisioned), calls)
    ensures PebbleRun(Pebble(map[], map[]), calls) == MemoryRun(Memory(provisioned, provisioned), calls)
  {
    EmptyRepresents(provisioned);
    RunsAgree(Pebble(map[], map[]), Memory(provisioned, provisioned), calls);
  }

  // ------------------------------------------------------------------ the engine

  class Engine {
    var db: Store
    var batch: Store

    ghost function State(): Pebble
      reads this
    {
      Pebble(db, batch)
    }

    constructor ()
      ensures State() == Pebble(map[], map[])
    {
      db, batch := map[], map[];
    }

    method BeginUpdate()
      modifies this`batch
      ensures State() == PebbleStep(old(State()), Begin).0
    {
      batch := db;
    }

    method CommitBatch()
      modifies this`db
      ensures State() == PebbleStep(old(State()), Commit).0
    {
      db := batch;
    }

    method ReleaseBatch()
      modifies this`batch
      ensures State() == PebbleStep(old(State()), Abort).0
    {
      batch := db;
    }

    method ValueAt(absolute: Bytes) returns (value: Option<Bytes>)
      ensures value == ValueIn(batch, absolute)
    {
      value := if absolute in batch then Some(batch[absolute]) else None;
    }

    method TallyValue(name: Name) returns (tally: Option<Tally>)
      ensures tally == StoredTally(batch, name)
    {
      var raw := ValueAt(TallyKey(name));
      tally := DecodedTally(match raw case None => [] case Some(bytes) => bytes);
    }

    /** Fails when the stored tally cannot be read. */
    method AdjustTally(name: Name, entries: int, bytes: int) returns (adjusted: bool)
      modifies this`batch
      ensures adjusted <==> StoredTally(old(batch), name).Some?
      ensures batch == if adjusted then WithTally(old(batch), name, AdjustedBy(TallyOf(old(batch), name), entries, bytes))
                       else old(batch)
    {
      var tally := TallyValue(name);
      if tally.None? {
        return false;
      }
      batch := batch[TallyKey(name) := EncodedTally(AdjustedBy(tally.value, entries, bytes))];
      adjusted := true;
    }

    method PutEntry(name: Name, key: Bytes, value: Bytes) returns (stored: bool)
      modifies this`batch
      ensures stored <==> StoredTally(old(batch), name).Some?
      ensures stored ==> State() == PebbleStep(old(State()), Call.Put(name, key, value)).0
    {
      BucketWriteLeavesTallies(batch, name, key, value, name);
      var previous := ValueAt(BucketKey(name, key));
      batch := batch[BucketKey(name, key) := value];
      if previous.None? {
        stored := AdjustTally(name, 1, |key| + |value|);
      } else {
        stored := AdjustTally(name, 0, |value| - |previous.value|);
      }
    }

    method DeleteEntry(name: Name, key: Bytes) returns (deleted: Option<bool>)
      modifies this`batch
      ensures deleted.Some? ==> (State(), Deleted(deleted.value)) == PebbleStep(old(State()), Call.Delete(name, key))
      ensures deleted.None? ==> StoredTally(old(batch), name).None?
    {
      BucketWriteLeavesTallies(batch, name, key, [], name);
      var previous := ValueAt(BucketKey(name, key));
      if previous.None? {
        return Some(false);
      }
      batch := batch - {BucketKey(name, key)};
      var adjusted := AdjustTally(name, -1, -|key| - |previous.value|);
      deleted := if adjusted then Some(true) else None;
    }

    method LenOf(name: Name) returns (length: Option<int>)
      ensures length.Some? <==> StoredTally(batch, name).Some?
      ensures length.Some? ==> Length(length.value) == PebbleStep(State(), Len(name)).1
    {
      var tally := TallyValue(name);
      length := match tally case None => None case Some(t) => Some(t.entries);
    }

    method ScanEntries(name: Name, keys: KeyRange, keep: Entry -> bool) returns (seen: seq<Entry>)
      ensures Seen(seen) == PebbleStep(State(), Scan(name, keys, keep)).1
    {
      RegionsEnd(name);
      seen := Visit(FoundEntries(batch, BucketPrefix(name), keys), keep);
    }

    /** Adds up the tallies; fails when one cannot be read. */
    method HeldBytes() returns (held: Option<int>)
      ensures Successor(TALLY_PREFIX).Some? && held == HeldAlong(FoundEntries(db, TALLY_PREFIX, EVERY_KEY))
    {
      RegionsEnd([]);
      var tallies := FoundEntries(db, TALLY_PREFIX, EVERY_KEY);
      var sum := 0;
      for i := 0 to |tallies|
        invariant HeldAlong(tallies) == match HeldAlong(tallies[i..]) { case None => None case Some(h) => Some(sum + h) }
      {
        assert tallies[i..][0] == tallies[i] && tallies[i..][1..] == tallies[i + 1..];
        var tally := DecodedTally(tallies[i].value);
        if tally.None? {
          return None;
        }
        sum := sum + tally.value.bytes;
      }
      held := Some(sum);
    }
  }
}
