/** What callers ask of a storage engine, and the in-memory engine's answers. */
module MemoryRuns {
  import opened ByteStrings
  import opened Keyspace
  import opened MemoryEngine
  import opened Sums
  import opened Wrappers

  /** What a caller does, inside a write transaction and between transactions. */
  datatype Call =
    | Begin
    | Get(name: Name, key: Bytes)
    | Put(name: Name, key: Bytes, value: Bytes)
    | Delete(name: Name, key: Bytes)
    | Len(name: Name)
    | Scan(name: Name, keys: KeyRange, keep: Entry -> bool)
    | Commit
    | Abort
    | UsedBytes
    | Provision(name: Name)

  datatype Answer =
    | Done
    | Value(value: Option<Bytes>)
    | Deleted(deleted: bool)
    | Length(length: int)
    | Seen(seen: seq<Entry>)
    | Used(used: int)
    | Failed

  datatype Memory = Memory(committed: Buckets, staged: Buckets)

  ghost function MemoryStep(m: Memory, c: Call): (Memory, Answer) {
    match c
    case Begin => (m.(staged := m.committed), Done)
    case Get(name, key) => (m, Value(ValueIn(BucketOf(m.staged, name), key)))
    case Put(name, key, value) =>
      (m.(staged := m.staged[name := BucketOf(m.staged, name)[key := value]]), Done)
    case Delete(name, key) =>
      (m.(staged := m.staged[name := BucketOf(m.staged, name) - {key}]), Deleted(key in BucketOf(m.staged, name)))
    case Len(name) => (m, Length(|BucketOf(m.staged, name)|))
    case Scan(name, keys, keep) => (m, Seen(Visited(Entries(BucketOf(m.staged, name), keys), keep)))
    case Commit => (m.(committed := m.staged), Done)
    case Abort => (m.(staged := m.committed), Done)
    case UsedBytes => (m, Used(UsedBy(m.committed)))
    case Provision(name) => (m.(committed := m.committed[name := BucketOf(m.committed, name)]), Done)
  }

  ghost function MemoryRun(m: Memory, calls: seq<Call>): seq<Answer>
    decreases |calls|
  {
    if calls == [] then []
    else
      var (m', answer) := MemoryStep(m, calls[0]);
      [answer] + MemoryRun(m', calls[1..])
  }

  class Engine {
    var buckets: Buckets
    var staged: Buckets

    ghost function State(): Memory
      reads this
    {
      Memory(buckets, staged)
    }

    constructor ()
      ensures State() == Memory(map[], map[])
    {
      buckets, staged := map[], map[];
    }

    method Provision(name: Name)
      modifies this`buckets
      ensures State() == MemoryStep(old(State()), Call.Provision(name)).0
    {
      if name !in buckets {
        buckets := buckets[name := map[]];
      } else {
        assert buckets[name := buckets[name]] == buckets;
      }
    }

    method Begin()
      modifies this`staged
      ensures State() == MemoryStep(old(State()), Call.Begin).0
    {
      staged := buckets;
    }

    method Commit()
      modifies this`buckets
      ensures State() == MemoryStep(old(State()), Call.Commit).0
    {
      buckets := staged;
    }

    method Get(name: Name, key: Bytes) returns (value: Option<Bytes>)
      requires name in staged
      ensures (State(), Value(value)) == MemoryStep(State(), Call.Get(name, key))
    {
      if key !in staged[name] {
        return None;
      }
      value := Some(staged[name][key]);
    }

    method Put(name: Name, key: Bytes, value: Bytes)
      requires name in staged
      modifies this`staged
      ensures State() == MemoryStep(old(State()), Call.Put(name, key, value)).0
    {
      staged := staged[name := staged[name][key := value]];
    }

    method Delete(name: Name, key: Bytes) returns (deleted: bool)
      requires name in staged
      modifies this`staged
      ensures (State(), Deleted(deleted)) == MemoryStep(old(State()), Call.Delete(name, key))
    {
      if key !in staged[name] {
        assert staged[name] - {key} == staged[name];
        assert staged[name := staged[name]] == staged;
        return false;
      }
      staged := staged[name := staged[name] - {key}];
      deleted := true;
    }

    method Len(name: Name) returns (length: nat)
      requires name in staged
      ensures (State(), Length(length)) == MemoryStep(State(), Call.Len(name))
    {
      length := |staged[name]|;
    }

    method Scan(name: Name, keys: KeyRange, keep: Entry -> bool) returns (seen: seq<Entry>)
      requires name in staged
      ensures (State(), Seen(seen)) == MemoryStep(State(), Call.Scan(name, keys, keep))
    {
      var found := Entries(staged[name], keys);
      seen := Visit(found, keep);
    }

    method UsedBytes() returns (used: nat)
      ensures (State(), Used(used)) == MemoryStep(State(), Call.UsedBytes)
    {
      used := 0;
      var names := buckets.Keys;
      ghost var left := BucketSizes(buckets);
      while names != {}
        invariant names <= buckets.Keys && left.Keys == names
        invariant forall n :: n in names ==> left[n] == SizeOf(buckets[n])
        invariant used + SumOf(left) == UsedBy(buckets)
        decreases names
      {
        var name :| name in names;
        SumDrop(left, name);
        left := left - {name};
        var size := BucketBytes(buckets[name]);
        used := used + size;
        names := names - {name};
      }
      assert left == map[];
    }
  }

  // ------------------------------------------------- what the answers have to do

  ghost function After(m: Memory, c: Call): Memory {
    MemoryStep(m, c).0
  }

  /** A transaction reads what it wrote itself, and nothing of it is lost or changed by other keys and buckets. */
  lemma ReadsItsWrites(m: Memory, name: Name, key: Bytes, value: Bytes, name': Name, key': Bytes)
    ensures MemoryStep(After(m, Call.Put(name, key, value)), Call.Get(name', key')).1
      == if name' == name && key' == key then Value(Some(value)) else MemoryStep(m, Call.Get(name', key')).1
    ensures MemoryStep(After(m, Call.Delete(name, key)), Call.Get(name', key')).1
      == if name' == name && key' == key then Value(None) else MemoryStep(m, Call.Get(name', key')).1
    ensures MemoryStep(m, Call.Delete(name, key)).1 == Deleted(MemoryStep(m, Call.Get(name, key)).1 != Value(None))
    ensures MemoryStep(m, Call.Get(name, key)) ==
      (m, Value(if name in m.staged && key in m.staged[name] then Some(m.staged[name][key]) else None))
  {
  }

  /** What a transaction writes is there for the next one if it commits, and not if it aborts. */
  lemma CommitsOrAborts(m: Memory, name: Name, key: Bytes, value: Bytes)
    ensures After(m, Call.Begin).staged == m.committed && After(m, Call.Begin).committed == m.committed
    ensures After(m, Call.Commit).committed == m.staged
    ensures After(m, Call.Abort).committed == m.committed && After(m, Call.Abort).staged == m.committed
    ensures After(m, Call.Put(name, key, value)).committed == m.committed
    ensures After(m, Call.Delete(name, key)).committed == m.committed
  {
  }

  /** A new bucket is empty, and one that was there keeps its entries. */
  lemma ProvisionKeepsEntries(m: Memory, name: Name, other: Name)
    ensures var m' := After(m, Call.Provision(name));
      && m'.staged == m.staged && name in m'.committed
      && (other in m.committed ==> other in m'.committed && m'.committed[other] == m.committed[other])
      && (other in m'.committed && other !in m.committed ==> other == name && m'.committed[other] == map[])
  {
  }

  /** Lengths and scans are those of the bucket as the transaction sees it, and the bytes in use those committed. */
  lemma AnswersAre(m: Memory, name: Name, keys: KeyRange, keep: Entry -> bool)
    ensures var bucket := if name in m.staged then m.staged[name] else map[];
      && MemoryStep(m, Call.Len(name)) == (m, Length(|bucket|))
      && MemoryStep(m, Call.Scan(name, keys, keep)) == (m, Seen(Visited(Entries(bucket, keys), keep)))
      && MemoryStep(m, Call.UsedBytes) == (m, Used(UsedBy(m.committed)))
  {
  }
}
