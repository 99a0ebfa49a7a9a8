/** What every run of the posting lifecycle keeps, across all its collections. */
module Lifecycle {
  import opened Cardinalities
  import opened Wrappers
  import opened KeyOrder
  import opened Collections

  // ------------------------------------------------------------------ invariants

  /** Every indexed posting lies under its own identity, and its url has stored metadata. */
  ghost predicate IndexSound(s: Stored) {
    forall id :: id in s.postings ==> s.postings[id].Id() == id && id.url in s.metadata
  }

  /** The reverse projection is the transpose of the index, and the referenced urls are its urls. */
  ghost predicate ProjectionExact(s: Stored) {
    && (forall r :: r in s.words <==> Identity(r.word, r.url) in s.postings)
    && (forall u :: u in s.referenced <==> Refers(s.words, u))
  }

  /** The escrow holds postings of unknown urls only, with one hold each, within its capacity. */
  ghost predicate EscrowExact(s: Stored, capacity: int) {
    && (forall id :: id in s.escrowed ==> s.escrowed[id].posting.Id() == id && id.url !in s.metadata)
    && (forall h :: h in s.holds <==> h.id in s.escrowed && s.escrowed[h.id].heldAt == h.heldAt)
    && |s.escrowed| <= (if capacity < 0 then 0 else capacity)
  }

  /** The freshness map ranks exactly the stored urls, and the order has every current rank. */
  ghost predicate StalenessCovers(s: Stored) {
    && s.freshness.Keys == s.metadata.Keys
    && forall u :: u in s.metadata ==>
         s.freshness[u] == RankOf(s.metadata[u].Freshness()) && Ranked(s.freshness[u], u) in s.order
  }

  ghost predicate Consistent(s: Stored, capacity: int) {
    IndexSound(s) && ProjectionExact(s) && EscrowExact(s, capacity) && StalenessCovers(s)
  }

  // ------------------------------------------------------------------ transitions

  lemma AdmitKeepsConsistent(s: Stored, p: Posting, capacity: int)
    requires Consistent(s, capacity) && p.url in s.metadata
    ensures Consistent(Admit(s, p), capacity)
  {
    var s' := Admit(s, p);
    assert Reference(p.url, p.word) in s'.words;
    forall u ensures u in s'.referenced <==> Refers(s'.words, u) {
      if Refers(s.words, u) {
        var r :| r in s.words && r.url == u;
        assert r in s'.words;
      }
    }
  }

  lemma HoldKeepsEscrow(s: Stored, p: Posting, now: int, capacity: int)
    requires EscrowExact(s, capacity) && p.url !in s.metadata
    ensures var r := HoldPosting(s, p, now, capacity);
      r.Some? ==> EscrowExact(r.value, capacity)
  {
    var r := HoldPosting(s, p, now, capacity);
    if r.Some? && p.Id() in s.escrowed {
      assert r.value.escrowed.Keys == s.escrowed.Keys;
    }
  }

  lemma HoldKeepsConsistent(s: Stored, p: Posting, now: int, capacity: int)
    requires Consistent(s, capacity) && p.url !in s.metadata
    ensures var r := HoldPosting(s, p, now, capacity);
      r.Some? ==> Consistent(r.value, capacity)
  {
    HoldKeepsEscrow(s, p, now, capacity);
  }

  lemma {:induction false} RouteEachKeepsConsistent(
    s: Stored, entries: seq<Posting>, clock: seq<int>, awaited: set<Hash>, capacity: int)
    requires |clock| == |entries|
    requires Consistent(s, capacity)
    requires forall p :: p in entries ==> (p.url in awaited <==> p.url !in s.metadata)
    ensures var r := RouteEach(s, entries, clock, awaited, capacity);
      r.Some? ==> Consistent(r.value, capacity)
    decreases |entries|
  {
    if entries != [] {
      var p := entries[0];
      var r := Route(s, p, clock[0], awaited, capacity);
      if p.url in awaited {
        HoldKeepsConsistent(s, p, clock[0], capacity);
      } else {
        AdmitKeepsConsistent(s, p, capacity);
      }
      if r.Some? {
        RouteEachKeepsConsistent(r.value, entries[1..], clock[1..], awaited, capacity);
      }
    }
  }

  lemma StoreKeepsStaleness(s: Stored, m: Metadata)
    requires StalenessCovers(s)
    ensures StalenessCovers(StoreMetadata(s, m))
  {
    if m.hash.Some? {
      var s' := StoreMetadata(s, m);
      assert s'.freshness.Keys == s'.metadata.Keys;
    }
  }

  lemma StoreKeepsConsistent(s: Stored, m: Metadata, capacity: int)
    requires Consistent(s, capacity)
    ensures Consistent(StoreMetadata(s, m), capacity)
  {
    StoreKeepsStaleness(s, m);
    if m.hash.Some? {
      StoreKeepsIndex(s, m);
      StoreKeepsEscrow(s, m, capacity);
    }
  }

  lemma StoreKeepsIndex(s: Stored, m: Metadata)
    requires IndexSound(s) && ProjectionExact(s) && m.hash.Some?
    ensures IndexSound(StoreMetadata(s, m)) && ProjectionExact(StoreMetadata(s, m))
  {
    var s' := StoreMetadata(s, m);
    var ids := WaitingFor(s, m.hash.value);
    forall r ensures r in s'.words <==> Identity(r.word, r.url) in s'.postings {
      if Identity(r.word, r.url) in ids {
        assert r in s'.words;
      }
    }
    forall u ensures u in s'.referenced <==> Refers(s'.words, u) {
      if Refers(s.words, u) {
        var r :| r in s.words && r.url == u;
        assert r in s'.words;
      }
      if id :| id in ids && id.url == u {
        assert Reference(id.url, id.word) in s'.words;
      }
    }
  }

  lemma StoreKeepsEscrow(s: Stored, m: Metadata, capacity: int)
    requires EscrowExact(s, capacity) && m.hash.Some?
    ensures EscrowExact(StoreMetadata(s, m), capacity)
  {
    var s' := StoreMetadata(s, m);
    var ids := WaitingFor(s, m.hash.value);
    forall h ensures h in s'.holds <==> h.id in s'.escrowed && s'.escrowed[h.id].heldAt == h.heldAt {
      if h.id in ids && h in s.holds {
        assert h == Hold(s.escrowed[h.id].heldAt, h.id);
      }
    }
    assert s'.escrowed.Keys <= s.escrowed.Keys;
    SmallerMap(s'.escrowed, s.escrowed);
  }

  lemma {:induction false} ReceiveMetadataKeepsConsistent(s: Stored, batch: seq<Metadata>, capacity: int)
    requires Consistent(s, capacity)
    ensures Consistent(ReceiveMetadata(s, batch), capacity)
    decreases |batch|
  {
    if batch != [] {
      StoreKeepsConsistent(s, batch[0], capacity);
      ReceiveMetadataKeepsConsistent(StoreMetadata(s, batch[0]), batch[1..], capacity);
    }
  }

  lemma DropKeepsConsistent(s: Stored, dropped: set<Hold>, capacity: int)
    requires Consistent(s, capacity) && dropped <= s.holds
    ensures Consistent(DropHolds(s, dropped), capacity)
  {
    var s' := DropHolds(s, dropped);
    forall h ensures h in s'.holds <==> h.id in s'.escrowed && s'.escrowed[h.id].heldAt == h.heldAt {
      if h in s.holds && h !in dropped {
        assert forall g :: g in dropped ==> g.id != h.id;
      }
    }
    SmallerMap(s'.escrowed, s.escrowed);
  }

  lemma ExpireKeepsConsistent(s: Stored, cutoff: int, limit: int, capacity: int)
    requires Consistent(s, capacity)
    ensures Consistent(Expire(s, cutoff, limit), capacity)
  {
    HoldsDistinct(HoldsBefore(s, cutoff));
    FirstOfAscending(HoldsBefore(s, cutoff), HoldKey, limit);
    DropKeepsConsistent(s, Elements(ExpiredHolds(s, cutoff, limit)), capacity);
  }

  /** No posting and no reference of a purged url is left. */
  lemma PurgeClearsIndex(s: Stored, urls: set<Hash>)
    requires ProjectionExact(s)
    ensures var s' := PurgePostingsOf(s, urls);
      && s'.postings == (map id | id in s.postings && id.url !in urls :: s.postings[id])
      && s'.words == (set r | r in s.words && r.url !in urls)
      && s'.referenced == s.referenced - urls
  {
    var s' := PurgePostingsOf(s, urls);
    var gone := set r | r in s.words && r.url in urls;
    forall id ensures id in s'.postings <==> id in s.postings && id.url !in urls {
      if id in s.postings && id.url in urls {
        assert Reference(id.url, id.word) in gone;
      }
    }
    forall u ensures u in s'.referenced <==> u in s.referenced && u !in urls {
      if u in urls && Refers(s.words, u) {
        var r :| r in s.words && r.url == u;
        assert r in gone;
      }
    }
  }

  lemma PurgeKeepsProjection(s: Stored, urls: set<Hash>)
    requires ProjectionExact(s)
    ensures ProjectionExact(PurgePostingsOf(s, urls))
  {
    PurgeClearsIndex(s, urls);
    var s' := PurgePostingsOf(s, urls);
    forall u ensures u in s'.referenced <==> Refers(s'.words, u) {
      if u !in urls && Refers(s.words, u) {
        var r :| r in s.words && r.url == u;
        assert r in s'.words;
      }
    }
  }

  lemma PurgeKeepsConsistent(s: Stored, urls: set<Hash>, capacity: int)
    requires Consistent(s, capacity)
    ensures Consistent(PurgeUrls(PurgePostingsOf(s, urls), urls), capacity)
  {
    PurgeClearsIndex(s, urls);
    PurgeKeepsProjection(s, urls);
  }

  lemma PurgeOneKeepsConsistent(s: Stored, word: Hash, url: Hash, capacity: int)
    requires Consistent(s, capacity)
    ensures Consistent(PurgePosting(s, word, url), capacity)
  {
    PurgeOneKeepsProjection(s, word, url);
  }

  lemma PurgeOneKeepsProjection(s: Stored, word: Hash, url: Hash)
    requires ProjectionExact(s)
    ensures ProjectionExact(PurgePosting(s, word, url))
  {
    var s' := PurgePosting(s, word, url);
    forall r ensures r in s'.words <==> Identity(r.word, r.url) in s'.postings {
      assert r == Reference(r.url, r.word);
    }
    forall u ensures u in s'.referenced <==> Refers(s'.words, u) {
      if u != url && Refers(s.words, u) {
        var r :| r in s.words && r.url == u;
        assert r in s'.words;
      }
    }
  }

  lemma {:induction false} HandOffKeepsConsistent(s: Stored, held: seq<Identity>, capacity: int)
    requires Consistent(s, capacity)
    ensures Consistent(HandOff(s, held), capacity)
    decreases |held|
  {
    if held != [] {
      var last := |held| - 1;
      HandOffKeepsConsistent(s, held[..last], capacity);
      PurgeOneKeepsConsistent(HandOff(s, held[..last]), held[last].word, held[last].url, capacity);
    }
  }

  /** Handing postings off takes exactly those out of the index and touches nothing that waits or is ranked. */
  lemma {:induction false} HandOffRemovesTheHeld(s: Stored, held: seq<Identity>)
    ensures var s' := HandOff(s, held);
      && s'.postings == s.postings - Elements(held)
      && s'.metadata == s.metadata && s'.order == s.order && s'.freshness == s.freshness
      && s'.escrowed == s.escrowed && s'.holds == s.holds
    decreases |held|
  {
    if held != [] {
      var last := |held| - 1;
      HandOffRemovesTheHeld(s, held[..last]);
      ElementsGrow(held, last);
      ElementsEnds(held);
      var before := HandOff(s, held[..last]);
      assert Identity(held[last].word, held[last].url) == held[last];
      assert before.postings - {held[last]} == s.postings - Elements(held);
    } else {
      assert s.postings - Elements(held) == s.postings;
    }
  }

  // ------------------------------------------------------------------------ runs

  datatype Event =
    | PostingsArrive(entries: seq<Posting>, clock: seq<int>)
    | MetadataArrives(batch: seq<Metadata>)
    | HoldsExpire(cutoff: int, limit: int)
    | StalestPurged(limit: int)
    | PostingsHandedOff(held: seq<Identity>)
    | Aborted

  /** What one transaction leaves behind; one that finds the escrow full leaves everything. */
  function Step(s: Stored, e: Event, capacity: int): Stored {
    match e
    case PostingsArrive(entries, clock) =>
      if |clock| != |entries| then s
      else (match RouteEach(s, entries, clock, MissingUrls(s, entries), capacity)
            case None => s
            case Some(s') => s')
    case MetadataArrives(batch) => ReceiveMetadata(s, batch)
    case HoldsExpire(cutoff, limit) => Expire(s, cutoff, limit)
    case StalestPurged(limit) => PurgeStalest(s, limit)
    case PostingsHandedOff(held) => HandOff(s, held)
    case Aborted => s
  }

  function Run(s: Stored, events: seq<Event>, capacity: int): Stored
    decreases |events|
  {
    if events == [] then s else Run(Step(s, events[0], capacity), events[1..], capacity)
  }

  lemma StepKeepsConsistent(s: Stored, e: Event, capacity: int)
    requires Consistent(s, capacity)
    ensures Consistent(Step(s, e, capacity), capacity)
  {
    match e
    case PostingsArrive(entries, clock) =>
      if |clock| == |entries| {
        MissingUrlsAwaited(s, entries);
        RouteEachKeepsConsistent(s, entries, clock, MissingUrls(s, entries), capacity);
      }
    case MetadataArrives(batch) => ReceiveMetadataKeepsConsistent(s, batch, capacity);
    case HoldsExpire(cutoff, limit) => ExpireKeepsConsistent(s, cutoff, limit, capacity);
    case StalestPurged(limit) => PurgeKeepsConsistent(s, Elements(StalestUrls(s, limit)), capacity);
    case PostingsHandedOff(held) => HandOffKeepsConsistent(s, held, capacity);
    case Aborted =>
  }

  lemma MissingUrlsAwaited(s: Stored, entries: seq<Posting>)
    ensures forall p :: p in entries ==> (p.url in MissingUrls(s, entries) <==> p.url !in s.metadata)
  {
  }

  lemma {:induction false} RunKeepsConsistent(s: Stored, events: seq<Event>, capacity: int)
    requires Consistent(s, capacity)
    ensures Consistent(Run(s, events, capacity), capacity)
    decreases |events|
  {
    if events != [] {
      StepKeepsConsistent(s, events[0], capacity);
      RunKeepsConsistent(Step(s, events[0], capacity), events[1..], capacity);
    }
  }

  /** In every state that any run reaches, every collection agrees with the others. */
  lemma {:induction false} EveryRunIsConsistent(events: seq<Event>, capacity: int)
    ensures Consistent(Run(EMPTY, events, capacity), capacity)
  {
    RunKeepsConsistent(EMPTY, events, capacity);
  }

  /** No posting is both indexed and held, and every indexed posting can be redistributed. */
  lemma IndexAndEscrowAreDisjoint(events: seq<Event>, capacity: int)
    ensures var s := Run(EMPTY, events, capacity);
      && s.postings.Keys !! s.escrowed.Keys
      && (forall id :: id in s.postings ==> id.url in s.metadata)
      && |s.holds| == |s.escrowed| <= (if capacity < 0 then 0 else capacity)
  {
    EveryRunIsConsistent(events, capacity);
    var s := Run(EMPTY, events, capacity);
    OneHoldEach(s, capacity);
  }

  lemma OneHoldEach(s: Stored, capacity: int)
    requires EscrowExact(s, capacity)
    ensures |s.holds| == |s.escrowed|
  {
    assert s.holds == set id | id in s.escrowed.Keys :: Hold(s.escrowed[id].heldAt, id) by {
      forall h | h in s.holds
        ensures h in set id | id in s.escrowed.Keys :: Hold(s.escrowed[id].heldAt, id)
      {
        assert h == Hold(s.escrowed[h.id].heldAt, h.id);
      }
    }
    HoldsOf(s.escrowed, s.escrowed.Keys);
  }

  lemma {:induction false} HoldsOf(escrowed: map<Identity, Escrowed>, ids: set<Identity>)
    requires ids <= escrowed.Keys
    ensures |set id | id in ids :: Hold(escrowed[id].heldAt, id)| == |ids|
    decreases |ids|
  {
    if ids != {} {
      var id :| id in ids;
      HoldsOf(escrowed, ids - {id});
      assert (set i | i in ids :: Hold(escrowed[i].heldAt, i))
          == (set i | i in ids - {id} :: Hold(escrowed[i].heldAt, i)) + {Hold(escrowed[id].heldAt, id)};
    }
  }

  // ------------------------------------------------------- where postings end up

  /** The last entry with this identity. */
  predicate IsLastWith(entries: seq<Posting>, id: Identity, i: nat) {
    && i < |entries| && entries[i].Id() == id
    && forall j | i < j < |entries| :: entries[j].Id() != id
  }

  /** The identities of the entries that must wait for their url. */
  function Waiting(entries: seq<Posting>, awaited: set<Hash>): set<Identity> {
    set p | p in entries && p.url in awaited :: p.Id()
  }

  /** The escrow has room for what a batch must hold: it holds it already, or would not overflow. */
  predicate HasRoom(s: Stored, entries: seq<Posting>, awaited: set<Hash>, capacity: int) {
    Waiting(entries, awaited) <= s.escrowed.Keys || |s.escrowed.Keys + Waiting(entries, awaited)| <= capacity
  }

  lemma WaitingAhead(entries: seq<Posting>, awaited: set<Hash>)
    requires entries != []
    ensures Waiting(entries, awaited)
      == Waiting(entries[1..], awaited) + if entries[0].url in awaited then {entries[0].Id()} else {}
  {
    assert entries == [entries[0]] + entries[1..];
  }

  lemma EscrowedAfterOne(s: Stored, p: Posting, now: int, awaited: set<Hash>, capacity: int)
    ensures var r := Route(s, p, now, awaited, capacity);
      && (r.None? <==> p.url in awaited && p.Id() !in s.escrowed && |s.escrowed| >= capacity)
      && (r.Some? ==> r.value.escrowed.Keys == s.escrowed.Keys + if p.url in awaited then {p.Id()} else {})
  {
  }

  lemma RoomAfterOne(held: set<Identity>, others: set<Identity>, id: Identity, capacity: int)
    requires id in held || |held| < capacity
    ensures others <= held + {id} || |held + {id} + others| <= capacity
       <==> others + {id} <= held || |held + (others + {id})| <= capacity
  {
    assert held + {id} + others == held + (others + {id});
    if id in held {
      assert held + {id} == held;
    } else if others <= held + {id} {
      assert held + (others + {id}) == held + {id};
    }
  }

  /** A batch is routed exactly when the escrow holds already what must wait, or has room for it. */
  lemma {:induction false} RoutingSucceedsIff(
    s: Stored, entries: seq<Posting>, clock: seq<int>, awaited: set<Hash>, capacity: int)
    requires |clock| == |entries|
    ensures RouteEach(s, entries, clock, awaited, capacity).Some? <==> HasRoom(s, entries, awaited, capacity)
    decreases |entries|
  {
    if entries != [] {
      var r, id, held := Route(s, entries[0], clock[0], awaited, capacity), entries[0].Id(), s.escrowed.Keys;
      var others := Waiting(entries[1..], awaited);
      WaitingAhead(entries, awaited);
      EscrowedAfterOne(s, entries[0], clock[0], awaited, capacity);
      if r.None? {
        SmallerSet(held + {id}, held + (others + {id}));
      } else {
        RoutingSucceedsIff(r.value, entries[1..], clock[1..], awaited, capacity);
        if entries[0].url in awaited {
          RoomAfterOne(held, others, id, capacity);
        }
      }
    }
  }

  /** In numbers: no posting is new to the escrow, or with the new ones it holds its capacity at most. */
  lemma HasRoomIff(s: Stored, entries: seq<Posting>, awaited: set<Hash>, capacity: int)
    ensures var anew := set p | p in entries && p.url in awaited && p.Id() !in s.escrowed :: p.Id();
      HasRoom(s, entries, awaited, capacity) <==> anew == {} || |s.escrowed| + |anew| <= capacity
  {
    var anew := set p | p in entries && p.url in awaited && p.Id() !in s.escrowed :: p.Id();
    var held, waiting := s.escrowed.Keys, Waiting(entries, awaited);
    assert anew == waiting - held;
    SmallerSet(held, held + waiting);
    assert (held + waiting) - held == anew;
    assert |s.escrowed| == |held|;
  }

  /** An accepted receipt leaves the last entry of each identity in the index when its url is
      known, and in the escrow when it is not, held since that entry's time. */
  lemma {:induction false} RoutingEndsWithTheLastEntry(
    s: Stored, entries: seq<Posting>, clock: seq<int>, awaited: set<Hash>, capacity: int, i: nat)
    requires |clock| == |entries| && i < |entries| && IsLastWith(entries, entries[i].Id(), i)
    ensures var r, id := RouteEach(s, entries, clock, awaited, capacity), entries[i].Id();
      r.Some? ==>
        if id.url in awaited then id in r.value.escrowed && r.value.escrowed[id] == Escrowed(clock[i], entries[i])
        else id in r.value.postings && r.value.postings[id] == entries[i]
    decreases |entries|
  {
    var r := Route(s, entries[0], clock[0], awaited, capacity);
    if r.Some? {
      if i == 0 {
        OtherIdentitiesStay(r.value, entries[1..], clock[1..], awaited, capacity, entries[0].Id());
      } else {
        RoutingEndsWithTheLastEntry(r.value, entries[1..], clock[1..], awaited, capacity, i - 1);
      }
    }
  }

  /** Routing touches no identity but those of the entries, and neither the index for what is
      awaited nor the escrow for what is not. */
  lemma {:induction false} OtherIdentitiesStay(
    s: Stored, entries: seq<Posting>, clock: seq<int>, awaited: set<Hash>, capacity: int, id: Identity)
    requires |clock| == |entries|
    ensures var r := RouteEach(s, entries, clock, awaited, capacity);
      r.Some? ==>
        var named := exists p :: p in entries && p.Id() == id;
        && r.value.metadata == s.metadata
        && (id.url in awaited || !named ==>
              && (id in r.value.postings <==> id in s.postings)
              && (id in s.postings ==> r.value.postings[id] == s.postings[id]))
        && (id.url !in awaited || !named ==>
              && (id in r.value.escrowed <==> id in s.escrowed)
              && (id in s.escrowed ==> r.value.escrowed[id] == s.escrowed[id]))
        && (named ==> if id.url in awaited then id in r.value.escrowed else id in r.value.postings)
        && (id in s.escrowed ==> id in r.value.escrowed)
    decreases |entries|
  {
    if entries != [] {
      assert entries == [entries[0]] + entries[1..];
      var r := Route(s, entries[0], clock[0], awaited, capacity);
      if r.Some? {
        OtherIdentitiesStay(r.value, entries[1..], clock[1..], awaited, capacity, id);
        RoutingKeepsKeys(r.value, entries[1..], clock[1..], awaited, capacity);
      }
    }
  }

  /** What is indexed or escrowed stays so while a batch is routed. */
  lemma {:induction false} RoutingKeepsKeys(
    s: Stored, entries: seq<Posting>, clock: seq<int>, awaited: set<Hash>, capacity: int)
    requires |clock| == |entries|
    ensures var r := RouteEach(s, entries, clock, awaited, capacity);
      r.Some? ==> s.postings.Keys <= r.value.postings.Keys && s.escrowed.Keys <= r.value.escrowed.Keys
    decreases |entries|
  {
    if entries != [] {
      var r := Route(s, entries[0], clock[0], awaited, capacity);
      if r.Some? {
        RoutingKeepsKeys(r.value, entries[1..], clock[1..], awaited, capacity);
      }
    }
  }

  /** Metadata is stored under its url and ranked by the first of its days that is known. */
  lemma StoredByTheFirstKnownDay(s: Stored, m: Metadata)
    ensures m.hash.None? ==> StoreMetadata(s, m) == s
    ensures m.hash.Some? ==>
      var s', url := StoreMetadata(s, m), m.hash.value;
      var rank := RankOf(if m.loaded.Some? then m.loaded else if m.modified.Some? then m.modified else m.freshUntil);
      && s'.metadata == s.metadata[url := m] && s'.freshness == s.freshness[url := rank]
      && s'.order == s.order + {Ranked(rank, url)}
  {
  }

  /** Of a batch the last metadata of each url stays stored and ranks it. */
  lemma {:induction false} LastMetadataStays(s: Stored, batch: seq<Metadata>, i: nat)
    requires i < |batch| && batch[i].hash.Some?
    requires forall j | i < j < |batch| :: batch[j].hash != batch[i].hash
    ensures var s', url := ReceiveMetadata(s, batch), batch[i].hash.value;
      && url in s'.metadata && s'.metadata[url] == batch[i]
      && url in s'.freshness && s'.freshness[url] == RankOf(batch[i].Freshness())
    decreases |batch|
  {
    if i == 0 {
      StoredByTheFirstKnownDay(s, batch[0]);
      OtherMetadataStays(StoreMetadata(s, batch[0]), batch[1..], batch[0].hash.value);
    } else {
      LastMetadataStays(StoreMetadata(s, batch[0]), batch[1..], i - 1);
    }
  }

  /** A url that a batch does not name keeps its metadata and its rank. */
  lemma {:induction false} OtherMetadataStays(s: Stored, batch: seq<Metadata>, url: Hash)
    requires forall j | 0 <= j < |batch| :: batch[j].hash != Some(url)
    ensures var s' := ReceiveMetadata(s, batch);
      && (url in s'.metadata <==> url in s.metadata) && (url in s'.freshness <==> url in s.freshness)
      && (url in s.metadata ==> s'.metadata[url] == s.metadata[url])
      && (url in s.freshness ==> s'.freshness[url] == s.freshness[url])
    decreases |batch|
  {
    if batch != [] {
      StoredByTheFirstKnownDay(s, batch[0]);
      OtherMetadataStays(StoreMetadata(s, batch[0]), batch[1..], url);
    }
  }

  /** Once indexed and no longer held, a posting stays as it is while metadata arrives. */
  lemma {:induction false} MetadataLeavesIndexed(s: Stored, batch: seq<Metadata>, id: Identity)
    requires id in s.postings && id !in s.escrowed
    ensures var s' := ReceiveMetadata(s, batch);
      id in s'.postings && s'.postings[id] == s.postings[id] && id !in s'.escrowed
    decreases |batch|
  {
    if batch != [] {
      MetadataLeavesIndexed(StoreMetadata(s, batch[0]), batch[1..], id);
    }
  }

  /** Metadata moves exactly the postings that wait for it into the index, as last held. */
  lemma {:induction false} MetadataReleasesWhatWaits(s: Stored, batch: seq<Metadata>, id: Identity, capacity: int)
    requires Consistent(s, capacity) && id in s.escrowed
    ensures var s' := ReceiveMetadata(s, batch);
      if exists m :: m in batch && m.hash == Some(id.url)
      then id !in s'.escrowed && id in s'.postings && s'.postings[id] == s.escrowed[id].posting
      else id in s'.escrowed && s'.escrowed[id] == s.escrowed[id]
    decreases |batch|
  {
    if batch != [] {
      var s1 := StoreMetadata(s, batch[0]);
      StoreKeepsConsistent(s, batch[0], capacity);
      if batch[0].hash == Some(id.url) {
        assert batch[0] in batch;
        assert id in s1.postings && s1.postings[id] == s.escrowed[id].posting;
        MetadataLeavesIndexed(s1, batch[1..], id);
      } else {
        MetadataReleasesWhatWaits(s1, batch[1..], id, capacity);
        assert forall m :: m in batch && m.hash == Some(id.url) ==> m in batch[1..];
        assert forall m :: m in batch[1..] ==> m in batch;
      }
    }
  }

  /** A held posting leaves the escrow in two ways only: its metadata arrives and it is indexed
      with its last held value, or its hold is among the oldest placed before the cutoff. */
  lemma {:induction false} HeldPostingsLeaveOnlyTwoWays(s: Stored, e: Event, capacity: int, id: Identity)
    requires Consistent(s, capacity)
    requires id in s.escrowed && id !in Step(s, e, capacity).escrowed
    ensures match e
      case MetadataArrives(batch) =>
        && (exists m :: m in batch && m.hash == Some(id.url))
        && id in Step(s, e, capacity).postings
        && Step(s, e, capacity).postings[id] == s.escrowed[id].posting
      case HoldsExpire(cutoff, limit) =>
        && s.escrowed[id].heldAt < cutoff
        && Hold(s.escrowed[id].heldAt, id) in ExpiredHolds(s, cutoff, limit)
      case _ => false
  {
    match e
    case PostingsArrive(entries, clock) =>
      if |clock| == |entries| {
        OtherIdentitiesStay(s, entries, clock, MissingUrls(s, entries), capacity, id);
      }
    case MetadataArrives(batch) => MetadataReleasesWhatWaits(s, batch, id, capacity);
    case HoldsExpire(cutoff, limit) =>
      HoldsDistinct(HoldsBefore(s, cutoff));
      FirstOfAscending(HoldsBefore(s, cutoff), HoldKey, limit);
      var h :| h in ExpiredHolds(s, cutoff, limit) && h.id == id;
      assert h in Elements(ExpiredHolds(s, cutoff, limit));
    case StalestPurged(limit) =>
    case PostingsHandedOff(held) => HandOffRemovesTheHeld(s, held);
    case Aborted =>
  }

  lemma ExpiredHoldsAreTheOldest(s: Stored, cutoff: int, limit: int)
    ensures var expired := ExpiredHolds(s, cutoff, limit);
      && (forall h :: h in expired ==> h in s.holds && h.heldAt < cutoff)
      && (forall h, k :: h in expired && k in s.holds && k !in expired ==> h.heldAt <= k.heldAt)
      && |Elements(expired)| == |expired|
  {
    var before := HoldsBefore(s, cutoff);
    HoldsDistinct(before);
    FirstOfAscending(before, HoldKey, limit);
    var expired := ExpiredHolds(s, cutoff, limit);
    AscendsIsDistinct(expired, HoldKey);
    forall h | h in expired ensures h in before {
      assert h in Elements(expired);
    }
    forall h, k | h in expired && k in s.holds && k !in expired ensures h.heldAt <= k.heldAt {
      assert h in Elements(expired);
      if k in before {
        assert Less(HoldKey(h), HoldKey(k));
      }
    }
  }

  lemma ExpiredWereBefore(s: Stored, cutoff: int, limit: int)
    ensures forall h :: h in s.holds && h !in Expire(s, cutoff, limit).holds ==> h.heldAt < cutoff
  {
    ExpiredHoldsAreTheOldest(s, cutoff, limit);
  }

  /** Expiry drops the oldest holds before the cutoff, as many as the limit allows. */
  lemma {:induction false} ExpiryDropsTheOldest(s: Stored, cutoff: int, limit: int, capacity: int)
    requires Consistent(s, capacity)
    ensures var expired, s' := ExpiredHolds(s, cutoff, limit), Expire(s, cutoff, limit);
      && |expired| == (if limit <= 0 then 0 else Min(limit, |HoldsBefore(s, cutoff)|))
      && s'.holds == s.holds - Elements(expired)
      && |s'.escrowed| == |s.escrowed| - |expired|
      && (forall h :: h in expired ==> h in s.holds && h.heldAt < cutoff)
      && (forall h, k :: h in expired && k in s'.holds ==> h.heldAt <= k.heldAt)
  {
    var expired, s' := ExpiredHolds(s, cutoff, limit), Expire(s, cutoff, limit);
    ExpiredHoldsAreTheOldest(s, cutoff, limit);
    ExpireKeepsConsistent(s, cutoff, limit, capacity);
    OneHoldEach(s, capacity);
    OneHoldEach(s', capacity);
    SmallerSet(Elements(expired), s.holds);
  }

  function Min(a: int, b: int): int {
    if a < b then a else b
  }
}
