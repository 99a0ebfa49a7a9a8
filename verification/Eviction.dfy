/** What eviction removes, and when it makes progress. */
module Eviction {
  import opened CalendarDays
  import opened Cardinalities
  import opened Wrappers
  import opened KeyOrder
  import opened Decimals
  import opened Collections
  import opened Lifecycle

  // ---------------------------------------------------------------- what is removed

  lemma PurgeUrlsRemoves(s: Stored, urls: set<Hash>)
    requires s.freshness.Keys == s.metadata.Keys
    ensures PurgeUrls(s, urls).metadata == s.metadata - urls
    ensures PurgeUrls(s, urls).freshness == s.freshness - urls
  {
    assert s.metadata - urls == s.metadata - (urls * s.metadata.Keys);
    assert s.freshness - urls == s.freshness - (urls * s.metadata.Keys);
  }

  /** A sweep batch leaves nothing of a selected url and everything of the others. */
  lemma {:induction false} PurgeClearsSelectedUrlsOnly(s: Stored, limit: int, capacity: int)
    requires Consistent(s, capacity)
    ensures var urls, s' := Elements(StalestUrls(s, limit)), PurgeStalest(s, limit);
      && s'.postings == (map id | id in s.postings && id.url !in urls :: s.postings[id])
      && s'.words == (set r | r in s.words && r.url !in urls)
      && s'.referenced == s.referenced - urls
      && s'.metadata == s.metadata - urls
      && s'.freshness == s.freshness - urls
      && s'.escrowed == s.escrowed && s'.holds == s.holds
  {
    var urls := Elements(StalestUrls(s, limit));
    PurgeClearsIndex(s, urls);
    PurgeUrlsRemoves(PurgePostingsOf(s, urls), urls);
  }

  // ------------------------------------------------------------- the order's drift

  /** The order has every url once, at its current rank, and nothing else. */
  ghost predicate RanksExactly(order: set<Ranked>, freshness: map<Hash, Rank>) {
    forall r :: r in order <==> r.url in freshness && freshness[r.url] == r.rank
  }

  lemma RankingStaysExactIff(order: set<Ranked>, freshness: map<Hash, Rank>, url: Hash, rank: Rank)
    requires RanksExactly(order, freshness)
    ensures RanksExactly(order + {Ranked(rank, url)}, freshness[url := rank])
       <==> url !in freshness || freshness[url] == rank
  {
    var order', freshness' := order + {Ranked(rank, url)}, freshness[url := rank];
    if url in freshness && freshness[url] != rank {
      assert Ranked(freshness[url], url) in order';
      assert freshness'[url] == rank;
    } else {
      forall r ensures r in order' <==> r.url in freshness' && freshness'[r.url] == r.rank {
      }
    }
  }

  /** Storing metadata keeps the order exact precisely when the url is new or keeps its rank:
      a url's previous rank is never taken out of the order. */
  lemma OrderStaysExactIff(s: Stored, m: Metadata)
    requires RanksExactly(s.order, s.freshness)
    ensures RanksExactly(StoreMetadata(s, m).order, StoreMetadata(s, m).freshness) <==>
      m.hash.None? || m.hash.value !in s.freshness || s.freshness[m.hash.value] == RankOf(m.Freshness())
  {
    if m.hash.Some? {
      RankingStaysExactIff(s.order, s.freshness, m.hash.value, RankOf(m.Freshness()));
    }
  }

  lemma PurgeKeepsOrderExact(s: Stored, urls: set<Hash>)
    requires RanksExactly(s.order, s.freshness)
    requires s.freshness.Keys == s.metadata.Keys
    ensures RanksExactly(PurgeUrls(s, urls).order, PurgeUrls(s, urls).freshness)
  {
    PurgeUrlsRemoves(s, urls);
    var s' := PurgeUrls(s, urls);
    forall r ensures r in s'.order <==> r.url in s'.freshness && s'.freshness[r.url] == r.rank {
      if r.url in urls && r.url in s.freshness && r.rank == s.freshness[r.url] {
        assert r !in s'.order;
      }
    }
  }

  lemma {:induction false} RoutingKeepsOrder(
    s: Stored, entries: seq<Posting>, clock: seq<int>, awaited: set<Hash>, capacity: int)
    requires |clock| == |entries|
    ensures var r := RouteEach(s, entries, clock, awaited, capacity);
      r.Some? ==> r.value.order == s.order && r.value.freshness == s.freshness
    decreases |entries|
  {
    if entries != [] {
      var r := Route(s, entries[0], clock[0], awaited, capacity);
      if r.Some? {
        RoutingKeepsOrder(r.value, entries[1..], clock[1..], awaited, capacity);
      }
    }
  }

  lemma {:induction false} OtherStepsKeepOrderExact(s: Stored, e: Event, capacity: int)
    requires Consistent(s, capacity) && RanksExactly(s.order, s.freshness) && !e.MetadataArrives?
    ensures RanksExactly(Step(s, e, capacity).order, Step(s, e, capacity).freshness)
  {
    match e
    case PostingsArrive(entries, clock) =>
      if |clock| == |entries| {
        RoutingKeepsOrder(s, entries, clock, MissingUrls(s, entries), capacity);
      }
    case HoldsExpire(cutoff, limit) =>
    case StalestPurged(limit) =>
      var urls := Elements(StalestUrls(s, limit));
      PurgeKeepsOrderExact(PurgePostingsOf(s, urls), urls);
    case PostingsHandedOff(held) => HandOffRemovesTheHeld(s, held);
    case Aborted =>
  }

  // ------------------------------------------------------- exact orders over runs

  /** The metadata gives a stored url another rank than the one it has. */
  predicate RanksAnew(s: Stored, m: Metadata) {
    m.hash.Some? && m.hash.value in s.freshness && s.freshness[m.hash.value] != RankOf(m.Freshness())
  }

  predicate BatchRanksAnew(s: Stored, batch: seq<Metadata>)
    decreases |batch|
  {
    batch != [] && (RanksAnew(s, batch[0]) || BatchRanksAnew(StoreMetadata(s, batch[0]), batch[1..]))
  }

  /** No metadata takes a rank out of the order, so a url that has two keeps both. */
  lemma {:induction false} TwoRanksStay(s: Stored, batch: seq<Metadata>, a: Ranked, b: Ranked)
    requires a in s.order && b in s.order && a.url == b.url && a.rank != b.rank
    ensures !RanksExactly(ReceiveMetadata(s, batch).order, ReceiveMetadata(s, batch).freshness)
    decreases |batch|
  {
    if batch != [] {
      TwoRanksStay(StoreMetadata(s, batch[0]), batch[1..], a, b);
    }
  }

  /** A batch of metadata keeps the order exact precisely when none of it ranks a url anew. */
  lemma {:induction false} BatchKeepsOrderExactIff(s: Stored, batch: seq<Metadata>)
    requires RanksExactly(s.order, s.freshness)
    ensures RanksExactly(ReceiveMetadata(s, batch).order, ReceiveMetadata(s, batch).freshness)
       <==> !BatchRanksAnew(s, batch)
    decreases |batch|
  {
    if batch != [] {
      var m, s' := batch[0], StoreMetadata(s, batch[0]);
      OrderStaysExactIff(s, m);
      if RanksAnew(s, m) {
        var url := m.hash.value;
        TwoRanksStay(s', batch[1..], Ranked(s.freshness[url], url), Ranked(RankOf(m.Freshness()), url));
      } else {
        BatchKeepsOrderExactIff(s', batch[1..]);
      }
    }
  }

  predicate RunRanksAnew(s: Stored, events: seq<Event>, capacity: int)
    decreases |events|
  {
    && events != []
    && ((events[0].MetadataArrives? && BatchRanksAnew(s, events[0].batch))
        || RunRanksAnew(Step(s, events[0], capacity), events[1..], capacity))
  }

  lemma {:induction false} RunKeepsOrderExact(s: Stored, events: seq<Event>, capacity: int)
    requires Consistent(s, capacity) && RanksExactly(s.order, s.freshness)
    requires !RunRanksAnew(s, events, capacity)
    ensures RanksExactly(Run(s, events, capacity).order, Run(s, events, capacity).freshness)
    decreases |events|
  {
    if events != [] {
      var e := events[0];
      StepKeepsConsistent(s, e, capacity);
      if e.MetadataArrives? {
        BatchKeepsOrderExactIff(s, e.batch);
      } else {
        OtherStepsKeepOrderExact(s, e, capacity);
      }
      RunKeepsOrderExact(Step(s, e, capacity), events[1..], capacity);
    }
  }

  /** On every run that never ranks a stored url anew, the order never drifts. */
  lemma OrderIsExactUnlessRankedAnew(events: seq<Event>, capacity: int)
    requires !RunRanksAnew(EMPTY, events, capacity)
    ensures var s := Run(EMPTY, events, capacity);
      && RanksExactly(s.order, s.freshness)
      && s.freshness.Keys == s.metadata.Keys
      && forall u :: u in s.metadata ==> s.freshness[u] == RankOf(s.metadata[u].Freshness())
  {
    EveryRunIsConsistent([], capacity);
    EveryRunIsConsistent(events, capacity);
    RunKeepsOrderExact(EMPTY, events, capacity);
  }

  /** After the first k transactions of a run the order is exact. */
  ghost predicate ExactAfter(s: Stored, events: seq<Event>, k: nat, capacity: int)
    requires k <= |events|
  {
    var s' := Run(s, events[..k], capacity);
    RanksExactly(s'.order, s'.freshness)
  }

  lemma ExactOneLater(s: Stored, events: seq<Event>, k: nat, capacity: int)
    requires k < |events|
    ensures ExactAfter(s, events, k + 1, capacity)
       <==> ExactAfter(Step(s, events[0], capacity), events[1..], k, capacity)
  {
    assert events[..k + 1][0] == events[0] && events[..k + 1][1..] == events[1..][..k];
  }

  lemma StepKeepsOrderExactIff(s: Stored, e: Event, capacity: int)
    requires Consistent(s, capacity) && RanksExactly(s.order, s.freshness)
    ensures RanksExactly(Step(s, e, capacity).order, Step(s, e, capacity).freshness)
       <==> !(e.MetadataArrives? && BatchRanksAnew(s, e.batch))
  {
    if e.MetadataArrives? {
      BatchKeepsOrderExactIff(s, e.batch);
    } else {
      OtherStepsKeepOrderExact(s, e, capacity);
    }
  }

  /** The order is exact after every transaction of a run precisely when none ranks a stored url anew. */
  lemma {:induction false} OrderNeverDriftsIff(s: Stored, events: seq<Event>, capacity: int)
    requires Consistent(s, capacity) && RanksExactly(s.order, s.freshness)
    ensures (forall k: nat | k <= |events| :: ExactAfter(s, events, k, capacity))
       <==> !RunRanksAnew(s, events, capacity)
    decreases |events|
  {
    assert ExactAfter(s, events, 0, capacity);
    if events != [] {
      var e, next, others := events[0], Step(s, events[0], capacity), events[1..];
      StepKeepsConsistent(s, e, capacity);
      StepKeepsOrderExactIff(s, e, capacity);
      ExactOneLater(s, events, 0, capacity);
      assert ExactAfter(next, others, 0, capacity) <==> RanksExactly(next.order, next.freshness);
      if RanksExactly(next.order, next.freshness) {
        OrderNeverDriftsIff(next, others, capacity);
        forall k: nat | 0 < k <= |events|
          ensures ExactAfter(s, events, k, capacity) <==> ExactAfter(next, others, k - 1, capacity)
        {
          ExactOneLater(s, events, k - 1, capacity);
        }
        forall k: nat | k <= |others|
          ensures ExactAfter(s, events, k + 1, capacity) <==> ExactAfter(next, others, k, capacity)
        {
          ExactOneLater(s, events, k, capacity);
        }
      } else {
        assert !ExactAfter(s, events, 1, capacity);
      }
    }
  }

  /** So it is from empty storage, where the order starts out exact. */
  lemma OrderNeverDriftsFromEmptyIff(events: seq<Event>, capacity: int)
    ensures (forall k: nat | k <= |events| :: ExactAfter(EMPTY, events, k, capacity))
       <==> !RunRanksAnew(EMPTY, events, capacity)
  {
    EveryRunIsConsistent([], capacity);
    OrderNeverDriftsIff(EMPTY, events, capacity);
  }

  // ------------------------------------------------------------------ progress

  /** Some url among the first entries of the order has stored metadata. */
  predicate NamesStoredUrl(s: Stored, limit: int) {
    exists u :: u in StalestUrls(s, limit) && u in s.metadata
  }

  lemma RemovalShrinksIff<K, V>(m: map<K, V>, gone: set<K>)
    ensures |m - gone| <= |m|
    ensures |m - gone| < |m| <==> exists k :: k in gone && k in m
  {
    var hit := m.Keys * gone;
    SmallerSet(hit, m.Keys);
    assert (m - gone).Keys == m.Keys - hit;
    assert |m - gone| == |(m - gone).Keys| && |m| == |m.Keys|;
    forall k | k in gone && k in m ensures k in hit {
    }
    if hit != {} {
      var k :| k in hit;
    }
  }

  /** A sweep batch deletes a url precisely when the first entries of the order name a stored one. */
  lemma BatchProgressesIff(s: Stored, limit: int, capacity: int)
    requires Consistent(s, capacity)
    ensures |PurgeStalest(s, limit).metadata| < |s.metadata| <==> NamesStoredUrl(s, limit)
  {
    PurgeClearsSelectedUrlsOnly(s, limit, capacity);
    RemovalShrinksIff(s.metadata, Elements(StalestUrls(s, limit)));
  }

  lemma NoWordsOfUnknownUrls(s: Stored, urls: set<Hash>, capacity: int)
    requires Consistent(s, capacity) && urls !! s.metadata.Keys
    ensures forall r :: r in s.words ==> r.url !in urls
  {
    forall r | r in s.words ensures r.url !in urls {
      assert Identity(r.word, r.url) in s.postings;
    }
  }

  lemma PurgeOfUnreferencedUrls(s: Stored, urls: set<Hash>)
    requires forall r :: r in s.words ==> r.url !in urls
    ensures PurgePostingsOf(s, urls) == s
  {
    var gone := set r | r in s.words && r.url in urls;
    assert gone == {};
    var ids, us := (set r | r in gone :: Identity(r.word, r.url)), (set r | r in gone :: r.url);
    assert ids == {} && us == {};
    assert s.postings - ids == s.postings && s.words - gone == s.words && s.referenced - us == s.referenced;
  }

  lemma PurgeOfUnknownUrls(s: Stored, urls: set<Hash>)
    requires urls !! s.metadata.Keys
    ensures PurgeUrls(s, urls) == s
  {
    assert urls * s.metadata.Keys == {};
    assert s.metadata - {} == s.metadata && s.freshness - {} == s.freshness;
  }

  /** A batch without progress changes nothing, so every later batch finds the same urls. */
  lemma {:induction false} BatchWithoutProgressIsStuck(s: Stored, limit: int, capacity: int)
    requires Consistent(s, capacity) && !NamesStoredUrl(s, limit)
    ensures PurgeStalest(s, limit) == s
  {
    var urls := Elements(StalestUrls(s, limit));
    NoWordsOfUnknownUrls(s, urls, capacity);
    PurgeOfUnreferencedUrls(s, urls);
    PurgeOfUnknownUrls(s, urls);
  }

  /** While the order is exact, a batch always deletes a url if any is stored. */
  lemma {:induction false} ExactOrderMakesProgress(s: Stored, limit: int, capacity: int)
    requires Consistent(s, capacity) && RanksExactly(s.order, s.freshness)
    requires limit > 0 && s.metadata != map[]
    ensures |PurgeStalest(s, limit).metadata| < |s.metadata|
  {
    RankedDistinct(s.order);
    var xs := Ascending(s.order, RankedKey);
    var u :| u in s.metadata;
    assert Ranked(s.freshness[u], u) in xs;
    assert xs[0] in xs;
    assert StalestUrls(s, limit)[0] == xs[0].url;
    assert xs[0].url in StalestUrls(s, limit);
    BatchProgressesIff(s, limit, capacity);
  }

  // -------------------------------------------------------------------- sweeps

  /** The step is a sweep batch of so many urls. */
  ghost predicate IsBatch(step: Stored -> Stored, limit: int) {
    forall s {:trigger PurgeStalest(s, limit)} :: step(s) == PurgeStalest(s, limit)
  }

  lemma BatchStep(limit: int) returns (step: Stored -> Stored)
    ensures IsBatch(step, limit)
  {
    step := s => PurgeStalest(s, limit);
  }

  /** Every state after the first comes from the one before it by the step. */
  ghost predicate Follow(states: seq<Stored>, step: Stored -> Stored) {
    forall i, j | 0 <= i && j == i + 1 && j < |states| :: states[j] == step(states[i])
  }

  lemma BatchNeverAdds(s: Stored, step: Stored -> Stored, limit: int)
    requires IsBatch(step, limit)
    ensures |step(s).metadata| <= |s.metadata|
  {
    assert step(s) == PurgeStalest(s, limit);
    RemovalShrinksIff(s.metadata, Elements(StalestUrls(s, limit)) * s.metadata.Keys);
  }

  lemma BatchKeepsConsistent(s: Stored, step: Stored -> Stored, limit: int, capacity: int)
    requires IsBatch(step, limit) && Consistent(s, capacity)
    ensures Consistent(step(s), capacity)
  {
    assert step(s) == PurgeStalest(s, limit);
    PurgeKeepsConsistent(s, Elements(StalestUrls(s, limit)), capacity);
  }

  lemma FirstBatchDeletes(s: Stored, step: Stored -> Stored, limit: int, capacity: int)
    requires IsBatch(step, limit) && Consistent(s, capacity) && RanksExactly(s.order, s.freshness)
    requires limit > 0 && s.metadata != map[]
    ensures |step(s).metadata| < |s.metadata|
  {
    assert step(s) == PurgeStalest(s, limit);
    ExactOrderMakesProgress(s, limit, capacity);
  }

  lemma {:induction false} BatchesKeepConsistent(
    states: seq<Stored>, step: Stored -> Stored, limit: int, capacity: int)
    requires IsBatch(step, limit) && Follow(states, step) && states != [] && Consistent(states[0], capacity)
    ensures Consistent(states[|states| - 1], capacity)
    decreases |states|
  {
    var last := |states| - 1;
    if last > 0 {
      BatchesKeepConsistent(states[..last], step, limit, capacity);
      BatchKeepsConsistent(states[last - 1], step, limit, capacity);
    }
  }

  /** While the order is exact, the first batch of a sweep deletes, and no later one undoes it. */
  lemma {:induction false} FewerAfterTheFirst(
    states: seq<Stored>, step: Stored -> Stored, limit: int, capacity: int)
    requires IsBatch(step, limit) && Follow(states, step) && limit > 0 && |states| > 1
    requires Consistent(states[0], capacity) && RanksExactly(states[0].order, states[0].freshness)
    requires states[0].metadata != map[]
    ensures |states[|states| - 1].metadata| < |states[0].metadata|
    decreases |states|
  {
    var last := |states| - 1;
    if last == 1 {
      FirstBatchDeletes(states[0], step, limit, capacity);
    } else {
      FewerAfterTheFirst(states[..last], step, limit, capacity);
      BatchNeverAdds(states[last - 1], step, limit);
    }
  }

  // ------------------------------------------------------------ stalest means oldest

  /** A day that the rank writes in eight digits. */
  predicate Rankable(day: Option<CalendarDay>) {
    match day
    case None => true
    case Some(d) => 0 <= d.year <= 9999 && 1 <= d.month <= 12 && 1 <= d.day <= 31
  }

  /** An unknown day is earlier than every known one. */
  predicate Earlier(a: Option<CalendarDay>, b: Option<CalendarDay>) {
    b.Some? &&
    match a
    case None => true
    case Some(x) =>
      var y := b.value;
      x.year < y.year || (x.year == y.year && (x.month < y.month || (x.month == y.month && x.day < y.day)))
  }

  function DayValue(day: Option<CalendarDay>): CalendarDay {
    match day
    case None => CalendarDay(0, 0, 0)
    case Some(d) => d
  }

  lemma RankIsFixed(day: Option<CalendarDay>)
    requires Rankable(day)
    ensures var d := DayValue(day);
      RankOf(day) == FixedDigits(d.year, 4) + (FixedDigits(d.month, 2) + FixedDigits(d.day, 2))
  {
    var d := DayValue(day);
    assert Pow10(2) == 100 && Pow10(4) == 10000;
    PaddedIsFixed(d.year, 4);
    PaddedIsFixed(d.month, 2);
    PaddedIsFixed(d.day, 2);
  }

  lemma TwoPartsOrder(a: nat, b: nat, w: nat, s: string, t: string)
    requires a < Pow10(w) && b < Pow10(w)
    ensures Less(Codes(FixedDigits(a, w) + s), Codes(FixedDigits(b, w) + t))
       <==> a < b || (a == b && Less(Codes(s), Codes(t)))
  {
    var x, y := FixedDigits(a, w), FixedDigits(b, w);
    CodesAppend(x, s);
    CodesAppend(y, t);
    LessByParts(Codes(x), Codes(y), Codes(s), Codes(t));
    FixedDigitsOrder(a, b, w);
    CodesInjective(x, y);
  }

  /** For years 0 to 9999 the text order of ranks is the order of days. */
  lemma RankOrderIsDayOrder(a: Option<CalendarDay>, b: Option<CalendarDay>)
    requires Rankable(a) && Rankable(b)
    ensures Less(Codes(RankOf(a)), Codes(RankOf(b))) <==> Earlier(a, b)
  {
    var x, y := DayValue(a), DayValue(b);
    RankIsFixed(a);
    RankIsFixed(b);
    assert Pow10(2) == 100 && Pow10(4) == 10000;
    TwoPartsOrder(x.year, y.year, 4, FixedDigits(x.month, 2) + FixedDigits(x.day, 2),
                  FixedDigits(y.month, 2) + FixedDigits(y.day, 2));
    TwoPartsOrder(x.month, y.month, 2, FixedDigits(x.day, 2), FixedDigits(y.day, 2));
    FixedDigitsOrder(x.day, y.day, 2);
  }

  lemma RankedKeyOrder(a: Ranked, b: Ranked)
    requires |a.rank| == |b.rank|
    ensures Less(RankedKey(a), RankedKey(b)) <==>
      Less(Codes(a.rank), Codes(b.rank)) || (a.rank == b.rank && a.url < b.url)
  {
    LessByParts(Codes(a.rank), Codes(b.rank), [TEXT_END, a.url], [TEXT_END, b.url]);
    assert RankedKey(a) == Codes(a.rank) + [TEXT_END, a.url];
    assert RankedKey(b) == Codes(b.rank) + [TEXT_END, b.url];
    LessPair(TEXT_END, TEXT_END, a.url, b.url);
    CodesInjective(a.rank, b.rank);
  }

  /** The entries of the order that a batch takes its urls from. */
  function StalestEntries(s: Stored, limit: int): (first: seq<Ranked>)
    ensures |first| == |StalestUrls(s, limit)|
    ensures forall j :: 0 <= j < |first| ==> StalestUrls(s, limit)[j] == first[j].url
  {
    RankedDistinct(s.order);
    FirstOf(Ascending(s.order, RankedKey), limit)
  }

  lemma UrlIsSelected(s: Stored, limit: int, b: Ranked)
    requires b in StalestEntries(s, limit)
    ensures b.url in StalestUrls(s, limit)
  {
    var first := StalestEntries(s, limit);
    var j :| 0 <= j < |first| && first[j] == b;
    assert StalestUrls(s, limit)[j] == b.url;
  }

  lemma EntryIsFirst(s: Stored, limit: int, r: Ranked, b: Ranked)
    requires r in StalestEntries(s, limit) && b in s.order && b.url !in StalestUrls(s, limit)
    ensures r in s.order && Less(RankedKey(r), RankedKey(b))
  {
    RankedDistinct(s.order);
    FirstOfAscending(s.order, RankedKey, limit);
    if b in StalestEntries(s, limit) {
      UrlIsSelected(s, limit, b);
    }
    assert r in Elements(StalestEntries(s, limit)) && b !in Elements(StalestEntries(s, limit));
  }

  lemma SelectedEntry(s: Stored, limit: int, u: Hash) returns (r: Ranked)
    requires u in StalestUrls(s, limit)
    ensures r in StalestEntries(s, limit) && r.url == u
  {
    var urls := StalestUrls(s, limit);
    var i :| 0 <= i < |urls| && urls[i] == u;
    r := StalestEntries(s, limit)[i];
  }

  lemma EntriesAreInTheOrder(s: Stored, limit: int, r: Ranked)
    requires r in StalestEntries(s, limit)
    ensures r in s.order
  {
    RankedDistinct(s.order);
    FirstOfAscending(s.order, RankedKey, limit);
    assert r in Elements(StalestEntries(s, limit));
  }

  /** While the order is exact, no url that a batch leaves is staler than one it selects. */
  lemma {:induction false} BatchSelectsTheStalest(s: Stored, limit: int, capacity: int, u: Hash, v: Hash)
    requires Consistent(s, capacity) && RanksExactly(s.order, s.freshness)
    requires u in StalestUrls(s, limit) && v in s.metadata && v !in StalestUrls(s, limit)
    requires forall w :: w in s.metadata ==> Rankable(s.metadata[w].Freshness())
    ensures u in s.metadata && !Earlier(s.metadata[v].Freshness(), s.metadata[u].Freshness())
  {
    var a := SelectedEntry(s, limit, u);
    var b := Ranked(s.freshness[v], v);
    EntriesAreInTheOrder(s, limit, a);
    EntryIsFirst(s, limit, a, b);
    NotEarlier(a, b, s.metadata[u].Freshness(), s.metadata[v].Freshness());
  }

  lemma NotEarlier(a: Ranked, b: Ranked, x: Option<CalendarDay>, y: Option<CalendarDay>)
    requires Rankable(x) && Rankable(y) && a.rank == RankOf(x) && b.rank == RankOf(y)
    requires Less(RankedKey(a), RankedKey(b))
    ensures !Earlier(y, x)
  {
    RankIsFixed(x);
    RankIsFixed(y);
    RankedKeyOrder(a, b);
    RankOrderIsDayOrder(y, x);
    if Less(Codes(b.rank), Codes(a.rank)) {
      LessAsymmetric(Codes(b.rank), Codes(a.rank));
    }
  }

  // -------------------------------------------------- an order that has drifted

  lemma StalestIsTheLeast(s: Stored, r: Ranked)
    requires IsLeast(r, s.order, RankedKey)
    ensures StalestUrls(s, 1) == [r.url]
  {
    RankedDistinct(s.order);
    LeastUnique(r, Least(s.order, RankedKey), s.order, RankedKey);
  }

  lemma LeastOfTwo(order: set<Ranked>, a: Ranked, b: Ranked, early: Option<CalendarDay>, late: Option<CalendarDay>)
    requires Rankable(early) && Rankable(late) && Earlier(early, late)
    requires a.rank == RankOf(early) && b.rank == RankOf(late) && order == {a, b}
    ensures a.rank != b.rank && IsLeast(a, order, RankedKey)
  {
    RankIsFixed(early);
    RankIsFixed(late);
    RankOrderIsDayOrder(early, late);
    LessIrreflexive(Codes(a.rank));
    RankedKeyOrder(a, b);
  }

  function Dated(url: Hash, day: Option<CalendarDay>): Metadata {
    Metadata(Some(url), day, None, None, [])
  }

  lemma StoreRanks(s: Stored, url: Hash, day: Option<CalendarDay>)
    ensures var s' := StoreMetadata(s, Dated(url, day));
      && s'.metadata == s.metadata[url := Dated(url, day)]
      && s'.order == s.order + {Ranked(RankOf(day), url)}
      && s'.freshness == s.freshness[url := RankOf(day)]
  {
  }

  lemma PurgeOfOne(s: Stored, url: Hash)
    requires url in s.metadata && url in s.freshness && StalestUrls(s, 1) == [url]
    ensures var s' := PurgeStalest(s, 1);
      && s'.metadata == s.metadata - {url}
      && s'.order == s.order - {Ranked(s.freshness[url], url)}
  {
    assert Elements([url]) == {url};
    assert {url} * s.metadata.Keys == {url};
    assert (set u | u in {url} && u in s.freshness :: Ranked(s.freshness[u], u)) == {Ranked(s.freshness[url], url)};
  }

  lemma StoredAgainAndPurged(s: Stored, url: Hash, early: Option<CalendarDay>, late: Option<CalendarDay>)
    requires Rankable(early) && Rankable(late) && Earlier(early, late)
    requires s == StoreMetadata(StoreMetadata(EMPTY, Dated(url, early)), Dated(url, late))
    ensures PurgeStalest(s, 1).metadata == map[]
    ensures PurgeStalest(s, 1).order == {Ranked(RankOf(early), url)}
  {
    var a, b := Ranked(RankOf(early), url), Ranked(RankOf(late), url);
    StoreRanks(EMPTY, url, early);
    StoreRanks(StoreMetadata(EMPTY, Dated(url, early)), url, late);
    assert s.order == {a, b};
    LeastOfTwo(s.order, a, b, early, late);
    StalestIsTheLeast(s, a);
    PurgeOfOne(s, url);
  }

  /** The state after a url is stored, stored again with a later day and purged, and another
      url is stored. */
  function Drifted(url: Hash, other: Hash, early: Option<CalendarDay>, late: Option<CalendarDay>): Stored {
    StoreMetadata(PurgeStalest(StoreMetadata(StoreMetadata(EMPTY, Dated(url, early)), Dated(url, late)), 1),
                  Dated(other, late))
  }

  lemma DriftedIsConsistent(url: Hash, other: Hash, early: Option<CalendarDay>, late: Option<CalendarDay>)
    ensures Consistent(Drifted(url, other, early, late), 0)
  {
    StoreKeepsConsistent(EMPTY, Dated(url, early), 0);
    var s1 := StoreMetadata(EMPTY, Dated(url, early));
    StoreKeepsConsistent(s1, Dated(url, late), 0);
    var s2 := StoreMetadata(s1, Dated(url, late));
    PurgeKeepsConsistent(s2, Elements(StalestUrls(s2, 1)), 0);
    StoreKeepsConsistent(PurgeStalest(s2, 1), Dated(other, late), 0);
  }

  lemma DriftedHolds(url: Hash, other: Hash, early: Option<CalendarDay>, late: Option<CalendarDay>, s3: Stored)
    requires url != other && Rankable(early) && Rankable(late) && Earlier(early, late)
    requires s3 == PurgeStalest(StoreMetadata(StoreMetadata(EMPTY, Dated(url, early)), Dated(url, late)), 1)
    ensures StoreMetadata(s3, Dated(other, late)).metadata == map[other := Dated(other, late)]
    ensures StoreMetadata(s3, Dated(other, late)).order
         == {Ranked(RankOf(early), url), Ranked(RankOf(late), other)}
  {
    StoredAgainAndPurged(StoreMetadata(StoreMetadata(EMPTY, Dated(url, early)), Dated(url, late)), url, early, late);
    StoreRanks(s3, other, late);
  }

  /** A url stored, stored again with a later day, and purged leaves an entry in the order that
      nothing removes.  From then on sweeps in batches of one delete nothing at all. */
  lemma {:induction false} DriftedOrderStopsEviction(url: Hash, other: Hash, early: Option<CalendarDay>, late: Option<CalendarDay>)
    requires url != other && Rankable(early) && Rankable(late) && Earlier(early, late)
    ensures var s := Drifted(url, other, early, late);
      s.metadata == map[other := Dated(other, late)] && PurgeStalest(s, 1) == s
  {
    DriftedIsConsistent(url, other, early, late);
    var s2 := StoreMetadata(StoreMetadata(EMPTY, Dated(url, early)), Dated(url, late));
    DriftedHolds(url, other, early, late, PurgeStalest(s2, 1));
    StuckOnTheOrphan(Drifted(url, other, early, late), url, other, early, late, 0);
  }

  lemma StuckOnTheOrphan(s: Stored, url: Hash, other: Hash, early: Option<CalendarDay>, late: Option<CalendarDay>, capacity: int)
    requires Consistent(s, capacity) && url !in s.metadata
    requires Rankable(early) && Rankable(late) && Earlier(early, late)
    requires s.order == {Ranked(RankOf(early), url), Ranked(RankOf(late), other)}
    ensures PurgeStalest(s, 1) == s
  {
    var a, b := Ranked(RankOf(early), url), Ranked(RankOf(late), other);
    LeastOfTwo(s.order, a, b, early, late);
    StalestIsTheLeast(s, a);
    BatchWithoutProgressIsStuck(s, 1, capacity);
  }
}
