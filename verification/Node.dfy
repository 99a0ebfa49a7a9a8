/** The node's collections as the services update them, transaction by transaction. */
module Node {
  import opened CalendarDays
  import opened Cardinalities
  import opened Wrappers
  import opened KeyOrder
  import opened Collections
  import opened Lifecycle
  import opened Transactions
  import opened Eviction

  /** What a sender of postings is told.  Busy, cancelled and refused receipts commit nothing. */
  datatype Receipt = Busy | Cancelled | Accepted(unknown: seq<Hash>)

  /** What a sender of metadata is told. */
  datatype UrlReceipt = UrlBusy | UrlCancelled | UrlAccepted(double: nat)

  class Vault {
    const capacity: int

    var postings: map<Identity, Posting>
    var words: set<Reference>
    var referenced: set<Hash>
    var metadata: map<Hash, Metadata>
    var order: set<Ranked>
    var freshness: map<Hash, Rank>
    var escrowed: map<Identity, Escrowed>
    var holds: set<Hold>

    function State(): Stored
      reads this
    {
      Stored(postings, words, referenced, metadata, order, freshness, escrowed, holds)
    }

    ghost predicate Valid()
      reads this
    {
      Consistent(State(), capacity)
    }

    constructor (capacity: int)
      ensures Valid() && State() == EMPTY && this.capacity == capacity
    {
      this.capacity := capacity;
      postings, words, referenced, metadata := map[], {}, {}, map[];
      order, freshness, escrowed, holds := {}, map[], map[], {};
      new;
      EveryRunIsConsistent([], capacity);
    }

    /** Discards what an aborted transaction staged. */
    method Restore(s: Stored)
      modifies this
      ensures State() == s
    {
      postings, words, referenced, metadata := s.postings, s.words, s.referenced, s.metadata;
      order, freshness, escrowed, holds := s.order, s.freshness, s.escrowed, s.holds;
    }

    // ------------------------------------------------------------ the posting index

    method AdmitPosting(p: Posting)
      modifies this
      ensures State() == Admit(old(State()), p)
    {
      postings := postings[p.Id() := p];
      words := words + {Reference(p.url, p.word)};
      referenced := referenced + {p.url};
    }

    /** The words of the url in word order. */
    method WordsReferencing(url: Hash) returns (found: seq<Hash>)
      ensures Elements(found) == WordsOf(State(), url)
      ensures forall i, j :: 0 <= i < j < |found| ==> found[i] < found[j]
    {
      var scanned := set r | r in words && r.url == url;
      ReferencesDistinct(scanned);
      var references := Ascending(scanned, ReferenceKey);
      found := [];
      for i := 0 to |references|
        invariant |found| == i
        invariant forall j :: 0 <= j < i ==> found[j] == references[j].word
      {
        found := found + [references[i].word];
      }
      WordsFound(scanned, references, found);
    }

    static lemma WordsFound(scanned: set<Reference>, references: seq<Reference>, found: seq<Hash>)
      requires AscendsBy(references, ReferenceKey) && forall r :: r in references <==> r in scanned
      requires forall r, t :: r in scanned && t in scanned ==> r.url == t.url
      requires |found| == |references| && forall j :: 0 <= j < |found| ==> found[j] == references[j].word
      ensures forall w :: w in found <==> exists r :: r in scanned && r.word == w
      ensures forall i, j :: 0 <= i < j < |found| ==> found[i] < found[j]
    {
      forall i, j | 0 <= i < j < |found| ensures found[i] < found[j] {
        var r, t := references[i], references[j];
        assert r in references && t in references;
        LessPair(r.url, t.url, r.word, t.word);
      }
      forall w | w in found ensures exists r :: r in scanned && r.word == w {
        var j :| 0 <= j < |found| && found[j] == w;
        assert references[j] in references;
      }
      forall r | r in scanned ensures r.word in found {
        assert r in references;
        var j :| 0 <= j < |references| && references[j] == r;
        assert found[j] == r.word;
      }
    }

    method Purge(word: Hash, url: Hash) returns (deleted: bool)
      modifies this
      ensures State() == PurgePosting(old(State()), word, url)
      ensures deleted <==> Identity(word, url) in old(postings)
      ensures |postings| == |old(postings)| - if deleted then 1 else 0
    {
      deleted := Identity(word, url) in postings;
      RemovedOne(postings, Identity(word, url));
      postings := postings - {Identity(word, url)};
      words := words - {Reference(url, word)};
      var remaining := WordsReferencing(url);
      RemainingRefers(State(), url, remaining);
      if |remaining| > 0 {
        return;
      }
      referenced := referenced - {url};
    }

    static lemma RemainingRefers(s: Stored, url: Hash, remaining: seq<Hash>)
      requires Elements(remaining) == WordsOf(s, url)
      ensures |remaining| > 0 <==> Refers(s.words, url)
    {
      if |remaining| > 0 {
        assert remaining[0] in Elements(remaining);
      }
      if Refers(s.words, url) {
        var r :| r in s.words && r.url == url;
        assert r.word in Elements(remaining);
      }
    }

    // ------------------------------------------------------------------- the escrow

    method HoldBack(p: Posting, now: int) returns (full: bool)
      modifies this
      ensures full <==> p.Id() !in old(escrowed) && |old(escrowed)| >= capacity
      ensures full ==> State() == old(State()) && HoldPosting(old(State()), p, now, capacity).None?
      ensures !full ==> escrowed == old(escrowed)[p.Id() := Escrowed(now, p)] && Hold(now, p.Id()) in holds
      ensures !full ==> Some(State()) == HoldPosting(old(State()), p, now, capacity)
    {
      var id := p.Id();
      if id in escrowed {
        holds := holds - {Hold(escrowed[id].heldAt, id)};
      } else if |escrowed| >= capacity {
        return true;
      }
      escrowed := escrowed[id := Escrowed(now, p)];
      holds := holds + {Hold(now, id)};
      full := false;
    }

    method ReleaseHeld(id: Identity)
      requires id in escrowed
      modifies this
      ensures State() == ReleaseOne(old(State()), id)
    {
      var held := escrowed[id];
      AdmitPosting(held.posting.(word := id.word, url := id.url));
      DropHold(Hold(held.heldAt, id));
    }

    method DropHold(h: Hold)
      modifies this
      ensures State() == old(State()).(escrowed := old(escrowed) - {h.id}, holds := old(holds) - {h})
    {
      escrowed := escrowed - {h.id};
      holds := holds - {h};
    }

    /** Every posting that waits for the url joins the index as it was last held. */
    method ReleaseWaiting(url: Hash)
      modifies this
      ensures State() == Release(old(State()), WaitingFor(old(State()), url))
    {
      var ids := WaitingFor(State(), url);
      IdentitiesDistinct(ids);
      var waiting := Ascending(ids, EscrowKey);
      assert Elements(waiting) == ids;
      ReleaseEach(waiting);
    }

    method ReleaseEach(waiting: seq<Identity>)
      requires Elements(waiting) <= escrowed.Keys && AscendsBy(waiting, EscrowKey)
      modifies this
      ensures State() == Release(old(State()), Elements(waiting))
    {
      ghost var s := State();
      ReleaseNone(s);
      ElementsEnds(waiting);
      for i := 0 to |waiting|
        invariant Elements(waiting[..i]) <= s.escrowed.Keys
        invariant State() == Release(s, Elements(waiting[..i]))
      {
        ReleaseNext(s, waiting, i);
        ReleaseHeld(waiting[i]);
      }
    }

    /** The time from which on a hold has not yet lasted long enough to expire. */
    static function Cutoff(now: int, holdFor: int): (cutoff: int)
      ensures cutoff + holdFor == now
    {
      now - holdFor
    }

    /** One expiry batch: the oldest holds before the cutoff, no more than the limit. */
    method ExpireHolds(now: int, holdFor: int, limit: int) returns (expired: nat)
      requires Valid()
      modifies this
      ensures Valid()
      ensures State() == Expire(old(State()), Cutoff(now, holdFor), limit)
      ensures expired == |ExpiredHolds(old(State()), Cutoff(now, holdFor), limit)|
      ensures forall h | h in old(holds) && h !in holds :: h.heldAt < Cutoff(now, holdFor)
    {
      ExpireKeepsConsistent(State(), Cutoff(now, holdFor), limit, capacity);
      expired := ExpireBefore(Cutoff(now, holdFor), limit);
    }

    method ExpireBefore(cutoff: int, limit: int) returns (expired: nat)
      modifies this
      ensures State() == Expire(old(State()), cutoff, limit)
      ensures expired == |ExpiredHolds(old(State()), cutoff, limit)|
      ensures forall h | h in old(holds) && h !in holds :: h.heldAt < cutoff
    {
      ExpiredWereBefore(State(), cutoff, limit);
      if limit <= 0 {
        ExpireNone(State(), cutoff, limit);
        return 0;
      }
      expired := DropExpired(cutoff, limit);
    }

    method DropExpired(cutoff: int, limit: int) returns (expired: nat)
      requires limit > 0
      modifies this
      ensures State() == Expire(old(State()), cutoff, limit)
      ensures expired == |ExpiredHolds(old(State()), cutoff, limit)|
    {
      var dropped := HoldsPlacedBefore(cutoff, limit);
      DropEach(dropped);
      expired := |dropped|;
    }

    method DropEach(dropped: seq<Hold>)
      modifies this
      ensures State() == DropHolds(old(State()), Elements(dropped))
    {
      ghost var s := State();
      DropNone(s);
      ElementsEnds(dropped);
      for i := 0 to |dropped|
        invariant State() == DropHolds(s, Elements(dropped[..i]))
      {
        DropNext(s, dropped, i);
        DropHold(dropped[i]);
      }
    }

    method HoldsPlacedBefore(cutoff: int, limit: int) returns (found: seq<Hold>)
      requires limit > 0
      ensures found == ExpiredHolds(State(), cutoff, limit)
    {
      var scanned := HoldsBefore(State(), cutoff);
      HoldsDistinct(scanned);
      var visited := Ascending(scanned, HoldKey);
      found := [];
      var i := 0;
      while i < |visited|
        invariant 0 <= i <= |visited| && found == visited[..i] && |found| < limit
      {
        found := found + [visited[i]];
        i := i + 1;
        if |found| >= limit {
          assert found == visited[..limit];
          return;
        }
      }
    }

    // -------------------------------------------- url metadata and its staleness order

    method RankStored(url: Hash, day: Option<CalendarDay>)
      modifies this
      ensures State() == RankUrl(old(State()), url, day)
    {
      order := order + {Ranked(RankOf(day), url)};
      freshness := freshness[url := RankOf(day)];
    }

    method RankPurged(url: Hash)
      modifies this
      ensures State() == if url !in old(freshness) then old(State())
        else old(State()).(order := old(order) - {Ranked(old(freshness)[url], url)},
                           freshness := old(freshness) - {url})
    {
      if url !in freshness {
        return;
      }
      order := order - {Ranked(freshness[url], url)};
      freshness := freshness - {url};
    }

    method StalestURLs(limit: int) returns (stalest: seq<Hash>)
      ensures stalest == StalestUrls(State(), limit)
    {
      if limit <= 0 {
        return [];
      }
      RankedDistinct(order);
      var visited := Ascending(order, RankedKey);
      stalest := UrlsUpTo(visited, limit);
      StalestCollected(State(), visited, stalest, limit);
    }

    /** The visitor of the scan stops it once it has seen limit urls. */
    static method UrlsUpTo(visited: seq<Ranked>, limit: int) returns (urls: seq<Hash>)
      requires limit > 0
      ensures |urls| == |FirstOf(visited, limit)|
      ensures forall j :: 0 <= j < |urls| ==> urls[j] == visited[j].url
    {
      urls := [];
      for i := 0 to |visited|
        invariant |urls| == i < limit
        invariant forall j :: 0 <= j < i ==> urls[j] == visited[j].url
      {
        urls := urls + [visited[i].url];
        if |urls| >= limit {
          return;
        }
      }
    }

    static lemma StalestCollected(s: Stored, visited: seq<Ranked>, stalest: seq<Hash>, limit: int)
      requires DistinctBy(s.order, RankedKey) && visited == Ascending(s.order, RankedKey)
      requires |stalest| == |FirstOf(visited, limit)|
      requires forall j :: 0 <= j < |stalest| ==> stalest[j] == visited[j].url
      ensures stalest == StalestUrls(s, limit)
    {
    }

    method StoreOne(m: Metadata) returns (found: bool)
      modifies this
      ensures State() == StoreMetadata(old(State()), m)
      ensures found <==> m.hash.Some? && m.hash.value in old(metadata)
    {
      if m.hash.None? {
        return false;
      }
      var url := m.hash.value;
      found := url in metadata;
      metadata := metadata[url := m];
      RankStored(url, m.Freshness());
      ReleaseWaiting(url);
    }

    /** Receives url metadata; the context is found done once cancelAt entries are stored, and before
        the transaction begins if that is none. */
    method ReceiveUrls(batch: seq<Metadata>, atCapacity: bool, cancelAt: nat, commitRefused: bool)
      returns (receipt: UrlReceipt)
      requires Valid()
      modifies this
      ensures Valid()
      ensures receipt.UrlAccepted? <==> !atCapacity && 0 < cancelAt && |batch| <= cancelAt && !commitRefused
      ensures receipt.UrlCancelled? <==> !atCapacity && (cancelAt == 0 || cancelAt < |batch|)
      ensures receipt.UrlAccepted? ==>
        && State() == ReceiveMetadata(old(State()), batch)
        && receipt.double == |set i | 0 <= i < |batch| && batch[i].hash.Some?
                                      && (batch[i].hash.value in old(metadata)
                                          || exists j :: 0 <= j < i && batch[j].hash == batch[i].hash)|
      ensures !receipt.UrlAccepted? ==> State() == old(State())
    {
      if atCapacity {
        return UrlBusy;
      }
      DoublesAreCounted(State(), batch);
      ReceiveMetadataKeepsConsistent(State(), batch, capacity);
      receipt := StoreEach(batch, cancelAt, commitRefused);
    }

    method StoreEach(batch: seq<Metadata>, cancelAt: nat, commitRefused: bool) returns (receipt: UrlReceipt)
      modifies this
      ensures receipt.UrlAccepted? <==> 0 < cancelAt && |batch| <= cancelAt && !commitRefused
      ensures receipt.UrlCancelled? <==> (cancelAt == 0 || cancelAt < |batch|)
      ensures receipt.UrlAccepted? ==>
        State() == ReceiveMetadata(old(State()), batch) && receipt.double == Doubles(old(State()), batch)
      ensures !receipt.UrlAccepted? ==> State() == old(State())
    {
      if cancelAt == 0 {
        return UrlCancelled;
      }
      var before := State();
      var double := 0;
      for i := 0 to |batch|
        invariant i <= cancelAt
        invariant ReceiveMetadata(State(), batch[i..]) == ReceiveMetadata(before, batch)
        invariant double + Doubles(State(), batch[i..]) == Doubles(before, batch)
      {
        if i >= cancelAt {
          Restore(before);
          return UrlCancelled;
        }
        assert batch[i..][0] == batch[i] && batch[i..][1..] == batch[i + 1..];
        var found := StoreOne(batch[i]);
        double := if found then double + 1 else double;
      }
      if commitRefused {
        Restore(before);
        return UrlBusy;
      }
      receipt := UrlAccepted(double);
    }

    method PurgeMetadata(url: Hash) returns (deleted: bool)
      modifies this
      ensures State() == PurgeUrl(old(State()), url)
      ensures |metadata| == |old(metadata)| - if deleted then 1 else 0
    {
      deleted := url in metadata;
      if !deleted {
        return;
      }
      RemovedOne(metadata, url);
      metadata := metadata - {url};
      RankPurged(url);
    }

    method PurgeMetadataOf(urls: seq<Hash>) returns (deleted: nat)
      modifies this
      ensures State() == PurgeUrls(old(State()), Elements(urls))
      ensures deleted == |old(metadata)| - |metadata|
    {
      ghost var s := State();
      PurgeUrlsNone(s);
      ElementsEnds(urls);
      deleted := 0;
      for i := 0 to |urls|
        invariant State() == PurgeUrls(s, Elements(urls[..i]))
        invariant deleted == |s.metadata| - |metadata|
      {
        PurgeUrlsNext(s, urls, i);
        var gone := PurgeMetadata(urls[i]);
        if gone {
          deleted := deleted + 1;
        }
      }
    }

    // ----------------------------------------------------------------- admission

    method MissingURLs(hashes: seq<Hash>) returns (missing: seq<Hash>)
      ensures missing == Missing(hashes, metadata)
    {
      missing := [];
      var seen := {};
      for i := 0 to |hashes|
        invariant seen == Elements(hashes[..i])
        invariant missing == Missing(hashes[..i], metadata)
      {
        ElementsGrow(hashes, i);
        assert hashes[..i + 1][..i] == hashes[..i];
        if hashes[i] in seen {
          continue;
        }
        seen := seen + {hashes[i]};
        if hashes[i] !in metadata {
          missing := missing + [hashes[i]];
        }
      }
      assert hashes[..|hashes|] == hashes;
    }

    /** Receives postings; clock[i] is the time read at entry i, and the context is found done
        once cancelAt entries are routed, and before the transaction begins if that is none.  Nothing of a refused or cancelled receipt stays. */
    method ReceivePostings(entries: seq<Posting>, clock: seq<int>,
                           atCapacity: bool, cancelAt: nat, commitRefused: bool) returns (receipt: Receipt)
      requires Valid() && |clock| == |entries|
      modifies this
      ensures Valid()
      ensures !receipt.Accepted? ==> State() == old(State())
      ensures receipt.Accepted? ==>
        && Some(State()) == RouteEach(old(State()), entries, clock, MissingUrls(old(State()), entries), capacity)
        && State() == Step(old(State()), PostingsArrive(entries, clock), capacity)
        && receipt.unknown == Missing(UrlsOf(entries), old(metadata))
      ensures receipt.Accepted? <==>
        && !atCapacity && 0 < cancelAt && |entries| <= cancelAt && !commitRefused
        && var anew := set p | p in entries && p.url !in old(metadata) && p.Id() !in old(escrowed) :: p.Id();
           anew == {} || |old(escrowed)| + |anew| <= capacity
      ensures receipt.Cancelled? <==>
        && !atCapacity && (cancelAt == 0 || cancelAt < |entries|)
        && var anew := set p | p in FirstOf(entries, cancelAt) && p.url !in old(metadata) && p.Id() !in old(escrowed) :: p.Id();
           anew == {} || |old(escrowed)| + |anew| <= capacity
    {
      if atCapacity {
        return Busy;
      }
      StepKeepsConsistent(State(), PostingsArrive(entries, clock), capacity);
      RoutedIff(State(), entries, clock, entries, capacity);
      RoutedIff(State(), FirstOf(entries, cancelAt), FirstOf(clock, cancelAt), entries, capacity);
      receipt := RouteAll(entries, clock, cancelAt, commitRefused);
    }

    static lemma RoutedIff(s: Stored, routed: seq<Posting>, clock: seq<int>, entries: seq<Posting>, capacity: int)
      requires |clock| == |routed| && routed <= entries
      ensures var anew := set p | p in routed && p.url !in s.metadata && p.Id() !in s.escrowed :: p.Id();
        RouteEach(s, routed, clock, MissingUrls(s, entries), capacity).Some?
        <==> anew == {} || |s.escrowed| + |anew| <= capacity
    {
      RoutingSucceedsIff(s, routed, clock, MissingUrls(s, entries), capacity);
      HasRoomIff(s, routed, MissingUrls(s, entries), capacity);
      MissingAreAnew(s, routed, entries);
    }

    static lemma MissingAreAnew(s: Stored, routed: seq<Posting>, entries: seq<Posting>)
      requires routed <= entries
      ensures (set p | p in routed && p.url in MissingUrls(s, entries) && p.Id() !in s.escrowed :: p.Id())
           == (set p | p in routed && p.url !in s.metadata && p.Id() !in s.escrowed :: p.Id())
    {
      assert forall p :: p in routed ==> p in entries;
    }

    method RouteAll(entries: seq<Posting>, clock: seq<int>, cancelAt: nat, commitRefused: bool)
      returns (receipt: Receipt)
      requires |clock| == |entries|
      modifies this
      ensures var s, awaited := old(State()), MissingUrls(old(State()), entries);
        && (receipt.Accepted? <==> 0 < cancelAt && |entries| <= cancelAt && !commitRefused
                                   && RouteEach(s, entries, clock, awaited, capacity).Some?)
        && (receipt.Cancelled? <==>
              && (cancelAt == 0 || cancelAt < |entries|)
              && RouteEach(s, FirstOf(entries, cancelAt), FirstOf(clock, cancelAt), awaited, capacity).Some?)
        && (receipt.Accepted? ==>
              && Some(State()) == RouteEach(s, entries, clock, awaited, capacity)
              && receipt.unknown == Missing(UrlsOf(entries), old(metadata)))
        && (!receipt.Accepted? ==> State() == s)
    {
      if cancelAt == 0 {
        return Cancelled;
      }
      var before := State();
      var missing := MissingURLs(UrlsOf(entries));
      var awaited := Elements(missing);
      AwaitedAreMissing(before, entries);
      for i := 0 to |entries|
        invariant i <= cancelAt
        invariant Some(State()) == RouteEach(before, entries[..i], clock[..i], awaited, capacity)
      {
        if i >= cancelAt {
          Restore(before);
          return Cancelled;
        }
        RouteNext(before, entries, clock, i, i + 1, awaited, capacity);
        if entries[i].url in awaited {
          var full := HoldBack(entries[i], clock[i]);
          if full {
            FullPrefixIsFull(before, entries, clock, awaited, capacity, i + 1);
            if cancelAt < |entries| {
              FullStaysFull(before, entries, clock, awaited, capacity, i + 1, cancelAt);
            }
            Restore(before);
            return Busy;
          }
        } else {
          AdmitPosting(entries[i]);
        }
      }
      assert entries[..|entries|] == entries && clock[..|entries|] == clock;
      if commitRefused {
        Restore(before);
        return Busy;
      }
      receipt := Accepted(missing);
    }

    static function UrlsOf(entries: seq<Posting>): (urls: seq<Hash>)
      ensures |urls| == |entries| && forall j :: 0 <= j < |urls| ==> urls[j] == entries[j].url
    {
      seq(|entries|, j requires 0 <= j < |entries| => entries[j].url)
    }

    static lemma AwaitedAreMissing(s: Stored, entries: seq<Posting>)
      ensures Elements(Missing(UrlsOf(entries), s.metadata)) == MissingUrls(s, entries)
    {
      var urls := UrlsOf(entries);
      MissingHasEachOnce(urls, s.metadata);
      forall h | h in urls && h !in s.metadata ensures h in MissingUrls(s, entries) {
        var j :| 0 <= j < |urls| && urls[j] == h;
        assert entries[j] in entries;
      }
      forall h | h in MissingUrls(s, entries) ensures h in urls {
        var p :| p in entries && p.url == h;
        var j :| 0 <= j < |entries| && entries[j] == p;
        assert urls[j] == h;
      }
    }

    // ------------------------------------------------------------------ hand-off

    static function HeldElsewhere(ps: seq<Posting>, held: Posting -> bool): (ids: seq<Identity>)
      ensures |ids| <= |ps|
    {
      if ps == [] then []
      else HeldElsewhere(ps[..|ps| - 1], held) + if held(ps[|ps| - 1]) then [ps[|ps| - 1].Id()] else []
    }

    static lemma {:induction false} HeldElsewhereAreHeld(ps: seq<Posting>, held: Posting -> bool)
      ensures Elements(HeldElsewhere(ps, held)) == set p | p in ps && held(p) :: p.Id()
    {
      if ps != [] {
        var last, before := ps[|ps| - 1], ps[..|ps| - 1];
        HeldElsewhereAreHeld(before, held);
        HeldIdsOneMore(before, last, held);
        assert ps == before + [last];
      }
    }

    static lemma HeldIdsOneMore(before: seq<Posting>, last: Posting, held: Posting -> bool)
      ensures (set p | p in before + [last] && held(p) :: p.Id())
           == (set p | p in before && held(p) :: p.Id()) + if held(last) then {last.Id()} else {}
    {
    }

    static lemma {:induction false} HeldElsewhereAreCounted(ps: seq<Posting>, held: Posting -> bool)
      ensures |HeldElsewhere(ps, held)| == |set i | 0 <= i < |ps| && held(ps[i])|
    {
      if ps != [] {
        var last, before := ps[|ps| - 1], ps[..|ps| - 1];
        HeldElsewhereAreCounted(before, held);
        HeldPlacesOneMore(before, last, held);
        assert ps == before + [last];
      }
    }

    static lemma HeldPlacesOneMore(before: seq<Posting>, last: Posting, held: Posting -> bool)
      ensures var n, ps := |before|, before + [last];
        |set i | 0 <= i < n + 1 && held(ps[i])|
        == |set i | 0 <= i < n && held(before[i])| + if held(last) then 1 else 0
    {
      var n, ps := |before|, before + [last];
      var some := set i | 0 <= i < n && held(before[i]);
      assert (set i | 0 <= i < n + 1 && held(ps[i])) == some + if held(last) then {n} else {};
      assert n !in some;
    }

    /** Deletes the postings that enough closer peers hold, and counts them. */
    method HandOffPostings(ps: seq<Posting>, held: Posting -> bool) returns (handedOff: nat)
      requires Valid()
      modifies this
      ensures Valid()
      ensures State() == HandOff(old(State()), HeldElsewhere(ps, held))
      ensures postings == old(postings) - (set p | p in ps && held(p) :: p.Id())
      ensures handedOff == |set i | 0 <= i < |ps| && held(ps[i])|
    {
      HandOffRemovesTheHeld(State(), HeldElsewhere(ps, held));
      HeldElsewhereAreHeld(ps, held);
      HeldElsewhereAreCounted(ps, held);
      HandOffKeepsConsistent(State(), HeldElsewhere(ps, held), capacity);
      handedOff := HandOffEach(ps, held);
    }

    method HandOffEach(ps: seq<Posting>, held: Posting -> bool) returns (handedOff: nat)
      modifies this
      ensures State() == HandOff(old(State()), HeldElsewhere(ps, held))
      ensures handedOff == |HeldElsewhere(ps, held)|
    {
      handedOff := 0;
      ghost var ids := [];
      for i := 0 to |ps|
        invariant ids == HeldElsewhere(ps[..i], held) && handedOff == |ids|
        invariant State() == HandOff(old(State()), ids)
      {
        assert ps[..i + 1][..i] == ps[..i];
        if !held(ps[i]) {
          assert ids + [] == ids;
          continue;
        }
        HandOffOneMore(old(State()), ids, ps[i].Id());
        ids := ids + [ps[i].Id()];
        var _ := Purge(ps[i].word, ps[i].url);
        handedOff := handedOff + 1;
      }
      assert ps[..|ps|] == ps;
    }

    // ------------------------------------------------------------------ eviction

    method PurgePostingsOfUrl(url: Hash) returns (purged: nat)
      modifies this
      ensures State() == PurgePostingsOf(old(State()), {url})
      ensures purged == |old(postings)| - |postings|
    {
      var found := WordsReferencing(url);
      PurgeOfAllWords(State(), url, found);
      purged := PurgeEachWord(url, found);
    }

    method PurgeEachWord(url: Hash, found: seq<Hash>) returns (purged: nat)
      modifies this
      ensures State() == PurgeEach(old(State()), url, found)
      ensures purged == |old(postings)| - |postings|
    {
      purged := 0;
      for i := 0 to |found|
        invariant State() == PurgeEach(old(State()), url, found[..i])
        invariant purged == |old(postings)| - |postings|
      {
        assert found[..i + 1][..i] == found[..i];
        var deleted := Purge(found[i], url);
        if deleted {
          purged := purged + 1;
        }
      }
      assert found[..|found|] == found;
    }

    method PurgePostingsOfEach(urls: seq<Hash>) returns (purged: nat)
      modifies this
      ensures State() == PurgePostingsOf(old(State()), Elements(urls))
      ensures purged == |old(postings)| - |postings|
    {
      ghost var s := State();
      PurgeNoUrls(s);
      ElementsEnds(urls);
      purged := 0;
      for i := 0 to |urls|
        invariant State() == PurgePostingsOf(s, Elements(urls[..i]))
        invariant purged == |s.postings| - |postings|
      {
        PurgeOneUrlNext(s, urls, i);
        var deleted := PurgePostingsOfUrl(urls[i]);
        purged := purged + deleted;
      }
    }

    /** One sweep batch: the counts it returns are what the two collections lost. */
    method PurgeBatch(limit: int) returns (urlsDeleted: nat, postingsDeleted: nat)
      modifies this
      ensures State() == PurgeStalest(old(State()), limit)
      ensures urlsDeleted == |old(metadata)| - |metadata|
      ensures postingsDeleted == |old(postings)| - |postings|
    {
      var stalest := StalestURLs(limit);
      postingsDeleted := PurgePostingsOfEach(stalest);
      urlsDeleted := PurgeMetadataOf(stalest);
    }

    /**
     * A sweep: used are the usage readings, one before every batch. It runs batches as long as the
     * reading is at the high water mark or above, and until one deletes no url or the readings end.
     */
    method SweepQuota(quota: int, highWater: int, urlsPerBatch: int, used: seq<int>)
      returns (urlsDeleted: nat, postingsDeleted: nat, ghost states: seq<Stored>, ghost step: Stored -> Stored)
      requires Valid()
      modifies this
      ensures Valid()
      ensures urlsDeleted == |old(metadata)| - |metadata|
      ensures postingsDeleted == |old(postings)| - |postings|
      ensures 0 < |states| <= |used| + 1 && states[0] == old(State()) && states[|states| - 1] == State()
      ensures forall i, j | 0 <= i && j == i + 1 && j < |states| :: states[j] == step(states[i])
      ensures forall s {:trigger PurgeStalest(s, urlsPerBatch)} :: step(s) == PurgeStalest(s, urlsPerBatch)
      ensures quota <= 0 || urlsPerBatch <= 0 || used == [] || used[0] < highWater ==> |states| == 1
      ensures quota > 0 && urlsPerBatch > 0 ==>
        var batches := |states| - 1;
        && (forall i | 0 <= i < batches :: used[i] >= highWater)
        && (forall i, j | 0 <= i < j < batches :: |states[j].metadata| < |states[i].metadata|)
        && (batches == |used| || used[batches] < highWater
            || (batches > 0 && |metadata| == |states[batches - 1].metadata|))
      ensures (quota > 0 && urlsPerBatch > 0 && used != [] && used[0] >= highWater
               && RanksExactly(old(order), old(freshness)) && old(metadata) != map[]) ==> urlsDeleted > 0
    {
      urlsDeleted, postingsDeleted, states := 0, 0, [State()];
      step := BatchStep(urlsPerBatch);
      if quota <= 0 || urlsPerBatch <= 0 {
        return;
      }
      urlsDeleted, postingsDeleted, states := SweepWhileFull(highWater, urlsPerBatch, used, step);
    }

    method SweepWhileFull(highWater: int, urlsPerBatch: int, used: seq<int>, ghost step: Stored -> Stored)
      returns (urlsDeleted: nat, postingsDeleted: nat, ghost states: seq<Stored>)
      requires Valid() && urlsPerBatch > 0 && IsBatch(step, urlsPerBatch)
      modifies this
      ensures Valid()
      ensures urlsDeleted == |old(metadata)| - |metadata|
      ensures postingsDeleted == |old(postings)| - |postings|
      ensures 0 < |states| <= |used| + 1 && states[0] == old(State()) && states[|states| - 1] == State()
      ensures Follow(states, step)
      ensures var batches := |states| - 1;
        && (forall i | 0 <= i < batches :: used[i] >= highWater)
        && (forall i, j | 0 <= i < j < batches :: |states[j].metadata| < |states[i].metadata|)
        && (batches == |used| || used[batches] < highWater
            || (batches > 0 && |metadata| == |states[batches - 1].metadata|))
      ensures (used != [] && used[0] >= highWater
               && RanksExactly(old(order), old(freshness)) && old(metadata) != map[]) ==> urlsDeleted > 0
    {
      urlsDeleted, postingsDeleted, states := SweepBatches(highWater, urlsPerBatch, used, step);
      BatchesKeepConsistent(states, step, urlsPerBatch, capacity);
      if |states| > 1 && states[0].metadata != map[] && RanksExactly(states[0].order, states[0].freshness) {
        FewerAfterTheFirst(states, step, urlsPerBatch, capacity);
      }
    }

    method SweepBatches(highWater: int, urlsPerBatch: int, used: seq<int>, ghost step: Stored -> Stored)
      returns (urlsDeleted: nat, postingsDeleted: nat, ghost states: seq<Stored>)
      requires IsBatch(step, urlsPerBatch)
      modifies this
      ensures urlsDeleted == |old(metadata)| - |metadata|
      ensures postingsDeleted == |old(postings)| - |postings|
      ensures 0 < |states| <= |used| + 1 && states[0] == old(State()) && states[|states| - 1] == State()
      ensures Follow(states, step)
      ensures var batches := |states| - 1;
        && (forall i | 0 <= i < batches :: used[i] >= highWater)
        && (forall i, j | 0 <= i < j < batches :: |states[j].metadata| < |states[i].metadata|)
        && (batches == |used| || used[batches] < highWater
            || (batches > 0 && |metadata| == |states[batches - 1].metadata|))
    {
      urlsDeleted, postingsDeleted, states := 0, 0, [State()];
      for i := 0 to |used|
        invariant |states| == i + 1 && states[0] == old(State()) && states[i] == State()
        invariant urlsDeleted == |old(metadata)| - |metadata|
        invariant postingsDeleted == |old(postings)| - |postings|
        invariant Follow(states, step)
        invariant forall j | 0 <= j < i :: used[j] >= highWater
        invariant forall j, k | 0 <= j < k <= i :: |states[k].metadata| < |states[j].metadata|
      {
        if used[i] < highWater {
          return;
        }
        var urls, found := SweepBatch(urlsPerBatch, step);
        states := states + [State()];
        urlsDeleted := urlsDeleted + urls;
        postingsDeleted := postingsDeleted + found;
        if urls == 0 {
          return;
        }
      }
    }

    method SweepBatch(limit: int, ghost step: Stored -> Stored) returns (urlsDeleted: nat, postingsDeleted: nat)
      requires IsBatch(step, limit)
      modifies this
      ensures State() == step(old(State()))
      ensures urlsDeleted == |old(metadata)| - |metadata|
      ensures postingsDeleted == |old(postings)| - |postings|
    {
      urlsDeleted, postingsDeleted := PurgeBatch(limit);
    }
  }
}
