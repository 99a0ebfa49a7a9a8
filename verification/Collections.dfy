/** Every collection that a transaction of the posting lifecycle touches, and how each write changes it. */
module Collections {
  import opened CalendarDays
  import opened Wrappers
  import opened KeyOrder
  import opened Decimals

  /** Nine bytes compared as bytes: the number they write, most significant byte first. */
  type Hash = h: nat | h < 0x100_0000_0000_0000_0000

  datatype Identity = Identity(word: Hash, url: Hash)

  /** A posting; the columns that no transaction reads are one opaque value. */
  datatype Posting = Posting(word: Hash, url: Hash, columns: seq<int>) {
    function Id(): Identity {
      Identity(word, url)
    }
  }

  /** Url metadata: the hash of its address when that parses, its days, and the rest. */
  datatype Metadata = Metadata(
    hash: Option<Hash>,
    loaded: Option<CalendarDay>, modified: Option<CalendarDay>, freshUntil: Option<CalendarDay>,
    rest: seq<int>)
  {
    function Freshness(): Option<CalendarDay> {
      if loaded.Some? then loaded
      else if modified.Some? then modified
      else freshUntil
    }
  }

  type Rank = string

  function RankOf(day: Option<CalendarDay>): Rank {
    var value := match day { case None => CalendarDay(0, 0, 0) case Some(d) => d };
    PaddedInteger(value.year, 4) + PaddedInteger(value.month, 2) + PaddedInteger(value.day, 2)
  }

  datatype Ranked = Ranked(rank: Rank, url: Hash)

  datatype Reference = Reference(url: Hash, word: Hash)

  datatype Escrowed = Escrowed(heldAt: int, posting: Posting)

  datatype Hold = Hold(heldAt: int, id: Identity)

  // ----------------------------------------------- the orders in which scans visit

  /** A text part of a composite key ends below every character. */
  const TEXT_END := -1

  function RankedKey(r: Ranked): Key {
    Codes(r.rank) + [TEXT_END] + [r.url]
  }

  function ReferenceKey(r: Reference): Key {
    [r.url, r.word]
  }

  function EscrowKey(id: Identity): Key {
    [id.url, id.word]
  }

  function HoldKey(h: Hold): Key {
    [h.heldAt, h.id.word, h.id.url]
  }

  lemma RankedKeyDistinct(a: Ranked, b: Ranked)
    requires RankedKey(a) == RankedKey(b)
    ensures a == b
  {
    var k := RankedKey(a);
    assert k[|k| - 1] == a.url == b.url;
    assert k[..|k| - 2] == Codes(a.rank) == Codes(b.rank);
    CodesInjective(a.rank, b.rank);
  }

  lemma RankedDistinct(order: set<Ranked>)
    ensures DistinctBy(order, RankedKey)
  {
    forall a, b | a in order && b in order && RankedKey(a) == RankedKey(b) ensures a == b {
      RankedKeyDistinct(a, b);
    }
  }

  lemma ReferencesDistinct(words: set<Reference>)
    ensures DistinctBy(words, ReferenceKey)
  {
    forall a, b | a in words && b in words && ReferenceKey(a) == ReferenceKey(b) ensures a == b {
      assert ReferenceKey(a)[0] == ReferenceKey(b)[0] && ReferenceKey(a)[1] == ReferenceKey(b)[1];
    }
  }

  lemma IdentitiesDistinct(ids: set<Identity>)
    ensures DistinctBy(ids, EscrowKey)
  {
    forall a, b | a in ids && b in ids && EscrowKey(a) == EscrowKey(b) ensures a == b {
      assert EscrowKey(a)[0] == EscrowKey(b)[0] && EscrowKey(a)[1] == EscrowKey(b)[1];
    }
  }

  lemma HoldsDistinct(holds: set<Hold>)
    ensures DistinctBy(holds, HoldKey)
  {
    forall a, b | a in holds && b in holds && HoldKey(a) == HoldKey(b) ensures a == b {
      assert HoldKey(a)[0] == HoldKey(b)[0] && HoldKey(a)[1] == HoldKey(b)[1] && HoldKey(a)[2] == HoldKey(b)[2];
    }
  }

  // -------------------------------------------------------------- the collections

  datatype Stored = Stored(
    postings: map<Identity, Posting>,
    words: set<Reference>,
    referenced: set<Hash>,
    metadata: map<Hash, Metadata>,
    order: set<Ranked>,
    freshness: map<Hash, Rank>,
    escrowed: map<Identity, Escrowed>,
    holds: set<Hold>)

  const EMPTY := Stored(map[], {}, {}, map[], {}, map[], map[], {})

  // the index and its projection

  function Admit(s: Stored, p: Posting): Stored {
    s.(postings := s.postings[p.Id() := p],
       words := s.words + {Reference(p.url, p.word)},
       referenced := s.referenced + {p.url})
  }

  predicate Refers(words: set<Reference>, url: Hash) {
    exists r :: r in words && r.url == url
  }

  function PurgePosting(s: Stored, word: Hash, url: Hash): Stored {
    var words := s.words - {Reference(url, word)};
    s.(postings := s.postings - {Identity(word, url)},
       words := words,
       referenced := if Refers(words, url) then s.referenced else s.referenced - {url})
  }

  /** Postings that closer peers hold are purged one after another. */
  function HandOff(s: Stored, held: seq<Identity>): Stored
    decreases |held|
  {
    if held == [] then s
    else
      var last := |held| - 1;
      PurgePosting(HandOff(s, held[..last]), held[last].word, held[last].url)
  }

  /** Every posting that the projection names for one of the urls is gone. */
  function PurgePostingsOf(s: Stored, urls: set<Hash>): Stored {
    var gone := set r | r in s.words && r.url in urls;
    s.(postings := s.postings - (set r | r in gone :: Identity(r.word, r.url)),
       words := s.words - gone,
       referenced := s.referenced - (set r | r in gone :: r.url))
  }

  // the escrow

  function HoldPosting(s: Stored, p: Posting, now: int, capacity: int): Option<Stored> {
    var id := p.Id();
    if id in s.escrowed then
      Some(s.(escrowed := s.escrowed[id := Escrowed(now, p)],
              holds := s.holds - {Hold(s.escrowed[id].heldAt, id)} + {Hold(now, id)}))
    else if |s.escrowed| >= capacity then None
    else Some(s.(escrowed := s.escrowed[id := Escrowed(now, p)], holds := s.holds + {Hold(now, id)}))
  }

  function WaitingFor(s: Stored, url: Hash): set<Identity> {
    set id | id in s.escrowed && id.url == url
  }

  /** The escrowed postings with these identities move into the index as they were last held. */
  function Release(s: Stored, ids: set<Identity>): Stored
    requires ids <= s.escrowed.Keys
  {
    s.(postings := s.postings + (map id | id in ids :: s.escrowed[id].posting.(word := id.word, url := id.url)),
       words := s.words + (set id | id in ids :: Reference(id.url, id.word)),
       referenced := s.referenced + (set id | id in ids :: id.url),
       escrowed := s.escrowed - ids,
       holds := s.holds - (set id | id in ids :: Hold(s.escrowed[id].heldAt, id)))
  }

  function DropHolds(s: Stored, dropped: set<Hold>): Stored {
    s.(escrowed := s.escrowed - (set h | h in dropped :: h.id), holds := s.holds - dropped)
  }

  function HoldsBefore(s: Stored, cutoff: int): set<Hold> {
    set h | h in s.holds && h.heldAt < cutoff
  }

  /** The oldest holds placed before the cutoff, no more than the limit. */
  function ExpiredHolds(s: Stored, cutoff: int, limit: int): seq<Hold> {
    HoldsDistinct(HoldsBefore(s, cutoff));
    FirstOf(Ascending(HoldsBefore(s, cutoff), HoldKey), limit)
  }

  function Expire(s: Stored, cutoff: int, limit: int): Stored {
    DropHolds(s, Elements(ExpiredHolds(s, cutoff, limit)))
  }

  // url metadata and its staleness order

  function RankUrl(s: Stored, url: Hash, day: Option<CalendarDay>): Stored {
    s.(order := s.order + {Ranked(RankOf(day), url)}, freshness := s.freshness[url := RankOf(day)])
  }

  /** Storing metadata ranks the url and then releases what waits for it. */
  function StoreMetadata(s: Stored, m: Metadata): Stored {
    match m.hash
    case None => s
    case Some(url) =>
      var ranked := RankUrl(s.(metadata := s.metadata[url := m]), url, m.Freshness());
      Release(ranked, WaitingFor(ranked, url))
  }

  function StalestUrls(s: Stored, limit: int): seq<Hash> {
    RankedDistinct(s.order);
    var stalest := FirstOf(Ascending(s.order, RankedKey), limit);
    seq(|stalest|, i requires 0 <= i < |stalest| => stalest[i].url)
  }

  /** The metadata of these urls is gone, and with it the rank each was last given. */
  function PurgeUrls(s: Stored, urls: set<Hash>): Stored {
    var gone := urls * s.metadata.Keys;
    s.(metadata := s.metadata - gone,
       order := s.order - (set u | u in gone && u in s.freshness :: Ranked(s.freshness[u], u)),
       freshness := s.freshness - gone)
  }

  // ------------------------------------------------------------- the transactions

  function MissingUrls(s: Stored, entries: seq<Posting>): set<Hash> {
    set p | p in entries && p.url !in s.metadata :: p.url
  }

  /** Each entry waits in the escrow if its url is awaited, and joins the index if not. */
  function RouteEach(s: Stored, entries: seq<Posting>, clock: seq<int>, awaited: set<Hash>, capacity: int): Option<Stored>
    requires |clock| == |entries|
    decreases |entries|
  {
    if entries == [] then Some(s)
    else
      match Route(s, entries[0], clock[0], awaited, capacity)
      case None => None
      case Some(s') => RouteEach(s', entries[1..], clock[1..], awaited, capacity)
  }

  function Route(s: Stored, p: Posting, now: int, awaited: set<Hash>, capacity: int): Option<Stored> {
    if p.url in awaited then HoldPosting(s, p, now, capacity) else Some(Admit(s, p))
  }

  function ReceiveMetadata(s: Stored, batch: seq<Metadata>): Stored
    decreases |batch|
  {
    if batch == [] then s else ReceiveMetadata(StoreMetadata(s, batch[0]), batch[1..])
  }

  function PurgeStalest(s: Stored, limit: int): Stored {
    var stalest := Elements(StalestUrls(s, limit));
    PurgeUrls(PurgePostingsOf(s, stalest), stalest)
  }

  /** A rank is a day in eight digits, and an unknown day has zeros in all of them. */
  lemma RankIs(day: Option<CalendarDay>)
    ensures RankOf(day) ==
      if day.None? then PaddedInteger(0, 4) + PaddedInteger(0, 2) + PaddedInteger(0, 2)
      else PaddedInteger(day.value.year, 4) + PaddedInteger(day.value.month, 2) + PaddedInteger(day.value.day, 2)
  {
  }
}
