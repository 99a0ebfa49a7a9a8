/** How the loops inside a transaction build up the change that the transaction makes. */
module Transactions {
  import opened Wrappers
  import opened KeyOrder
  import opened Collections

  // ------------------------------------------------------------------- releasing

  /** One escrowed posting is admitted and its hold dropped. */
  function ReleaseOne(s: Stored, id: Identity): Stored
    requires id in s.escrowed
  {
    var escrowed := s.escrowed[id];
    var admitted := Admit(s, escrowed.posting.(word := id.word, url := id.url));
    admitted.(escrowed := s.escrowed - {id}, holds := s.holds - {Hold(escrowed.heldAt, id)})
  }

  lemma ReleaseNone(s: Stored)
    ensures Release(s, {}) == s
  {
    var r := Release(s, {});
    assert r.postings == s.postings && r.words == s.words && r.referenced == s.referenced;
    assert r.escrowed == s.escrowed && r.holds == s.holds;
  }

  lemma ReleaseOneMoreInIndex(s: Stored, ids: set<Identity>, id: Identity)
    requires ids + {id} <= s.escrowed.Keys && id !in ids
    ensures var a, b := ReleaseOne(Release(s, ids), id), Release(s, ids + {id});
      a.postings == b.postings && a.words == b.words && a.referenced == b.referenced
  {
    var r := Release(s, ids);
    var a, b := ReleaseOne(r, id), Release(s, ids + {id});
    assert r.escrowed[id] == s.escrowed[id];
    assert a.postings.Keys == b.postings.Keys;
    assert a.postings == b.postings;
    assert a.words == b.words;
    assert a.referenced == b.referenced;
  }

  lemma ReleaseOneMore(s: Stored, ids: set<Identity>, id: Identity)
    requires ids + {id} <= s.escrowed.Keys && id !in ids
    ensures id in Release(s, ids).escrowed
    ensures ReleaseOne(Release(s, ids), id) == Release(s, ids + {id})
  {
    ReleaseOneMoreInIndex(s, ids, id);
    var a, b := ReleaseOne(Release(s, ids), id), Release(s, ids + {id});
    assert a.escrowed == b.escrowed;
    assert a.holds == b.holds;
  }

  lemma ReleaseNext(s: Stored, ids: seq<Identity>, i: nat)
    requires i < |ids| && Elements(ids) <= s.escrowed.Keys && AscendsBy(ids, EscrowKey)
    ensures Elements(ids[..i]) <= s.escrowed.Keys && Elements(ids[..i + 1]) <= s.escrowed.Keys
    ensures ids[i] in Release(s, Elements(ids[..i])).escrowed
    ensures ReleaseOne(Release(s, Elements(ids[..i])), ids[i]) == Release(s, Elements(ids[..i + 1]))
  {
    LessIrreflexive(EscrowKey(ids[i]));
    assert ids[i] !in ids[..i];
    assert ids[i] in Elements(ids);
    assert Elements(ids[..i]) <= Elements(ids);
    ElementsGrow(ids, i);
    ReleaseOneMore(s, Elements(ids[..i]), ids[i]);
  }

  // ------------------------------------------------------------- dropping expired holds

  lemma DropNone(s: Stored)
    ensures DropHolds(s, {}) == s
  {
    var r := DropHolds(s, {});
    assert r.escrowed == s.escrowed && r.holds == s.holds;
  }

  lemma ExpireNone(s: Stored, cutoff: int, limit: int)
    requires limit <= 0
    ensures Expire(s, cutoff, limit) == s && ExpiredHolds(s, cutoff, limit) == []
  {
    assert Elements(ExpiredHolds(s, cutoff, limit)) == {};
    DropNone(s);
  }

  lemma DropOneMore(s: Stored, dropped: set<Hold>, h: Hold)
    ensures var r := DropHolds(s, dropped);
      r.(escrowed := r.escrowed - {h.id}, holds := r.holds - {h}) == DropHolds(s, dropped + {h})
  {
    var r := DropHolds(s, dropped);
    var a, b := r.(escrowed := r.escrowed - {h.id}, holds := r.holds - {h}), DropHolds(s, dropped + {h});
    assert a.escrowed == b.escrowed;
    assert a.holds == b.holds;
  }

  lemma DropNext(s: Stored, dropped: seq<Hold>, i: nat)
    requires i < |dropped|
    ensures var r := DropHolds(s, Elements(dropped[..i]));
      r.(escrowed := r.escrowed - {dropped[i].id}, holds := r.holds - {dropped[i]})
      == DropHolds(s, Elements(dropped[..i + 1]))
  {
    ElementsGrow(dropped, i);
    DropOneMore(s, Elements(dropped[..i]), dropped[i]);
  }

  // --------------------------------------------------------------------- purging

  function WordsOf(s: Stored, url: Hash): set<Hash> {
    set r | r in s.words && r.url == url :: r.word
  }

  /** Some of the postings of one url are purged. */
  function PurgeWords(s: Stored, url: Hash, words: set<Hash>): Stored {
    s.(postings := s.postings - (set w | w in words :: Identity(w, url)),
       words := s.words - (set w | w in words :: Reference(url, w)),
       referenced := if words != {} && WordsOf(s, url) <= words then s.referenced - {url} else s.referenced)
  }

  lemma PurgeNoWords(s: Stored, url: Hash)
    ensures PurgeWords(s, url, {}) == s
  {
    var r := PurgeWords(s, url, {});
    assert r.postings == s.postings && r.words == s.words;
  }

  lemma PurgeOneWordMore(s: Stored, url: Hash, words: set<Hash>, w: Hash)
    requires words <= WordsOf(s, url) && w in WordsOf(s, url) && w !in words
    ensures PurgePosting(PurgeWords(s, url, words), w, url) == PurgeWords(s, url, words + {w})
  {
    var a, b := PurgePosting(PurgeWords(s, url, words), w, url), PurgeWords(s, url, words + {w});
    assert a.postings == b.postings;
    assert a.words == b.words;
    if WordsOf(s, url) <= words + {w} {
      forall r | r in s.words && r.url == url ensures r !in a.words {
        assert r.word in WordsOf(s, url);
        assert r == Reference(url, r.word);
      }
    } else {
      var other :| other in WordsOf(s, url) && other !in words + {w};
      assert Reference(url, other) in a.words;
      assert !(WordsOf(s, url) <= words);
    }
  }

  lemma PurgeNoUrls(s: Stored)
    ensures PurgePostingsOf(s, {}) == s
  {
    var r := PurgePostingsOf(s, {});
    assert r.postings == s.postings && r.words == s.words && r.referenced == s.referenced;
  }

  lemma AllWordsIsTheUrl(s: Stored, url: Hash)
    ensures PurgeWords(s, url, WordsOf(s, url)) == PurgePostingsOf(s, {url})
  {
    var a, b := PurgeWords(s, url, WordsOf(s, url)), PurgePostingsOf(s, {url});
    var gone := set r | r in s.words && r.url in {url};
    var named := set w | w in WordsOf(s, url) :: Reference(url, w);
    forall r ensures r in gone <==> r in named {
      if r in gone {
        assert r.word in WordsOf(s, url);
      }
    }
    var ids, named' := (set r | r in gone :: Identity(r.word, r.url)), (set w | w in WordsOf(s, url) :: Identity(w, url));
    forall id ensures id in ids <==> id in named' {
      if id in named' {
        assert Reference(url, id.word) in gone;
      }
    }
    assert a.postings == b.postings && a.words == b.words;
    assert a.referenced == b.referenced;
  }

  lemma PurgeOneUrlMore(s: Stored, urls: set<Hash>, url: Hash)
    ensures PurgePostingsOf(PurgePostingsOf(s, urls), {url}) == PurgePostingsOf(s, urls + {url})
  {
    var r := PurgePostingsOf(s, urls);
    var a, b := PurgePostingsOf(r, {url}), PurgePostingsOf(s, urls + {url});
    var gone := set x | x in s.words && x.url in urls;
    var more := set x | x in r.words && x.url in {url};
    var all := set x | x in s.words && x.url in urls + {url};
    assert gone + more == all;
    assert a.words == b.words;
    assert (set x | x in gone :: Identity(x.word, x.url)) + (set x | x in more :: Identity(x.word, x.url))
        == (set x | x in all :: Identity(x.word, x.url));
    assert a.postings == b.postings;
    assert (set x | x in gone :: x.url) + (set x | x in more :: x.url) == (set x | x in all :: x.url);
    assert a.referenced == b.referenced;
  }

  lemma PurgeOneUrlNext(s: Stored, urls: seq<Hash>, i: nat)
    requires i < |urls|
    ensures PurgePostingsOf(PurgePostingsOf(s, Elements(urls[..i])), {urls[i]})
         == PurgePostingsOf(s, Elements(urls[..i + 1]))
  {
    ElementsGrow(urls, i);
    PurgeOneUrlMore(s, Elements(urls[..i]), urls[i]);
  }

  lemma PurgeWordNext(s: Stored, url: Hash, words: seq<Hash>, i: nat)
    requires i < |words| && Elements(words) == WordsOf(s, url)
    requires forall j, k :: 0 <= j < k < |words| ==> words[j] < words[k]
    ensures PurgePosting(PurgeWords(s, url, Elements(words[..i])), words[i], url)
         == PurgeWords(s, url, Elements(words[..i + 1]))
  {
    assert words[i] !in words[..i];
    assert words[i] in Elements(words) && Elements(words[..i]) <= Elements(words);
    ElementsGrow(words, i);
    PurgeOneWordMore(s, url, Elements(words[..i]), words[i]);
  }

  lemma HandOffOneMore(s: Stored, held: seq<Identity>, id: Identity)
    ensures HandOff(s, held + [id]) == PurgePosting(HandOff(s, held), id.word, id.url)
  {
    assert (held + [id])[..|held|] == held;
  }

  function PurgeEach(s: Stored, url: Hash, words: seq<Hash>): Stored
    decreases |words|
  {
    if words == [] then s
    else
      var last := |words| - 1;
      PurgePosting(PurgeEach(s, url, words[..last]), words[last], url)
  }

  lemma {:induction false} PurgeEachIsPurgeWords(s: Stored, url: Hash, words: seq<Hash>, i: nat)
    requires i <= |words| && Elements(words) == WordsOf(s, url)
    requires forall j, k :: 0 <= j < k < |words| ==> words[j] < words[k]
    ensures PurgeEach(s, url, words[..i]) == PurgeWords(s, url, Elements(words[..i]))
  {
    if i == 0 {
      ElementsEnds(words);
      PurgeNoWords(s, url);
    } else {
      PurgeEachIsPurgeWords(s, url, words, i - 1);
      PurgeWordNext(s, url, words, i - 1);
      assert words[..i][..i - 1] == words[..i - 1];
    }
  }

  lemma PurgeOfAllWords(s: Stored, url: Hash, words: seq<Hash>)
    requires Elements(words) == WordsOf(s, url)
    requires forall j, k :: 0 <= j < k < |words| ==> words[j] < words[k]
    ensures PurgeEach(s, url, words) == PurgePostingsOf(s, {url})
  {
    PurgeEachIsPurgeWords(s, url, words, |words|);
    assert words[..|words|] == words;
    AllWordsIsTheUrl(s, url);
  }

  /** One url's metadata goes, and the rank it was last given. */
  function PurgeUrl(s: Stored, url: Hash): Stored {
    if url !in s.metadata then s
    else
      var gone := s.(metadata := s.metadata - {url});
      if url !in s.freshness then gone
      else gone.(order := s.order - {Ranked(s.freshness[url], url)}, freshness := s.freshness - {url})
  }

  lemma PurgeUrlsNone(s: Stored)
    ensures PurgeUrls(s, {}) == s
  {
    var r := PurgeUrls(s, {});
    assert r.metadata == s.metadata && r.order == s.order && r.freshness == s.freshness;
  }

  lemma PurgeUrlsOneMore(s: Stored, urls: set<Hash>, url: Hash)
    ensures PurgeUrl(PurgeUrls(s, urls), url) == PurgeUrls(s, urls + {url})
  {
    var r := PurgeUrls(s, urls);
    var a, b := PurgeUrl(r, url), PurgeUrls(s, urls + {url});
    if url in urls || url !in s.metadata {
      assert (urls + {url}) * s.metadata.Keys == urls * s.metadata.Keys;
    } else {
      assert (urls + {url}) * s.metadata.Keys == urls * s.metadata.Keys + {url};
      assert a.metadata == b.metadata;
      assert a.order == b.order;
      assert a.freshness == b.freshness;
    }
  }

  lemma PurgeUrlsNext(s: Stored, urls: seq<Hash>, i: nat)
    requires i < |urls|
    ensures PurgeUrl(PurgeUrls(s, Elements(urls[..i])), urls[i]) == PurgeUrls(s, Elements(urls[..i + 1]))
  {
    ElementsGrow(urls, i);
    PurgeUrlsOneMore(s, Elements(urls[..i]), urls[i]);
  }

  // --------------------------------------------------------------------- routing

  /** A prefix of the entries that finds the escrow full stops the whole batch. */
  lemma {:induction false} FullPrefixIsFull(
    s: Stored, entries: seq<Posting>, clock: seq<int>, awaited: set<Hash>, capacity: int, i: nat)
    requires |clock| == |entries| && i <= |entries|
    requires RouteEach(s, entries[..i], clock[..i], awaited, capacity).None?
    ensures RouteEach(s, entries, clock, awaited, capacity).None?
    decreases |entries|
  {
    if i > 0 {
      var r := Route(s, entries[0], clock[0], awaited, capacity);
      assert entries[..i][1..] == entries[1..][..i - 1] && clock[..i][1..] == clock[1..][..i - 1];
      if r.Some? {
        FullPrefixIsFull(r.value, entries[1..], clock[1..], awaited, capacity, i - 1);
      }
    }
  }

  lemma {:induction false} RouteOneMore(
    s: Stored, entries: seq<Posting>, clock: seq<int>, p: Posting, now: int, awaited: set<Hash>, capacity: int)
    requires |clock| == |entries|
    ensures RouteEach(s, entries + [p], clock + [now], awaited, capacity)
      == match RouteEach(s, entries, clock, awaited, capacity)
         case None => None
         case Some(s') => Route(s', p, now, awaited, capacity)
    decreases |entries|
  {
    if entries == [] {
      assert [] + [p] == [p] && [] + [now] == [now] && [p][1..] == [] && [now][1..] == [];
    } else {
      var r := Route(s, entries[0], clock[0], awaited, capacity);
      assert (entries + [p])[1..] == entries[1..] + [p] && (clock + [now])[1..] == clock[1..] + [now];
      if r.Some? {
        RouteOneMore(r.value, entries[1..], clock[1..], p, now, awaited, capacity);
      }
    }
  }

  lemma RouteNext(s: Stored, entries: seq<Posting>, clock: seq<int>, i: nat, j: nat, awaited: set<Hash>, capacity: int)
    requires |clock| == |entries| && j == i + 1 <= |entries|
    ensures RouteEach(s, entries[..j], clock[..j], awaited, capacity)
      == match RouteEach(s, entries[..i], clock[..i], awaited, capacity)
         case None => None
         case Some(s') => Route(s', entries[i], clock[i], awaited, capacity)
  {
    assert entries[..j] == entries[..i] + [entries[i]] && clock[..j] == clock[..i] + [clock[i]];
    RouteOneMore(s, entries[..i], clock[..i], entries[i], clock[i], awaited, capacity);
  }

  /** So does it stop every longer prefix. */
  lemma FullStaysFull(
    s: Stored, entries: seq<Posting>, clock: seq<int>, awaited: set<Hash>, capacity: int, i: nat, j: nat)
    requires |clock| == |entries| && i <= j <= |entries|
    requires RouteEach(s, entries[..i], clock[..i], awaited, capacity).None?
    ensures RouteEach(s, entries[..j], clock[..j], awaited, capacity).None?
  {
    assert entries[..j][..i] == entries[..i] && clock[..j][..i] == clock[..i];
    FullPrefixIsFull(s, entries[..j], clock[..j], awaited, capacity, i);
  }

  /** The urls without metadata, each once, in the order in which they are first named. */
  function Missing(hashes: seq<Hash>, metadata: map<Hash, Metadata>): seq<Hash> {
    if hashes == [] then []
    else
      var last, before := hashes[|hashes| - 1], hashes[..|hashes| - 1];
      Missing(before, metadata) + if last in before || last in metadata then [] else [last]
  }

  lemma {:induction false} MissingHasEachOnce(hashes: seq<Hash>, metadata: map<Hash, Metadata>)
    ensures var missing := Missing(hashes, metadata);
      && (forall h :: h in missing <==> h in hashes && h !in metadata)
      && forall i, j :: 0 <= i < j < |missing| ==> missing[i] != missing[j]
  {
    if hashes != [] {
      var last, before := hashes[|hashes| - 1], hashes[..|hashes| - 1];
      MissingHasEachOnce(before, metadata);
      assert hashes == before + [last];
      assert forall h :: h in hashes <==> h in before || h == last;
    }
  }

  /** The missing urls are in the order in which the hashes first name them. */
  lemma {:induction false} MissingInOrder(hashes: seq<Hash>, metadata: map<Hash, Metadata>, j: nat) returns (p: nat)
    requires j < |Missing(hashes, metadata)|
    ensures var missing := Missing(hashes, metadata);
      && p < |hashes| && hashes[p] == missing[j] && missing[j] !in hashes[..p]
      && forall h :: h in missing[..j] ==> h in hashes[..p]
  {
    var last, before := hashes[|hashes| - 1], hashes[..|hashes| - 1];
    var missing, earlier := Missing(hashes, metadata), Missing(before, metadata);
    if j < |earlier| {
      p := MissingInOrder(before, metadata, j);
      assert missing[..j] == earlier[..j] && hashes[..p] == before[..p];
    } else {
      p := |before|;
      MissingHasEachOnce(before, metadata);
      assert missing[..j] == earlier;
    }
  }

  // ------------------------------------------------------- metadata that was there

  /** How many of the batch find metadata already stored at their turn. */
  function Doubles(s: Stored, batch: seq<Metadata>): nat
    decreases |batch|
  {
    if batch == [] then 0
    else
      (if batch[0].hash.Some? && batch[0].hash.value in s.metadata then 1 else 0)
      + Doubles(StoreMetadata(s, batch[0]), batch[1..])
  }

  /** The metadata of this url was stored before, or comes earlier in the batch. */
  predicate IsDouble(known: set<Hash>, batch: seq<Metadata>, i: nat)
    requires i < |batch|
  {
    batch[i].hash.Some?
    && (batch[i].hash.value in known || exists j :: 0 <= j < i && batch[j].hash == batch[i].hash)
  }

  function DoublesIn(known: set<Hash>, batch: seq<Metadata>): set<int> {
    set i | 0 <= i < |batch| && IsDouble(known, batch, i)
  }

  lemma OneOf<T>(s: set<T>) returns (x: T)
    requires s != {}
    ensures x in s
  {
    x :| x in s;
  }

  /** As many numbers as in a set, each one larger. */
  lemma {:induction false} ShiftedSet(s: set<int>, shifted: set<int>)
    requires forall i :: i in s <==> i + 1 in shifted
    ensures |shifted| == |s|
    decreases |s|
  {
    if s == {} {
      forall i
        ensures i !in shifted
      {
        assert i - 1 !in s;
        assert i == (i - 1) + 1;
      }
      assert shifted == {};
    } else {
      var x := OneOf(s);
      ShiftedSet(s - {x}, shifted - {x + 1});
    }
  }

  lemma DoubleLater(known: set<Hash>, batch: seq<Metadata>, i: nat)
    requires i + 1 < |batch|
    ensures IsDouble(known, batch, i + 1)
       <==> IsDouble(known + if batch[0].hash.Some? then {batch[0].hash.value} else {}, batch[1..], i)
  {
    var later := batch[1..];
    if IsDouble(known, batch, i + 1) && batch[i + 1].hash.value !in known {
      var j :| 0 <= j < i + 1 && batch[j].hash == batch[i + 1].hash;
      assert j > 0 ==> later[j - 1].hash == later[i].hash;
    }
    if exists j :: 0 <= j < i && later[j].hash == later[i].hash {
      var j :| 0 <= j < i && later[j].hash == later[i].hash;
      assert batch[j + 1].hash == batch[i + 1].hash;
    }
  }

  lemma DoublesLater(known: set<Hash>, batch: seq<Metadata>)
    requires batch != []
    ensures var known' := known + if batch[0].hash.Some? then {batch[0].hash.value} else {};
      |DoublesIn(known, batch) - {0}| == |DoublesIn(known', batch[1..])|
  {
    var known' := known + if batch[0].hash.Some? then {batch[0].hash.value} else {};
    var all, rest := DoublesIn(known, batch), DoublesIn(known', batch[1..]);
    forall i
      ensures i in rest <==> i + 1 in all - {0}
    {
      if 0 <= i < |batch[1..]| {
        DoubleLater(known, batch, i);
      }
    }
    ShiftedSet(rest, all - {0});
  }

  lemma {:induction false} DoublesAreIn(s: Stored, batch: seq<Metadata>)
    ensures Doubles(s, batch) == |DoublesIn(s.metadata.Keys, batch)|
    decreases |batch|
  {
    if batch != [] {
      DoublesAreIn(StoreMetadata(s, batch[0]), batch[1..]);
      StoredUrls(s, batch[0]);
      DoublesLater(s.metadata.Keys, batch);
      var all := DoublesIn(s.metadata.Keys, batch);
      assert 0 in all <==> batch[0].hash.Some? && batch[0].hash.value in s.metadata;
    }
  }

  lemma StoredUrls(s: Stored, m: Metadata)
    ensures StoreMetadata(s, m).metadata.Keys
         == s.metadata.Keys + if m.hash.Some? then {m.hash.value} else {}
  {
  }

  lemma DoublesAreCounted(s: Stored, batch: seq<Metadata>)
    ensures Doubles(s, batch)
      == |set i | 0 <= i < |batch| && batch[i].hash.Some?
                  && (batch[i].hash.value in s.metadata || exists j :: 0 <= j < i && batch[j].hash == batch[i].hash)|
  {
    DoublesAreIn(s, batch);
    assert DoublesIn(s.metadata.Keys, batch)
      == set i | 0 <= i < |batch| && batch[i].hash.Some?
                 && (batch[i].hash.value in s.metadata || exists j :: 0 <= j < i && batch[j].hash == batch[i].hash);
  }
}
