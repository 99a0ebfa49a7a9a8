/** Selecting known peers that are not reachable, best first: services/yacynode/internal/peerroster. */
module PeerSelection {
  import opened ByteStrings
  import opened KeyOrder

  datatype Entry = Entry(host: Bytes, port: nat, lastReachable: int, lastContacted: int)

  datatype Known = Known(hash: Bytes, entry: Entry)

  type Peers = map<Bytes, Entry>

  /** The peers that are not reachable, as far as a scan has come. */
  function Unreachable(peers: Peers, reachable: set<Bytes>, scanned: set<Bytes>): set<Known> {
    set h | h in scanned && h in peers && h !in reachable :: Known(h, peers[h])
  }

  function Rank(rank: Entry -> Key): Known -> Key {
    (k: Known) => rank(k.entry) + k.hash
  }

  /** An order of entries that compares keys of one length, as both orders of the roster do. */
  ghost predicate IsOrder(precedes: (Entry, Entry) -> bool, rank: Entry -> Key, width: nat) {
    && (forall e :: |rank(e)| == width)
    && (forall a, b :: precedes(a, b) <==> Less(rank(a), rank(b)))
  }

  lemma RanksAreDistinct(peers: Peers, reachable: set<Bytes>, scanned: set<Bytes>, rank: Entry -> Key, width: nat)
    requires forall e :: |rank(e)| == width
    ensures DistinctBy(Unreachable(peers, reachable, scanned), Rank(rank))
  {
    var key := Rank(rank);
    forall x, y | x in Unreachable(peers, reachable, scanned) && y in Unreachable(peers, reachable, scanned)
                  && key(x) == key(y)
      ensures x == y
    {
      assert key(x)[width..] == x.hash && key(y)[width..] == y.hash;
    }
  }

  predicate ComesFirst(precedes: (Entry, Entry) -> bool, a: Known, b: Known) {
    precedes(a.entry, b.entry) || (!precedes(b.entry, a.entry) && Less(a.hash, b.hash))
  }

  /** The order of the stable sort: what ranks alike stays in the order of the scan, which is that of the hashes. */
  lemma StableOrder(precedes: (Entry, Entry) -> bool, rank: Entry -> Key, width: nat, a: Known, b: Known)
    requires IsOrder(precedes, rank, width)
    ensures Less(Rank(rank)(a), Rank(rank)(b))
       <==> ComesFirst(precedes, a, b)
  {
    LessByParts(rank(a.entry), rank(b.entry), a.hash, b.hash);
    LessTotal(rank(a.entry), rank(b.entry));
    LessIrreflexive(rank(a.entry));
    if Less(rank(a.entry), rank(b.entry)) {
      LessAsymmetric(rank(a.entry), rank(b.entry));
    }
  }

  /** The unreachable peers that come first in the stable sort. */
  function Selected(peers: Peers, reachable: set<Bytes>, limit: int, rank: Entry -> Key, width: nat): seq<Known>
    requires DistinctBy(Unreachable(peers, reachable, peers.Keys), Rank(rank))
  {
    FirstOf(Ascending(Unreachable(peers, reachable, peers.Keys), Rank(rank)), limit)
  }

  function With<T>(xs: seq<T>, pos: nat, x: T): (ys: seq<T>)
    requires pos <= |xs|
    ensures |ys| == |xs| + 1
  {
    xs[..pos] + [x] + xs[pos..]
  }

  lemma WithAscends(xs: seq<Known>, x: Known, key: Known -> Key, pos: nat)
    requires AscendsBy(xs, key) && pos <= |xs|
    requires forall i | 0 <= i < pos :: Less(key(xs[i]), key(x))
    requires forall i | pos <= i < |xs| :: Less(key(x), key(xs[i]))
    ensures AscendsBy(With(xs, pos, x), key)
  {
    var ys := With(xs, pos, x);
    forall i, j | 0 <= i < j < |ys|
      ensures Less(key(ys[i]), key(ys[j]))
    {
      if i == pos {
        assert ys[i] == x && ys[j] == xs[j - 1];
      } else if j == pos {
        assert ys[i] == xs[i] && ys[j] == x;
      } else {
        assert ys[i] == xs[if i < pos then i else i - 1] && ys[j] == xs[if j < pos then j else j - 1];
      }
    }
  }

  lemma ElementsOfWith<T>(xs: seq<T>, pos: nat, x: T)
    requires pos <= |xs|
    ensures forall y :: y in With(xs, pos, x) <==> y == x || y in xs
  {
    assert xs == xs[..pos] + xs[pos..];
  }

  lemma InsertedIsAscending(s: set<Known>, x: Known, key: Known -> Key, pos: nat)
    requires x !in s && DistinctBy(s + {x}, key) && DistinctBy(s, key) && pos <= |s|
    requires forall i | 0 <= i < pos :: Less(key(Ascending(s, key)[i]), key(x))
    requires forall i | pos <= i < |s| :: Less(key(x), key(Ascending(s, key)[i]))
    ensures Ascending(s + {x}, key) == With(Ascending(s, key), pos, x)
  {
    var xs := Ascending(s, key);
    WithAscends(xs, x, key, pos);
    ElementsOfWith(xs, pos, x);
    AscendingIsUnique(With(xs, pos, x), s + {x}, key);
  }

  /** Where a peer goes that the scan comes to after the others: before the first that it precedes. */
  lemma PlaceOfTheNext(xs: seq<Known>, x: Known, precedes: (Entry, Entry) -> bool, rank: Entry -> Key, width: nat,
                       pos: nat)
    requires IsOrder(precedes, rank, width) && AscendsBy(xs, Rank(rank)) && pos <= |xs|
    requires forall i | 0 <= i < |xs| :: Less(xs[i].hash, x.hash)
    requires forall i | 0 <= i < pos :: !precedes(x.entry, xs[i].entry)
    requires pos < |xs| ==> precedes(x.entry, xs[pos].entry)
    ensures forall i | 0 <= i < pos :: Less(Rank(rank)(xs[i]), Rank(rank)(x))
    ensures forall i | pos <= i < |xs| :: Less(Rank(rank)(x), Rank(rank)(xs[i]))
  {
    forall i | 0 <= i < pos
      ensures Less(Rank(rank)(xs[i]), Rank(rank)(x))
    {
      StableOrder(precedes, rank, width, xs[i], x);
    }
    forall i | pos <= i < |xs|
      ensures Less(Rank(rank)(x), Rank(rank)(xs[i]))
    {
      StableOrder(precedes, rank, width, x, xs[pos]);
      if i > pos {
        LessTransitive(Rank(rank)(x), Rank(rank)(xs[pos]), Rank(rank)(xs[i]));
      }
    }
  }

  lemma WithAt<T>(xs: seq<T>, pos: nat, x: T, i: nat)
    requires pos <= |xs| && i <= |xs|
    ensures With(xs, pos, x)[i] == if i < pos then xs[i] else if i == pos then x else xs[i - 1]
  {
  }

  /** Moves the peers from a place on by one, the last one out if there is no room, and puts a peer there. */
  method Insert(kept: array<Known>, count: nat, pos: nat, peer: Known) returns (grown: nat)
    requires pos <= count <= kept.Length && pos < kept.Length
    modifies kept
    ensures grown <= kept.Length && grown == if count < kept.Length then count + 1 else count
    ensures kept[..grown] == FirstOf(With(old(kept[..count]), pos, peer), kept.Length)
  {
    ghost var before := kept[..count];
    grown := if count < kept.Length then count + 1 else count;
    forall i | pos < i < grown {
      kept[i] := kept[i - 1];
    }
    kept[pos] := peer;
    forall i | 0 <= i < grown
      ensures kept[i] == With(before, pos, peer)[i]
    {
      WithAt(before, pos, peer, i);
    }
  }

  lemma FirstOfWith<T>(xs: seq<T>, pos: nat, x: T, limit: nat)
    requires pos <= |xs|
    ensures FirstOf(With(xs, pos, x), limit)
         == if pos >= limit then FirstOf(xs, limit)
            else FirstOf(With(FirstOf(xs, limit), pos, x), limit)
  {
  }

  /** The place in the whole order of a peer whose place among those kept was found. */
  lemma PlaceAmongAll(xs: seq<Known>, kept: seq<Known>, x: Known, precedes: (Entry, Entry) -> bool,
                      rank: Entry -> Key, width: nat, limit: nat, pos: nat)
    returns (place: nat)
    requires IsOrder(precedes, rank, width) && AscendsBy(xs, Rank(rank))
    requires forall i | 0 <= i < |xs| :: Less(xs[i].hash, x.hash)
    requires kept == FirstOf(xs, limit) && pos <= |kept|
    requires forall i | 0 <= i < pos :: !precedes(x.entry, kept[i].entry)
    requires pos < |kept| ==> precedes(x.entry, kept[pos].entry)
    ensures place <= |xs| && (if pos < limit then place == pos else place >= limit)
    ensures forall i | 0 <= i < place :: Less(Rank(rank)(xs[i]), Rank(rank)(x))
    ensures forall i | place <= i < |xs| :: Less(Rank(rank)(x), Rank(rank)(xs[i]))
  {
    place := pos;
    while place < |xs| && !precedes(x.entry, xs[place].entry)
      invariant pos <= place <= |xs| && (pos < |kept| ==> place == pos)
      invariant forall i | 0 <= i < place :: !precedes(x.entry, xs[i].entry)
    {
      place := place + 1;
    }
    PlaceOfTheNext(xs, x, precedes, rank, width, place);
  }

  ghost function Best(s: set<Known>, rank: Entry -> Key, limit: nat): seq<Known>
    requires DistinctBy(s, Rank(rank))
  {
    FirstOf(Ascending(s, Rank(rank)), limit)
  }

  /** The place of an entry among those kept: before the first that it precedes, or at their end. */
  ghost predicate IsPlace(kept: seq<Known>, entry: Entry, precedes: (Entry, Entry) -> bool, pos: nat) {
    && pos <= |kept|
    && (forall i | 0 <= i < pos :: !precedes(entry, kept[i].entry))
    && (pos < |kept| ==> precedes(entry, kept[pos].entry))
  }

  /** What is kept after one more peer is scanned. */
  lemma {:induction false} OneMoreSelected(s: set<Known>, x: Known, precedes: (Entry, Entry) -> bool, rank: Entry -> Key, width: nat,
                        limit: nat, pos: nat)
    requires IsOrder(precedes, rank, width)
    requires DistinctBy(s, Rank(rank)) && DistinctBy(s + {x}, Rank(rank)) && x !in s
    requires forall y | y in s :: Less(y.hash, x.hash)
    requires IsPlace(Best(s, rank, limit), x.entry, precedes, pos)
    ensures Best(s + {x}, rank, limit)
         == if pos >= limit then Best(s, rank, limit) else FirstOf(With(Best(s, rank, limit), pos, x), limit)
  {
    var key := Rank(rank);
    var xs := Ascending(s, key);
    forall i | 0 <= i < |xs|
      ensures Less(xs[i].hash, x.hash)
    {
      assert xs[i] in xs;
    }
    var place := PlaceAmongAll(xs, Best(s, rank, limit), x, precedes, rank, width, limit, pos);
    InsertedIsAscending(s, x, key, place);
    FirstOfWith(xs, place, x, limit);
  }

  method FindPlace(kept: array<Known>, count: nat, entry: Entry, precedes: (Entry, Entry) -> bool)
    returns (pos: nat)
    requires count <= kept.Length
    ensures IsPlace(kept[..count], entry, precedes, pos)
  {
    pos := 0;
    while pos < count && !precedes(entry, kept[pos].entry)
      invariant pos <= count
      invariant forall j | 0 <= j < pos :: !precedes(entry, kept[j].entry)
    {
      pos := pos + 1;
    }
  }

  const NOBODY := Known([], Entry([], 0, 0, 0))

  lemma ScannedOneMore(peers: Peers, reachable: set<Bytes>, hashes: seq<Bytes>, i: nat)
    requires i < |hashes| && hashes[i] in peers
    ensures Unreachable(peers, reachable, Elements(hashes[..i + 1]))
         == Unreachable(peers, reachable, Elements(hashes[..i]))
            + if hashes[i] in reachable then {} else {Known(hashes[i], peers[hashes[i]])}
  {
    ElementsGrow(hashes, i);
  }

  lemma AllScanned(peers: Peers, reachable: set<Bytes>, hashes: seq<Bytes>)
    requires forall h :: h in hashes <==> h in peers
    ensures Unreachable(peers, reachable, Elements(hashes[..|hashes|])) == Unreachable(peers, reachable, peers.Keys)
  {
    assert hashes[..|hashes|] == hashes;
  }

  lemma ScannedComesBefore(peers: Peers, reachable: set<Bytes>, hashes: seq<Bytes>, i: nat)
    requires AscendsBy(hashes, Itself) && i < |hashes|
    ensures forall y | y in Unreachable(peers, reachable, Elements(hashes[..i])) :: Less(y.hash, hashes[i])
    ensures forall y | y in Unreachable(peers, reachable, Elements(hashes[..i])) :: y.hash != hashes[i]
  {
    forall y | y in Unreachable(peers, reachable, Elements(hashes[..i]))
      ensures Less(y.hash, hashes[i]) && y.hash != hashes[i]
    {
      var j :| 0 <= j < i && hashes[j] == y.hash;
      LessAsymmetric(Itself(hashes[j]), Itself(hashes[i]));
    }
  }

  /** Puts a peer in its place among those kept, if it has one within the limit. */
  method Keep(kept: array<Known>, count: nat, peer: Known, precedes: (Entry, Entry) -> bool,
              ghost s: set<Known>, ghost rank: Entry -> Key, ghost width: nat)
    returns (grown: nat)
    requires count <= kept.Length && IsOrder(precedes, rank, width)
    requires DistinctBy(s, Rank(rank)) && DistinctBy(s + {peer}, Rank(rank)) && peer !in s
    requires forall y | y in s :: Less(y.hash, peer.hash)
    requires kept[..count] == Best(s, rank, kept.Length)
    modifies kept
    ensures grown <= kept.Length && kept[..grown] == Best(s + {peer}, rank, kept.Length)
  {
    var pos := FindPlace(kept, count, peer.entry, precedes);
    OneMoreSelected(s, peer, precedes, rank, width, kept.Length, pos);
    if pos >= kept.Length {
      return count;
    }
    grown := Insert(kept, count, pos, peer);
  }

  /** What the scan keeps after its first peers. */
  ghost predicate IsKept(kept: seq<Known>, peers: Peers, reachable: set<Bytes>, hashes: seq<Bytes>, i: nat,
                         limit: nat, rank: Entry -> Key)
  {
    && i <= |hashes|
    && var seen := Unreachable(peers, reachable, Elements(hashes[..i]));
       DistinctBy(seen, Rank(rank)) && kept == Best(seen, rank, limit)
  }

  lemma NothingIsKept(peers: Peers, reachable: set<Bytes>, hashes: seq<Bytes>, limit: nat, rank: Entry -> Key)
    ensures IsKept([], peers, reachable, hashes, 0, limit, rank)
  {
    assert Unreachable(peers, reachable, Elements(hashes[..0])) == {};
  }

  /** The hashes in the order in which a scan comes to them. */
  function Scanned(peers: Peers): (hashes: seq<Bytes>)
    ensures AscendsBy(hashes, Itself)
    ensures forall h :: h in hashes <==> h in peers
    ensures forall i | 0 <= i < |hashes| :: hashes[i] in peers
  {
    var hashes := Ascending(peers.Keys, Itself);
    assert forall i | 0 <= i < |hashes| :: hashes[i] in hashes;
    hashes
  }

  method ScanOne(kept: array<Known>, count: nat, peers: Peers, reachable: set<Bytes>, hashes: seq<Bytes>, i: nat,
                 precedes: (Entry, Entry) -> bool, ghost rank: Entry -> Key, ghost width: nat)
    returns (grown: nat)
    requires IsOrder(precedes, rank, width) && AscendsBy(hashes, Itself)
    requires i < |hashes| && hashes[i] in peers && count <= kept.Length
    requires IsKept(kept[..count], peers, reachable, hashes, i, kept.Length, rank)
    modifies kept
    ensures grown <= kept.Length && IsKept(kept[..grown], peers, reachable, hashes, i + 1, kept.Length, rank)
  {
    ghost var seen := Unreachable(peers, reachable, Elements(hashes[..i]));
    ScannedOneMore(peers, reachable, hashes, i);
    if hashes[i] in reachable {
      return count;
    }
    var peer := Known(hashes[i], peers[hashes[i]]);
    ScannedComesBefore(peers, reachable, hashes, i);
    RanksAreDistinct(peers, reachable, Elements(hashes[..i + 1]), rank, width);
    grown := Keep(kept, count, peer, precedes, seen, rank, width);
  }

  /** Keeps the first of the unreachable peers, in a scan that inserts each peer it comes to. */
  method SelectUnreachable(peers: Peers, reachable: set<Bytes>, limit: int, precedes: (Entry, Entry) -> bool,
                           ghost rank: Entry -> Key, ghost width: nat)
    returns (selected: seq<Known>)
    requires IsOrder(precedes, rank, width)
    ensures DistinctBy(Unreachable(peers, reachable, peers.Keys), Rank(rank))
    ensures selected == Selected(peers, reachable, limit, rank, width)
  {
    RanksAreDistinct(peers, reachable, peers.Keys, rank, width);
    if limit <= 0 {
      return [];
    }
    var kept := new Known[limit](_ => NOBODY);
    var count: nat := 0;
    var hashes := Scanned(peers);
    NothingIsKept(peers, reachable, hashes, limit, rank);
    for i := 0 to |hashes|
      invariant count <= limit && IsKept(kept[..count], peers, reachable, hashes, i, limit, rank)
    {
      count := ScanOne(kept, count, peers, reachable, hashes, i, precedes, rank, width);
    }
    AllScanned(peers, reachable, hashes);
    selected := kept[..count];
  }

  /** Those selected, and those that are not, in terms of the order that was asked for. */
  lemma SelectedComeFirst(peers: Peers, reachable: set<Bytes>, limit: int, precedes: (Entry, Entry) -> bool,
                          rank: Entry -> Key, width: nat)
    requires IsOrder(precedes, rank, width)
    ensures DistinctBy(Unreachable(peers, reachable, peers.Keys), Rank(rank))
    ensures var selected, all := Selected(peers, reachable, limit, rank, width), Unreachable(peers, reachable, peers.Keys);
            && |selected| == (if limit <= 0 then 0 else if limit < |all| then limit else |all|)
            && (forall a | a in selected :: a in all)
            && (forall i, j | 0 <= i < j < |selected| :: ComesFirst(precedes, selected[i], selected[j]))
            && (forall a, b | a in selected && b in all && b !in selected :: ComesFirst(precedes, a, b))
  {
    RanksAreDistinct(peers, reachable, peers.Keys, rank, width);
    var selected, all := Selected(peers, reachable, limit, rank, width), Unreachable(peers, reachable, peers.Keys);
    var xs := Ascending(all, Rank(rank));
    FirstOfAscending(all, Rank(rank), limit);
    forall a | a in selected
      ensures a in all
    {
      assert a in Elements(selected);
    }
    forall i, j | 0 <= i < j < |selected|
      ensures ComesFirst(precedes, selected[i], selected[j])
    {
      assert selected[i] == xs[i] && selected[j] == xs[j];
      StableOrder(precedes, rank, width, selected[i], selected[j]);
    }
    forall a, b | a in selected && b in all && b !in selected
      ensures ComesFirst(precedes, a, b)
    {
      assert a in Elements(selected) && b !in Elements(selected);
      StableOrder(precedes, rank, width, a, b);
    }
  }
}
