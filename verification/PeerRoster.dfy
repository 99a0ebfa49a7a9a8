/** The peers a node knows, and those of them it can reach: services/yacynode/internal/peerroster. */
module PeerRoster {
  import opened ByteStrings
  import opened Cardinalities
  import opened KeyOrder
  import opened PeerSelection
  import opened Wrappers

  /** The time that stands for no contact at all, in seconds: the first of year one. */
  const NEVER := -62_135_596_800

  datatype Address = Address(host: Bytes, port: nat)

  /** What of a peer's seed the roster reads: the hash, and the address if it has one. */
  datatype Seed = Seed(hash: Bytes, address: Option<Address>)

  datatype Confirmed = Confirmed(seed: Seed, at: int)

  datatype State = State(
    self: Bytes,
    reservoirCap: nat,
    reachableCap: nat,
    peers: Peers,
    reachable: map<Bytes, Confirmed>
  )

  datatype Event =
    | Discovery(seeds: seq<Seed>, now: int)
    | Reached(seed: Seed, now: int)
    | Missed(peer: Bytes, now: int)

  function Staler(a: Entry, b: Entry): bool {
    a.lastContacted < b.lastContacted
  }

  function Staleness(e: Entry): Key {
    [e.lastContacted]
  }

  /** What was reachable most recently first, and then what was contacted least recently. */
  function ProbedFirst(a: Entry, b: Entry): bool {
    if a.lastReachable != b.lastReachable then a.lastReachable > b.lastReachable
    else a.lastContacted < b.lastContacted
  }

  function ProbeRank(e: Entry): Key {
    [-e.lastReachable, e.lastContacted]
  }

  lemma OrdersOfTheRoster()
    ensures IsOrder(Staler, Staleness, 1)
    ensures IsOrder(ProbedFirst, ProbeRank, 2)
  {
    forall a, b
      ensures Staler(a, b) <==> Less(Staleness(a), Staleness(b))
      ensures ProbedFirst(a, b) <==> Less(ProbeRank(a), ProbeRank(b))
    {
      LessSingle(a.lastContacted, b.lastContacted);
      LessPair(-a.lastReachable, -b.lastReachable, a.lastContacted, b.lastContacted);
    }
  }

  function DiscoveredOne(peers: Peers, hash: Bytes, address: Address, now: int): Peers {
    var entry := if hash in peers then peers[hash] else Entry([], 0, NEVER, now);
    peers[hash := entry.(host := address.host, port := address.port)]
  }

  function Discovered(peers: Peers, self: Bytes, seeds: seq<Seed>, now: int): Peers
    decreases |seeds|
  {
    if seeds == [] then peers
    else
      var seed := seeds[0];
      if seed.hash == self || seed.address.None? then Discovered(peers, self, seeds[1..], now)
      else Discovered(DiscoveredOne(peers, seed.hash, seed.address.value, now), self, seeds[1..], now)
  }

  function ReachedOne(peers: Peers, hash: Bytes, address: Address, now: int): Peers {
    peers[hash := Entry(address.host, address.port, now, now)]
  }

  function MissedOne(peers: Peers, peer: Bytes, now: int): Peers {
    if peer in peers then peers[peer := peers[peer].(lastContacted := now, lastReachable := NEVER)] else peers
  }

  function HashesOf(known: seq<Known>): set<Bytes> {
    set i | 0 <= i < |known| :: known[i].hash
  }

  /** The peers to evict: the stalest of the unreachable, as many as there are beyond the capacity. */
  function Victims(peers: Peers, reachable: set<Bytes>, cap: nat): set<Bytes> {
    OrdersOfTheRoster();
    RanksAreDistinct(peers, reachable, peers.Keys, Staleness, 1);
    HashesOf(Selected(peers, reachable, |peers| - cap, Staleness, 1))
  }

  function Kept(peers: Peers, reachable: set<Bytes>, cap: nat): Peers {
    peers - Victims(peers, reachable, cap)
  }

  function Admitted(s: State, seed: Seed, now: int): map<Bytes, Confirmed> {
    if seed.hash in s.reachable || |s.reachable| < s.reachableCap
    then s.reachable[seed.hash := Confirmed(seed, now)]
    else s.reachable
  }

  function Step(s: State, e: Event): State {
    match e
    case Discovery(seeds, now) =>
      s.(peers := Kept(Discovered(s.peers, s.self, seeds, now), s.reachable.Keys, s.reservoirCap))
    case Reached(seed, now) =>
      if seed.hash == s.self || seed.address.None? then s
      else
        var peers := ReachedOne(s.peers, seed.hash, seed.address.value, now);
        s.(peers := Kept(peers, s.reachable.Keys, s.reservoirCap), reachable := Admitted(s, seed, now))
    case Missed(peer, now) =>
      s.(reachable := s.reachable - {peer}, peers := MissedOne(s.peers, peer, now))
  }

  function Run(s: State, events: seq<Event>): State
    decreases |events|
  {
    if events == [] then s else Run(Step(s, events[0]), events[1..])
  }

  function Larger(a: nat, b: nat): nat {
    if a < b then b else a
  }

  /** The bounds that the roster keeps. */
  predicate IsBounded(s: State) {
    && s.self !in s.peers && s.self !in s.reachable
    && |s.peers| <= Larger(s.reservoirCap, s.reachableCap)
    && |s.reachable| <= s.reachableCap
  }

  lemma {:induction false} SetOfHashes(known: set<Known>)
    requires forall a, b | a in known && b in known && a.hash == b.hash :: a == b
    ensures |set k | k in known :: k.hash| == |known|
    decreases |known|
  {
    if known != {} {
      var k :| k in known;
      var others := known - {k};
      SetOfHashes(others);
      assert (set x | x in known :: x.hash) == (set x | x in others :: x.hash) + {k.hash};
    }
  }

  lemma CountOfUnreachable(peers: Peers, reachable: set<Bytes>)
    ensures |Unreachable(peers, reachable, peers.Keys)| == |peers.Keys - reachable|
  {
    var known := Unreachable(peers, reachable, peers.Keys);
    SetOfHashes(known);
    forall h | h in peers.Keys - reachable
      ensures h in (set k | k in known :: k.hash)
    {
      assert Known(h, peers[h]) in known;
    }
    assert (set k | k in known :: k.hash) == peers.Keys - reachable;
  }

  lemma CountOfVictims(peers: Peers, reachable: set<Bytes>, cap: nat)
    ensures Victims(peers, reachable, cap) <= peers.Keys - reachable
    ensures |Victims(peers, reachable, cap)|
         == if |peers| <= cap then 0
            else if |peers| - cap < |peers.Keys - reachable| then |peers| - cap
            else |peers.Keys - reachable|
  {
    OrdersOfTheRoster();
    SelectedComeFirst(peers, reachable, |peers| - cap, Staler, Staleness, 1);
    CountOfUnreachable(peers, reachable);
    DistinctHashes(peers, reachable, Selected(peers, reachable, |peers| - cap, Staleness, 1));
  }

  lemma DistinctHashes(peers: Peers, reachable: set<Bytes>, selected: seq<Known>)
    requires forall a | a in selected :: a in Unreachable(peers, reachable, peers.Keys)
    requires forall i, j | 0 <= i < j < |selected| :: ComesFirst(Staler, selected[i], selected[j])
    ensures |HashesOf(selected)| == |selected| && HashesOf(selected) <= peers.Keys - reachable
  {
    OrdersOfTheRoster();
    forall i | 0 <= i < |selected|
      ensures selected[i].hash in peers.Keys - reachable
    {
      assert selected[i] in selected;
    }
    forall i, j | 0 <= i < j < |selected|
      ensures Less(Rank(Staleness)(selected[i]), Rank(Staleness)(selected[j]))
    {
      StableOrder(Staler, Staleness, 1, selected[i], selected[j]);
    }
    AscendsIsDistinct(selected, Rank(Staleness));
    SetOfHashes(Elements(selected));
    assert (set k | k in Elements(selected) :: k.hash) == HashesOf(selected);
  }

  lemma CountAfterEviction(all: set<Bytes>, reachable: set<Bytes>, victims: set<Bytes>)
    requires victims <= all - reachable
    ensures |all - victims| == |all| - |victims|
    ensures |all - reachable| == |all| - |all * reachable|
  {
    assert all == (all - victims) + victims;
    assert all == (all - reachable) + (all * reachable);
  }

  lemma KeysAfterEviction(peers: Peers, victims: set<Bytes>)
    ensures (peers - victims).Keys == peers.Keys - victims && |peers - victims| == |peers.Keys - victims|
  {
  }

  /** No reachable peer is ever evicted, and no more peers stay than the capacity or the reachable ones. */
  lemma {:induction false} EvictionKeeps(peers: Peers, reachable: set<Bytes>, cap: nat)
    ensures var kept := Kept(peers, reachable, cap);
            && (forall h | h in kept :: h in peers && kept[h] == peers[h])
            && (forall h | h in peers && h in reachable :: h in kept)
            && |kept| == if |peers| <= cap then |peers| else Larger(cap, |peers.Keys * reachable|)
  {
    var victims := Victims(peers, reachable, cap);
    CountOfVictims(peers, reachable, cap);
    CountAfterEviction(peers.Keys, reachable, victims);
    KeysAfterEviction(peers, victims);
  }

  lemma HashIsAmong(peers: Peers, reachable: set<Bytes>, selected: seq<Known>, h: Bytes)
    requires h in peers && h !in reachable
    requires forall a | a in selected :: a in Unreachable(peers, reachable, peers.Keys)
    ensures h in HashesOf(selected) <==> Known(h, peers[h]) in selected
  {
    if Known(h, peers[h]) in selected {
      var i :| 0 <= i < |selected| && selected[i] == Known(h, peers[h]);
      assert selected[i].hash in HashesOf(selected);
    }
    if h in HashesOf(selected) {
      var i :| 0 <= i < |selected| && selected[i].hash == h;
      assert selected[i] in selected;
    }
  }

  lemma VictimIsSelected(peers: Peers, reachable: set<Bytes>, cap: nat, h: Bytes)
    requires h in peers && h !in reachable
    ensures DistinctBy(Unreachable(peers, reachable, peers.Keys), Rank(Staleness))
    ensures h in Victims(peers, reachable, cap)
       <==> Known(h, peers[h]) in Selected(peers, reachable, |peers| - cap, Staleness, 1)
  {
    OrdersOfTheRoster();
    SelectedComeFirst(peers, reachable, |peers| - cap, Staler, Staleness, 1);
    HashIsAmong(peers, reachable, Selected(peers, reachable, |peers| - cap, Staleness, 1), h);
  }

  /** Whoever is evicted was contacted no later than any unreachable peer that stays. */
  lemma EvictionTakesTheStalest(peers: Peers, reachable: set<Bytes>, cap: nat, out: Bytes, stays: Bytes)
    requires out in peers && out in Victims(peers, reachable, cap)
    requires stays in peers && stays !in reachable && stays !in Victims(peers, reachable, cap)
    ensures peers[out].lastContacted <= peers[stays].lastContacted
  {
    OrdersOfTheRoster();
    CountOfVictims(peers, reachable, cap);
    VictimIsSelected(peers, reachable, cap, out);
    VictimIsSelected(peers, reachable, cap, stays);
    SelectedComeFirst(peers, reachable, |peers| - cap, Staler, Staleness, 1);
    assert ComesFirst(Staler, Known(out, peers[out]), Known(stays, peers[stays]));
  }

  lemma KeptIsBounded(s: State, peers: Peers)
    requires |s.reachable| <= s.reachableCap
    ensures |Kept(peers, s.reachable.Keys, s.reservoirCap)| <= Larger(s.reservoirCap, s.reachableCap)
  {
    EvictionKeeps(peers, s.reachable.Keys, s.reservoirCap);
    SmallerSet(peers.Keys * s.reachable.Keys, s.reachable.Keys);
  }

  lemma {:induction false} SelfIsNotDiscovered(peers: Peers, self: Bytes, seeds: seq<Seed>, now: int)
    requires self !in peers
    ensures self !in Discovered(peers, self, seeds, now)
    decreases |seeds|
  {
    if seeds != [] {
      var seed := seeds[0];
      if seed.hash == self || seed.address.None? {
        SelfIsNotDiscovered(peers, self, seeds[1..], now);
      } else {
        SelfIsNotDiscovered(DiscoveredOne(peers, seed.hash, seed.address.value, now), self, seeds[1..], now);
      }
    }
  }

  lemma KeptHasNoOther(peers: Peers, reachable: set<Bytes>, cap: nat, h: Bytes)
    ensures h in Kept(peers, reachable, cap) <==> h in peers && h !in Victims(peers, reachable, cap)
  {
  }

  lemma DiscoveryKeepsBounds(s: State, seeds: seq<Seed>, now: int)
    requires IsBounded(s)
    ensures IsBounded(Step(s, Discovery(seeds, now)))
  {
    var peers := Discovered(s.peers, s.self, seeds, now);
    SelfIsNotDiscovered(s.peers, s.self, seeds, now);
    KeptIsBounded(s, peers);
    KeptHasNoOther(peers, s.reachable.Keys, s.reservoirCap, s.self);
  }

  lemma AdmittedIsBounded(s: State, seed: Seed, now: int)
    requires IsBounded(s) && seed.hash != s.self
    ensures |Admitted(s, seed, now)| <= s.reachableCap && s.self !in Admitted(s, seed, now)
  {
  }

  lemma PeersAfterReached(s: State, seed: Seed, now: int)
    requires seed.hash != s.self && seed.address.Some?
    ensures Step(s, Reached(seed, now)).peers
         == Kept(ReachedOne(s.peers, seed.hash, seed.address.value, now), s.reachable.Keys, s.reservoirCap)
  {
  }

  lemma ReachedKeepsBounds(s: State, seed: Seed, now: int)
    requires IsBounded(s)
    ensures IsBounded(Step(s, Reached(seed, now)))
  {
    if seed.hash != s.self && seed.address.Some? {
      var peers := ReachedOne(s.peers, seed.hash, seed.address.value, now);
      PeersAfterReached(s, seed, now);
      KeptIsBounded(s, peers);
      KeptHasNoOther(peers, s.reachable.Keys, s.reservoirCap, s.self);
      AdmittedIsBounded(s, seed, now);
    }
  }

  lemma MissedKeepsBounds(s: State, peer: Bytes, now: int)
    requires IsBounded(s)
    ensures IsBounded(Step(s, Missed(peer, now)))
  {
    assert (s.reachable - {peer}).Keys == s.reachable.Keys - {peer};
    SmallerSet(s.reachable.Keys - {peer}, s.reachable.Keys);
    assert MissedOne(s.peers, peer, now).Keys == s.peers.Keys;
  }

  lemma StepKeepsBounds(s: State, e: Event)
    requires IsBounded(s)
    ensures IsBounded(Step(s, e))
  {
    match e
    case Discovery(seeds, now) => DiscoveryKeepsBounds(s, seeds, now);
    case Reached(seed, now) => ReachedKeepsBounds(s, seed, now);
    case Missed(peer, now) => MissedKeepsBounds(s, peer, now);
  }

  /** A run keeps the bounds. */
  lemma {:induction false} RunKeepsBounds(s: State, events: seq<Event>)
    requires IsBounded(s)
    ensures IsBounded(Run(s, events))
    decreases |events|
  {
    if events != [] {
      StepKeepsBounds(s, events[0]);
      RunKeepsBounds(Step(s, events[0]), events[1..]);
    }
  }

  /** From an empty roster the bounds hold after every run, and the node is never a peer of itself. */
  lemma {:induction false} EveryRunIsBounded(self: Bytes, reservoirCap: nat, reachableCap: nat, events: seq<Event>)
    ensures IsBounded(Run(State(self, reservoirCap, reachableCap, map[], map[]), events))
  {
    RunKeepsBounds(State(self, reservoirCap, reachableCap, map[], map[]), events);
  }

  // ----------------------------------------------------- what each event records

  lemma {:induction false} UnnamedIsNotDiscovered(peers: Peers, self: Bytes, seeds: seq<Seed>, now: int, h: Bytes)
    requires forall i | 0 <= i < |seeds| :: seeds[i].hash == h ==> h == self || seeds[i].address.None?
    ensures var found := Discovered(peers, self, seeds, now);
      (h in found <==> h in peers) && (h in peers ==> found[h] == peers[h])
    decreases |seeds|
  {
    if seeds != [] {
      var seed, others := seeds[0], seeds[1..];
      if seed.hash == self || seed.address.None? {
        UnnamedIsNotDiscovered(peers, self, others, now, h);
      } else {
        UnnamedIsNotDiscovered(DiscoveredOne(peers, seed.hash, seed.address.value, now), self, others, now, h);
      }
    }
  }

  /**
   * A discovered peer has the address of its last seed that has one. If it was known it keeps its
   * contacts; if not, it counts as contacted now and as never reachable.
   */
  lemma {:induction false} DiscoveredIs(peers: Peers, self: Bytes, seeds: seq<Seed>, now: int, i: nat)
    requires i < |seeds| && seeds[i].hash != self && seeds[i].address.Some?
    requires forall j | i < j < |seeds| :: seeds[j].hash == seeds[i].hash ==> seeds[j].address.None?
    ensures var found, h, address := Discovered(peers, self, seeds, now), seeds[i].hash, seeds[i].address.value;
      h in found && found[h] ==
      if h in peers then Entry(address.host, address.port, peers[h].lastReachable, peers[h].lastContacted)
      else Entry(address.host, address.port, -62_135_596_800, now)
    decreases |seeds|
  {
    var seed, others, h := seeds[0], seeds[1..], seeds[i].hash;
    var next := if seed.hash == self || seed.address.None? then peers
                else DiscoveredOne(peers, seed.hash, seed.address.value, now);
    if i == 0 {
      UnnamedIsNotDiscovered(next, self, others, now, h);
    } else {
      DiscoveredIs(next, self, others, now, i - 1);
    }
  }

  /** A peer that was reached is stored with its address and this contact, and is reachable if there is room. */
  lemma ReachedIs(s: State, seed: Seed, now: int, h: Bytes)
    ensures var s' := Step(s, Reached(seed, now));
      if seed.hash == s.self || seed.address.None? then s' == s
      else
        && (seed.hash in s'.peers ==>
              s'.peers[seed.hash] == Entry(seed.address.value.host, seed.address.value.port, now, now))
        && (h in s'.peers && h != seed.hash ==> h in s.peers && s'.peers[h] == s.peers[h])
        && (s'.reachable ==
            if seed.hash in s.reachable || |s.reachable| < s.reachableCap
            then s.reachable[seed.hash := Confirmed(seed, now)] else s.reachable)
  {
    if seed.hash != s.self && seed.address.Some? {
      EvictionKeeps(ReachedOne(s.peers, seed.hash, seed.address.value, now), s.reachable.Keys, s.reservoirCap);
    }
  }

  /** A peer that was missed is reachable no longer, and if it is known it was contacted now and counts as never reachable. */
  lemma MissedIs(s: State, peer: Bytes, now: int, h: Bytes)
    ensures var s' := Step(s, Missed(peer, now));
      && s'.reachable == s.reachable - {peer}
      && (h in s'.peers <==> h in s.peers)
      && (h in s.peers && h != peer ==> s'.peers[h] == s.peers[h])
      && (peer in s.peers ==>
            s'.peers[peer] == Entry(s.peers[peer].host, s.peers[peer].port, -62_135_596_800, now))
  {
  }

  /** A peer is probed before another if it was reachable later, or as lately and contacted earlier, or by its hash. */
  lemma ProbedInOrder(peers: Peers, reachable: set<Bytes>, limit: int, i: nat, b: Known)
    requires DistinctBy(Unreachable(peers, reachable, peers.Keys), Rank(ProbeRank))
    requires var selected := Selected(peers, reachable, limit, ProbeRank, 2);
      && i < |selected| && b.hash in peers && b.hash !in reachable && b.entry == peers[b.hash]
      && b !in selected[..i + 1]
    ensures var a := Selected(peers, reachable, limit, ProbeRank, 2)[i];
      && a.hash in peers && a.hash !in reachable && a.entry == peers[a.hash]
      && (|| a.entry.lastReachable > b.entry.lastReachable
          || (a.entry.lastReachable == b.entry.lastReachable && a.entry.lastContacted < b.entry.lastContacted)
          || (a.entry.lastReachable == b.entry.lastReachable && a.entry.lastContacted == b.entry.lastContacted
              && Less(a.hash, b.hash)))
  {
    OrdersOfTheRoster();
    SelectedComeFirst(peers, reachable, limit, ProbedFirst, ProbeRank, 2);
    var selected := Selected(peers, reachable, limit, ProbeRank, 2);
    assert selected[i] in selected;
    assert b in Unreachable(peers, reachable, peers.Keys);
    forall j | 0 <= j <= i
      ensures selected[j] != b
    {
      assert selected[j] == selected[..i + 1][j];
    }
    assert ComesFirst(ProbedFirst, selected[i], b);
  }

  lemma NothingRemoved(peers: Peers)
    ensures peers - {} == peers
  {
  }

  lemma RemovedInTurn(peers: Peers, a: set<Bytes>, b: set<Bytes>)
    ensures (peers - a) - b == peers - (a + b)
  {
  }

  lemma ElementsAreHashes(selected: seq<Known>, victims: seq<Bytes>)
    requires |victims| == |selected| && forall i | 0 <= i < |selected| :: victims[i] == selected[i].hash
    ensures Elements(victims) == HashesOf(selected)
  {
  }

  method StalestUnreachable(peers: Peers, reachable: set<Bytes>, limit: int) returns (selected: seq<Known>)
    ensures DistinctBy(Unreachable(peers, reachable, peers.Keys), Rank(Staleness))
    ensures selected == Selected(peers, reachable, limit, Staleness, 1)
  {
    OrdersOfTheRoster();
    selected := SelectUnreachable(peers, reachable, limit, Staler, Staleness, 1);
  }

  class Roster {
    const self: Bytes
    const reservoirCap: nat
    const reachableCap: nat
    var peers: Peers
    var reachable: map<Bytes, Confirmed>

    constructor (self: Bytes, reservoirCap: nat, reachableCap: nat)
      ensures NowIs(State(self, reservoirCap, reachableCap, map[], map[]))
    {
      this.self, this.reservoirCap, this.reachableCap := self, reservoirCap, reachableCap;
      peers, reachable := map[], map[];
    }

    function Now(): State
      reads this
    {
      State(self, reservoirCap, reachableCap, peers, reachable)
    }

    predicate NowIs(s: State)
      reads this
    {
      Now() == s
    }

    /** Stores every seed with an address, but for the node's own; a known peer keeps its contacts. */
    method DiscoverEach(seeds: seq<Seed>, now: int)
      modifies this`peers
      ensures peers == Discovered(old(peers), self, seeds, now)
    {
      for i := 0 to |seeds|
        invariant Discovered(peers, self, seeds[i..], now) == Discovered(old(peers), self, seeds, now)
      {
        var seed := seeds[i];
        assert seeds[i..][1..] == seeds[i + 1..];
        if seed.hash == self {
          continue;
        }
        if seed.address.None? {
          continue;
        }
        peers := DiscoveredOne(peers, seed.hash, seed.address.value, now);
      }
    }

    /** The hashes of the peers to evict, in the order in which they are evicted. */
    method StalestBeyondCapacity() returns (victims: seq<Bytes>)
      ensures Elements(victims) == Victims(peers, reachable.Keys, reservoirCap)
    {
      var excess := |peers| - reservoirCap;
      var selected := StalestUnreachable(peers, reachable.Keys, excess);
      victims := seq(|selected|, i requires 0 <= i < |selected| => selected[i].hash);
      ElementsAreHashes(selected, victims);
    }

    method DeleteEach(victims: seq<Bytes>)
      modifies this`peers
      ensures peers == old(peers) - Elements(victims)
    {
      ElementsEnds(victims);
      NothingRemoved(peers);
      for i := 0 to |victims|
        invariant peers == old(peers) - Elements(victims[..i])
      {
        ElementsGrow(victims, i);
        RemovedInTurn(old(peers), Elements(victims[..i]), {victims[i]});
        peers := peers - {victims[i]};
      }
    }

    method EvictOverflow()
      modifies this`peers
      ensures peers == Kept(old(peers), reachable.Keys, reservoirCap)
    {
      var victims := StalestBeyondCapacity();
      DeleteEach(victims);
    }

    method Discover(seeds: seq<Seed>, now: int)
      modifies this`peers
      ensures Now() == Step(old(Now()), Discovery(seeds, now))
    {
      DiscoverEach(seeds, now);
      EvictOverflow();
    }

    method ConfirmReachable(seed: Seed, now: int)
      modifies this
      ensures Now() == Step(old(Now()), Reached(seed, now))
    {
      if seed.hash == self {
        return;
      }
      if seed.address.None? {
        return;
      }
      peers := ReachedOne(peers, seed.hash, seed.address.value, now);
      EvictOverflow();
      if seed.hash in reachable || |reachable| < reachableCap {
        reachable := reachable[seed.hash := Confirmed(seed, now)];
      }
    }

    method ConfirmUnreachable(peer: Bytes, now: int)
      modifies this
      ensures Now() == Step(old(Now()), Missed(peer, now))
    {
      reachable := reachable - {peer};
      peers := MissedOne(peers, peer, now);
    }

    /** The peers to probe: those reachable most recently first, and then those contacted longest ago. */
    method UnreachablePeerHashes(limit: int) returns (hashes: seq<Bytes>)
      ensures DistinctBy(Unreachable(peers, reachable.Keys, peers.Keys), Rank(ProbeRank))
      ensures var selected := Selected(peers, reachable.Keys, limit, ProbeRank, 2);
              |hashes| == |selected| && forall i | 0 <= i < |hashes| :: hashes[i] == selected[i].hash
      ensures |hashes| == if limit <= 0 then 0 else if limit < |peers.Keys - reachable.Keys| then limit
                          else |peers.Keys - reachable.Keys|
    {
      OrdersOfTheRoster();
      SelectedComeFirst(peers, reachable.Keys, limit, ProbedFirst, ProbeRank, 2);
      CountOfUnreachable(peers, reachable.Keys);
      var selected := SelectUnreachable(peers, reachable.Keys, limit, ProbedFirst, ProbeRank, 2);
      hashes := seq(|selected|, i requires 0 <= i < |selected| => selected[i].hash);
    }
  }
}
