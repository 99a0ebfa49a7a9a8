/** When peers that were reached are stored in the roster: services/yacynode/internal/peerroster. */
module ReachedPeers {
  import opened ByteStrings
  import opened Cardinalities
  import opened KeyOrder
  import opened PeerRoster
  import opened PeerSelection

  // --------------------------------------------------------------- one peer reached

  /** The stored peers that go before this one when it is contacted now and others are evicted. */
  function GoingBefore(s: State, hash: Bytes, now: int): set<Bytes> {
    set h | h in s.peers && h !in s.reachable && h != hash
            && (s.peers[h].lastContacted < now || (s.peers[h].lastContacted == now && Less(h, hash)))
  }

  /** The peers among these that come before one in the order of eviction. */
  function ComingFirst(all: set<Known>, x: Known): set<Known> {
    set k | k in all && ComesFirst(Staler, k, x)
  }

  lemma BeforeInOrder(all: set<Known>, x: Known)
    ensures Before(all, Rank(Staleness), x) == ComingFirst(all, x)
  {
    OrdersOfTheRoster();
    forall k | k in all
      ensures Less(Rank(Staleness)(k), Rank(Staleness)(x)) <==> ComesFirst(Staler, k, x)
    {
      StableOrder(Staler, Staleness, 1, k, x);
    }
  }

  lemma VictimIff(peers: Peers, reachable: set<Bytes>, cap: nat, h: Bytes)
    requires h in peers && h !in reachable
    ensures h in Victims(peers, reachable, cap)
       <==> |ComingFirst(Unreachable(peers, reachable, peers.Keys), Known(h, peers[h]))| < |peers| - cap
  {
    var all, x := Unreachable(peers, reachable, peers.Keys), Known(h, peers[h]);
    VictimIsSelected(peers, reachable, cap, h);
    BeforeInOrder(all, x);
    FirstOfIff(all, Rank(Staleness), |peers| - cap, x);
  }

  /** The peers that come first once this one is stored are those that went before it. */
  lemma CountOfThoseBefore(s: State, hash: Bytes, address: Address, now: int)
    requires hash !in s.reachable
    ensures var reached := ReachedOne(s.peers, hash, address, now);
            var all := Unreachable(reached, s.reachable.Keys, reached.Keys);
            |ComingFirst(all, Known(hash, reached[hash]))| == |GoingBefore(s, hash, now)|
  {
    var reached := ReachedOne(s.peers, hash, address, now);
    var all := Unreachable(reached, s.reachable.Keys, reached.Keys);
    var before := ComingFirst(all, Known(hash, reached[hash]));
    SetOfHashes(before);
    LessIrreflexive(hash);
    forall h
      ensures h in (set k | k in before :: k.hash) <==> h in GoingBefore(s, hash, now)
    {
      if h in GoingBefore(s, hash, now) {
        assert Known(h, reached[h]) in before;
      }
    }
    assert (set k | k in before :: k.hash) == GoingBefore(s, hash, now);
  }

  lemma NewlyReachedStaysIff(s: State, hash: Bytes, address: Address, now: int)
    requires hash !in s.reachable
    ensures hash in Kept(ReachedOne(s.peers, hash, address, now), s.reachable.Keys, s.reservoirCap)
       <==> |GoingBefore(s, hash, now)| >= |s.peers.Keys + {hash}| - s.reservoirCap
  {
    var reached := ReachedOne(s.peers, hash, address, now);
    assert reached.Keys == s.peers.Keys + {hash};
    assert |reached| == |s.peers.Keys + {hash}|;
    VictimIff(reached, s.reachable.Keys, s.reservoirCap, hash);
    CountOfThoseBefore(s, hash, address, now);
    KeptHasNoOther(reached, s.reachable.Keys, s.reservoirCap, hash);
  }

  /**
   * A peer that was just reached stays stored exactly when it was reachable already, or the roster
   * does not overflow, or enough others go before it to be evicted in its place.
   */
  lemma {:induction false} ReachedPeerStaysKnownIff(s: State, seed: Seed, now: int)
    requires seed.hash != s.self && seed.address.Some?
    ensures var excess := |s.peers.Keys + {seed.hash}| - s.reservoirCap;
            seed.hash in Step(s, Reached(seed, now)).peers
            <==> seed.hash in s.reachable || excess <= 0 || |GoingBefore(s, seed.hash, now)| >= excess
  {
    PeersAfterReached(s, seed, now);
    if seed.hash in s.reachable {
      EvictionKeeps(ReachedOne(s.peers, seed.hash, seed.address.value, now), s.reachable.Keys, s.reservoirCap);
    } else {
      NewlyReachedStaysIff(s, seed.hash, seed.address.value, now);
    }
  }

  // ----------------------------------------------------------------- whole runs

  ghost predicate ReachableAreStored(s: State) {
    s.reachable.Keys <= s.peers.Keys
  }

  function TimeOf(e: Event): int {
    e.now
  }

  /** Every event is later than the one before it, and the first is later than this time. */
  predicate Rising(events: seq<Event>, after: int)
    decreases |events|
  {
    events != [] ==> after < TimeOf(events[0]) && Rising(events[1..], TimeOf(events[0]))
  }

  predicate ContactedBy(peers: Peers, time: int) {
    forall h | h in peers :: peers[h].lastContacted <= time
  }

  lemma {:induction false} DiscoveryKeepsPeers(peers: Peers, self: Bytes, seeds: seq<Seed>, now: int)
    requires ContactedBy(peers, now)
    ensures peers.Keys <= Discovered(peers, self, seeds, now).Keys
    ensures ContactedBy(Discovered(peers, self, seeds, now), now)
    decreases |seeds|
  {
    if seeds != [] {
      var seed := seeds[0];
      if seed.hash == self || seed.address.None? {
        DiscoveryKeepsPeers(peers, self, seeds[1..], now);
      } else {
        DiscoveryKeepsPeers(DiscoveredOne(peers, seed.hash, seed.address.value, now), self, seeds[1..], now);
      }
    }
  }

  lemma KeptIsContactedBy(peers: Peers, reachable: set<Bytes>, cap: nat, time: int)
    requires ContactedBy(peers, time)
    ensures ContactedBy(Kept(peers, reachable, cap), time)
  {
    EvictionKeeps(peers, reachable, cap);
  }

  lemma StepIsContactedBy(s: State, e: Event)
    requires ContactedBy(s.peers, TimeOf(e))
    ensures ContactedBy(Step(s, e).peers, TimeOf(e))
  {
    match e
    case Discovery(seeds, now) =>
      DiscoveryKeepsPeers(s.peers, s.self, seeds, now);
      KeptIsContactedBy(Discovered(s.peers, s.self, seeds, now), s.reachable.Keys, s.reservoirCap, now);
    case Reached(seed, now) =>
      if seed.hash != s.self && seed.address.Some? {
        var reached := ReachedOne(s.peers, seed.hash, seed.address.value, now);
        PeersAfterReached(s, seed, now);
        KeptIsContactedBy(reached, s.reachable.Keys, s.reservoirCap, now);
      }
    case Missed(peer, now) =>
  }

  /** All unreachable peers were contacted earlier, so they go before a peer that is reached later. */
  lemma AllGoBefore(s: State, hash: Bytes, now: int)
    requires forall h | h in s.peers :: s.peers[h].lastContacted < now
    requires hash !in s.reachable
    ensures |GoingBefore(s, hash, now)| == |s.peers.Keys + {hash}| - 1 - |s.peers.Keys * s.reachable.Keys|
  {
    var all, before := s.peers.Keys + {hash}, GoingBefore(s, hash, now);
    assert before == (all - {hash}) - s.peers.Keys * s.reachable.Keys;
    SmallerSet({hash}, all);
    SmallerSet(s.peers.Keys * s.reachable.Keys, all - {hash});
  }

  lemma AdmittedIsStored(s: State, seed: Seed, now: int)
    requires s.reachableCap <= s.reservoirCap && seed.hash != s.self && seed.address.Some?
    requires forall h | h in s.peers :: s.peers[h].lastContacted < now
    requires seed.hash !in s.reachable && |s.reachable| < s.reachableCap
    ensures seed.hash in Step(s, Reached(seed, now)).peers
  {
    AllGoBefore(s, seed.hash, now);
    SmallerSet(s.peers.Keys * s.reachable.Keys, s.reachable.Keys);
    ReachedPeerStaysKnownIff(s, seed, now);
  }

  lemma StoredReachableStay(s: State, seed: Seed, now: int)
    requires ReachableAreStored(s) && seed.hash != s.self && seed.address.Some?
    ensures s.reachable.Keys <= Step(s, Reached(seed, now)).peers.Keys
  {
    PeersAfterReached(s, seed, now);
    EvictionKeeps(ReachedOne(s.peers, seed.hash, seed.address.value, now), s.reachable.Keys, s.reservoirCap);
  }

  lemma ReachableAfterReached(s: State, seed: Seed, now: int)
    requires seed.hash != s.self && seed.address.Some?
    ensures Step(s, Reached(seed, now)).reachable == Admitted(s, seed, now)
  {
  }

  lemma ReachedKeepsStored(s: State, seed: Seed, now: int)
    requires s.reachableCap <= s.reservoirCap && ReachableAreStored(s)
    requires forall h | h in s.peers :: s.peers[h].lastContacted < now
    ensures ReachableAreStored(Step(s, Reached(seed, now)))
  {
    if seed.hash != s.self && seed.address.Some? {
      StoredReachableStay(s, seed, now);
      ReachableAfterReached(s, seed, now);
      if seed.hash !in s.reachable && |s.reachable| < s.reachableCap {
        AdmittedIsStored(s, seed, now);
      }
    }
  }

  lemma StepKeepsStored(s: State, e: Event)
    requires s.reachableCap <= s.reservoirCap && ReachableAreStored(s)
    requires forall h | h in s.peers :: s.peers[h].lastContacted < TimeOf(e)
    ensures ReachableAreStored(Step(s, e))
  {
    match e
    case Discovery(seeds, now) =>
      DiscoveryKeepsPeers(s.peers, s.self, seeds, now);
      EvictionKeeps(Discovered(s.peers, s.self, seeds, now), s.reachable.Keys, s.reservoirCap);
    case Reached(seed, now) => ReachedKeepsStored(s, seed, now);
    case Missed(peer, now) => assert MissedOne(s.peers, peer, now).Keys == s.peers.Keys;
  }

  /** With room for all that can be reachable, and times that rise, whoever is reachable is stored. */
  lemma {:induction false} RunKeepsReachableStored(s: State, events: seq<Event>, after: int)
    requires s.reachableCap <= s.reservoirCap && ReachableAreStored(s)
    requires ContactedBy(s.peers, after) && Rising(events, after)
    ensures ReachableAreStored(Run(s, events))
    decreases |events|
  {
    if events != [] {
      StepKeepsStored(s, events[0]);
      StepIsContactedBy(s, events[0]);
      RunKeepsReachableStored(Step(s, events[0]), events[1..], TimeOf(events[0]));
    }
  }

  // ------------------------------------------------------- reachable but not stored

  /** These peers are reached one after another. */
  function Reachings(seeds: seq<Seed>, now: int): seq<Event> {
    if seeds == [] then [] else [Reached(seeds[0], now)] + Reachings(seeds[1..], now + 1)
  }

  lemma {:induction false} ReachingsRise(seeds: seq<Seed>, now: int)
    ensures Rising(Reachings(seeds, now), now - 1)
  {
    if seeds != [] {
      ReachingsRise(seeds[1..], now + 1);
      assert Reachings(seeds, now)[1..] == Reachings(seeds[1..], now + 1);
    }
  }

  /** Peers with addresses and different hashes, none of them the node itself. */
  predicate AreOthers(self: Bytes, seeds: seq<Seed>) {
    && (forall i | 0 <= i < |seeds| :: seeds[i].hash != self && seeds[i].address.Some?)
    && (forall i, j | 0 <= i < j < |seeds| :: seeds[i].hash != seeds[j].hash)
  }

  /** A full roster of reachable peers does not store one more, which is admitted all the same. */
  lemma OneTooManyIsLost(s: State, seed: Seed, now: int)
    requires seed.hash != s.self && seed.address.Some? && seed.hash !in s.peers
    requires s.peers.Keys == s.reachable.Keys && |s.peers| == s.reservoirCap < s.reachableCap
    ensures seed.hash in Step(s, Reached(seed, now)).reachable && seed.hash !in Step(s, Reached(seed, now)).peers
  {
    assert |s.reachable| == |s.reachable.Keys| == |s.peers.Keys| == |s.peers|;
    SmallerSet({seed.hash}, s.peers.Keys + {seed.hash});
    assert s.peers.Keys + {seed.hash} - {seed.hash} == s.peers.Keys;
    assert GoingBefore(s, seed.hash, now) == {};
    ReachedPeerStaysKnownIff(s, seed, now);
  }

  /** While there is room, every peer that is reached is stored and reachable. */
  lemma OneMoreIsStored(s: State, seed: Seed, now: int)
    requires seed.hash != s.self && seed.address.Some? && seed.hash !in s.peers
    requires s.peers.Keys == s.reachable.Keys && |s.peers| < s.reservoirCap < s.reachableCap
    ensures var s' := Step(s, Reached(seed, now));
            && s'.peers.Keys == s'.reachable.Keys == s.peers.Keys + {seed.hash} && |s'.peers| == |s.peers| + 1
            && s'.self == s.self && s'.reservoirCap == s.reservoirCap && s'.reachableCap == s.reachableCap
  {
    PeersWithRoom(s, seed, now);
    ReachableAfterReached(s, seed, now);
    AdmittedWithRoom(s, seed, now);
  }

  lemma AdmittedWithRoom(s: State, seed: Seed, now: int)
    requires s.peers.Keys == s.reachable.Keys && |s.peers| < s.reachableCap
    ensures Admitted(s, seed, now).Keys == s.reachable.Keys + {seed.hash}
  {
    assert |s.reachable| == |s.reachable.Keys| == |s.peers.Keys| == |s.peers|;
  }

  lemma PeersWithRoom(s: State, seed: Seed, now: int)
    requires seed.hash != s.self && seed.address.Some? && seed.hash !in s.peers
    requires s.peers.Keys == s.reachable.Keys && |s.peers| < s.reservoirCap
    ensures var peers := Step(s, Reached(seed, now)).peers;
            peers.Keys == s.peers.Keys + {seed.hash} && |peers| == |s.peers| + 1
  {
    var reached := ReachedOne(s.peers, seed.hash, seed.address.value, now);
    assert reached.Keys == s.peers.Keys + {seed.hash} && |reached| == |s.peers| + 1;
    PeersAfterReached(s, seed, now);
    NobodyIsEvicted(reached, s.reachable.Keys, s.reservoirCap);
  }

  lemma NobodyIsEvicted(peers: Peers, reachable: set<Bytes>, cap: nat)
    requires |peers| <= cap
    ensures Kept(peers, reachable, cap) == peers
  {
    CountOfVictims(peers, reachable, cap);
    assert Victims(peers, reachable, cap) == {};
    NothingRemoved(peers);
  }

  lemma OthersAreOthers(s: State, seeds: seq<Seed>)
    requires |seeds| > 1 && AreOthers(s.self, seeds)
    requires forall i | 0 <= i < |seeds| :: seeds[i].hash !in s.peers
    ensures AreOthers(s.self, seeds[1..])
    ensures forall i | 0 <= i < |seeds[1..]| :: seeds[1..][i].hash !in s.peers.Keys + {seeds[0].hash}
  {
  }

  lemma {:induction false} LastIsLost(s: State, seeds: seq<Seed>, now: int)
    requires seeds != [] && AreOthers(s.self, seeds)
    requires forall i | 0 <= i < |seeds| :: seeds[i].hash !in s.peers
    requires s.peers.Keys == s.reachable.Keys && s.reservoirCap < s.reachableCap
    requires |s.peers| + |seeds| == s.reservoirCap + 1
    ensures var last, s' := seeds[|seeds| - 1].hash, Run(s, Reachings(seeds, now));
            last in s'.reachable && last !in s'.peers
    decreases |seeds|
  {
    var next := Step(s, Reached(seeds[0], now));
    var others := seeds[1..];
    assert Reachings(seeds, now)[0] == Reached(seeds[0], now);
    assert Reachings(seeds, now)[1..] == Reachings(others, now + 1);
    if others == [] {
      OneTooManyIsLost(s, seeds[0], now);
    } else {
      OneMoreIsStored(s, seeds[0], now);
      OthersAreOthers(s, seeds);
      LastIsLost(next, others, now + 1);
    }
  }

  /** With room for fewer stored peers than reachable ones, one peer too many is reachable but not stored. */
  lemma {:induction false} ReachableWithoutBeingKnown(
    self: Bytes, reservoirCap: nat, reachableCap: nat, seeds: seq<Seed>, now: int)
    requires reservoirCap < reachableCap
    requires AreOthers(self, seeds) && |seeds| == reservoirCap + 1
    ensures var s := Run(State(self, reservoirCap, reachableCap, map[], map[]), Reachings(seeds, now));
            seeds[reservoirCap].hash in s.reachable && seeds[reservoirCap].hash !in s.peers
  {
    LastIsLost(State(self, reservoirCap, reachableCap, map[], map[]), seeds, now);
  }

  /**
   * On every run from an empty roster whose times rise, all reachable peers are stored, if and
   * only if the roster has room for as many stored peers as reachable ones.
   */
  lemma {:induction false} ReachableAreStoredIff(
    self: Bytes, reservoirCap: nat, reachableCap: nat, seeds: seq<Seed>, after: int)
    requires AreOthers(self, seeds) && |seeds| == reservoirCap + 1
    ensures reachableCap <= reservoirCap <==>
      forall events | Rising(events, after) ::
        ReachableAreStored(Run(State(self, reservoirCap, reachableCap, map[], map[]), events))
  {
    var empty := State(self, reservoirCap, reachableCap, map[], map[]);
    if reachableCap <= reservoirCap {
      forall events | Rising(events, after)
        ensures ReachableAreStored(Run(empty, events))
      {
        RunKeepsReachableStored(empty, events, after);
      }
    } else {
      ReachingsRise(seeds, after + 1);
      ReachableWithoutBeingKnown(self, reservoirCap, reachableCap, seeds, after + 1);
      assert !ReachableAreStored(Run(empty, Reachings(seeds, after + 1)));
    }
  }

  lemma TwoSteps(s: State, e: Event, f: Event)
    ensures Run(s, [e, f]) == Step(Step(s, e), f)
  {
    assert [e, f][1..] == [f];
    assert Run(Step(s, e), [f]) == Run(Step(Step(s, e), f), []);
  }

  /** Times must rise: a peer reached in the second in which another was discovered can be evicted for it. */
  lemma {:induction false} SameSecondLosesThePeer(self: Bytes, other: Seed, seed: Seed, now: int)
    requires AreOthers(self, [other, seed]) && Less(seed.hash, other.hash)
    ensures var s := Run(State(self, 1, 1, map[], map[]), [Discovery([other], now), Reached(seed, now)]);
            seed.hash in s.reachable && seed.hash !in s.peers
  {
    var empty := State(self, 1, 1, map[], map[]);
    var first := Step(empty, Discovery([other], now));
    assert [other, seed][0] == other && [other, seed][1] == seed;
    TwoSteps(empty, Discovery([other], now), Reached(seed, now));
    OneDiscovered(self, other, now);
    TiedIsLost(first, other.hash, seed, now);
  }

  lemma TiedIsLost(s: State, other: Bytes, seed: Seed, now: int)
    requires s.reservoirCap == s.reachableCap == 1 && s.reachable == map[]
    requires s.peers.Keys == {other} && s.peers[other].lastContacted == now
    requires seed.hash != s.self && seed.address.Some? && Less(seed.hash, other)
    ensures seed.hash in Step(s, Reached(seed, now)).reachable && seed.hash !in Step(s, Reached(seed, now)).peers
  {
    LessIrreflexive(other);
    LessAsymmetric(seed.hash, other);
    assert GoingBefore(s, seed.hash, now) == {};
    assert s.peers.Keys + {seed.hash} == {other, seed.hash};
    ReachedPeerStaysKnownIff(s, seed, now);
    ReachableAfterReached(s, seed, now);
  }

  lemma OneDiscovered(self: Bytes, other: Seed, now: int)
    requires self != other.hash && other.address.Some?
    ensures var first := Step(State(self, 1, 1, map[], map[]), Discovery([other], now));
            && first.peers == map[other.hash := Entry(other.address.value.host, other.address.value.port, NEVER, now)]
            && first.reachable == map[] && first.self == self && first.reservoirCap == 1 && first.reachableCap == 1
  {
    var peers := DiscoveredOne(map[], other.hash, other.address.value, now);
    assert [other][1..] == [];
    assert Discovered(map[], self, [other], now) == Discovered(peers, self, [], now) == peers;
    assert |peers| == 1;
    NobodyIsEvicted(peers, {}, 1);
  }
}
