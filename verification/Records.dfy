/** Revising shared records by compare and swap, interleaved: services/yacycrawler/internal/jetstreamrecord. */
module Records {
  import opened ByteStrings
  import opened Wrappers

  type Key = Bytes

  const CONTENDED_ATTEMPTS := 5
  const ABSENT_REVISION := 0

  datatype Entry<R> = Entry(value: R, revision: nat)

  datatype Outcome<R> = Reported(record: R, revised: bool) | Contended | Cancelled

  /** Where a call is: how many commits its key had seen when it read is kept for the proofs only. */
  datatype Phase<R> =
    | Reading(attempt: nat)
    | Holding(attempt: nat, standing: R, revision: nat, seen: nat)
    | Pausing(attempt: nat)
    | Done(outcome: Outcome<R>)

  datatype Call<!R> = Call(key: Key, revise: R -> (R, bool), started: nat, phase: Phase<R>)

  datatype Commit<R> = Commit(caller: nat, key: Key, before: R, after: R)

  /** The bucket with its last revision, the calls, and every write that succeeded, in order. */
  datatype World<!R> = World(
    absent: R,
    entries: map<Key, Entry<R>>,
    last: nat,
    calls: map<nat, Call<R>>,
    commits: seq<Commit<R>>
  )

  datatype Event<!R> =
    | Begin(id: nat, key: Key, revise: R -> (R, bool))
    | Fetch(id: nat)
    | Store(id: nat)
    | Resume(id: nat)
    | Cancel(id: nat)

  function Initial<R>(absent: R): World<R> {
    World(absent, map[], 0, map[], [])
  }

  function Standing<R>(w: World<R>, k: Key): R {
    if k in w.entries then w.entries[k].value else w.absent
  }

  function Revision<R>(w: World<R>, k: Key): nat {
    if k in w.entries then w.entries[k].revision else ABSENT_REVISION
  }

  function CountOn<R>(commits: seq<Commit<R>>, k: Key): nat {
    if commits == [] then 0
    else CountOn(commits[..|commits| - 1], k) + (if commits[|commits| - 1].key == k then 1 else 0)
  }

  function CountBy<R>(commits: seq<Commit<R>>, id: nat): nat {
    if commits == [] then 0
    else CountBy(commits[..|commits| - 1], id) + (if commits[|commits| - 1].caller == id then 1 else 0)
  }

  function InPhase<R>(w: World<R>, id: nat, phase: Phase<R>): World<R>
    requires id in w.calls
  {
    w.(calls := w.calls[id := w.calls[id].(phase := phase)])
  }

  function Fetched<R>(w: World<R>, id: nat): World<R>
    requires id in w.calls && w.calls[id].phase.Reading?
  {
    var call := w.calls[id];
    InPhase(w, id, Holding(call.phase.attempt, Standing(w, call.key), Revision(w, call.key),
                           CountOn(w.commits, call.key)))
  }

  /** A write succeeds when the key still has the revision that was read: none, for an absent record. */
  function Stored<R>(w: World<R>, id: nat): World<R>
    requires id in w.calls && w.calls[id].phase.Holding?
  {
    var call := w.calls[id];
    var Holding(attempt, standing, revision, _) := call.phase;
    var (revised, changed) := call.revise(standing);
    if !changed then InPhase(w, id, Done(Reported(standing, false)))
    else if Revision(w, call.key) != revision then InPhase(w, id, Pausing(attempt))
    else
      InPhase(w, id, Done(Reported(revised, true))).(
        entries := w.entries[call.key := Entry(revised, w.last + 1)],
        last := w.last + 1,
        commits := w.commits + [Commit(id, call.key, Standing(w, call.key), revised)])
  }

  function AfterPause<R>(attempt: nat): Phase<R> {
    if attempt + 1 < CONTENDED_ATTEMPTS then Reading(attempt + 1) else Done(Contended)
  }

  function Resumed<R>(w: World<R>, id: nat): World<R>
    requires id in w.calls && w.calls[id].phase.Pausing?
  {
    InPhase(w, id, AfterPause(w.calls[id].phase.attempt))
  }

  function Step<R>(w: World<R>, e: Event<R>): World<R> {
    match e
    case Begin(id, key, revise) =>
      if id in w.calls then w
      else w.(calls := w.calls[id := Call(key, revise, CountOn(w.commits, key), Reading(0))])
    case Fetch(id) => if id in w.calls && w.calls[id].phase.Reading? then Fetched(w, id) else w
    case Store(id) => if id in w.calls && w.calls[id].phase.Holding? then Stored(w, id) else w
    case Resume(id) => if id in w.calls && w.calls[id].phase.Pausing? then Resumed(w, id) else w
    case Cancel(id) =>
      if id in w.calls && w.calls[id].phase.Pausing? then InPhase(w, id, Done(Cancelled)) else w
  }

  function Run<R>(w: World<R>, events: seq<Event<R>>): World<R>
    decreases |events|
  {
    if events == [] then w else Run(Step(w, events[0]), events[1..])
  }

  /** The value that the last of the writes to a key left. */
  function Latest<R>(absent: R, commits: seq<Commit<R>>, k: Key): R {
    if commits == [] then absent
    else if commits[|commits| - 1].key == k then commits[|commits| - 1].after
    else Latest(absent, commits[..|commits| - 1], k)
  }

  ghost predicate StandsAsWritten<R>(w: World<R>, k: Key) {
    && Standing(w, k) == Latest(w.absent, w.commits, k)
    && Revision(w, k) <= w.last
    && (k in w.entries ==> Revision(w, k) > ABSENT_REVISION)
  }

  /** The write is its caller's revision of the value that the write before it on the key left. */
  ghost predicate Revises<R>(w: World<R>, i: nat)
    requires i < |w.commits|
  {
    var c := w.commits[i];
    && c.before == Latest(w.absent, w.commits[..i], c.key)
    && c.caller in w.calls && w.calls[c.caller].key == c.key
    && w.calls[c.caller].revise(c.before) == (c.after, true)
    && w.calls[c.caller].phase == Done(Reported(c.after, true))
  }

  /** What a call has read is current as long as the revision is. */
  ghost predicate Tracks<R>(w: World<R>, id: nat)
    requires id in w.calls
  {
    var call := w.calls[id];
    var on := CountOn(w.commits, call.key);
    match call.phase
    case Reading(attempt) => attempt < CONTENDED_ATTEMPTS && call.started + attempt <= on
    case Holding(attempt, standing, revision, seen) =>
      && attempt < CONTENDED_ATTEMPTS && call.started + attempt <= seen <= on
      && revision <= w.last
      && (revision == Revision(w, call.key) ==> standing == Standing(w, call.key))
      && (revision != Revision(w, call.key) ==> seen < on)
    case Pausing(attempt) => attempt < CONTENDED_ATTEMPTS && call.started + attempt + 1 <= on
    case Done(Contended) => call.started + CONTENDED_ATTEMPTS <= on
    case Done(Cancelled) => true
    case Done(Reported(record, revised)) => revised || !call.revise(record).1
  }

  predicate HasRevised<R>(phase: Phase<R>) {
    phase.Done? && phase.outcome.Reported? && phase.outcome.revised
  }

  /** A call that reports a revision made one write; any other made none. */
  ghost predicate Accounted<R>(w: World<R>, id: nat) {
    CountBy(w.commits, id)
    == if id in w.calls && HasRevised(w.calls[id].phase) then 1 else 0
  }

  ghost predicate Sound<R>(w: World<R>) {
    && (forall k :: StandsAsWritten(w, k))
    && (forall i | 0 <= i < |w.commits| :: Revises(w, i))
    && (forall id | id in w.calls :: Tracks(w, id))
    && (forall id :: Accounted(w, id))
  }

  lemma InitialIsSound<R>(absent: R)
    ensures Sound(Initial(absent))
  {
  }

  lemma OtherCallsTrack<R>(w: World<R>, id: nat, phase: Phase<R>, other: nat)
    requires id in w.calls && other in w.calls && other != id && Tracks(w, other)
    ensures Tracks(InPhase(w, id, phase), other)
  {
  }

  lemma PhaseChangeIsSound<R>(w: World<R>, id: nat, phase: Phase<R>)
    requires Sound(w) && id in w.calls && !HasRevised(w.calls[id].phase) && !HasRevised(phase)
    requires Tracks(InPhase(w, id, phase), id)
    ensures Sound(InPhase(w, id, phase))
  {
    var v := InPhase(w, id, phase);
    forall k
      ensures StandsAsWritten(v, k)
    {
      assert StandsAsWritten(w, k);
    }
    forall i | 0 <= i < |v.commits|
      ensures Revises(v, i)
    {
      assert Revises(w, i);
    }
    forall other | other in v.calls
      ensures Tracks(v, other)
    {
      if other != id {
        assert Tracks(w, other);
        OtherCallsTrack(w, id, phase, other);
      }
    }
    forall other: nat
      ensures Accounted(v, other)
    {
      assert Accounted(w, other);
    }
  }

  lemma {:induction false} CountsGrow<R>(commits: seq<Commit<R>>, c: Commit<R>)
    ensures forall k :: CountOn(commits + [c], k) == CountOn(commits, k) + (if c.key == k then 1 else 0)
    ensures forall id :: CountBy(commits + [c], id) == CountBy(commits, id) + (if c.caller == id then 1 else 0)
  {
    assert (commits + [c])[..|commits|] == commits;
  }

  lemma LatestAfter<R>(absent: R, commits: seq<Commit<R>>, c: Commit<R>, k: Key)
    ensures Latest(absent, commits + [c], k) == if c.key == k then c.after else Latest(absent, commits, k)
  {
    assert (commits + [c])[..|commits|] == commits;
  }

  /** A write that succeeds: the record that was read still stood. */
  ghost predicate Succeeds<R>(w: World<R>, id: nat) {
    && id in w.calls && w.calls[id].phase.Holding?
    && w.calls[id].revise(w.calls[id].phase.standing).1
    && Revision(w, w.calls[id].key) == w.calls[id].phase.revision
  }

  lemma WriteStands<R>(w: World<R>, id: nat, k: Key)
    requires Succeeds(w, id) && StandsAsWritten(w, k)
    ensures StandsAsWritten(Stored(w, id), k)
  {
    var call := w.calls[id];
    LatestAfter(w.absent, w.commits,
                Commit(id, call.key, Standing(w, call.key), call.revise(call.phase.standing).0), k);
  }

  lemma WriteKeepsRevisions<R>(w: World<R>, id: nat, i: nat)
    requires Succeeds(w, id) && i < |w.commits| && Revises(w, i)
    ensures Revises(Stored(w, id), i)
  {
    var v := Stored(w, id);
    assert v.commits[i] == w.commits[i] && v.commits[..i] == w.commits[..i];
  }

  lemma WriteRevises<R>(w: World<R>, id: nat)
    requires Succeeds(w, id) && Tracks(w, id) && StandsAsWritten(w, w.calls[id].key)
    ensures Revises(Stored(w, id), |w.commits|)
  {
    assert Stored(w, id).commits[..|w.commits|] == w.commits;
  }

  lemma WriteKeepsTrack<R>(w: World<R>, id: nat, other: nat)
    requires Succeeds(w, id) && other in w.calls && other != id && Tracks(w, other)
    requires forall k :: StandsAsWritten(w, k)
    ensures Tracks(Stored(w, id), other)
  {
    var call := w.calls[id];
    CountsGrow(w.commits, Commit(id, call.key, Standing(w, call.key), call.revise(call.phase.standing).0));
    assert StandsAsWritten(w, w.calls[other].key);
  }

  lemma WriteIsSound<R>(w: World<R>, id: nat)
    requires Sound(w) && Succeeds(w, id)
    ensures Sound(Stored(w, id))
  {
    var v, call := Stored(w, id), w.calls[id];
    CountsGrow(w.commits, Commit(id, call.key, Standing(w, call.key), call.revise(call.phase.standing).0));
    forall k
      ensures StandsAsWritten(v, k)
    {
      assert StandsAsWritten(w, k);
      WriteStands(w, id, k);
    }
    forall i | 0 <= i < |v.commits|
      ensures Revises(v, i)
    {
      if i < |w.commits| {
        assert Revises(w, i);
        WriteKeepsRevisions(w, id, i);
      } else {
        assert StandsAsWritten(w, call.key);
        WriteRevises(w, id);
      }
    }
    forall other | other in v.calls
      ensures Tracks(v, other)
    {
      if other != id {
        WriteKeepsTrack(w, id, other);
      }
    }
    forall other: nat
      ensures Accounted(v, other)
    {
      assert Accounted(w, other);
    }
  }

  lemma StepIsSound<R>(w: World<R>, e: Event<R>)
    requires Sound(w)
    ensures Sound(Step(w, e))
  {
    match e
    case Begin(id, key, revise) => BeginIsSound(w, id, key, revise);
    case Fetch(id) =>
      if id in w.calls && w.calls[id].phase.Reading? {
        assert Tracks(w, id) && StandsAsWritten(w, w.calls[id].key);
        PhaseChangeIsSound(w, id, Fetched(w, id).calls[id].phase);
      }
    case Store(id) =>
      if id in w.calls && w.calls[id].phase.Holding? {
        assert Tracks(w, id);
        if Succeeds(w, id) {
          WriteIsSound(w, id);
        } else {
          PhaseChangeIsSound(w, id, Stored(w, id).calls[id].phase);
        }
      }
    case Resume(id) =>
      if id in w.calls && w.calls[id].phase.Pausing? {
        assert Tracks(w, id);
        PhaseChangeIsSound(w, id, Resumed(w, id).calls[id].phase);
      }
    case Cancel(id) =>
      if id in w.calls && w.calls[id].phase.Pausing? {
        PhaseChangeIsSound(w, id, Done(Cancelled));
      }
  }

  lemma BeginIsSound<R>(w: World<R>, id: nat, key: Key, revise: R -> (R, bool))
    requires Sound(w)
    ensures Sound(Step(w, Begin(id, key, revise)))
  {
    var v := Step(w, Begin(id, key, revise));
    forall k
      ensures StandsAsWritten(v, k)
    {
      assert StandsAsWritten(w, k);
    }
    forall i | 0 <= i < |v.commits|
      ensures Revises(v, i)
    {
      assert Revises(w, i);
    }
    forall other | other in v.calls
      ensures Tracks(v, other)
    {
      if other in w.calls {
        assert Tracks(w, other);
      }
    }
    forall other: nat
      ensures Accounted(v, other)
    {
      assert Accounted(w, other);
    }
  }

  lemma {:induction false} RunIsSound<R>(w: World<R>, events: seq<Event<R>>)
    requires Sound(w)
    ensures Sound(Run(w, events))
    decreases |events|
  {
    if events != [] {
      StepIsSound(w, events[0]);
      RunIsSound(Step(w, events[0]), events[1..]);
    }
  }

  /** The value that the callers' revisions give when they are applied to a key one after another. */
  function Replayed<R>(w: World<R>, n: nat, k: Key): R
    requires n <= |w.commits| && forall i | 0 <= i < n :: w.commits[i].caller in w.calls
  {
    if n == 0 then w.absent
    else if w.commits[n - 1].key != k then Replayed(w, n - 1, k)
    else w.calls[w.commits[n - 1].caller].revise(Replayed(w, n - 1, k)).0
  }

  lemma {:induction false} ReplayedIsTheLatest<R>(w: World<R>, n: nat, k: Key)
    requires Sound(w) && n <= |w.commits|
    ensures forall i | 0 <= i < n :: w.commits[i].caller in w.calls
    ensures Replayed(w, n, k) == Latest(w.absent, w.commits[..n], k)
  {
    forall i | 0 <= i < n
      ensures w.commits[i].caller in w.calls
    {
      assert Revises(w, i);
    }
    if n > 0 {
      ReplayedIsTheLatest(w, n - 1, k);
      assert w.commits[..n][..n - 1] == w.commits[..n - 1];
      assert Revises(w, n - 1);
    }
  }

  /**
   * No update is lost: after any run, what stands at a key is the outcome of the revisions that
   * were reported, applied one after another, and none of the others.
   */
  lemma NoUpdateIsLost<R>(absent: R, events: seq<Event<R>>, k: Key)
    ensures var w := Run(Initial(absent), events);
            && (forall i | 0 <= i < |w.commits| :: w.commits[i].caller in w.calls)
            && Standing(w, k) == Replayed(w, |w.commits|, k)
  {
    var w := Run(Initial(absent), events);
    InitialIsSound(absent);
    RunIsSound(Initial(absent), events);
    ReplayedIsTheLatest(w, |w.commits|, k);
    assert StandsAsWritten(w, k);
    assert w.commits[..|w.commits|] == w.commits;
  }

  lemma {:induction false} FoundAmongCommits<R>(commits: seq<Commit<R>>, id: nat) returns (i: nat)
    requires CountBy(commits, id) > 0
    ensures i < |commits| && commits[i].caller == id
  {
    if commits[|commits| - 1].caller == id {
      i := |commits| - 1;
    } else {
      i := FoundAmongCommits(commits[..|commits| - 1], id);
    }
  }

  /**
   * A call that reports a revision made exactly one write, of its revision of the value that the
   * write before it on the key had left. Every other call made none.
   */
  lemma ReportsAreTrue<R>(absent: R, events: seq<Event<R>>, id: nat)
    ensures var w := Run(Initial(absent), events);
            if id in w.calls && HasRevised(w.calls[id].phase) then
              && CountBy(w.commits, id) == 1
              && (exists i | 0 <= i < |w.commits| ::
                    && w.commits[i].caller == id && w.commits[i].key == w.calls[id].key
                    && w.commits[i].before == Latest(absent, w.commits[..i], w.calls[id].key)
                    && w.calls[id].revise(w.commits[i].before) == (w.calls[id].phase.outcome.record, true))
            else CountBy(w.commits, id) == 0
  {
    var w := Run(Initial(absent), events);
    InitialIsSound(absent);
    RunIsSound(Initial(absent), events);
    RunKeepsAbsent(Initial(absent), events);
    assert Accounted(w, id);
    if id in w.calls && HasRevised(w.calls[id].phase) {
      var i := FoundAmongCommits(w.commits, id);
      assert Revises(w, i);
    }
  }

  lemma {:induction false} RunKeepsAbsent<R>(w: World<R>, events: seq<Event<R>>)
    ensures Run(w, events).absent == w.absent
    decreases |events|
  {
    if events != [] {
      RunKeepsAbsent(Step(w, events[0]), events[1..]);
    }
  }

  /**
   * A call that gives up as contended made no write, and since it began other calls made five
   * writes to its key or more. A call that reports no revision had none to make.
   */
  lemma ContentionIsProgress<R>(absent: R, events: seq<Event<R>>, id: nat)
    ensures var w := Run(Initial(absent), events);
            id in w.calls && w.calls[id].phase.Done? ==>
              match w.calls[id].phase.outcome
              case Contended =>
                && CountBy(w.commits, id) == 0
                && CountOn(w.commits, w.calls[id].key) >= w.calls[id].started + CONTENDED_ATTEMPTS
              case Cancelled => CountBy(w.commits, id) == 0
              case Reported(record, revised) => revised || !w.calls[id].revise(record).1
  {
    var w := Run(Initial(absent), events);
    InitialIsSound(absent);
    RunIsSound(Initial(absent), events);
    if id in w.calls && w.calls[id].phase.Done? {
      assert Tracks(w, id) && Accounted(w, id);
    }
  }

  /** A step leaves what stands at a key, or it is a write to the key, which raises the revision. */
  lemma StepAdvances<R>(w: World<R>, e: Event<R>, k: Key)
    requires Sound(w)
    ensures var v := Step(w, e);
            || (CountOn(v.commits, k) == CountOn(w.commits, k)
                && Revision(v, k) == Revision(w, k) && Standing(v, k) == Standing(w, k))
            || (CountOn(v.commits, k) > CountOn(w.commits, k) && Revision(v, k) > Revision(w, k))
  {
    assert StandsAsWritten(w, k);
    if e.Store? && Succeeds(w, e.id) {
      var call := w.calls[e.id];
      CountsGrow(w.commits, Commit(e.id, call.key, Standing(w, call.key), call.revise(call.phase.standing).0));
    }
  }

  /** The revision of a key tells whether there were writes to it in between. */
  lemma {:induction false} RunAdvances<R>(w: World<R>, events: seq<Event<R>>, k: Key)
    requires Sound(w)
    ensures var v := Run(w, events);
            || (CountOn(v.commits, k) == CountOn(w.commits, k)
                && Revision(v, k) == Revision(w, k) && Standing(v, k) == Standing(w, k))
            || (CountOn(v.commits, k) > CountOn(w.commits, k) && Revision(v, k) > Revision(w, k))
    decreases |events|
  {
    if events != [] {
      StepAdvances(w, events[0], k);
      StepIsSound(w, events[0]);
      RunAdvances(Step(w, events[0]), events[1..], k);
    }
  }

  /** The world in which an attempt writes: after its fetch, and what the others did since. */
  function Met<R>(w: World<R>, id: nat, between: seq<Event<R>>): World<R> {
    Run(Step(w, Fetch(id)), between)
  }

  /** Others wrote to the key between the fetch of an attempt and its write. */
  predicate IsOvertaken<R>(w: World<R>, id: nat, between: seq<Event<R>>, key: Key) {
    CountOn(Met(w, id, between).commits, key) > CountOn(w.commits, key)
  }

  /** An attempt had a revision to write, and others were first. */
  predicate Loses<R>(w: World<R>, id: nat, between: seq<Event<R>>, key: Key, revise: R -> (R, bool)) {
    revise(Standing(w, key)).1 && IsOvertaken(w, id, between, key)
  }

  /** The world after an attempt that lost its write, and the pause after it. */
  function Resumption<R>(w: World<R>, id: nat, between: seq<Event<R>>): World<R> {
    Step(Step(Met(w, id, between), Store(id)), Resume(id))
  }

  /** Attempt n lost its write, was not cancelled, and the next one fetched after it. */
  ghost predicate GoesOn<R>(fetched: seq<World<R>>, n: nat, id: nat, key: Key, revise: R -> (R, bool),
                            others: nat -> seq<Event<R>>, cancelled: nat -> bool)
    requires n + 1 < |fetched|
  {
    && Loses(fetched[n], id, others(2 * n + 1), key, revise) && !cancelled(n)
    && fetched[n + 1] == Run(Resumption(fetched[n], id, others(2 * n + 1)), others(2 * n + 2))
  }

  /** The worlds in which the attempts of a call fetched, from the first on. */
  ghost predicate AreFetched<R>(start: World<R>, fetched: seq<World<R>>, id: nat, key: Key, revise: R -> (R, bool),
                                others: nat -> seq<Event<R>>, cancelled: nat -> bool)
  {
    && (fetched != [] ==> fetched[0] == Run(start, others(0)))
    && forall n | 0 <= n < |fetched| - 1 :: GoesOn(fetched, n, id, key, revise, others, cancelled)
  }

  /** The call is where it goes on after these attempts: they all lost, and it was not cancelled. */
  ghost predicate Follows<R>(w: World<R>, start: World<R>, fetched: seq<World<R>>, id: nat, key: Key,
                             revise: R -> (R, bool), others: nat -> seq<Event<R>>, cancelled: nat -> bool)
  {
    if fetched == [] then w == start
    else
      var last := |fetched| - 1;
      && Loses(fetched[last], id, others(2 * last + 1), key, revise) && !cancelled(last)
      && w == Resumption(fetched[last], id, others(2 * last + 1))
  }

  lemma OneMoreFetched<R>(w: World<R>, start: World<R>, fetched: seq<World<R>>, id: nat, key: Key,
                          revise: R -> (R, bool), others: nat -> seq<Event<R>>, cancelled: nat -> bool)
    requires AreFetched(start, fetched, id, key, revise, others, cancelled)
    requires Follows(w, start, fetched, id, key, revise, others, cancelled)
    ensures AreFetched(start, fetched + [Run(w, others(2 * |fetched|))], id, key, revise, others, cancelled)
  {
    var more := fetched + [Run(w, others(2 * |fetched|))];
    forall n | 0 <= n < |more| - 1
      ensures GoesOn(more, n, id, key, revise, others, cancelled)
    {
      if n < |fetched| - 1 {
        assert GoesOn(fetched, n, id, key, revise, others, cancelled);
      }
    }
  }

  lemma FollowsTheLast<R>(w: World<R>, start: World<R>, earlier: seq<World<R>>, read: World<R>, id: nat, key: Key,
                          revise: R -> (R, bool), others: nat -> seq<Event<R>>, cancelled: nat -> bool)
    requires Loses(read, id, others(2 * |earlier| + 1), key, revise) && !cancelled(|earlier|)
    requires w == Resumption(read, id, others(2 * |earlier| + 1))
    ensures Follows(w, start, earlier + [read], id, key, revise, others, cancelled)
  {
  }

  /** How a call ends, or goes on, whose last attempt is the last of these. */
  function EndOf<R>(fetched: seq<World<R>>, id: nat, key: Key, revise: R -> (R, bool), others: nat -> seq<Event<R>>,
                    cancelled: nat -> bool): Outcome<R>
    requires fetched != []
  {
    var last := |fetched| - 1;
    var standing := Standing(fetched[last], key);
    if !revise(standing).1 then Reported(standing, false)
    else if !IsOvertaken(fetched[last], id, others(2 * last + 1), key) then Reported(revise(standing).0, true)
    else if cancelled(last) then Cancelled
    else Contended
  }

  /**
   * A call reports unless others wrote to the key between its last fetch and its write, and it had
   * a revision to write; then it is cancelled exactly when the pause after that was.
   */
  lemma EndOfACall<R>(fetched: seq<World<R>>, id: nat, key: Key, revise: R -> (R, bool), others: nat -> seq<Event<R>>,
                      cancelled: nat -> bool)
    requires fetched != []
    ensures var last := |fetched| - 1;
            var end := EndOf(fetched, id, key, revise, others, cancelled);
            var contended := revise(Standing(fetched[last], key)).1
              && CountOn(Run(Step(fetched[last], Fetch(id)), others(2 * last + 1)).commits, key)
                 > CountOn(fetched[last].commits, key);
            && (end == Cancelled <==> contended && cancelled(last))
            && (end == Contended <==> contended && !cancelled(last))
            && (!contended ==> end.Reported? && end.revised == revise(Standing(fetched[last], key)).1)
            && (end.Reported? ==>
                  end.record == if end.revised then revise(Standing(fetched[last], key)).0
                                else Standing(fetched[last], key))
  {
  }

  /** Every attempt before the last lost its write to others, and was not cancelled after it. */
  lemma EarlierAttemptsLost<R>(start: World<R>, fetched: seq<World<R>>, id: nat, key: Key, revise: R -> (R, bool),
                               others: nat -> seq<Event<R>>, cancelled: nat -> bool, n: nat)
    requires AreFetched(start, fetched, id, key, revise, others, cancelled) && n + 1 < |fetched|
    ensures fetched[0] == Run(start, others(0)) && !cancelled(n) && revise(Standing(fetched[n], key)).1
    ensures var met := Run(Step(fetched[n], Fetch(id)), others(2 * n + 1));
      && CountOn(met.commits, key) > CountOn(fetched[n].commits, key)
      && fetched[n + 1] == Run(Step(Step(met, Store(id)), Resume(id)), others(2 * n + 2))
  {
    assert GoesOn(fetched, n, id, key, revise, others, cancelled);
  }

  lemma EndOfTheLast<R>(ended: Option<Outcome<R>>, earlier: seq<World<R>>, read: World<R>, id: nat, key: Key,
                        revise: R -> (R, bool), others: nat -> seq<Event<R>>, cancelled: nat -> bool)
    requires var contended := Loses(read, id, others(2 * |earlier| + 1), key, revise);
             && (ended == Some(Cancelled) <==> contended && cancelled(|earlier|))
             && (ended == None <==> contended && !cancelled(|earlier|))
             && (!contended ==> ended == Some(if revise(Standing(read, key)).1
                                              then Reported(revise(Standing(read, key)).0, true)
                                              else Reported(Standing(read, key), false)))
    ensures ended != Some(Contended)
    ensures (match ended case Some(outcome) => outcome case None => Contended)
         == EndOf(earlier + [read], id, key, revise, others, cancelled)
  {
    var fetched := earlier + [read];
    assert fetched[|fetched| - 1] == read && |fetched| - 1 == |earlier|;
  }

  /** What an attempt holds when it is about to write, and whether others were first. */
  lemma HeldWhenMet<R>(w: World<R>, id: nat, between: seq<Event<R>>)
    requires Sound(w) && id in w.calls && w.calls[id].phase.Reading?
    requires forall i | 0 <= i < |between| :: !IsOf(between[i], id)
    ensures var call, met := w.calls[id], Met(w, id, between);
            && id in met.calls
            && met.calls[id] == call.(phase := Holding(call.phase.attempt, Standing(w, call.key),
                                                       Revision(w, call.key), CountOn(w.commits, call.key)))
            && (IsOvertaken(w, id, between, call.key) <==> Revision(met, call.key) != Revision(w, call.key))
  {
    StepIsSound(w, Fetch(id));
    OthersLeaveTheCall(Step(w, Fetch(id)), between, id);
    RunAdvances(Step(w, Fetch(id)), between, w.calls[id].key);
  }

  predicate IsOf<R>(e: Event<R>, id: nat) {
    e.id == id
  }

  lemma {:induction false} OthersLeaveTheCall<R>(w: World<R>, events: seq<Event<R>>, id: nat)
    requires id in w.calls && forall i | 0 <= i < |events| :: !IsOf(events[i], id)
    ensures id in Run(w, events).calls && Run(w, events).calls[id] == w.calls[id]
    decreases |events|
  {
    if events != [] {
      OthersLeaveTheCall(Step(w, events[0]), events[1..], id);
    }
  }

  lemma {:induction false} RunOnward<R>(w: World<R>, events: seq<Event<R>>, more: seq<Event<R>>)
    ensures Run(w, events + more) == Run(Run(w, events), more)
    decreases |events|
  {
    if events == [] {
      assert events + more == more;
    } else {
      assert (events + more)[1..] == events[1..] + more;
      RunOnward(Step(w, events[0]), events[1..], more);
    }
  }

  lemma Moves<R>(before: World<R>, past: seq<Event<R>>, events: seq<Event<R>>)
    requires before == Run(Initial(before.absent), past) && Sound(before)
    ensures Run(before, events) == Run(Initial(before.absent), past + events)
    ensures Sound(Run(before, events)) && Run(before, events).absent == before.absent
  {
    RunOnward(Initial(before.absent), past, events);
    RunIsSound(before, events);
    RunKeepsAbsent(before, events);
  }

  /** A bucket of records, and the calls that share it. */
  class Records<R> {
    var world: World<R>
    ghost var history: seq<Event<R>>

    constructor (absent: R)
      ensures world == Initial(absent) && history == []
    {
      world, history := Initial(absent), [];
    }

    /** The world is what the steps taken so far have made of an empty bucket. */
    ghost predicate Valid()
      reads this
    {
      world == Run(Initial(world.absent), history) && Sound(world)
    }

    /** One step of a call. */
    method Act(e: Event<R>)
      requires Valid()
      modifies this
      ensures Valid() && world.absent == old(world.absent)
      ensures world == Step(old(world), e) && history == old(history) + [e]
    {
      Moves(world, history, [e]);
      assert Run(world, [e]) == Step(world, e);
      world := Step(world, e);
      history := history + [e];
    }

    /** What the other calls do in the meantime. */
    method Interleave(id: nat, others: seq<Event<R>>)
      requires Valid() && id in world.calls
      requires forall i | 0 <= i < |others| :: !IsOf(others[i], id)
      modifies this
      ensures Valid() && world.absent == old(world.absent)
      ensures id in world.calls && world.calls[id] == old(world).calls[id]
      ensures world == Run(old(world), others) && history == old(history) + others
    {
      Moves(world, history, others);
      OthersLeaveTheCall(world, others, id);
      world := Run(world, others);
      history := history + others;
    }

    method StandingRecordAt(id: nat, ghost call: Call<R>) returns (standing: R, revision: nat)
      requires Valid() && id in world.calls && world.calls[id] == call && call.phase.Reading?
      modifies this
      ensures Valid() && world.absent == old(world.absent)
      ensures id in world.calls && world == Step(old(world), Fetch(id)) && history == old(history) + [Fetch(id)]
      ensures world.calls[id]
           == call.(phase := Holding(call.phase.attempt, standing, revision, CountOn(world.commits, call.key)))
    {
      var key := world.calls[id].key;
      standing, revision := world.absent, ABSENT_REVISION;
      if key in world.entries {
        standing, revision := world.entries[key].value, world.entries[key].revision;
      }
      Act(Fetch(id));
    }

    /** Writes a revised record, created if none was read and replaced if the one read still stands. */
    method WriteRecord(key: Key, record: R, revision: nat) returns (written: bool)
      requires StandsAsWritten(world, key)
      modifies this
      ensures history == old(history)
      ensures written <==> Revision(old(world), key) == revision
      ensures world == if written then
                old(world).(entries := old(world).entries[key := Entry(record, old(world).last + 1)],
                            last := old(world).last + 1)
              else old(world)
    {
      if revision == ABSENT_REVISION {
        written := key !in world.entries;
      } else {
        written := key in world.entries && world.entries[key].revision == revision;
      }
      if written {
        world := world.(entries := world.entries[key := Entry(record, world.last + 1)], last := world.last + 1);
      }
    }

    /** Writes the revision of the record that the call holds, if there is one and the record still stands. */
    method StoreRevised(id: nat, ghost call: Call<R>) returns (result: R, revised: bool, contended: bool)
      requires Valid() && id in world.calls && world.calls[id] == call && call.phase.Holding?
      modifies this
      ensures Valid() && world.absent == old(world.absent) && id in world.calls
      ensures world == Step(old(world), Store(id)) && history == old(history) + [Store(id)]
      ensures var standing := call.phase.standing;
              && (contended <==> call.revise(standing).1 && Revision(old(world), call.key) != call.phase.revision)
              && (!contended ==>
                    (result, revised) == if call.revise(standing).1 then call.revise(standing) else (standing, false))
      ensures world.calls[id]
           == call.(phase := if contended then Pausing(call.phase.attempt) else Done(Reported(result, revised)))
    {
      var before := world;
      assert Stored(before, id).absent == before.absent;
      assert Step(before, Store(id)) == Stored(before, id) == Run(before, [Store(id)]);
      Moves(before, history, [Store(id)]);
      history := history + [Store(id)];
      var Call(key, revise, _, Holding(attempt, standing, revision, _)) := world.calls[id];
      var (next, changed) := revise(standing);
      if !changed {
        world := InPhase(world, id, Done(Reported(standing, false)));
        return standing, false, false;
      }
      assert StandsAsWritten(world, key);
      var written := WriteRecord(key, next, revision);
      if !written {
        world := InPhase(world, id, Pausing(attempt));
        return standing, false, true;
      }
      world := InPhase(world, id, Done(Reported(next, true)))
               .(commits := world.commits + [Commit(id, key, Standing(before, key), next)]);
      return next, true, false;
    }

    /** One attempt: reads the record, and writes its revision if it still stands by then. */
    method ReviseOnce(id: nat, ghost call: Call<R>, others: seq<Event<R>>)
      returns (result: R, revised: bool, contended: bool)
      requires Valid() && id in world.calls && world.calls[id] == call && call.phase.Reading?
      requires forall i | 0 <= i < |others| :: !IsOf(others[i], id)
      modifies this
      ensures Valid() && world.absent == old(world.absent) && id in world.calls
      ensures world == Step(Met(old(world), id, others), Store(id))
      ensures history == old(history) + ([Fetch(id)] + others + [Store(id)])
      ensures var standing := Standing(old(world), call.key);
              && (contended <==> call.revise(standing).1 && IsOvertaken(old(world), id, others, call.key))
              && (!contended ==>
                    (result, revised) == if call.revise(standing).1 then call.revise(standing) else (standing, false))
      ensures world.calls[id]
           == call.(phase := if contended then Pausing(call.phase.attempt) else Done(Reported(result, revised)))
    {
      HeldWhenMet(world, id, others);
      var standing, revision := StandingRecordAt(id, call);
      Interleave(id, others);
      result, revised, contended := StoreRevised(id, world.calls[id]);
    }

    /** An attempt, and the pause after it if another writer was first; none while more are to come. */
    method Attempt(id: nat, ghost call: Call<R>, between: seq<Event<R>>, cancelled: bool)
      returns (outcome: Option<Outcome<R>>)
      requires Valid() && id in world.calls && world.calls[id] == call && call.phase.Reading?
      requires forall i | 0 <= i < |between| :: !IsOf(between[i], id)
      modifies this
      ensures Valid() && world.absent == old(world.absent) && id in world.calls && old(history) <= history
      ensures var read := old(world);
              var standing := Standing(read, call.key);
              var contended := Loses(read, id, between, call.key, call.revise);
              && (outcome == Some(Cancelled) <==> contended && cancelled)
              && (outcome == None <==> contended && !cancelled)
              && (!contended ==> outcome == Some(if call.revise(standing).1
                                                 then Reported(call.revise(standing).0, true)
                                                 else Reported(standing, false)))
              && (contended && !cancelled ==> world == Resumption(read, id, between))
      ensures world.calls[id] == match outcome
                                 case Some(result) => call.(phase := Done(result))
                                 case None => call.(phase := AfterPause(call.phase.attempt))
    {
      var result, revised, contended := ReviseOnce(id, world.calls[id], between);
      if !contended {
        return Some(Reported(result, revised));
      }
      if cancelled {
        Act(Cancel(id));
        return Some(Cancelled);
      }
      Act(Resume(id));
      outcome := None;
    }

    /** The next attempt of a call, after some that lost. */
    method TryAgain(id: nat, attempt: nat, key: Key, revise: R -> (R, bool), others: nat -> seq<Event<R>>,
                    cancelled: nat -> bool, ghost start: World<R>, ghost earlier: seq<World<R>>)
      returns (ended: Option<Outcome<R>>, ghost read: World<R>)
      requires Valid() && id in world.calls && attempt == |earlier|
      requires world.calls[id].key == key && world.calls[id].revise == revise && world.calls[id].phase == Reading(attempt)
      requires forall n: nat, i | 0 <= i < |others(n)| :: !IsOf(others(n)[i], id)
      requires AreFetched(start, earlier, id, key, revise, others, cancelled)
      requires Follows(world, start, earlier, id, key, revise, others, cancelled)
      modifies this
      ensures Valid() && world.absent == old(world.absent) && id in world.calls && old(history) <= history
      ensures AreFetched(start, earlier + [read], id, key, revise, others, cancelled)
      ensures ended == None ==> Follows(world, start, earlier + [read], id, key, revise, others, cancelled)
      ensures ended != Some(Contended)
      ensures (match ended case Some(outcome) => outcome case None => Contended)
           == EndOf(earlier + [read], id, key, revise, others, cancelled)
      ensures world.calls[id] == old(world).calls[id].(phase := match ended
                                                                case Some(result) => Done(result)
                                                                case None => AfterPause(attempt))
    {
      read := Run(world, others(2 * attempt));
      OneMoreFetched(world, start, earlier, id, key, revise, others, cancelled);
      Interleave(id, others(2 * attempt));
      ended := Attempt(id, world.calls[id], others(2 * attempt + 1), cancelled(attempt));
      EndOfTheLast(ended, earlier, read, id, key, revise, others, cancelled);
      if ended == None {
        FollowsTheLast(world, start, earlier, read, id, key, revise, others, cancelled);
      }
    }

    /**
     * Revises the record at a key, in five attempts at most, while other calls go on in between.
     * Attempt n fetches in the world fetched[n]. Every attempt but the last lost its write to others
     * and was not cancelled in its pause. The last one reports if it did not lose its write; if it
     * did, the call was cancelled then, or it was the fifth.
     */
    method Revise(id: nat, key: Key, revise: R -> (R, bool), others: nat -> seq<Event<R>>, cancelled: nat -> bool)
      returns (outcome: Outcome<R>, ghost fetched: seq<World<R>>)
      requires Valid() && id !in world.calls
      requires forall n: nat, i | 0 <= i < |others(n)| :: !IsOf(others(n)[i], id)
      modifies this
      ensures Valid() && world.absent == old(world.absent) && old(history) <= history
      ensures id in world.calls && world.calls[id].key == key && world.calls[id].revise == revise
      ensures world.calls[id].phase == Done(outcome)
      ensures 0 < |fetched| <= 5
      ensures AreFetched(Step(old(world), Begin(id, key, revise)), fetched, id, key, revise, others, cancelled)
      ensures outcome == EndOf(fetched, id, key, revise, others, cancelled)
      ensures outcome == Contended ==> |fetched| == 5
    {
      Act(Begin(id, key, revise));
      ghost var start := world;
      fetched := [];
      for attempt := 0 to CONTENDED_ATTEMPTS
        invariant Valid() && world.absent == old(world.absent) && old(history) <= history
        invariant id in world.calls && |fetched| == attempt
        invariant world.calls[id].key == key && world.calls[id].revise == revise
        invariant world.calls[id].phase
               == if attempt < CONTENDED_ATTEMPTS then Reading(attempt) else Done(Contended)
        invariant AreFetched(start, fetched, id, key, revise, others, cancelled)
        invariant Follows(world, start, fetched, id, key, revise, others, cancelled)
        invariant attempt > 0 ==> EndOf(fetched, id, key, revise, others, cancelled) == Contended
      {
        var ended, read := TryAgain(id, attempt, key, revise, others, cancelled, start, fetched);
        fetched := fetched + [read];
        if ended.Some? {
          return ended.value, fetched;
        }
      }
      outcome := Contended;
    }
  }
}
