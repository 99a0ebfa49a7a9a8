/** Checking what a set of derivations can make: libraries/pageformats/internal/derivationreach. */
module DerivationReach {
  import opened ByteStrings
  import opened DerivationGraphs
  import opened Wrappers

  /** Making a body of one format from a body of another, which may fail. */
  datatype Derivation = Derivation(source: Format, target: Format, bodyFrom: Bytes -> Option<Bytes>)

  /** The derivations that make a format, in their order. */
  function Making(ds: seq<Derivation>, target: Format): seq<Derivation> {
    if ds == [] then []
    else Making(ds[..|ds| - 1], target) + if ds[|ds| - 1].target == target then [ds[|ds| - 1]] else []
  }

  function Sources(ds: seq<Derivation>): (sources: seq<Format>)
    ensures |sources| == |ds|
  {
    seq(|ds|, i requires 0 <= i < |ds| => ds[i].source)
  }

  /** A graph with exactly the derivations of a list. */
  ghost predicate IsGraphOf(g: Graph, ds: seq<Derivation>) {
    forall t :: (t in g <==> Making(ds, t) != []) && SourcesOf(g, t) == Sources(Making(ds, t))
  }

  lemma MakingOneMore(ds: seq<Derivation>, i: nat, t: Format)
    requires i < |ds|
    ensures Making(ds[..i + 1], t) == Making(ds[..i], t) + if ds[i].target == t then [ds[i]] else []
  {
    assert ds[..i + 1][..i] == ds[..i];
  }

  method DerivationReachOf(ds: seq<Derivation>) returns (g: Graph)
    ensures IsGraphOf(g, ds)
  {
    g := map[];
    for i := 0 to |ds|
      invariant IsGraphOf(g, ds[..i])
    {
      ghost var before := g;
      g := g[ds[i].target := SourcesOf(g, ds[i].target) + [ds[i].source]];
      forall t
        ensures (t in g <==> Making(ds[..i + 1], t) != []) && SourcesOf(g, t) == Sources(Making(ds[..i + 1], t))
      {
        MakingOneMore(ds, i, t);
        assert SourcesOf(before, t) == Sources(Making(ds[..i], t));
      }
    }
    assert ds[..|ds|] == ds;
  }

  /** A walk over a graph that remembers the formats it is in the middle of. */
  class Walk {
    const g: Graph
    var pending: set<Format>

    constructor (graph: Graph)
      ensures g == graph && pending == {}
    {
      g, pending := graph, {};
    }

    /** Ends for every graph; what was pending before is pending again afterwards. */
    method EnsureNoCycleFrom(format: Format) returns (ok: bool)
      requires pending <= Formats(g) && format in Formats(g)
      modifies this
      ensures pending == old(pending)
      ensures ok <==> IsSafe(g, format, pending)
      decreases Formats(g) - pending
    {
      if format in pending {
        PendingIsNotSafe(g, format, pending);
        return false;
      }
      ghost var before := pending;
      pending := pending + {format};
      var sources := SourcesOf(g, format);
      ok := true;
      for i := 0 to |sources|
        invariant pending == before + {format}
        invariant ok <==> forall j | 0 <= j < i :: IsSafe(g, sources[j], before + {format})
      {
        SourcesAreFormats(g, format, sources[i]);
        ok := EnsureNoCycleFrom(sources[i]);
        if !ok {
          break;
        }
      }
      pending := pending - {format};
      assert pending == before;
      SafeIffSources(g, format, before);
    }
  }

  lemma PendingIsNotSafe(g: Graph, f: Format, pending: set<Format>)
    requires f in pending
    ensures !IsSafe(g, f, pending)
  {
    if IsSafe(g, f, pending) {
      SafeOnlyIf(g, f, pending);
    }
  }

  lemma SafeIffSources(g: Graph, f: Format, pending: set<Format>)
    requires f !in pending
    ensures IsSafe(g, f, pending) <==> forall s | s in SourcesOf(g, f) :: IsSafe(g, s, pending + {f})
  {
    if IsSafe(g, f, pending) {
      SafeOnlyIf(g, f, pending);
    }
    if forall s | s in SourcesOf(g, f) :: IsSafe(g, s, pending + {f}) {
      SafeIf(g, f, pending);
    }
  }

  /** Accepts exactly the graphs without cycles. */
  method EnsureNoCycle(g: Graph) returns (ok: bool)
    ensures ok <==> IsAcyclic(g)
  {
    SafeEverywhereIffAcyclic(g);
    var targets := g.Keys;
    ok := true;
    while targets != {} && ok
      invariant targets <= g.Keys
      invariant ok <==> forall f | f in g && f !in targets :: IsSafe(g, f, {})
      decreases |targets|
    {
      var target :| target in targets;
      var walk := new Walk(g);
      ok := walk.EnsureNoCycleFrom(target);
      targets := targets - {target};
    }
  }

  /** Adds the sources of a format that are not reached yet, to be walked on from. */
  method AddSources(g: Graph, format: Format, reached: set<Format>, unwalked: seq<Format>)
    returns (reaching: set<Format>, unwalked': seq<Format>)
    ensures reaching == reached + (set s | s in SourcesOf(g, format))
    ensures unwalked <= unwalked'
    ensures forall f | f in unwalked' :: f in unwalked || f in reaching
    ensures forall f | f in reaching :: f in reached || f in unwalked'
    ensures reaching == reached ==> unwalked' == unwalked
  {
    var sources := SourcesOf(g, format);
    reaching, unwalked' := reached, unwalked;
    for i := 0 to |sources|
      invariant reaching == reached + (set s | s in sources[..i])
      invariant unwalked <= unwalked'
      invariant forall f | f in unwalked' :: f in unwalked || f in reaching
      invariant forall f | f in reaching :: f in reached || f in unwalked'
      invariant reaching == reached ==> unwalked' == unwalked
    {
      assert sources[..i + 1] == sources[..i] + [sources[i]];
      if sources[i] in reaching {
        continue;
      }
      reaching := reaching + {sources[i]};
      unwalked' := unwalked' + [sources[i]];
    }
    assert sources[..|sources|] == sources;
  }

  ghost predicate IsClosedBut(g: Graph, reaching: set<Format>, unwalked: seq<Format>) {
    forall f, s | f in reaching && f !in unwalked && s in SourcesOf(g, f) :: s in reaching
  }

  ghost predicate AllDerive(g: Graph, target: Format, reaching: set<Format>) {
    forall f | f in reaching :: Derives(g, target, f)
  }

  lemma SourcesDerive(g: Graph, target: Format, reached: set<Format>, format: Format)
    requires AllDerive(g, target, reached) && format in reached && reached <= Formats(g) + {target}
    ensures var reaching := reached + (set s | s in SourcesOf(g, format));
            AllDerive(g, target, reaching) && reaching <= Formats(g) + {target}
  {
    forall s | s in SourcesOf(g, format)
      ensures Derives(g, target, s) && s in Formats(g)
    {
      SourcesAreFormats(g, format, s);
      DerivesOverSources(g, target, format, s);
    }
  }

  /** Finds exactly the formats that a format derives from. */
  method FormatsReaching(g: Graph, target: Format) returns (reaching: set<Format>)
    ensures forall f :: f in reaching <==> Derives(g, target, f)
  {
    reaching := {target};
    var unwalked := [target];
    DerivesFromItself(g, target);
    while unwalked != []
      invariant reaching <= Formats(g) + {target} && target in reaching
      invariant forall f | f in unwalked :: f in reaching
      invariant AllDerive(g, target, reaching) && IsClosedBut(g, reaching, unwalked)
      decreases Formats(g) + {target} - reaching, |unwalked|
    {
      var format := unwalked[|unwalked| - 1];
      SourcesDerive(g, target, reaching, format);
      assert forall f | f in unwalked :: f == format || f in unwalked[..|unwalked| - 1];
      reaching, unwalked := AddSources(g, format, reaching, unwalked[..|unwalked| - 1]);
    }
    forall f | Derives(g, target, f)
      ensures f in reaching
    {
      var p :| Leads(g, p, target, f);
      ClosedHoldsPath(g, reaching, p);
    }
  }

  method ReachedByAnyOf(g: Graph, target: Format, emitted: seq<Format>) returns (reached: bool)
    ensures reached <==> exists e :: e in emitted && Derives(g, target, e)
  {
    var reaching := FormatsReaching(g, target);
    for i := 0 to |emitted|
      invariant forall j | 0 <= j < i :: !Derives(g, target, emitted[j])
    {
      if emitted[i] in reaching {
        return true;
      }
    }
    reached := false;
  }

  /** Every format that a derivation makes derives from an emitted one. */
  ghost predicate NoneDangles(g: Graph, emitted: seq<Format>) {
    forall t | t in g :: exists e :: e in emitted && Derives(g, t, e)
  }

  method EnsureNoDanglingFormat(g: Graph, emitted: seq<Format>) returns (ok: bool)
    ensures ok <==> NoneDangles(g, emitted)
  {
    var targets := g.Keys;
    while targets != {}
      invariant targets <= g.Keys
      invariant forall t | t in g && t !in targets :: exists e :: e in emitted && Derives(g, t, e)
      decreases |targets|
    {
      var target :| target in targets;
      var reached := ReachedByAnyOf(g, target, emitted);
      if !reached {
        return false;
      }
      targets := targets - {target};
    }
    ok := true;
  }

  datatype Verdict = Derivable | Cyclic | Dangling

  lemma OneGraph(g: Graph, h: Graph, ds: seq<Derivation>)
    requires IsGraphOf(g, ds) && IsGraphOf(h, ds)
    ensures g == h
  {
    forall t
      ensures t in g <==> t in h
      ensures t in g ==> g[t] == h[t]
    {
      assert SourcesOf(g, t) == Sources(Making(ds, t)) && SourcesOf(h, t) == Sources(Making(ds, t));
    }
  }

  method EnsureFormatsDerivable(ds: seq<Derivation>, emitted: seq<Format>) returns (verdict: Verdict)
    ensures exists g :: IsGraphOf(g, ds)
    ensures forall g | IsGraphOf(g, ds) :: (verdict == Cyclic <==> !IsAcyclic(g))
    ensures forall g | IsGraphOf(g, ds) :: (verdict == Derivable <==> IsAcyclic(g) && NoneDangles(g, emitted))
  {
    var graph := DerivationReachOf(ds);
    forall g | IsGraphOf(g, ds)
      ensures g == graph
    {
      OneGraph(g, graph, ds);
    }
    var acyclic := EnsureNoCycle(graph);
    if !acyclic {
      return Cyclic;
    }
    var complete := EnsureNoDanglingFormat(graph, emitted);
    verdict := if complete then Derivable else Dangling;
  }
}
