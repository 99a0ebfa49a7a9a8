/** Which formats derive from which: paths, cycles and reach in a graph of derivations. */
module DerivationGraphs {
  type Format = nat

  /** The source formats of every format that some derivation makes. */
  type Graph = map<Format, seq<Format>>

  function SourcesOf(g: Graph, f: Format): seq<Format> {
    if f in g then g[f] else []
  }

  /** From a format back over the formats it derives from, one derivation at a time. */
  predicate IsPath(g: Graph, p: seq<Format>) {
    p != [] && forall i | 0 <= i < |p| - 1 :: p[i + 1] in SourcesOf(g, p[i])
  }

  predicate Leads(g: Graph, p: seq<Format>, target: Format, source: Format) {
    IsPath(g, p) && p[0] == target && p[|p| - 1] == source
  }

  /** The target derives from the source, over any number of derivations, or is the source. */
  ghost predicate Derives(g: Graph, target: Format, source: Format) {
    exists p :: Leads(g, p, target, source)
  }

  ghost predicate IsAcyclic(g: Graph) {
    forall p, f :: Leads(g, p, f, f) ==> |p| == 1
  }

  function Formats(g: Graph): set<Format> {
    g.Keys + (set t, i | t in g && 0 <= i < |g[t]| :: g[t][i])
  }

  lemma SourcesAreFormats(g: Graph, f: Format, s: Format)
    requires s in SourcesOf(g, f)
    ensures f in g && s in Formats(g)
  {
  }

  lemma PathOnward(g: Graph, p: seq<Format>, q: seq<Format>)
    requires IsPath(g, p) && IsPath(g, q) && q[0] in SourcesOf(g, p[|p| - 1])
    ensures IsPath(g, p + q)
  {
  }

  lemma PathFromSource(g: Graph, f: Format, q: seq<Format>)
    requires IsPath(g, q) && q[0] in SourcesOf(g, f)
    ensures IsPath(g, [f] + q)
  {
    PathOnward(g, [f], q);
  }

  lemma PathAfterFirst(g: Graph, p: seq<Format>)
    requires IsPath(g, p) && |p| > 1
    ensures IsPath(g, p[1..]) && p[1] in SourcesOf(g, p[0])
  {
    assert p[0 + 1] in SourcesOf(g, p[0]);
  }

  lemma PathPart(g: Graph, p: seq<Format>, i: nat, j: nat)
    requires IsPath(g, p) && i < j <= |p|
    ensures IsPath(g, p[i..j])
  {
    forall k | 0 <= k < j - i - 1
      ensures p[i..j][k + 1] in SourcesOf(g, p[i..j][k])
    {
      assert p[i + k + 1] in SourcesOf(g, p[i + k]);
    }
  }

  lemma DerivesFromItself(g: Graph, f: Format)
    ensures Derives(g, f, f)
  {
    assert Leads(g, [f], f, f);
  }

  lemma DerivesFromSources(g: Graph, f: Format, s: Format, source: Format)
    requires s in SourcesOf(g, f) && Derives(g, s, source)
    ensures Derives(g, f, source)
  {
    var q :| Leads(g, q, s, source);
    PathFromSource(g, f, q);
    assert Leads(g, [f] + q, f, source);
  }

  lemma DerivesOverSources(g: Graph, f: Format, s: Format, source: Format)
    requires Derives(g, f, s) && source in SourcesOf(g, s)
    ensures Derives(g, f, source)
  {
    var p :| Leads(g, p, f, s);
    PathOnward(g, p, [source]);
    assert Leads(g, p + [source], f, source);
  }

  /** A format derives from another when it is that format or one of its sources derives from it. */
  lemma DerivesIff(g: Graph, f: Format, source: Format)
    ensures Derives(g, f, source)
       <==> f == source || exists s :: s in SourcesOf(g, f) && Derives(g, s, source)
  {
    if Derives(g, f, source) && f != source {
      var p :| Leads(g, p, f, source);
      PathAfterFirst(g, p);
      assert Leads(g, p[1..], p[1], source);
      assert p[1] in SourcesOf(g, f) && Derives(g, p[1], source);
    }
    if f == source {
      DerivesFromItself(g, f);
    }
    forall s | s in SourcesOf(g, f) && Derives(g, s, source)
      ensures Derives(g, f, source)
    {
      DerivesFromSources(g, f, s, source);
    }
  }

  /** A set that holds a format, and with every format its sources, holds all it derives from. */
  lemma {:induction false} ClosedHoldsPath(g: Graph, closed: set<Format>, p: seq<Format>)
    requires IsPath(g, p) && p[0] in closed
    requires forall f, s | f in closed && s in SourcesOf(g, f) :: s in closed
    ensures p[|p| - 1] in closed
  {
    if |p| > 1 {
      PathAfterFirst(g, p);
      ClosedHoldsPath(g, closed, p[1..]);
    }
  }

  /** A walk that has come to no format twice, and to none of those it set out with. */
  predicate IsFresh(p: seq<Format>, pending: set<Format>) {
    && (forall i, j | 0 <= i < j < |p| :: p[i] != p[j])
    && (forall i | 0 <= i < |p| :: p[i] !in pending)
  }

  /** Every walk from a format keeps coming to formats that are neither pending nor on it already. */
  ghost predicate IsSafe(g: Graph, f: Format, pending: set<Format>) {
    forall p | IsPath(g, p) && p[0] == f :: IsFresh(p, pending)
  }

  lemma FreshAfterFirst(p: seq<Format>, pending: set<Format>)
    requires p != []
    ensures IsFresh(p, pending) <==> p[0] !in pending && IsFresh(p[1..], pending + {p[0]})
  {
    if p[0] !in pending && IsFresh(p[1..], pending + {p[0]}) {
      forall i, j | 0 <= i < j < |p|
        ensures p[i] != p[j]
      {
        assert p[j] == p[1..][j - 1];
        if i > 0 {
          assert p[i] == p[1..][i - 1];
        }
      }
      forall i | 0 <= i < |p|
        ensures p[i] !in pending
      {
        if i > 0 {
          assert p[i] == p[1..][i - 1];
        }
      }
    }
  }

  lemma SafeOnlyIf(g: Graph, f: Format, pending: set<Format>)
    requires IsSafe(g, f, pending)
    ensures f !in pending
    ensures forall s | s in SourcesOf(g, f) :: IsSafe(g, s, pending + {f})
  {
    assert IsPath(g, [f]) && IsFresh([f], pending) && [f][0] == f;
    forall s, q | s in SourcesOf(g, f) && IsPath(g, q) && q[0] == s
      ensures IsFresh(q, pending + {f})
    {
      PathFromSource(g, f, q);
      assert ([f] + q)[0] == f && ([f] + q)[1..] == q;
      FreshAfterFirst([f] + q, pending);
    }
  }

  lemma SafeIf(g: Graph, f: Format, pending: set<Format>)
    requires f !in pending
    requires forall s | s in SourcesOf(g, f) :: IsSafe(g, s, pending + {f})
    ensures IsSafe(g, f, pending)
  {
    forall p | IsPath(g, p) && p[0] == f
      ensures IsFresh(p, pending)
    {
      if |p| > 1 {
        PathAfterFirst(g, p);
        assert IsSafe(g, p[1], pending + {f}) && p[1..][0] == p[1];
        FreshAfterFirst(p, pending);
      }
    }
  }

  /** Walks are safe from every format that a derivation makes exactly when there is no cycle. */
  lemma SafeEverywhereIffAcyclic(g: Graph)
    ensures (forall f | f in g :: IsSafe(g, f, {})) <==> IsAcyclic(g)
  {
    if forall f | f in g :: IsSafe(g, f, {}) {
      forall p, f | Leads(g, p, f, f)
        ensures |p| == 1
      {
        if |p| > 1 {
          PathAfterFirst(g, p);
        }
      }
    }
    if IsAcyclic(g) {
      forall f, p | f in g && IsPath(g, p) && p[0] == f
        ensures IsFresh(p, {})
      {
        forall i, j | 0 <= i < j < |p|
          ensures p[i] != p[j]
        {
          PathPart(g, p, i, j + 1);
          if p[i] == p[j] {
            assert Leads(g, p[i..j + 1], p[i], p[i]);
          }
        }
      }
    }
  }

  /** The formats that a format derives from. */
  ghost function Reach(g: Graph, f: Format): set<Format> {
    set s | s in Formats(g) + {f} && Derives(g, f, s)
  }

  lemma DerivedIsAFormat(g: Graph, p: seq<Format>)
    requires IsPath(g, p)
    ensures p[|p| - 1] in Formats(g) + {p[0]}
  {
    if |p| > 1 {
      var i := |p| - 2;
      assert p[i + 1] in SourcesOf(g, p[i]);
      SourcesAreFormats(g, p[i], p[i + 1]);
    }
  }

  lemma ReachHoldsAll(g: Graph, f: Format)
    ensures forall s :: s in Reach(g, f) <==> Derives(g, f, s)
  {
    forall s | Derives(g, f, s)
      ensures s in Reach(g, f)
    {
      var p :| Leads(g, p, f, s);
      DerivedIsAFormat(g, p);
    }
  }

  /** Without cycles a source reaches strictly less than what is made from it. */
  lemma ReachShrinks(g: Graph, f: Format, s: Format)
    requires IsAcyclic(g) && s in SourcesOf(g, f)
    ensures Reach(g, s) < Reach(g, f)
  {
    ReachHoldsAll(g, f);
    ReachHoldsAll(g, s);
    forall x | x in Reach(g, s)
      ensures x in Reach(g, f)
    {
      DerivesFromSources(g, f, s, x);
    }
    DerivesFromItself(g, f);
    if f in Reach(g, s) {
      var q :| Leads(g, q, s, f);
      PathFromSource(g, f, q);
      assert Leads(g, [f] + q, f, f);
    }
  }
}
