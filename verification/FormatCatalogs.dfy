/** Deriving a document's body in a requested format: libraries/pageformats/format_derivation_catalog.go. */
module FormatCatalogs {
  import opened ByteStrings
  import opened DerivationGraphs
  import opened DerivationReach
  import opened Wrappers

  datatype Document = Document(format: Format, body: Bytes)

  /** The derivations by the format they make. */
  type Catalog = map<Format, seq<Derivation>>

  function Of(c: Catalog, format: Format): seq<Derivation> {
    if format in c then c[format] else []
  }

  function GraphOf(c: Catalog): Graph {
    map t | t in c :: Sources(c[t])
  }

  method DerivationsByTargetFormat(ds: seq<Derivation>) returns (c: Catalog)
    ensures forall t :: (t in c <==> Making(ds, t) != []) && Of(c, t) == Making(ds, t)
  {
    c := map[];
    for i := 0 to |ds|
      invariant forall t :: (t in c <==> Making(ds[..i], t) != []) && Of(c, t) == Making(ds[..i], t)
    {
      ghost var before := c;
      c := c[ds[i].target := Of(c, ds[i].target) + [ds[i]]];
      forall t
        ensures (t in c <==> Making(ds[..i + 1], t) != []) && Of(c, t) == Making(ds[..i + 1], t)
      {
        MakingOneMore(ds, i, t);
        assert Of(before, t) == Making(ds[..i], t);
      }
    }
    assert ds[..|ds|] == ds;
  }

  lemma GraphOfItsDerivations(c: Catalog, ds: seq<Derivation>)
    requires forall t :: (t in c <==> Making(ds, t) != []) && Of(c, t) == Making(ds, t)
    ensures IsGraphOf(GraphOf(c), ds)
  {
    forall t
      ensures (t in GraphOf(c) <==> Making(ds, t) != []) && SourcesOf(GraphOf(c), t) == Sources(Making(ds, t))
    {
      assert Of(c, t) == Making(ds, t);
    }
  }

  /** A catalog is made of exactly the derivations that have no cycle and leave no format dangling. */
  method FormatDerivationCatalogOf(ds: seq<Derivation>, emitted: seq<Format>) returns (r: Result<Catalog, Verdict>)
    ensures r.Ok? ==> IsAcyclic(GraphOf(r.value)) && NoneDangles(GraphOf(r.value), emitted)
    ensures r.Ok? ==> forall t :: Of(r.value, t) == Making(ds, t)
    ensures r.Err? ==> forall g | IsGraphOf(g, ds) :: !(IsAcyclic(g) && NoneDangles(g, emitted))
    ensures r.Err? ==> forall g | IsGraphOf(g, ds) :: (r.error == Cyclic <==> !IsAcyclic(g))
  {
    var verdict := EnsureFormatsDerivable(ds, emitted);
    if verdict != Derivable {
      return Err(verdict);
    }
    var c := DerivationsByTargetFormat(ds);
    GraphOfItsDerivations(c, ds);
    r := Ok(c);
  }

  lemma SourcesOfCatalog(c: Catalog, format: Format, i: nat)
    requires i < |Of(c, format)|
    ensures Of(c, format)[i].source in SourcesOf(GraphOf(c), format)
  {
    assert Sources(Of(c, format))[i] in Sources(Of(c, format));
  }

  /** The document's body in a format; the first derivation that gives one is taken. */
  function BodyIn(c: Catalog, format: Format, document: Document): Option<Bytes>
    requires IsAcyclic(GraphOf(c))
    decreases Reach(GraphOf(c), format), 1, 0
  {
    if format == document.format then Some(document.body) else FirstBody(c, format, document, 0)
  }

  function FirstBody(c: Catalog, format: Format, document: Document, i: nat): Option<Bytes>
    requires IsAcyclic(GraphOf(c)) && i <= |Of(c, format)|
    decreases Reach(GraphOf(c), format), 0, |Of(c, format)| - i
  {
    if i == |Of(c, format)| then None
    else
      var d := Of(c, format)[i];
      SourcesOfCatalog(c, format, i);
      ReachShrinks(GraphOf(c), format, d.source);
      match BodyIn(c, d.source, document)
      case None => FirstBody(c, format, document, i + 1)
      case Some(sourceBody) =>
        var body := d.bodyFrom(sourceBody);
        if body.Some? then body else FirstBody(c, format, document, i + 1)
  }

  /** What the derivation gives of the document, once the document is in its source format. */
  function BodyThrough(c: Catalog, format: Format, document: Document, i: nat): Option<Bytes>
    requires IsAcyclic(GraphOf(c)) && i < |Of(c, format)|
  {
    match BodyIn(c, Of(c, format)[i].source, document)
    case None => None
    case Some(sourceBody) => Of(c, format)[i].bodyFrom(sourceBody)
  }

  lemma {:induction false} FirstBodyIs(c: Catalog, format: Format, document: Document, i: nat, j: nat)
    requires IsAcyclic(GraphOf(c)) && i <= j <= |Of(c, format)|
    requires forall k | i <= k < j :: BodyThrough(c, format, document, k).None?
    ensures FirstBody(c, format, document, i) == FirstBody(c, format, document, j)
    ensures j < |Of(c, format)| && BodyThrough(c, format, document, j).Some? ==>
      FirstBody(c, format, document, i) == BodyThrough(c, format, document, j)
    decreases j - i
  {
    if i < j {
      assert BodyThrough(c, format, document, i).None?;
      FirstBodyIs(c, format, document, i + 1, j);
    }
  }

  /**
   * A document's own format needs no derivation. In any other the first of the derivations in their
   * order that gives a body gives the body, and there is none when no derivation gives one.
   */
  lemma BodyIsTheFirst(c: Catalog, format: Format, document: Document, j: nat)
    requires IsAcyclic(GraphOf(c)) && j <= |Of(c, format)|
    ensures format == document.format ==> BodyIn(c, format, document) == Some(document.body)
    ensures j < |Of(c, format)| ==>
      var d := Of(c, format)[j];
      BodyThrough(c, format, document, j) ==
      if BodyIn(c, d.source, document).None? then None else d.bodyFrom(BodyIn(c, d.source, document).value)
    ensures format != document.format && (forall k | 0 <= k < j :: BodyThrough(c, format, document, k).None?) ==>
      if j == |Of(c, format)| then BodyIn(c, format, document) == None
      else BodyThrough(c, format, document, j).Some? ==>
             BodyIn(c, format, document) == BodyThrough(c, format, document, j)
  {
    if forall k | 0 <= k < j :: BodyThrough(c, format, document, k).None? {
      FirstBodyIs(c, format, document, 0, j);
    }
  }

  /** Derivations that lead from the document's format to another one. */
  ghost predicate IsChain(c: Catalog, chain: seq<Derivation>, format: Format, document: Document) {
    if chain == [] then format == document.format
    else chain[0] in Of(c, format) && IsChain(c, chain[1..], chain[0].source, document)
  }

  /** The outcome of a chain, whose last derivation is done first. */
  function Outcome(chain: seq<Derivation>, document: Document): Option<Bytes> {
    if chain == [] then Some(document.body)
    else
      match Outcome(chain[1..], document)
      case None => None
      case Some(sourceBody) => chain[0].bodyFrom(sourceBody)
  }

  /** A body that is found is the outcome of a chain of derivations from the document. */
  lemma {:induction false} BodyFollowsAChain(c: Catalog, format: Format, document: Document)
    requires IsAcyclic(GraphOf(c)) && BodyIn(c, format, document).Some?
    ensures exists chain :: IsChain(c, chain, format, document)
                         && Outcome(chain, document) == BodyIn(c, format, document)
    decreases Reach(GraphOf(c), format), 1, 0
  {
    if format == document.format {
      assert IsChain(c, [], format, document) && Outcome([], document) == Some(document.body);
    } else {
      FirstBodyFollowsAChain(c, format, document, 0);
    }
  }

  lemma {:induction false} FirstBodyFollowsAChain(c: Catalog, format: Format, document: Document, i: nat)
    requires IsAcyclic(GraphOf(c)) && i <= |Of(c, format)| && FirstBody(c, format, document, i).Some?
    ensures exists chain :: IsChain(c, chain, format, document)
                         && Outcome(chain, document) == FirstBody(c, format, document, i)
    decreases Reach(GraphOf(c), format), 0, |Of(c, format)| - i
  {
    var d := Of(c, format)[i];
    SourcesOfCatalog(c, format, i);
    ReachShrinks(GraphOf(c), format, d.source);
    var sourceBody := BodyIn(c, d.source, document);
    if sourceBody.Some? && d.bodyFrom(sourceBody.value).Some? {
      BodyFollowsAChain(c, d.source, document);
      var chain :| IsChain(c, chain, d.source, document) && Outcome(chain, document) == sourceBody;
      assert ([d] + chain)[1..] == chain;
      assert IsChain(c, [d] + chain, format, document);
    } else {
      FirstBodyFollowsAChain(c, format, document, i + 1);
    }
  }

  ghost predicate AlwaysSucceed(c: Catalog) {
    forall t, i, b | t in c && 0 <= i < |c[t]| :: c[t][i].bodyFrom(b).Some?
  }

  lemma {:induction false} BodyIffDerived(c: Catalog, format: Format, document: Document)
    requires IsAcyclic(GraphOf(c)) && AlwaysSucceed(c)
    ensures BodyIn(c, format, document).Some? <==> Derives(GraphOf(c), format, document.format)
    decreases Reach(GraphOf(c), format), 1, 0
  {
    DerivesIff(GraphOf(c), format, document.format);
    if format != document.format {
      FirstBodyIffDerived(c, format, document, 0);
      forall s | s in SourcesOf(GraphOf(c), format)
        ensures exists i :: 0 <= i < |Of(c, format)| && Of(c, format)[i].source == s
      {
        var i :| 0 <= i < |Of(c, format)| && Sources(Of(c, format))[i] == s;
        assert Of(c, format)[i].source == s;
      }
      forall i | 0 <= i < |Of(c, format)|
        ensures Of(c, format)[i].source in SourcesOf(GraphOf(c), format)
      {
        SourcesOfCatalog(c, format, i);
      }
    }
  }

  lemma {:induction false} FirstBodyIffDerived(c: Catalog, format: Format, document: Document, i: nat)
    requires IsAcyclic(GraphOf(c)) && AlwaysSucceed(c) && i <= |Of(c, format)|
    ensures FirstBody(c, format, document, i).Some?
       <==> exists j :: i <= j < |Of(c, format)| && Derives(GraphOf(c), Of(c, format)[j].source, document.format)
    decreases Reach(GraphOf(c), format), 0, |Of(c, format)| - i
  {
    if i < |Of(c, format)| {
      var d := Of(c, format)[i];
      SourcesOfCatalog(c, format, i);
      ReachShrinks(GraphOf(c), format, d.source);
      BodyIffDerived(c, d.source, document);
      FirstBodyIffDerived(c, format, document, i + 1);
      assert forall b :: c[format][i].bodyFrom(b).Some?;
    }
  }
}
