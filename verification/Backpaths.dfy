/** Collapsing parent and empty segments of a path: libraries/yacymodel/resolve_backpath.go. */
module Backpaths {
  import opened ByteStrings
  import opened Separators
  import opened Wrappers

  /** Where the segment that follows position i ends. */
  function SegmentEnd(p: Bytes, i: nat): (j: nat)
    requires i < |p|
    ensures i < j <= |p| && SLASH !in p[i + 1..j]
    ensures j < |p| ==> p[j] == SLASH
  {
    var n := IndexOf(p[i + 1..], SLASH);
    assert p[i + 1..][..n] == p[i + 1..i + 1 + n];
    i + 1 + n
  }

  predicate IsDots(segment: Bytes) {
    segment == [] || segment == [DOT] || segment == [DOT, DOT]
  }

  /** A parent segment follows position j, and ends there or at a slash. */
  predicate ParentFollows(p: Bytes, j: nat) {
    && j + 2 < |p| && p[j] == SLASH && p[j + 1] == DOT && p[j + 2] == DOT
    && (j + 3 == |p| || p[j + 3] == SLASH)
  }

  /** A segment with a name and then a parent segment follow position i: where they end. */
  function ParentEnd(p: Bytes, i: nat): (end: Option<nat>)
    requires i < |p|
    ensures end.Some? ==> i + 3 < end.value <= |p| && (end.value < |p| ==> p[end.value] == SLASH)
  {
    var j := SegmentEnd(p, i);
    if IsDots(p[i + 1..j]) || !ParentFollows(p, j) then None else Some(j + 3)
  }

  predicate IsCurrent(p: Bytes, i: nat) {
    i + 2 < |p| && p[i] == SLASH && p[i + 1] == DOT && p[i + 2] == SLASH
  }

  predicate IsEmptySegment(p: Bytes, i: nat) {
    i + 1 < |p| && p[i] == SLASH && p[i + 1] == SLASH
  }

  /** Nothing at position i is to be collapsed. */
  predicate IsPlain(p: Bytes, i: nat)
    requires i < |p|
  {
    p[i] == SLASH ==> ParentEnd(p, i).None? && !IsCurrent(p, i) && !IsEmptySegment(p, i)
  }

  /** One pass over the path from position i on. */
  function Collapsed(p: Bytes, i: nat): (r: Bytes)
    requires i <= |p|
    ensures |r| <= |p| - i
    decreases |p| - i
  {
    if i == |p| then []
    else if p[i] == SLASH && ParentEnd(p, i).Some? then Collapsed(p, ParentEnd(p, i).value)
    else if IsCurrent(p, i) then Collapsed(p, i + 2)
    else if IsEmptySegment(p, i) then Collapsed(p, i + 1)
    else [p[i]] + Collapsed(p, i + 1)
  }

  /** The passes until one changes nothing; each that changes something shortens the path. */
  function Settled(p: Bytes): (r: Bytes)
    ensures Collapsed(r, 0) == r
    decreases |p|
  {
    var next := Collapsed(p, 0);
    if next == p then p
    else
      CollapsingShortens(p, 0);
      assert p[0..] == p;
      Settled(next)
  }

  lemma CollapsingShortens(p: Bytes, i: nat)
    requires i <= |p|
    ensures |Collapsed(p, i)| == |p| - i ==> Collapsed(p, i) == p[i..]
    ensures |Collapsed(p, i)| == |p| - i <==> forall k | i <= k < |p| :: IsPlain(p, k)
  {
    SameLengthIff(p, i);
    PlainFromIff(p, i);
  }

  predicate PlainFrom(p: Bytes, i: nat)
    requires i <= |p|
    decreases |p| - i
  {
    i == |p| || (IsPlain(p, i) && PlainFrom(p, i + 1))
  }

  lemma {:induction false} PlainFromIff(p: Bytes, i: nat)
    requires i <= |p|
    ensures PlainFrom(p, i) <==> forall k | i <= k < |p| :: IsPlain(p, k)
    decreases |p| - i
  {
    if i < |p| {
      PlainFromIff(p, i + 1);
    }
  }

  lemma {:induction false} SameLengthIff(p: Bytes, i: nat)
    requires i <= |p|
    ensures |Collapsed(p, i)| == |p| - i <==> PlainFrom(p, i)
    ensures PlainFrom(p, i) ==> Collapsed(p, i) == p[i..]
    decreases |p| - i
  {
    if i < |p| {
      SameLengthIff(p, i + 1);
      OthersShorten(p, i);
      if IsPlain(p, i) {
        PlainIsCopied(p, i, i + 1);
        assert p[i..] == [p[i]] + p[i + 1..];
      }
    }
  }

  lemma PlainIsCopied(p: Bytes, i: nat, k: nat)
    requires i < |p| && k == i + 1 && IsPlain(p, i)
    ensures Collapsed(p, i) == [p[i]] + Collapsed(p, k)
  {
  }

  lemma OthersShorten(p: Bytes, i: nat)
    requires i < |p|
    ensures !IsPlain(p, i) ==> |Collapsed(p, i)| < |p| - i
  {
  }

  /** Parent segments at the root lead nowhere else. */
  function WithoutRootParents(p: Bytes): Bytes
    decreases |p|
  {
    if |p| >= 4 && p[0] == SLASH && p[1] == DOT && p[2] == DOT && p[3] == SLASH then WithoutRootParents(p[3..])
    else if p == [SLASH, DOT, DOT] then [SLASH]
    else p
  }

  function Resolved(path: Bytes): Bytes {
    var p := WithoutRootParents(Settled(Rooted(path)));
    if p == [] then [SLASH] else p
  }

  lemma OneMoreIn(p: Bytes, i: nat, j: nat)
    requires i <= j < |p|
    ensures p[i..j + 1] == p[i..j] + [p[j]]
  {
  }

  method MatchParentBackpath(p: Bytes, i: nat) returns (end: Option<nat>)
    requires i < |p|
    ensures end == ParentEnd(p, i)
  {
    var j: nat := i + 1;
    while j < |p| && p[j] != SLASH
      invariant i < j <= |p| && SLASH !in p[i + 1..j]
    {
      OneMoreIn(p, i + 1, j);
      j := j + 1;
    }
    EndIsUnique(p, i, j);
    if IsDots(p[i + 1..j]) {
      return None;
    }
    if j + 2 >= |p| || p[j] != SLASH || p[j + 1] != DOT || p[j + 2] != DOT {
      return None;
    }
    if j + 3 == |p| || p[j + 3] == SLASH {
      return Some(j + 3);
    }
    end := None;
  }

  lemma EndIsUnique(p: Bytes, i: nat, j: nat)
    requires i < j <= |p| && SLASH !in p[i + 1..j] && (j < |p| ==> p[j] == SLASH)
    ensures j == SegmentEnd(p, i)
  {
    var k := SegmentEnd(p, i);
  }

  lemma PlainIsKept(p: Bytes, i: nat, r: Bytes)
    requires i < |p| && IsPlain(p, i)
    ensures r + Collapsed(p, i) == (r + [p[i]]) + Collapsed(p, i + 1)
  {
    assert r + ([p[i]] + Collapsed(p, i + 1)) == (r + [p[i]]) + Collapsed(p, i + 1);
  }

  method CollapseBackpath(p: Bytes) returns (r: Bytes)
    ensures r == Collapsed(p, 0)
  {
    r := [];
    var i: nat := 0;
    while i < |p|
      invariant i <= |p| && r + Collapsed(p, i) == Collapsed(p, 0)
    {
      if p[i] == SLASH {
        var end := MatchParentBackpath(p, i);
        if end.Some? {
          i := end.value;
          continue;
        }
        if IsCurrent(p, i) {
          i := i + 2;
          continue;
        }
        if IsEmptySegment(p, i) {
          i := i + 1;
          continue;
        }
      }
      PlainIsKept(p, i, r);
      r := r + [p[i]];
      i := i + 1;
    }
    assert r + [] == r;
  }

  method ResolveBackpath(path: Bytes) returns (p: Bytes)
    ensures p == Resolved(path)
  {
    p := path;
    if p == [] || p[0] != SLASH {
      p := [SLASH] + p;
    }
    var next := CollapseBackpath(p);
    while next != p
      invariant next == Collapsed(p, 0) && Settled(p) == Settled(Rooted(path))
      decreases |p|
    {
      CollapsingShortens(p, 0);
      assert p[0..] == p;
      p := next;
      next := CollapseBackpath(p);
    }
    while |p| >= 4 && p[0] == SLASH && p[1] == DOT && p[2] == DOT && p[3] == SLASH
      invariant WithoutRootParents(p) == WithoutRootParents(Settled(Rooted(path)))
      decreases |p|
    {
      p := p[3..];
    }
    if p == [SLASH, DOT, DOT] {
      p := [SLASH];
    }
    if p == [] {
      p := [SLASH];
    }
  }

  lemma {:induction false} CollapsedStart(p: Bytes, i: nat)
    requires i < |p| && p[i] == SLASH
    ensures Collapsed(p, i) == [] || Collapsed(p, i)[0] == SLASH
    decreases |p| - i
  {
    if ParentEnd(p, i).Some? {
      if ParentEnd(p, i).value < |p| {
        CollapsedStart(p, ParentEnd(p, i).value);
      }
    } else if IsCurrent(p, i) {
      CollapsedStart(p, i + 2);
    } else if IsEmptySegment(p, i) {
      CollapsedStart(p, i + 1);
    }
  }

  lemma {:induction false} SettledStart(p: Bytes)
    requires p != [] ==> p[0] == SLASH
    ensures Settled(p) != [] ==> Settled(p)[0] == SLASH
    decreases |p|
  {
    if Collapsed(p, 0) != p {
      CollapsingShortens(p, 0);
      assert p[0..] == p;
      if p != [] {
        CollapsedStart(p, 0);
      }
      SettledStart(Collapsed(p, 0));
    }
  }

  /** Nowhere in the path is anything to be collapsed. */
  predicate IsCollapsed(p: Bytes) {
    forall k | 0 <= k < |p| :: IsPlain(p, k)
  }

  lemma CollapsedIff(p: Bytes)
    ensures Collapsed(p, 0) == p <==> IsCollapsed(p)
  {
    CollapsingShortens(p, 0);
    assert p[0..] == p;
  }

  lemma PlainInSuffix(p: Bytes, n: nat, k: nat)
    requires n + k < |p| && IsPlain(p, n + k)
    ensures IsPlain(p[n..], k)
  {
    var q := p[n..];
    if q[k] == SLASH {
      var j := SegmentEnd(p, n + k);
      assert q[k + 1..j - n] == p[n + k + 1..j];
      EndIsUnique(q, k, j - n);
    }
  }

  lemma SuffixIsCollapsed(p: Bytes, n: nat)
    requires n <= |p| && IsCollapsed(p)
    ensures IsCollapsed(p[n..])
  {
    forall k | 0 <= k < |p[n..]|
      ensures IsPlain(p[n..], k)
    {
      PlainInSuffix(p, n, k);
    }
  }

  predicate StartsWithParent(p: Bytes) {
    p != [] && ParentFollows(p, 0)
  }

  lemma {:induction false} RootParentsRemoved(p: Bytes)
    requires IsCollapsed(p) && (p != [] ==> p[0] == SLASH)
    ensures var r := WithoutRootParents(p);
            IsCollapsed(r) && (r != [] ==> r[0] == SLASH) && !StartsWithParent(r)
    decreases |p|
  {
    if StartsWithParent(p) && |p| > 3 {
      SuffixIsCollapsed(p, 3);
      RootParentsRemoved(p[3..]);
    } else if p == [SLASH, DOT, DOT] {
      SlashIsCollapsed();
    }
  }

  lemma SlashIsCollapsed()
    ensures IsCollapsed([SLASH])
  {
    assert SegmentEnd([SLASH], 0) == 1;
  }

  /** In a collapsed path that does not start with a parent segment there is none at all. */
  lemma {:induction false} NoParentAnywhere(p: Bytes, i: nat)
    requires IsCollapsed(p) && p != [] && p[0] == SLASH && !StartsWithParent(p)
    ensures !ParentFollows(p, i)
    decreases i
  {
    if i > 0 && ParentFollows(p, i) {
      var k := SlashBefore(p, i);
      assert IsPlain(p, k);
      EndIsUnique(p, k, i);
      NoParentAnywhere(p, k);
    }
  }

  lemma SlashBefore(p: Bytes, i: nat) returns (k: nat)
    requires p != [] && p[0] == SLASH && 0 < i < |p|
    ensures k < i && p[k] == SLASH && SLASH !in p[k + 1..i]
  {
    k := i - 1;
    while p[k] != SLASH
      invariant k < i && SLASH !in p[k + 1..i]
      decreases k
    {
      assert p[k..i] == [p[k]] + p[k + 1..i];
      k := k - 1;
    }
  }

  /** A resolved path starts with a slash, and holds no empty, current or parent segment to be collapsed. */
  lemma ResolvedIsClean(path: Bytes)
    ensures var p := Resolved(path);
            && p != [] && p[0] == SLASH && IsCollapsed(p)
            && (forall i | 0 <= i < |p| :: !IsEmptySegment(p, i) && !IsCurrent(p, i) && !ParentFollows(p, i))
  {
    var settled := Settled(Rooted(path));
    SettledStart(Rooted(path));
    CollapsedIff(settled);
    RootParentsRemoved(settled);
    SlashIsCollapsed();
    var p := Resolved(path);
    forall i | 0 <= i < |p|
      ensures !IsEmptySegment(p, i) && !IsCurrent(p, i) && !ParentFollows(p, i)
    {
      assert IsPlain(p, i);
      NoParentAnywhere(p, i);
    }
  }

  /** Resolving a resolved path changes nothing. */
  lemma ResolvingTwice(path: Bytes)
    ensures Resolved(Resolved(path)) == Resolved(path)
  {
    var p := Resolved(path);
    ResolvedIsClean(path);
    CollapsedIff(p);
    assert !ParentFollows(p, 0);
  }

  // ------------------------------------------------------- the segments that stay

  predicate IsNamed(segment: Bytes) {
    segment != [] && segment != CURRENT && segment != PARENT
  }

  /** The segments that stay of those done already and those ahead.  An empty or current segment
      stays only as the last one, and a parent segment takes a named one before it away. */
  function Stack(done: seq<Bytes>, segments: seq<Bytes>): seq<Bytes>
    decreases |segments|
  {
    if segments == [] then done
    else
      var segment, others := segments[0], segments[1..];
      if (segment == [] || segment == CURRENT) && others != [] then Stack(done, others)
      else if segment == PARENT && done != [] && IsNamed(done[|done| - 1]) then
        Stack(done[..|done| - 1], others)
      else Stack(done + [segment], others)
  }

  /** Parent segments at the root go, and a last one leaves the root itself. */
  function WithoutParents(segments: seq<Bytes>): seq<Bytes> {
    if segments == [] || segments[0] != PARENT then segments
    else if |segments| == 1 then [[]]
    else WithoutParents(segments[1..])
  }

  /** What one pass over the path leaves of its segments. */
  function Pass(segments: seq<Bytes>): (r: seq<Bytes>)
    ensures |r| <= |segments|
    decreases |segments|
  {
    if |segments| < 2 then segments
    else if IsNamed(segments[0]) && segments[1] == PARENT then Pass(segments[2..])
    else if segments[0] == [] || segments[0] == CURRENT then Pass(segments[1..])
    else [segments[0]] + Pass(segments[1..])
  }

  lemma SegmentAt(p: Bytes, i: nat, segment: Bytes, rest: Bytes)
    requires i <= |p| && p[i..] == [SLASH] + (segment + rest)
    requires SLASH !in segment && (rest != [] ==> rest[0] == SLASH)
    ensures var j := i + 1 + |segment|;
      j <= |p| && p[i] == SLASH && p[i + 1..j] == segment && p[j..] == rest && j == SegmentEnd(p, i)
  {
    var j, q := i + 1 + |segment|, p[i..];
    assert |q| == 1 + |segment| + |rest|;
    assert q[0] == SLASH && q[1..1 + |segment|] == segment && q[1 + |segment|..] == rest;
    assert p[i + 1..j] == q[1..1 + |segment|] && p[j..] == q[1 + |segment|..];
    if j < |p| {
      assert p[j] == rest[0];
    }
    EndIsUnique(p, i, j);
  }

  lemma SegmentAhead(p: Bytes, i: nat, segments: seq<Bytes>) returns (j: nat)
    requires i <= |p| && p[i..] == Ahead(segments) && segments != [] && AreSegments(segments)
    ensures j == i + 1 + |segments[0]| && i < j <= |p| && p[i] == SLASH && j == SegmentEnd(p, i)
    ensures p[i + 1..j] == segments[0] && p[j..] == Ahead(segments[1..])
    ensures j == |p| <==> |segments| == 1
  {
    SegmentAt(p, i, segments[0], Ahead(segments[1..]));
    j := SegmentEnd(p, i);
  }

  lemma ParentAhead(p: Bytes, j: nat, segments: seq<Bytes>)
    requires j <= |p| && p[j..] == Ahead(segments) && AreSegments(segments)
    ensures ParentFollows(p, j) <==> segments != [] && segments[0] == PARENT
  {
    if segments != [] {
      var k := SegmentAhead(p, j, segments);
      if segments[0] == PARENT {
        assert p[j + 1] == p[j + 1..k][0] && p[j + 2] == p[j + 1..k][1];
        assert k < |p| ==> p[k] == SLASH;
      }
      if ParentFollows(p, j) {
        EndIsUnique(p, j, j + 3);
        assert segments[0] == p[j + 1..j + 3] == PARENT;
      }
    }
  }

  lemma DotsAt(p: Bytes, i: nat, j: nat)
    requires i < j <= |p| && p[i] == SLASH && j == SegmentEnd(p, i)
    ensures IsCurrent(p, i) <==> p[i + 1..j] == CURRENT && j < |p|
    ensures IsEmptySegment(p, i) <==> p[i + 1..j] == [] && j < |p|
  {
    if IsCurrent(p, i) {
      EndIsUnique(p, i, i + 2);
      assert p[i + 1..i + 2] == CURRENT;
    }
    if IsEmptySegment(p, i) {
      EndIsUnique(p, i, i + 1);
    }
    if p[i + 1..j] == CURRENT {
      assert p[i + 1] == p[i + 1..j][0];
    }
  }

  lemma {:induction false} SegmentIsKept(p: Bytes, i: nat, j: nat)
    requires i <= j <= |p| && SLASH !in p[i..j]
    ensures Collapsed(p, i) == p[i..j] + Collapsed(p, j)
    decreases j - i
  {
    if i < j {
      assert p[i..j] == [p[i]] + p[i + 1..j];
      PlainIsCopied(p, i, i + 1);
      SegmentIsKept(p, i + 1, j);
    }
  }

  lemma ParentEndsAt(p: Bytes, i: nat, j: nat, k: nat)
    requires i < j < k <= |p| && j == SegmentEnd(p, i)
    requires IsNamed(p[i + 1..j]) && ParentFollows(p, j) && k == j + 3
    ensures ParentEnd(p, i) == Some(k)
  {
  }

  lemma ParentCollapsed(p: Bytes, i: nat, k: nat)
    requires i < k <= |p| && p[i] == SLASH && ParentEnd(p, i) == Some(k)
    ensures Collapsed(p, i) == Collapsed(p, k)
  {
  }

  lemma DotsCollapsed(p: Bytes, i: nat, j: nat)
    requires i < j < |p| && p[i] == SLASH && j == SegmentEnd(p, i)
    requires p[i + 1..j] == [] || p[i + 1..j] == CURRENT
    ensures Collapsed(p, i) == Collapsed(p, j)
  {
    DotsAt(p, i, j);
  }

  lemma NoParentEnd(p: Bytes, i: nat, j: nat)
    requires i < j <= |p| && j == SegmentEnd(p, i)
    requires !(IsNamed(p[i + 1..j]) && ParentFollows(p, j))
    ensures ParentEnd(p, i).None?
  {
  }

  lemma SegmentCollapsed(p: Bytes, i: nat, k: nat, j: nat)
    requires k == i + 1 && k <= j <= |p| && p[i] == SLASH && j == SegmentEnd(p, i)
    requires !(IsNamed(p[k..j]) && ParentFollows(p, j))
    requires j < |p| ==> p[k..j] != [] && p[k..j] != CURRENT
    ensures Collapsed(p, i) == [SLASH] + (p[k..j] + Collapsed(p, j))
  {
    DotsAt(p, i, j);
    NoParentEnd(p, i, j);
    PlainIsCopied(p, i, k);
    SegmentIsKept(p, k, j);
  }

  lemma PassAhead(segments: seq<Bytes>)
    requires segments != []
    ensures var others := segments[1..];
      Ahead(Pass(segments)) ==
      if IsNamed(segments[0]) && others != [] && others[0] == PARENT then Ahead(Pass(others[1..]))
      else if (segments[0] == [] || segments[0] == CURRENT) && others != [] then Ahead(Pass(others))
      else [SLASH] + (segments[0] + Ahead(Pass(others)))
  {
    var others := segments[1..];
    if others != [] {
      assert segments[2..] == others[1..];
      assert ([segments[0]] + Pass(others))[1..] == Pass(others);
    }
  }

  lemma {:induction false} CollapsedIsThePass(p: Bytes, i: nat, segments: seq<Bytes>)
    requires i <= |p| && p[i..] == Ahead(segments) && AreSegments(segments)
    ensures Collapsed(p, i) == Ahead(Pass(segments))
    decreases |segments|
  {
    if segments != [] {
      var others := segments[1..];
      PassAhead(segments);
      var j := SegmentAhead(p, i, segments);
      ParentAhead(p, j, others);
      if IsNamed(segments[0]) && others != [] && others[0] == PARENT {
        var k := SegmentAhead(p, j, others);
        ParentEndsAt(p, i, j, k);
        ParentCollapsed(p, i, k);
        CollapsedIsThePass(p, k, others[1..]);
      } else {
        CollapsedIsThePass(p, j, others);
        if (segments[0] == [] || segments[0] == CURRENT) && others != [] {
          DotsCollapsed(p, i, j);
        } else {
          SegmentCollapsed(p, i, i + 1, j);
        }
      }
    }
  }

  lemma {:induction false} PassKeepsTheStack(done: seq<Bytes>, segments: seq<Bytes>)
    ensures Stack(done, Pass(segments)) == Stack(done, segments)
    decreases |segments|
  {
    if |segments| >= 2 {
      var segment, others := segments[0], segments[1..];
      if IsNamed(segment) && others[0] == PARENT {
        assert segments[2..] == others[1..] && (done + [segment])[..|done|] == done;
        PassKeepsTheStack(done, others[1..]);
      } else if segment == [] || segment == CURRENT {
        PassKeepsTheStack(done, others);
      } else {
        assert ([segment] + Pass(others))[1..] == Pass(others);
        if segment == PARENT && done != [] && IsNamed(done[|done| - 1]) {
          PassKeepsTheStack(done[..|done| - 1], others);
        } else {
          PassKeepsTheStack(done + [segment], others);
        }
      }
    }
  }

  lemma NothingToPassAhead(segments: seq<Bytes>)
    requires Pass(segments) == segments && segments != []
    ensures Pass(segments[1..]) == segments[1..]
    ensures |segments| > 1 ==>
      !(IsNamed(segments[0]) && segments[1] == PARENT) && segments[0] != [] && segments[0] != CURRENT
  {
    if |segments| > 1 {
      assert ([segments[0]] + Pass(segments[1..]))[1..] == Pass(segments[1..]);
    }
  }

  lemma {:induction false} NothingToPass(done: seq<Bytes>, segments: seq<Bytes>)
    requires Pass(segments) == segments
    requires done != [] && segments != [] && segments[0] == PARENT ==> !IsNamed(done[|done| - 1])
    ensures Stack(done, segments) == done + segments
    decreases |segments|
  {
    if segments == [] {
      assert done + segments == done;
    } else {
      var segment, others := segments[0], segments[1..];
      NothingToPassAhead(segments);
      assert Stack(done, segments) == Stack(done + [segment], others);
      NothingToPass(done + [segment], others);
      assert (done + [segment]) + others == done + segments;
    }
  }

  lemma {:induction false} PassKeepsSegments(segments: seq<Bytes>)
    requires AreSegments(segments)
    ensures AreSegments(Pass(segments))
    decreases |segments|
  {
    if |segments| >= 2 {
      PassKeepsSegments(segments[1..]);
      PassKeepsSegments(segments[2..]);
    }
  }

  lemma AheadIsInjective(a: seq<Bytes>, b: seq<Bytes>)
    requires AreSegments(a) && AreSegments(b) && Ahead(a) == Ahead(b)
    ensures a == b
  {
    if a != [] && b != [] {
      AheadIsJoined(a);
      AheadIsJoined(b);
      assert Joined(a, SLASH) == Ahead(a)[1..] == Ahead(b)[1..] == Joined(b, SLASH);
      SplitOfJoined(a, SLASH);
      SplitOfJoined(b, SLASH);
    }
  }

  lemma {:induction false} SettledIsTheStack(segments: seq<Bytes>)
    requires AreSegments(segments)
    ensures Settled(Ahead(segments)) == Ahead(Stack([], segments))
    decreases |Ahead(segments)|
  {
    var p, passed := Ahead(segments), Pass(segments);
    assert p[0..] == p;
    CollapsedIsThePass(p, 0, segments);
    PassKeepsSegments(segments);
    PassKeepsTheStack([], segments);
    if Ahead(passed) == p {
      AheadIsInjective(passed, segments);
      NothingToPass([], segments);
      assert [] + segments == segments;
    } else {
      CollapsingShortens(p, 0);
      SettledIsTheStack(passed);
    }
  }

  lemma {:induction false} StackKeepsSegments(done: seq<Bytes>, segments: seq<Bytes>)
    requires AreSegments(done) && AreSegments(segments)
    ensures AreSegments(Stack(done, segments))
    decreases |segments|
  {
    if segments != [] {
      var segment, others := segments[0], segments[1..];
      StackKeepsSegments(done, others);
      StackKeepsSegments(done + [segment], others);
      if done != [] {
        StackKeepsSegments(done[..|done| - 1], others);
      }
    }
  }

  lemma {:induction false} RootParentsAhead(segments: seq<Bytes>)
    requires AreSegments(segments)
    ensures WithoutRootParents(Ahead(segments)) == Ahead(WithoutParents(segments))
    decreases |segments|
  {
    var p := Ahead(segments);
    assert p[0..] == p;
    ParentAhead(p, 0, segments);
    if segments != [] && segments[0] == PARENT {
      var _ := SegmentAhead(p, 0, segments);
      RootParentsAhead(segments[1..]);
      assert Ahead([[]]) == [SLASH];
    }
  }

  lemma RootedIsAhead(path: Bytes)
    ensures Rooted(path) == Ahead(SegmentsOf(path)) && AreSegments(SegmentsOf(path))
  {
    var tail := if path != [] && path[0] == SLASH then path[1..] else path;
    PartsHaveNoSeparator(tail, SLASH);
    JoinedOfSplit(tail, SLASH);
    AheadIsJoined(SegmentsOf(path));
    assert Rooted(path) == [SLASH] + tail;
  }

  /** The resolved path is the path of the segments that stay. */
  lemma ResolvedIsTheStack(path: Bytes)
    ensures Resolved(path) == [SLASH] + Joined(WithoutParents(Stack([], SegmentsOf(path))), SLASH)
  {
    var segments := SegmentsOf(path);
    RootedIsAhead(path);
    SettledIsTheStack(segments);
    StackKeepsSegments([], segments);
    RootParentsAhead(Stack([], segments));
    var kept := WithoutParents(Stack([], segments));
    if kept != [] {
      AheadIsJoined(kept);
    }
  }

  /** Which segments stay, one by one. */
  lemma OneMoreOnTheStack(done: seq<Bytes>, segment: Bytes, others: seq<Bytes>)
    ensures Stack(done, []) == done
    ensures Stack(done, [segment] + others) ==
      if (segment == [] || segment == [DOT]) && others != [] then Stack(done, others)
      else if segment == [DOT, DOT] && done != [] && done[|done| - 1] !in {[], [DOT], [DOT, DOT]} then
        Stack(done[..|done| - 1], others)
      else Stack(done + [segment], others)
    ensures WithoutParents([segment] + others) ==
      if segment != [DOT, DOT] then [segment] + others else if others == [] then [[]] else WithoutParents(others)
  {
    assert ([segment] + others)[1..] == others;
  }

  /** The segments that are neither empty nor current ones. */
  function Filled(segments: seq<Bytes>): seq<Bytes> {
    if segments == [] then []
    else if segments[0] == [] || segments[0] == CURRENT then Filled(segments[1..])
    else [segments[0]] + Filled(segments[1..])
  }

  /** Without parent segments a path keeps its segments in order, but for empty and current ones before the last. */
  lemma {:induction false} SegmentsStayInOrder(done: seq<Bytes>, before: seq<Bytes>, last: Bytes)
    requires PARENT !in before && last != PARENT
    ensures Stack(done, before + [last]) == done + Filled(before) + [last]
    ensures before != [] ==>
      Filled(before) == (if before[0] == [] || before[0] == ['.' as int] then [] else [before[0]]) + Filled(before[1..])
    decreases |before|
  {
    if before == [] {
      assert [] + [last] == [last] && done + [] == done;
      OneMoreOnTheStack(done, last, []);
      assert [last] + [] == [last];
    } else {
      var first, others := before[0], before[1..];
      assert before + [last] == [first] + (others + [last]);
      assert [] + Filled(others) == Filled(others);
      OneMoreOnTheStack(done, first, others + [last]);
      assert PARENT !in others && first != PARENT;
      if first == [] || first == CURRENT {
        SegmentsStayInOrder(done, others, last);
      } else {
        SegmentsStayInOrder(done + [first], others, last);
        assert done + ([first] + Filled(others)) == done + [first] + Filled(others);
      }
    }
  }
}
