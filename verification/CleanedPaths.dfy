/** Removing dot segments from a path: libraries/canonicalurl, and section 5.2.4 of RFC 3986. */
module CleanedPaths {
  import opened ByteStrings
  import opened Separators

  // ------------------------------------------------- section 5.2.4 of RFC 3986

  /** The output buffer without its last segment and the slash before it. */
  function WithoutLastSegment(output: Bytes): (r: Bytes)
    ensures r <= output
  {
    if output == [] then []
    else if output[|output| - 1] == SLASH then output[..|output| - 1]
    else WithoutLastSegment(output[..|output| - 1])
  }

  /** The length of the first segment, with its slash if it starts with one. */
  function FirstSegment(input: Bytes): (n: nat)
    requires input != []
    ensures 0 < n <= |input|
  {
    1 + IndexOf(input[1..], SLASH)
  }

  /** The rules A to E, tried in this order. */
  function RemoveDotSegments(input: Bytes, output: Bytes): Bytes
    decreases |input|
  {
    if input == [] then output
    else if PARENT + [SLASH] <= input then RemoveDotSegments(input[3..], output)
    else if CURRENT + [SLASH] <= input then RemoveDotSegments(input[2..], output)
    else if [SLASH] + CURRENT + [SLASH] <= input then RemoveDotSegments(input[2..], output)
    else if input == [SLASH] + CURRENT then RemoveDotSegments([SLASH], output)
    else if [SLASH] + PARENT + [SLASH] <= input then RemoveDotSegments(input[3..], WithoutLastSegment(output))
    else if input == [SLASH] + PARENT then RemoveDotSegments([SLASH], WithoutLastSegment(output))
    else if input == CURRENT || input == PARENT then RemoveDotSegments([], output)
    else
      var n := FirstSegment(input);
      RemoveDotSegments(input[n..], output + input[..n])
  }

  // --------------------------------------------------------------- cleanedPathOf

  function WithoutLast(segments: seq<Bytes>): seq<Bytes> {
    if segments == [] then [] else segments[..|segments| - 1]
  }

  /** A last dot segment leaves a slash at the end. */
  function Closed(resolved: seq<Bytes>, last: bool): seq<Bytes> {
    if last then resolved + [[]] else resolved
  }

  /** The resolved segments after one more segment of the path. */
  function Next(resolved: seq<Bytes>, segment: Bytes, last: bool): seq<Bytes> {
    if segment == CURRENT then Closed(resolved, last)
    else if segment == PARENT then Closed(WithoutLast(resolved), last)
    else resolved + [segment]
  }

  /** The segments resolved so far, and then those that come after them. */
  function Resolved(resolved: seq<Bytes>, segments: seq<Bytes>): seq<Bytes>
    decreases |segments|
  {
    if segments == [] then resolved
    else Resolved(Next(resolved, segments[0], |segments| == 1), segments[1..])
  }

  function CleanedPath(path: Bytes): Bytes {
    if path == [] then [SLASH] else [SLASH] + Joined(Resolved([], SegmentsOf(path)), SLASH)
  }

  method CleanedPathOf(rawPath: Bytes) returns (path: Bytes)
    ensures path == CleanedPath(rawPath)
  {
    if rawPath == [] {
      return [SLASH];
    }
    var segments := SegmentsOf(rawPath);
    var resolved: seq<Bytes> := [];
    for position := 0 to |segments|
      invariant Resolved(resolved, segments[position..]) == Resolved([], segments)
    {
      var segment, last := segments[position], position == |segments| - 1;
      assert segments[position..][1..] == segments[position + 1..];
      if segment == CURRENT {
        if last {
          resolved := resolved + [[]];
        }
      } else if segment == PARENT {
        if |resolved| > 0 {
          resolved := resolved[..|resolved| - 1];
        }
        if last {
          resolved := resolved + [[]];
        }
      } else {
        resolved := resolved + [segment];
      }
    }
    path := [SLASH] + Joined(resolved, SLASH);
  }

  // ------------------------------------------------------------ the two agree

  /** Segments, each after its slash. */
  function Slashed(segments: seq<Bytes>): Bytes {
    if segments == [] then []
    else Slashed(segments[..|segments| - 1]) + ([SLASH] + segments[|segments| - 1])
  }

  lemma {:induction false} WithoutLastOfSegment(output: Bytes, segment: Bytes)
    requires SLASH !in segment
    ensures WithoutLastSegment(output + ([SLASH] + segment)) == output
    decreases |segment|
  {
    var whole := output + ([SLASH] + segment);
    if segment == [] {
      assert whole[..|whole| - 1] == output;
    } else {
      var shorter := segment[..|segment| - 1];
      assert whole[|whole| - 1] == segment[|segment| - 1];
      assert whole[..|whole| - 1] == output + ([SLASH] + shorter);
      WithoutLastOfSegment(output, shorter);
    }
  }

  lemma WithoutLastOfSlashed(segments: seq<Bytes>)
    requires AreSegments(segments)
    ensures WithoutLastSegment(Slashed(segments)) == Slashed(WithoutLast(segments))
  {
    if segments != [] {
      var last := |segments| - 1;
      WithoutLastOfSegment(Slashed(segments[..last]), segments[last]);
    }
  }

  lemma FirstSegmentAhead(segment: Bytes, rest: Bytes)
    requires SLASH !in segment && (rest != [] ==> rest[0] == SLASH)
    ensures var input := [SLASH] + (segment + rest);
            FirstSegment(input) == 1 + |segment| && input[..1 + |segment|] == [SLASH] + segment
            && input[1 + |segment|..] == rest
  {
    var input := [SLASH] + (segment + rest);
    assert input[1..] == segment + rest;
    if rest == [] {
      assert segment + rest == segment;
    } else {
      assert segment + rest == segment + ([SLASH] + rest[1..]);
      IndexOfAfter(segment, SLASH, rest[1..]);
    }
  }

  lemma SlashOnly(output: Bytes)
    ensures RemoveDotSegments([SLASH], output) == output + [SLASH]
  {
    assert FirstSegment([SLASH]) == 1;
  }

  lemma CurrentRemoved(rest: Bytes, output: Bytes)
    requires rest != [] ==> rest[0] == SLASH
    ensures RemoveDotSegments([SLASH] + (CURRENT + rest), output)
         == if rest == [] then output + [SLASH] else RemoveDotSegments(rest, output)
  {
    var input := [SLASH] + (CURRENT + rest);
    assert input[0] == SLASH && input[1] == DOT;
    if rest == [] {
      assert input == [SLASH] + CURRENT;
      SlashOnly(output);
    } else {
      assert input[2] == SLASH && input[2..] == rest;
      assert [SLASH] + CURRENT + [SLASH] <= input;
    }
  }

  lemma ParentRemoved(rest: Bytes, output: Bytes)
    requires rest != [] ==> rest[0] == SLASH
    ensures RemoveDotSegments([SLASH] + (PARENT + rest), output)
         == if rest == [] then WithoutLastSegment(output) + [SLASH] else RemoveDotSegments(rest, WithoutLastSegment(output))
  {
    var input := [SLASH] + (PARENT + rest);
    assert input[0] == SLASH && input[1] == DOT && input[2] == DOT;
    if rest == [] {
      assert input == [SLASH] + PARENT;
      SlashOnly(WithoutLastSegment(output));
    } else {
      assert input[3] == SLASH && input[3..] == rest;
      assert [SLASH] + PARENT + [SLASH] <= input;
    }
  }

  lemma NoDotRule(segment: Bytes, rest: Bytes)
    requires SLASH !in segment && segment != CURRENT && segment != PARENT
    requires rest != [] ==> rest[0] == SLASH
    ensures var input := [SLASH] + (segment + rest);
            && !([SLASH] + CURRENT + [SLASH] <= input) && input != [SLASH] + CURRENT
            && !([SLASH] + PARENT + [SLASH] <= input) && input != [SLASH] + PARENT
  {
    var input := [SLASH] + (segment + rest);
    if |segment| == 0 {
      assert |input| > 1 ==> input[1] == SLASH;
    } else if |segment| == 1 {
      assert input[1] == segment[0];
      assert segment[0] == DOT ==> segment == CURRENT;
    } else if |segment| == 2 {
      assert input[1] == segment[0] && input[2] == segment[1];
      assert segment[0] == DOT && segment[1] == DOT ==> segment == PARENT;
    } else {
      assert input[1] == segment[0] && input[2] == segment[1] && input[3] == segment[2];
    }
  }

  lemma SegmentMoved(segment: Bytes, rest: Bytes, output: Bytes)
    requires SLASH !in segment && segment != CURRENT && segment != PARENT
    requires rest != [] ==> rest[0] == SLASH
    ensures RemoveDotSegments([SLASH] + (segment + rest), output)
         == RemoveDotSegments(rest, output + ([SLASH] + segment))
  {
    var input := [SLASH] + (segment + rest);
    assert input[0] == SLASH;
    NoDotRule(segment, rest);
    FirstSegmentAhead(segment, rest);
  }

  lemma SlashedOneMore(segments: seq<Bytes>, segment: Bytes)
    ensures Slashed(segments + [segment]) == Slashed(segments) + ([SLASH] + segment)
  {
    assert (segments + [segment])[..|segments|] == segments;
  }

  lemma SegmentResolved(segment: Bytes, others: seq<Bytes>, resolved: seq<Bytes>)
    requires SLASH !in segment && AreSegments(resolved)
    ensures RemoveDotSegments([SLASH] + (segment + Ahead(others)), Slashed(resolved))
         == RemoveDotSegments(Ahead(others), Slashed(Next(resolved, segment, others == [])))
  {
    var rest, output := Ahead(others), Slashed(resolved);
    assert [SLASH] + [] == [SLASH];
    if segment == CURRENT {
      CurrentRemoved(rest, output);
      SlashedOneMore(resolved, []);
    } else if segment == PARENT {
      ParentRemoved(rest, output);
      WithoutLastOfSlashed(resolved);
      SlashedOneMore(WithoutLast(resolved), []);
    } else {
      SegmentMoved(segment, rest, output);
      SlashedOneMore(resolved, segment);
    }
  }

  lemma {:induction false} SegmentsResolved(segments: seq<Bytes>, resolved: seq<Bytes>)
    requires AreSegments(segments) && AreSegments(resolved)
    ensures RemoveDotSegments(Ahead(segments), Slashed(resolved)) == Slashed(Resolved(resolved, segments))
    decreases |segments|
  {
    if segments != [] {
      SegmentResolved(segments[0], segments[1..], resolved);
      SegmentsResolved(segments[1..], Next(resolved, segments[0], |segments| == 1));
    }
  }

  lemma {:induction false} SlashedIsAhead(segments: seq<Bytes>, more: seq<Bytes>)
    ensures Slashed(segments) + Ahead(more) == Ahead(segments + more)
  {
    if segments == [] {
      assert segments + more == more;
    } else {
      var last := |segments| - 1;
      SlashedIsAhead(segments[..last], [segments[last]] + more);
      assert segments + more == segments[..last] + ([segments[last]] + more);
      assert ([segments[last]] + more)[1..] == more;
    }
  }

  lemma {:induction false} SomethingIsResolved(resolved: seq<Bytes>, segments: seq<Bytes>)
    requires segments != []
    ensures Resolved(resolved, segments) != []
    decreases |segments|
  {
    if |segments| > 1 {
      SomethingIsResolved(Next(resolved, segments[0], false), segments[1..]);
    }
  }

  /** What the cleaned path is, is what the standard's algorithm makes of it, on every rooted path. */
  lemma CleanedPathIsTheStandards(path: Bytes)
    ensures CleanedPath(path) == RemoveDotSegments(Rooted(path), [])
  {
    var segments := SegmentsOf(path);
    var tail := if path != [] && path[0] == SLASH then path[1..] else path;
    PartsHaveNoSeparator(tail, SLASH);
    JoinedOfSplit(tail, SLASH);
    AheadIsJoined(segments);
    assert Rooted(path) == [SLASH] + tail;
    SegmentsResolved(segments, []);
    var resolved := Resolved([], segments);
    SomethingIsResolved([], segments);
    AheadIsJoined(resolved);
    SlashedIsAhead(resolved, []);
    assert resolved + [] == resolved && Slashed(resolved) + [] == Slashed(resolved);
    if path == [] {
      assert segments == [[]];
    }
  }

  predicate HasNoDots(segments: seq<Bytes>) {
    forall i | 0 <= i < |segments| :: segments[i] != CURRENT && segments[i] != PARENT
  }

  lemma {:induction false} ResolvedHasNoDots(resolved: seq<Bytes>, segments: seq<Bytes>)
    requires HasNoDots(resolved) && AreSegments(resolved) && AreSegments(segments)
    ensures HasNoDots(Resolved(resolved, segments)) && AreSegments(Resolved(resolved, segments))
    decreases |segments|
  {
    if segments != [] {
      ResolvedHasNoDots(Next(resolved, segments[0], |segments| == 1), segments[1..]);
    }
  }

  lemma {:induction false} NothingToResolve(resolved: seq<Bytes>, segments: seq<Bytes>)
    requires HasNoDots(segments)
    ensures Resolved(resolved, segments) == resolved + segments
    decreases |segments|
  {
    if segments == [] {
      assert resolved + segments == resolved;
    } else {
      NothingToResolve(resolved + [segments[0]], segments[1..]);
      assert (resolved + [segments[0]]) + segments[1..] == resolved + segments;
    }
  }

  /** A cleaned path starts with a slash, has no dot segments, and is what cleaning makes of itself. */
  lemma CleaningTwice(path: Bytes)
    ensures CleanedPath(path) != [] && CleanedPath(path)[0] == SLASH
    ensures HasNoDots(SegmentsOf(CleanedPath(path)))
    ensures CleanedPath(CleanedPath(path)) == CleanedPath(path)
  {
    var segments := SegmentsOf(path);
    PartsHaveNoSeparator(if path != [] && path[0] == SLASH then path[1..] else path, SLASH);
    var resolved := Resolved([], segments);
    SomethingIsResolved([], segments);
    ResolvedHasNoDots([], segments);
    SplitOfJoined(resolved, SLASH);
    var cleaned := CleanedPath(path);
    if path == [] {
      assert segments == [[]] && resolved == [[]];
    }
    assert cleaned == [SLASH] + Joined(resolved, SLASH);
    assert cleaned[1..] == Joined(resolved, SLASH);
    NothingToResolve([], resolved);
    assert [] + resolved == resolved;
  }

  /** What becomes of the segments one by one: a current one goes, a parent one takes the last one away, and both leave a slash at the end. */
  lemma OneMoreResolved(resolved: seq<Bytes>, segment: Bytes, others: seq<Bytes>)
    ensures Resolved(resolved, []) == resolved
    ensures var slash := if others == [] then [[]] else [];
      Resolved(resolved, [segment] + others) ==
      if segment == ['.' as int] then Resolved(resolved + slash, others)
      else if segment == ['.' as int, '.' as int] then
        Resolved((if resolved == [] then [] else resolved[..|resolved| - 1]) + slash, others)
      else Resolved(resolved + [segment], others)
  {
    assert ([segment] + others)[1..] == others;
    assert resolved + [] == resolved && WithoutLast(resolved) + [] == WithoutLast(resolved);
  }
}
