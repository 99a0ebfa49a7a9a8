/** Texts split at a separator, and joined again. */
module Separators {
  import opened ByteStrings

  function IndexOf(s: Bytes, b: Byte): (i: nat)
    ensures i <= |s| && b !in s[..i]
    ensures i < |s| <==> b in s
    ensures i < |s| ==> s[i] == b
  {
    if s == [] || s[0] == b then 0 else 1 + IndexOf(s[1..], b)
  }

  /** The parts between the separators; a text without any is one part. */
  function Split(s: Bytes, separator: Byte): (parts: seq<Bytes>)
    ensures |parts| > 0
    decreases |s|
  {
    var i := IndexOf(s, separator);
    if i == |s| then [s] else [s[..i]] + Split(s[i + 1..], separator)
  }

  function Joined(parts: seq<Bytes>, separator: Byte): Bytes {
    if parts == [] then []
    else if |parts| == 1 then parts[0]
    else parts[0] + ([separator] + Joined(parts[1..], separator))
  }

  lemma {:induction false} IndexOfAfter(a: Bytes, b: Byte, rest: Bytes)
    requires b !in a
    ensures IndexOf(a + ([b] + rest), b) == |a|
  {
    if a != [] {
      assert (a + ([b] + rest))[1..] == a[1..] + ([b] + rest);
      IndexOfAfter(a[1..], b, rest);
    }
  }

  lemma FirstOfSplit(a: Bytes, separator: Byte, rest: Bytes)
    requires separator !in a
    ensures Split(a + ([separator] + rest), separator) == [a] + Split(rest, separator)
  {
    var s := a + ([separator] + rest);
    IndexOfAfter(a, separator, rest);
    assert s[..|a|] == a && s[|a| + 1..] == rest;
  }

  lemma {:induction false} SplitOfJoined(parts: seq<Bytes>, separator: Byte)
    requires parts != [] && forall i | 0 <= i < |parts| :: separator !in parts[i]
    ensures Split(Joined(parts, separator), separator) == parts
  {
    if |parts| > 1 {
      FirstOfSplit(parts[0], separator, Joined(parts[1..], separator));
      SplitOfJoined(parts[1..], separator);
      assert parts == [parts[0]] + parts[1..];
    }
  }

  lemma {:induction false} PartsHaveNoSeparator(s: Bytes, separator: Byte)
    ensures forall i | 0 <= i < |Split(s, separator)| :: separator !in Split(s, separator)[i]
    decreases |s|
  {
    var i := IndexOf(s, separator);
    if i < |s| {
      PartsHaveNoSeparator(s[i + 1..], separator);
    }
  }

  lemma {:induction false} JoinedOfSplit(s: Bytes, separator: Byte)
    ensures Joined(Split(s, separator), separator) == s
    decreases |s|
  {
    var i := IndexOf(s, separator);
    if i < |s| {
      var first, rest := s[..i], s[i + 1..];
      assert s == first + ([separator] + rest);
      JoinedOfSplit(rest, separator);
      JoinedAhead(first, Split(rest, separator), separator);
    }
  }

  lemma JoinedAhead(first: Bytes, rest: seq<Bytes>, separator: Byte)
    requires rest != []
    ensures Joined([first] + rest, separator) == first + ([separator] + Joined(rest, separator))
  {
    assert ([first] + rest)[1..] == rest;
  }

  const SLASH: Byte := '/' as int
  const DOT: Byte := '.' as int
  const CURRENT: Bytes := [DOT]
  const PARENT: Bytes := [DOT, DOT]

  /** A path, with a slash before it if it has none. */
  function Rooted(path: Bytes): Bytes {
    if path == [] || path[0] != SLASH then [SLASH] + path else path
  }
  function SegmentsOf(path: Bytes): seq<Bytes> {
    Split(if path != [] && path[0] == SLASH then path[1..] else path, SLASH)
  }

  predicate AreSegments(segments: seq<Bytes>) {
    forall i | 0 <= i < |segments| :: SLASH !in segments[i]
  }

  /** What is still to be read of a path: a slash and a segment, and the same for the rest. */
  function Ahead(segments: seq<Bytes>): Bytes {
    if segments == [] then [] else [SLASH] + (segments[0] + Ahead(segments[1..]))
  }

  lemma {:induction false} AheadIsJoined(segments: seq<Bytes>)
    requires segments != []
    ensures Ahead(segments) == [SLASH] + Joined(segments, SLASH)
  {
    if |segments| > 1 {
      AheadIsJoined(segments[1..]);
    } else {
      assert segments[0] + [] == segments[0];
    }
  }
}
