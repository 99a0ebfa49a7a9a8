/** The text key part: escaped so that no text is a prefix of another, ascending and descending. */
module TextParts {
  import opened ByteStrings
  import opened KeyOrder
  import opened KeyParts
  import opened Successors
  import opened Wrappers

  /** Zero and 0xFF are written as two bytes, so that the terminator 00 01 ends the text. */
  function Piece(b: Byte): Bytes {
    if b == 0 then [0, 0xff] else if b == 0xff then [0xff, 0] else [b]
  }

  function Escaped(text: Bytes): (s: Bytes)
    ensures |s| >= 2
  {
    if text == [] then [0, 1] else Piece(text[0]) + Escaped(text[1..])
  }

  function Unescaped(s: Bytes): Option<(Bytes, Bytes)>
    decreases |s|
  {
    if s == [] then None
    else if s[0] == 0 || s[0] == 0xff then
      if |s| == 1 then None
      else if s[0] == 0 && s[1] == 1 then Some(([], s[2..]))
      else if s[0] == 0 && s[1] == 0xff then Prepended(0, Unescaped(s[2..]))
      else if s[0] == 0xff && s[1] == 0 then Prepended(0xff, Unescaped(s[2..]))
      else None
    else Prepended(s[0], Unescaped(s[1..]))
  }

  function Prepended(b: Byte, parsed: Option<(Bytes, Bytes)>): Option<(Bytes, Bytes)> {
    match parsed
    case None => None
    case Some((text, rest)) => Some(([b] + text, rest))
  }

  lemma PieceReadsBack(b: Byte, tail: Bytes)
    ensures Unescaped(Piece(b) + tail) == Prepended(b, Unescaped(tail))
  {
    var s := Piece(b) + tail;
    if b == 0 || b == 0xff {
      assert s[2..] == tail && s[0] == b && s[1] == 0xff - b;
    } else {
      assert s[1..] == tail && s[0] == b;
    }
  }

  lemma {:induction false} EscapedReadsBack(text: Bytes, rest: Bytes)
    ensures Unescaped(Escaped(text) + rest) == Some((text, rest))
    decreases |text|
  {
    if text == [] {
      var s := Escaped(text) + rest;
      assert s[0] == 0 && s[1] == 1 && s[2..] == rest;
    } else {
      var piece, tail := Piece(text[0]), Escaped(text[1..]);
      assert (piece + tail) + rest == piece + (tail + rest);
      PieceReadsBack(text[0], tail + rest);
      EscapedReadsBack(text[1..], rest);
      assert text == [text[0]] + text[1..];
    }
  }

  lemma {:induction false} EscapedKeepsOrder(s: Bytes, t: Bytes)
    requires Less(s, t)
    ensures Less(Escaped(s), Escaped(t))
    decreases |s|
  {
    var piece := Piece(t[0]);
    assert Escaped(t) == piece + Escaped(t[1..]);
    if s == [] {
      assert Escaped(s)[1..] == [1] && [1][0] == 1;
      if t[0] == 0 {
        assert Escaped(t)[1..][0] == 0xff;
      }
    } else if s[0] == t[0] {
      EscapedKeepsOrder(s[1..], t[1..]);
      LessUnderPrefix(piece, Escaped(s[1..]), Escaped(t[1..]));
    } else {
      assert Escaped(s)[0] == s[0] && Escaped(t)[0] == t[0];
    }
  }

  lemma {:induction false} EscapedEnds(text: Bytes)
    ensures var s := Escaped(text);
      s[|s| - 2] == 0 && s[|s| - 1] == 1
  {
    if text != [] {
      EscapedEnds(text[1..]);
      var piece, tail := Piece(text[0]), Escaped(text[1..]);
      assert (piece + tail)[|piece| + |tail| - 2] == tail[|tail| - 2];
      assert (piece + tail)[|piece| + |tail| - 1] == tail[|tail| - 1];
    }
  }

  function Inverted(s: Bytes): (r: Bytes)
    ensures |r| == |s| && forall j :: 0 <= j < |s| ==> r[j] == 0xff - s[j]
  {
    seq(|s|, j requires 0 <= j < |s| => 0xff - s[j])
  }

  lemma InvertedTwice(s: Bytes)
    ensures Inverted(Inverted(s)) == s
  {
  }

  lemma InvertedAppend(s: Bytes, t: Bytes)
    ensures Inverted(s + t) == Inverted(s) + Inverted(t)
  {
  }

  lemma {:induction false} InvertedReverses(x: Bytes, y: Bytes)
    requires Less(x, y) && !(x <= y)
    ensures Less(Inverted(y), Inverted(x))
    decreases |x|
  {
    var u, v := Inverted(x), Inverted(y);
    if x[0] == y[0] {
      assert x == [x[0]] + x[1..] && y == [y[0]] + y[1..];
      InvertedReverses(x[1..], y[1..]);
      assert u[1..] == Inverted(x[1..]) && v[1..] == Inverted(y[1..]);
      assert Less(v, u) == Less(v[1..], u[1..]);
    } else {
      assert v[0] < u[0];
    }
  }

  function ReadDescending(s: Bytes): Option<(Bytes, Bytes)> {
    match Unescaped(Inverted(s))
    case None => None
    case Some((text, rest)) => Some((text, Inverted(rest)))
  }

  function EscapedDescending(text: Bytes): Bytes {
    Inverted(Escaped(text))
  }

  const TEXT := KeyPart(Escaped, Unescaped, false)
  const TEXT_DESCENDING := KeyPart(EscapedDescending, ReadDescending, true)

  const BYTE_ORDER := (s: Bytes, t: Bytes) => Less(s, t)

  lemma BytesAreOrdered()
    ensures StrictTotalOrder(BYTE_ORDER)
  {
    forall s: Bytes, t: Bytes
      ensures Less(s, t) ==> s != t && !Less(t, s)
      ensures Less(s, t) || s == t || Less(t, s)
    {
      LessTotal(s, t);
      if Less(s, t) {
        LessAsymmetric(s, t);
      }
    }
  }

  /** The text part provides what the ranges need. */
  lemma TextIsOrderly()
    ensures Orderly(TEXT, BYTE_ORDER)
  {
    BytesAreOrdered();
    forall s: Bytes, rest: Bytes ensures TEXT.parse(TEXT.encoding(s) + rest) == Some((s, rest)) {
      EscapedReadsBack(s, rest);
    }
    forall s: Bytes, t: Bytes | Less(s, t) ensures Less(TEXT.encoding(s), TEXT.encoding(t)) {
      EscapedKeepsOrder(s, t);
    }
    forall s: Bytes ensures Successor(TEXT.encoding(s)).Some? {
      EscapedEnds(s);
    }
  }

  lemma DescendingReadsBack(s: Bytes, rest: Bytes)
    ensures ReadDescending(EscapedDescending(s) + rest) == Some((s, rest))
  {
    InvertedAppend(EscapedDescending(s), rest);
    InvertedTwice(Escaped(s));
    InvertedTwice(rest);
    EscapedReadsBack(s, Inverted(rest));
  }

  lemma EscapedPrefixFree(s: Bytes, t: Bytes)
    requires Escaped(s) <= Escaped(t)
    ensures s == t
  {
    var x, y := Escaped(s), Escaped(t);
    EscapedReadsBack(s, y[|x|..]);
    EscapedReadsBack(t, []);
    assert y == x + y[|x|..] && y + [] == y;
  }

  lemma DescendingReverses(s: Bytes, t: Bytes)
    requires Less(s, t)
    ensures Less(EscapedDescending(t), EscapedDescending(s))
  {
    EscapedKeepsOrder(s, t);
    LessIrreflexive(s);
    if Escaped(s) <= Escaped(t) {
      EscapedPrefixFree(s, t);
    }
    InvertedReverses(Escaped(s), Escaped(t));
  }

  lemma DescendingEnds(s: Bytes)
    ensures Successor(EscapedDescending(s)).Some?
  {
    EscapedEnds(s);
    assert EscapedDescending(s)[|Escaped(s)| - 1] == 0xfe;
  }

  /** So does the same part written backwards, byte for byte. */
  lemma DescendingTextIsOrderly()
    ensures Orderly(TEXT_DESCENDING, BYTE_ORDER)
  {
    BytesAreOrdered();
    forall s: Bytes, rest: Bytes
      ensures TEXT_DESCENDING.parse(TEXT_DESCENDING.encoding(s) + rest) == Some((s, rest))
    {
      DescendingReadsBack(s, rest);
    }
    forall s: Bytes, t: Bytes | Less(s, t)
      ensures Less(TEXT_DESCENDING.encoding(t), TEXT_DESCENDING.encoding(s))
    {
      DescendingReverses(s, t);
    }
    forall s: Bytes ensures Successor(TEXT_DESCENDING.encoding(s)).Some? {
      DescendingEnds(s);
    }
  }

  /** The bytes of a text: two are escaped, and a pair of bytes that escapes nothing ends it. */
  lemma EscapedIs(b: Byte, text: Bytes)
    ensures Escaped([]) == [0, 1]
    ensures Escaped([b] + text) == (if b == 0 then [0, 0xff] else if b == 0xff then [0xff, 0] else [b]) + Escaped(text)
    ensures EscapedDescending(text) == Inverted(Escaped(text))
  {
    assert ([b] + text)[1..] == text;
  }

  /** A text that does not end, and a pair that neither escapes nor ends, are malformed. */
  lemma UnescapedIs(b: Byte, c: Byte, s: Bytes)
    ensures Unescaped([]) == None && (b == 0 || b == 0xff ==> Unescaped([b]) == None)
    ensures b != 0 && b != 0xff ==>
      Unescaped([b] + s) == match Unescaped(s) case None => None case Some((text, rest)) => Some(([b] + text, rest))
    ensures b == 0 && c == 1 ==> Unescaped([b, c] + s) == Some(([], s))
    ensures (b == 0 && c == 0xff) || (b == 0xff && c == 0) ==>
      Unescaped([b, c] + s) == match Unescaped(s) case None => None case Some((text, rest)) => Some(([b] + text, rest))
    ensures (b == 0 && c != 1 && c != 0xff) || (b == 0xff && c != 0) ==> Unescaped([b, c] + s) == None
  {
    assert ([b] + s)[1..] == s && ([b, c] + s)[2..] == s;
  }
}
