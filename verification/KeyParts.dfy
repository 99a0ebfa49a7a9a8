/** Typed key parts, the keys composed of them, and the ranges over a first part. */
module KeyParts {
  import opened ByteStrings
  import opened KeyOrder
  import opened Keyspace
  import opened Successors
  import opened Wrappers

  /** How one part of a key is written and read back; a descending part orders backwards. */
  datatype KeyPart<!A> = KeyPart(encoding: A -> Bytes, parse: Bytes -> Option<(A, Bytes)>, descending: bool)

  ghost predicate StrictTotalOrder<A(!new)>(less: (A, A) -> bool) {
    && (forall a, b :: less(a, b) ==> a != b && !less(b, a))
    && (forall a, b :: less(a, b) || a == b || less(b, a))
  }

  /** What a part's codec must provide: it reads back what it writes whatever follows, keeps the
      order of the values, and never writes 0xFF bytes only. */
  ghost predicate Orderly<A(!new)>(part: KeyPart<A>, less: (A, A) -> bool) {
    && StrictTotalOrder(less)
    && (forall a, rest :: part.parse(part.encoding(a) + rest) == Some((a, rest)))
    && (forall a, b :: less(a, b) ==>
          if part.descending then Less(part.encoding(b), part.encoding(a))
          else Less(part.encoding(a), part.encoding(b)))
    && (forall a :: Successor(part.encoding(a)).Some?)
  }

  function KeysWith<A>(part: KeyPart<A>, value: A): KeyRange {
    KeyRange(part.encoding(value), Successor(part.encoding(value)))
  }

  function OrEmpty(bound: Option<Bytes>): Bytes {
    match bound
    case None => []
    case Some(key) => key
  }

  function KeysFrom<A>(part: KeyPart<A>, value: A): KeyRange {
    if part.descending then KeyRange([], Successor(part.encoding(value)))
    else KeyRange(part.encoding(value), None)
  }

  function KeysThrough<A>(part: KeyPart<A>, value: A): KeyRange {
    if part.descending then KeyRange(part.encoding(value), None)
    else KeyRange([], Successor(part.encoding(value)))
  }

  function KeysBefore<A>(part: KeyPart<A>, value: A): KeyRange {
    if part.descending then KeyRange(OrEmpty(Successor(part.encoding(value))), None)
    else KeyRange([], Some(part.encoding(value)))
  }

  // ------------------------------------------------------------ order of extensions

  lemma {:induction false} LessUnlessPrefix(x: Key, y: Key, r: Key, s: Key)
    requires Less(x, y) && !(x <= y)
    ensures Less(x + r, y + s)
    decreases |x|
  {
    assert x != [] && y != [];
    assert (x + r)[0] == x[0] && (y + s)[0] == y[0];
    assert (x + r)[1..] == x[1..] + r && (y + s)[1..] == y[1..] + s;
    if x[0] == y[0] {
      assert x == [x[0]] + x[1..] && y == [y[0]] + y[1..];
      LessUnlessPrefix(x[1..], y[1..], r, s);
    }
  }

  lemma PrefixFree<A(!new)>(part: KeyPart<A>, less: (A, A) -> bool, a: A, b: A)
    requires Orderly(part, less)
    ensures part.encoding(a) <= part.encoding(b) ==> a == b
  {
    var x, y := part.encoding(a), part.encoding(b);
    if x <= y {
      var rest := y[|x|..];
      assert y == x + rest && y == y + [];
      assert part.parse(x + rest) == Some((a, rest)) && part.parse(y + []) == Some((b, []));
    }
  }

  /** Different values order their keys whatever the later parts are. */
  lemma FirstPartDecides<A(!new)>(part: KeyPart<A>, less: (A, A) -> bool, a: A, b: A, r: Bytes, s: Bytes)
    requires Orderly(part, less) && less(a, b)
    ensures if part.descending
      then Less(part.encoding(b) + s, part.encoding(a) + r)
      else Less(part.encoding(a) + r, part.encoding(b) + s)
  {
    PrefixFree(part, less, a, b);
    PrefixFree(part, less, b, a);
    if part.descending {
      LessUnlessPrefix(part.encoding(b), part.encoding(a), s, r);
    } else {
      LessUnlessPrefix(part.encoding(a), part.encoding(b), r, s);
    }
  }

  /** Where a key with first part a lies relative to the encoding of value and its successor. */
  lemma Placement<A(!new)>(part: KeyPart<A>, less: (A, A) -> bool, a: A, value: A, rest: Bytes)
    requires Orderly(part, less)
    ensures var key, bound := part.encoding(a) + rest, part.encoding(value);
      && Successor(bound).Some?
      && (AtMost(bound, key) <==> a == value || (if part.descending then less(a, value) else less(value, a)))
      && (Less(key, Successor(bound).value) <==>
            a == value || (if part.descending then less(value, a) else less(a, value)))
  {
    var key, bound := part.encoding(a) + rest, part.encoding(value);
    var succ := Successor(bound).value;
    PrefixRange(bound, key);
    PrefixFree(part, less, value, a);
    assert bound + [] == bound;
    if a == value {
      assert bound <= key;
    } else {
      if bound <= key {
        PrefixOfKey(part, less, a, value, rest);
      }
      if less(a, value) {
        FirstPartDecides(part, less, a, value, rest, []);
      } else {
        FirstPartDecides(part, less, value, a, [], rest);
      }
      LessTotal(key, bound);
      if Less(key, bound) {
        LessAsymmetric(key, bound);
        PrefixRange(bound, bound);
        LessTransitive(key, bound, succ);
      }
    }
  }

  lemma PrefixOfKey<A(!new)>(part: KeyPart<A>, less: (A, A) -> bool, a: A, value: A, rest: Bytes)
    requires Orderly(part, less)
    requires part.encoding(value) <= part.encoding(a) + rest
    ensures a == value
  {
    var key, bound := part.encoding(a) + rest, part.encoding(value);
    assert key == bound + key[|bound|..];
    assert part.parse(bound + key[|bound|..]) == Some((value, key[|bound|..]));
    assert part.parse(key) == Some((a, rest));
  }

  lemma EverythingFromEmpty(key: Bytes)
    ensures AtMost([], key)
  {
    PrefixComesFirst([], key);
    assert [] + key == key;
  }

  /** The four ranges hold exactly the keys whose first part is equal to the value, at least it,
      at most it, and below it, whatever follows the first part. */
  lemma RangesAreExact<A(!new)>(part: KeyPart<A>, less: (A, A) -> bool, a: A, value: A, rest: Bytes)
    requires Orderly(part, less)
    ensures var key := part.encoding(a) + rest;
      && (Within(key, KeysWith(part, value)) <==> a == value)
      && (Within(key, KeysFrom(part, value)) <==> a == value || less(value, a))
      && (Within(key, KeysThrough(part, value)) <==> a == value || less(a, value))
      && (Within(key, KeysBefore(part, value)) <==> less(a, value))
  {
    var key, bound := part.encoding(a) + rest, part.encoding(value);
    Placement(part, less, a, value, rest);
    EverythingFromEmpty(key);
    LessTotal(bound, key);
    if AtMost(bound, key) && bound != key {
      LessAsymmetric(bound, key);
    }
    LessIrreflexive(key);
    var succ := Successor(bound).value;
    LessTotal(succ, key);
    LessIrreflexive(succ);
    if Less(succ, key) {
      LessAsymmetric(succ, key);
    }
  }

  // --------------------------------------------------------------- composite keys

  function PairKey<A, B>(first: KeyPart<A>, second: KeyPart<B>, a: A, b: B): Bytes {
    first.encoding(a) + second.encoding(b)
  }

  function PairPartsOf<A, B>(first: KeyPart<A>, second: KeyPart<B>, key: Bytes): Option<(A, B)> {
    match first.parse(key)
    case None => None
    case Some((a, rest)) =>
      match second.parse(rest)
      case None => None
      case Some((b, trailing)) => if trailing == [] then Some((a, b)) else None
  }

  function TripleKey<A, B, C>(first: KeyPart<A>, second: KeyPart<B>, third: KeyPart<C>, a: A, b: B, c: C): Bytes {
    first.encoding(a) + second.encoding(b) + third.encoding(c)
  }

  function TriplePartsOf<A, B, C>(first: KeyPart<A>, second: KeyPart<B>, third: KeyPart<C>, key: Bytes): Option<(A, B, C)> {
    match first.parse(key)
    case None => None
    case Some((a, rest)) =>
      match PairPartsOf(second, third, rest)
      case None => None
      case Some((b, c)) => Some((a, b, c))
  }

  /** The parts of a composite key are read back from it. */
  lemma PartsReadBack<A(!new), B(!new), C(!new)>(
    first: KeyPart<A>, second: KeyPart<B>, third: KeyPart<C>,
    lessA: (A, A) -> bool, lessB: (B, B) -> bool, lessC: (C, C) -> bool, a: A, b: B, c: C)
    requires Orderly(first, lessA) && Orderly(second, lessB) && Orderly(third, lessC)
    ensures PairPartsOf(first, second, PairKey(first, second, a, b)) == Some((a, b))
    ensures TriplePartsOf(first, second, third, TripleKey(first, second, third, a, b, c)) == Some((a, b, c))
  {
    var x, y, z := first.encoding(a), second.encoding(b), third.encoding(c);
    assert y + [] == y && z + [] == z && x + y + z == x + (y + z);
    assert second.parse(y + []) == Some((b, [])) && third.parse(z + []) == Some((c, []));
    assert first.parse(x + y) == Some((a, y)) && first.parse(x + (y + z)) == Some((a, y + z));
    assert second.parse(y + z) == Some((b, z));
  }

  /** The order that a part gives its values: theirs, or the other way round. */
  predicate GoesFirst<A>(part: KeyPart<A>, less: (A, A) -> bool, a: A, b: A) {
    if part.descending then less(b, a) else less(a, b)
  }

  /** Keys are ordered by their first parts, and those with the same first part by the rest. */
  lemma FirstPartThenRest<A(!new)>(part: KeyPart<A>, less: (A, A) -> bool, a: A, a': A, rest: Bytes, rest': Bytes)
    requires Orderly(part, less)
    ensures Less(part.encoding(a) + rest, part.encoding(a') + rest')
       <==> GoesFirst(part, less, a, a') || (a == a' && Less(rest, rest'))
  {
    var key, key' := part.encoding(a) + rest, part.encoding(a') + rest';
    if less(a, a') {
      FirstPartDecides(part, less, a, a', rest, rest');
    } else if less(a', a) {
      FirstPartDecides(part, less, a', a, rest', rest);
    } else {
      LessUnderPrefix(part.encoding(a), rest, rest');
    }
    if Less(key', key) {
      LessAsymmetric(key', key);
    }
  }

  lemma EncodingOrder<A(!new)>(part: KeyPart<A>, less: (A, A) -> bool, a: A, a': A)
    requires Orderly(part, less)
    ensures Less(part.encoding(a), part.encoding(a')) <==> GoesFirst(part, less, a, a')
  {
    FirstPartThenRest(part, less, a, a', [], []);
    assert part.encoding(a) + [] == part.encoding(a) && part.encoding(a') + [] == part.encoding(a');
  }

  /** The byte order of composite keys is the order of their parts, part by part, each in its direction. */
  lemma PairOrder<A(!new), B(!new)>(
    first: KeyPart<A>, second: KeyPart<B>, lessA: (A, A) -> bool, lessB: (B, B) -> bool, a: A, b: B, a': A, b': B)
    requires Orderly(first, lessA) && Orderly(second, lessB)
    ensures Less(PairKey(first, second, a, b), PairKey(first, second, a', b'))
       <==> GoesFirst(first, lessA, a, a') || (a == a' && GoesFirst(second, lessB, b, b'))
  {
    FirstPartThenRest(first, lessA, a, a', second.encoding(b), second.encoding(b'));
    EncodingOrder(second, lessB, b, b');
  }

  lemma TripleOrder<A(!new), B(!new), C(!new)>(
    first: KeyPart<A>, second: KeyPart<B>, third: KeyPart<C>,
    lessA: (A, A) -> bool, lessB: (B, B) -> bool, lessC: (C, C) -> bool, a: A, b: B, c: C, a': A, b': B, c': C)
    requires Orderly(first, lessA) && Orderly(second, lessB) && Orderly(third, lessC)
    ensures Less(TripleKey(first, second, third, a, b, c), TripleKey(first, second, third, a', b', c'))
       <==> GoesFirst(first, lessA, a, a')
            || (a == a' && (GoesFirst(second, lessB, b, b') || (b == b' && GoesFirst(third, lessC, c, c'))))
  {
    var rest, rest' := PairKey(second, third, b, c), PairKey(second, third, b', c');
    assert TripleKey(first, second, third, a, b, c) == first.encoding(a) + rest;
    assert TripleKey(first, second, third, a', b', c') == first.encoding(a') + rest';
    FirstPartThenRest(first, lessA, a, a', rest, rest');
    PairOrder(second, third, lessB, lessC, b, c, b', c');
  }
}
