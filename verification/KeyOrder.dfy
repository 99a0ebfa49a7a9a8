/** The byte order of stored keys, and the order in which a scan visits them. */
module KeyOrder {
  import opened ByteStrings

  /** A key compares item by item; a proper prefix comes first. */
  type Key = seq<int>

  predicate Less(a: Key, b: Key)
    decreases |a|
  {
    if b == [] then false
    else if a == [] then true
    else a[0] < b[0] || (a[0] == b[0] && Less(a[1..], b[1..]))
  }

  predicate AtMost(a: Key, b: Key) {
    a == b || Less(a, b)
  }

  lemma {:induction false} LessIrreflexive(a: Key)
    ensures !Less(a, a)
  {
    if a != [] {
      LessIrreflexive(a[1..]);
    }
  }

  lemma {:induction false} LessTransitive(a: Key, b: Key, c: Key)
    requires Less(a, b) && Less(b, c)
    ensures Less(a, c)
    decreases |a|
  {
    if a != [] && a[0] == b[0] == c[0] {
      LessTransitive(a[1..], b[1..], c[1..]);
    }
  }

  lemma {:induction false} LessTotal(a: Key, b: Key)
    ensures Less(a, b) || a == b || Less(b, a)
    decreases |a|
  {
    if a != [] && b != [] && a[0] == b[0] {
      LessTotal(a[1..], b[1..]);
      assert a == [a[0]] + a[1..] && b == [b[0]] + b[1..];
    }
  }

  lemma LessAsymmetric(a: Key, b: Key)
    requires Less(a, b)
    ensures a != b && !Less(b, a)
  {
    LessIrreflexive(a);
    if Less(b, a) {
      LessTransitive(a, b, a);
    }
  }

  lemma {:induction false} LessUnderPrefix(p: Key, a: Key, b: Key)
    ensures Less(p + a, p + b) == Less(a, b)
    decreases |p|
  {
    if p == [] {
      assert p + a == a && p + b == b;
    } else {
      assert (p + a)[1..] == p[1..] + a && (p + b)[1..] == p[1..] + b;
      LessUnderPrefix(p[1..], a, b);
    }
  }

  lemma {:induction false} PrefixComesFirst(p: Key, a: Key)
    ensures AtMost(p, p + a)
  {
    LessUnderPrefix(p, [], a);
    assert p + [] == p;
  }

  /** Keys whose first parts have one length compare part by part. */
  lemma {:induction false} LessByParts(p: Key, q: Key, a: Key, b: Key)
    requires |p| == |q|
    ensures Less(p + a, q + b) <==> Less(p, q) || (p == q && Less(a, b))
    decreases |p|
  {
    if p == [] {
      assert p + a == a && q + b == b;
    } else {
      assert (p + a)[1..] == p[1..] + a && (q + b)[1..] == q[1..] + b;
      assert p == [p[0]] + p[1..] && q == [q[0]] + q[1..];
      LessByParts(p[1..], q[1..], a, b);
    }
  }

  lemma LessSingle(x: int, y: int)
    ensures Less([x], [y]) <==> x < y
  {
    assert [x][1..] == [] && [y][1..] == [];
  }

  lemma LessPair(a: int, b: int, x: int, y: int)
    ensures Less([a, x], [b, y]) <==> a < b || (a == b && x < y)
  {
    LessByParts([a], [b], [x], [y]);
    LessSingle(a, b);
    LessSingle(x, y);
    assert [a] + [x] == [a, x] && [b] + [y] == [b, y] && [a][0] == a && [b][0] == b;
  }

  // ------------------------------------------------------------------- scanning

  /** A key as its own place in the order. */
  function Itself(key: Bytes): Key {
    key
  }

  function Elements<T>(xs: seq<T>): set<T> {
    set x | x in xs
  }

  lemma ElementsGrow<T>(xs: seq<T>, i: nat)
    requires i < |xs|
    ensures Elements(xs[..i + 1]) == Elements(xs[..i]) + {xs[i]}
  {
    assert xs[..i + 1] == xs[..i] + [xs[i]];
  }

  lemma ElementsEnds<T>(xs: seq<T>)
    ensures Elements(xs[..0]) == {}
    ensures Elements(xs[..|xs|]) == Elements(xs)
  {
    assert xs[..|xs|] == xs;
  }

  ghost predicate DistinctBy<T(!new)>(s: set<T>, key: T -> Key) {
    forall x, y :: x in s && y in s && key(x) == key(y) ==> x == y
  }

  ghost predicate AscendsBy<T(!new)>(xs: seq<T>, key: T -> Key) {
    forall i, j :: 0 <= i < j < |xs| ==> Less(key(xs[i]), key(xs[j]))
  }

  predicate IsLeast<T>(x: T, s: set<T>, key: T -> Key) {
    x in s && forall y :: y in s ==> AtMost(key(x), key(y))
  }

  lemma {:induction false} LeastExists<T(!new)>(s: set<T>, key: T -> Key)
    requires s != {}
    ensures exists x :: IsLeast(x, s, key)
    decreases |s|
  {
    var x :| x in s;
    if s == {x} {
      assert IsLeast(x, s, key);
    } else {
      LeastExists(s - {x}, key);
      var y :| IsLeast(y, s - {x}, key);
      LessTotal(key(x), key(y));
      if AtMost(key(y), key(x)) {
        assert IsLeast(y, s, key);
      } else {
        forall z | z in s ensures AtMost(key(x), key(z)) {
          if z != x && key(y) != key(z) {
            LessTransitive(key(x), key(y), key(z));
          }
        }
        assert IsLeast(x, s, key);
      }
    }
  }

  lemma LeastUnique<T(!new)>(x: T, y: T, s: set<T>, key: T -> Key)
    requires DistinctBy(s, key) && IsLeast(x, s, key) && IsLeast(y, s, key)
    ensures x == y
  {
    if key(x) != key(y) {
      LessAsymmetric(key(x), key(y));
    }
  }

  function Least<T(!new)>(s: set<T>, key: T -> Key): (x: T)
    requires s != {} && DistinctBy(s, key)
    ensures IsLeast(x, s, key)
  {
    LeastExists(s, key);
    assert forall x, y :: IsLeast(x, s, key) && IsLeast(y, s, key) ==> x == y by {
      forall x, y | IsLeast(x, s, key) && IsLeast(y, s, key) ensures x == y {
        LeastUnique(x, y, s, key);
      }
    }
    var x :| x in s && IsLeast(x, s, key);
    x
  }

  /** The elements in the order in which a scan visits their keys. */
  function Ascending<T(!new)>(s: set<T>, key: T -> Key): (xs: seq<T>)
    requires DistinctBy(s, key)
    ensures AscendsBy(xs, key)
    ensures forall x :: x in xs <==> x in s
    ensures |xs| == |s|
    decreases |s|
  {
    if s == {} then []
    else
      var least := Least(s, key);
      var rest := Ascending(s - {least}, key);
      assert forall j :: 0 <= j < |rest| ==> rest[j] in rest;
      [least] + rest
  }

  /** There is only one ascending order of a set. */
  lemma {:induction false} AscendingIsUnique<T(!new)>(xs: seq<T>, s: set<T>, key: T -> Key)
    requires DistinctBy(s, key) && AscendsBy(xs, key)
    requires forall x :: x in xs <==> x in s
    ensures xs == Ascending(s, key)
    decreases |s|
  {
    if xs == [] {
      assert s == {};
    } else {
      assert xs[0] in s;
      forall y | y in s ensures AtMost(key(xs[0]), key(y)) {
        assert y in xs;
      }
      LeastUnique(xs[0], Least(s, key), s, key);
      forall x ensures x in xs[1..] <==> x in s - {xs[0]} {
        if x in xs[1..] {
          var j :| 1 <= j < |xs| && xs[j] == x;
          LessIrreflexive(key(x));
        }
        if x in s - {xs[0]} {
          assert x in xs;
        }
      }
      AscendingIsUnique(xs[1..], s - {xs[0]}, key);
    }
  }

  /** What a scan has seen when its visitor stops after limit elements. */
  function FirstOf<T>(xs: seq<T>, limit: int): (r: seq<T>)
    ensures r <= xs
    ensures |r| == if limit <= 0 then 0 else if limit < |xs| then limit else |xs|
  {
    if limit <= 0 then [] else if limit < |xs| then xs[..limit] else xs
  }

  lemma FirstOfAscending<T(!new)>(s: set<T>, key: T -> Key, limit: int)
    requires DistinctBy(s, key)
    ensures var first := Elements(FirstOf(Ascending(s, key), limit));
      && first <= s
      && forall a, b :: a in first && b in s - first ==> Less(key(a), key(b))
  {
    var xs := Ascending(s, key);
    var r := FirstOf(xs, limit);
    forall a | a in r ensures a in s {
      var i :| 0 <= i < |r| && r[i] == a;
      assert xs[i] in xs;
    }
    forall a, b | a in r && b in s && b !in r ensures Less(key(a), key(b)) {
      var i :| 0 <= i < |r| && r[i] == a;
      assert b in xs;
      var j :| 0 <= j < |xs| && xs[j] == b;
      assert forall k :: 0 <= k < |r| ==> r[k] == xs[k];
    }
  }

  lemma {:induction false} AscendsIsDistinct<T(!new)>(xs: seq<T>, key: T -> Key)
    requires AscendsBy(xs, key)
    ensures |Elements(xs)| == |xs|
  {
    if xs != [] {
      AscendsIsDistinct(xs[1..], key);
      LessIrreflexive(key(xs[0]));
      assert xs[0] !in xs[1..];
      assert Elements(xs) == {xs[0]} + Elements(xs[1..]);
    }
  }

  function Before<T(!new)>(s: set<T>, key: T -> Key, x: T): set<T> {
    set y | y in s && Less(key(y), key(x))
  }

  lemma LessIffBefore<T(!new)>(xs: seq<T>, key: T -> Key, i: nat, j: nat)
    requires AscendsBy(xs, key) && i < |xs| && j < |xs|
    ensures Less(key(xs[j]), key(xs[i])) <==> j < i
    ensures xs[j] == xs[i] <==> j == i
  {
    LessIrreflexive(key(xs[i]));
    if i < j {
      LessAsymmetric(key(xs[i]), key(xs[j]));
    }
  }

  lemma BeforeAreFirst<T(!new)>(s: set<T>, xs: seq<T>, key: T -> Key, i: nat)
    requires AscendsBy(xs, key) && i < |xs| && forall y :: y in xs <==> y in s
    ensures Before(s, key, xs[i]) == Elements(xs[..i])
  {
    forall y
      ensures y in xs[..i] <==> y in s && Less(key(y), key(xs[i]))
    {
      if y in xs {
        var j :| 0 <= j < |xs| && xs[j] == y;
        LessIffBefore(xs, key, i, j);
        assert j < i ==> xs[..i][j] == y;
      }
    }
  }

  lemma CountBefore<T(!new)>(s: set<T>, xs: seq<T>, key: T -> Key, i: nat)
    requires AscendsBy(xs, key) && i < |xs| && forall y :: y in xs <==> y in s
    ensures |Before(s, key, xs[i])| == i
  {
    BeforeAreFirst(s, xs, key, i);
    AscendsIsDistinct(xs[..i], key);
  }

  lemma InFirstOfIff<T(!new)>(xs: seq<T>, key: T -> Key, limit: int, i: nat)
    requires AscendsBy(xs, key) && i < |xs|
    ensures xs[i] in FirstOf(xs, limit) <==> i < limit
  {
    var first := FirstOf(xs, limit);
    if i < limit {
      assert first[i] == xs[i];
    } else if xs[i] in first {
      var j :| 0 <= j < |first| && first[j] == xs[i];
      LessIffBefore(xs, key, i, j);
    }
  }

  /** Which elements a scan sees before it stops: those that fewer than limit others come before. */
  lemma FirstOfIff<T(!new)>(s: set<T>, key: T -> Key, limit: int, x: T)
    requires DistinctBy(s, key) && x in s
    ensures x in FirstOf(Ascending(s, key), limit) <==> |Before(s, key, x)| < limit
  {
    var xs := Ascending(s, key);
    assert x in xs;
    var i :| 0 <= i < |xs| && xs[i] == x;
    InFirstOfIff(xs, key, limit, i);
    CountBefore(s, xs, key, i);
  }
}
