/** Sums over the values of a map. */
module Sums {
  ghost function SumOf<K(!new)>(m: map<K, nat>): nat {
    if m == map[] then 0
    else
      var k :| k in m;
      m[k] + SumOf(m - {k})
  }

  lemma {:induction false} SumWithout<K(!new)>(m: map<K, nat>, k: K)
    requires k in m
    ensures SumOf(m) == m[k] + SumOf(m - {k})
    decreases |m|
  {
    var picked :| picked in m && SumOf(m) == m[picked] + SumOf(m - {picked});
    if picked != k {
      Fewer(m, picked);
      Fewer(m, k);
      SumWithout(m - {picked}, k);
      SumWithout(m - {k}, picked);
      assert m - {picked} - {k} == m - {k} - {picked};
    }
  }

  lemma Fewer<K, V>(m: map<K, V>, k: K)
    requires k in m
    ensures |m - {k}| == |m| - 1
  {
    assert m == (m - {k})[k := m[k]];
  }

  lemma SumUpdate<K(!new)>(m: map<K, nat>, k: K, v: nat)
    ensures SumOf(m[k := v]) == v + SumOf(m - {k})
  {
    SumWithout(m[k := v], k);
    assert m[k := v] - {k} == m - {k};
  }

  function ValueAt<K>(m: map<K, nat>, k: K): nat {
    if k in m then m[k] else 0
  }

  lemma SumDrop<K(!new)>(m: map<K, nat>, k: K)
    ensures SumOf(m) == ValueAt(m, k) + SumOf(m - {k})
    ensures k in m ==> |m - {k}| == |m| - 1
    ensures k !in m ==> m - {k} == m
  {
    if k in m {
      SumWithout(m, k);
      Fewer(m, k);
    } else {
      assert m - {k} == m;
    }
  }

  ghost predicate Agree<K(!new)>(a: map<K, nat>, b: map<K, nat>) {
    forall k :: ValueAt(a, k) == ValueAt(b, k)
  }

  lemma AgreeWithout<K(!new)>(a: map<K, nat>, b: map<K, nat>, k: K)
    requires Agree(a, b)
    ensures Agree(a - {k}, b - {k}) && ValueAt(a, k) == ValueAt(b, k)
  {
    forall j ensures ValueAt(a - {k}, j) == ValueAt(b - {k}, j) {
      assert ValueAt(a, j) == ValueAt(b, j);
    }
  }

  /** Maps that agree but for missing zeros have one sum. */
  lemma {:induction false} SumAgrees<K(!new)>(a: map<K, nat>, b: map<K, nat>)
    requires Agree(a, b)
    ensures SumOf(a) == SumOf(b)
    decreases |a| + |b|
  {
    if a != map[] || b != map[] {
      var k :| k in a || k in b;
      SumDrop(a, k);
      SumDrop(b, k);
      AgreeWithout(a, b, k);
      SumAgrees(a - {k}, b - {k});
    }
  }

  ghost predicate Lists<K(!new)>(xs: seq<K>, m: map<K, nat>) {
    && (forall k :: k in xs <==> k in m)
    && (forall i, j :: 0 <= i < j < |xs| ==> xs[i] != xs[j])
  }

  function SumAlong<K>(xs: seq<K>, m: map<K, nat>): nat
    requires forall k :: k in xs ==> k in m
  {
    if xs == [] then 0 else m[xs[0]] + SumAlong(xs[1..], m)
  }

  lemma SumAlongSmaller<K>(xs: seq<K>, m: map<K, nat>, k: K)
    requires forall j :: j in xs ==> j in m && j != k
    ensures SumAlong(xs, m) == SumAlong(xs, m - {k})
  {
  }

  /** Adding up along a list of all keys gives the sum. */
  lemma {:induction false} SumAlongAll<K(!new)>(xs: seq<K>, m: map<K, nat>)
    requires Lists(xs, m)
    ensures SumAlong(xs, m) == SumOf(m)
  {
    if xs == [] {
      assert m == map[];
    } else {
      var k := xs[0];
      SumDrop(m, k);
      assert k !in xs[1..];
      assert forall j :: j in xs <==> j == k || j in xs[1..];
      SumAlongSmaller(xs[1..], m, k);
      SumAlongAll(xs[1..], m - {k});
    }
  }
}
