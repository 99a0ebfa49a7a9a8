/** How many buckets and their tallies share one ordered keyspace. */
module Keyspace {
  import opened ByteStrings
  import opened KeyOrder
  import opened Successors
  import opened VarInts
  import opened Wrappers

  const BUCKET_REGION: Byte := 1
  const TALLY_REGION: Byte := 2

  type Name = Bytes

  /** The keys of a scan: from the first included up to the first excluded, if there is one. */
  datatype KeyRange = KeyRange(firstIncluded: Bytes, firstExcluded: Option<Bytes>)

  const EVERY_KEY := KeyRange([], None)

  predicate Within(key: Bytes, keys: KeyRange) {
    AtMost(keys.firstIncluded, key) && Below(key, keys.firstExcluded)
  }

  function BucketPrefix(name: Name): Bytes {
    [BUCKET_REGION] + Uvarint(|name|) + name
  }

  const TALLY_PREFIX: Bytes := [TALLY_REGION]

  /** The absolute keys a scan of the region visits. */
  function BoundsFor(prefix: Bytes, keys: KeyRange): (Bytes, Bytes)
    requires Successor(prefix).Some?
  {
    (prefix + keys.firstIncluded,
     match keys.firstExcluded
     case None => Successor(prefix).value
     case Some(excluded) => prefix + excluded)
  }

  lemma RegionsEnd(name: Name)
    ensures Successor(BucketPrefix(name)).Some? && Successor(TALLY_PREFIX).Some?
  {
    assert BucketPrefix(name)[0] == BUCKET_REGION && TALLY_PREFIX[0] == TALLY_REGION;
  }

  /** No key lies in two bucket regions, or in a bucket region and the tally region. */
  lemma RegionsAreDisjoint(a: Name, b: Name, s: Bytes, t: Bytes)
    ensures BucketPrefix(a) + s == BucketPrefix(b) + t ==> a == b && s == t
    ensures BucketPrefix(a) + s != TALLY_PREFIX + t
  {
    assert (BucketPrefix(a) + s)[0] == BUCKET_REGION && (TALLY_PREFIX + t)[0] == TALLY_REGION;
    if BucketPrefix(a) + s == BucketPrefix(b) + t {
      assert (BucketPrefix(a) + s)[1..] == Uvarint(|a|) + (a + s);
      assert (BucketPrefix(b) + t)[1..] == Uvarint(|b|) + (b + t);
      UvarintPrefixFree(|a|, |b|, a + s, b + t);
      assert (a + s)[..|a|] == a && (b + t)[..|b|] == b;
      assert (a + s)[|a|..] == s && (b + t)[|b|..] == t;
    }
  }

  lemma BetweenHasPrefix(prefix: Bytes, u: Bytes, v: Bytes, key: Bytes)
    requires AtMost(prefix + u, key) && Less(key, prefix + v)
    ensures prefix <= key
    decreases |prefix|
  {
    if prefix != [] {
      var p := prefix[1..];
      assert (prefix + u)[0] == prefix[0] == (prefix + v)[0];
      assert (prefix + u)[1..] == p + u && (prefix + v)[1..] == p + v;
      assert key[0] == prefix[0];
      assert key == [key[0]] + key[1..];
      BetweenHasPrefix(p, u, v, key[1..]);
      assert prefix == [prefix[0]] + p;
    }
  }

  /** A scan of the bounds visits exactly the region's keys whose relative part is in range. */
  lemma BoundsAreTheRange(prefix: Bytes, keys: KeyRange, key: Bytes)
    requires Successor(prefix).Some?
    ensures var (lower, upper) := BoundsFor(prefix, keys);
      AtMost(lower, key) && Less(key, upper) <==> prefix <= key && Within(key[|prefix|..], keys)
  {
    var (lower, upper) := BoundsFor(prefix, keys);
    PrefixRange(prefix, key);
    if prefix <= key {
      var relative := key[|prefix|..];
      assert key == prefix + relative;
      LessUnderPrefix(prefix, keys.firstIncluded, relative);
      assert lower == key <==> keys.firstIncluded == relative by {
        assert lower[|prefix|..] == keys.firstIncluded;
      }
      if keys.firstExcluded.Some? {
        LessUnderPrefix(prefix, relative, keys.firstExcluded.value);
      }
    } else if AtMost(lower, key) && Less(key, upper) {
      if keys.firstExcluded.Some? {
        BetweenHasPrefix(prefix, keys.firstIncluded, keys.firstExcluded.value, key);
      } else {
        PrefixComesFirst(prefix, keys.firstIncluded);
        if prefix != lower && lower != key {
          LessTransitive(prefix, lower, key);
        }
      }
    }
  }

  method FirstAbsoluteKeyAfter(prefix: Bytes) returns (after: Bytes)
    requires Successor(prefix).Some?
    ensures after == Successor(prefix).value
  {
    after := prefix;
    while after[|after| - 1] == 0xff
      invariant 0 < |after| <= |prefix| && after == prefix[..|after|]
      invariant forall j :: |after| <= j < |prefix| ==> prefix[j] == 0xff
      invariant exists j :: 0 <= j < |after| && prefix[j] < 0xff
      decreases |after|
    {
      after := after[..|after| - 1];
    }
    SuccessorIncrements(prefix, |after| - 1);
    after := after[|after| - 1 := after[|after| - 1] + 1];
  }
}
