/** The first key after all keys that share a prefix. */
module Successors {
  import opened ByteStrings
  import opened KeyOrder
  import opened Wrappers

  /** The least byte string above every extension of the prefix; none when all bytes are 0xFF. */
  function Successor(prefix: Bytes): (s: Option<Bytes>)
    ensures s.None? <==> forall j :: 0 <= j < |prefix| ==> prefix[j] == 0xff
  {
    if prefix == [] then None
    else
      match Successor(prefix[1..])
      case Some(s) => Some([prefix[0]] + s)
      case None =>
        assert forall j :: 1 <= j < |prefix| ==> prefix[j] == prefix[1..][j - 1];
        if prefix[0] < 0xff then Some([prefix[0] + 1]) else None
  }

  predicate Below(key: Bytes, bound: Option<Bytes>) {
    bound.None? || Less(key, bound.value)
  }

  /** The keys from a prefix up to its successor are exactly the keys with the prefix. */
  lemma {:induction false} PrefixRange(prefix: Bytes, key: Bytes)
    ensures prefix <= key <==> AtMost(prefix, key) && Below(key, Successor(prefix))
    decreases |prefix|
  {
    if prefix != [] && key != [] {
      var p, k := prefix[1..], key[1..];
      PrefixRange(p, k);
      assert prefix <= key <==> prefix[0] == key[0] && p <= k;
      assert prefix == [prefix[0]] + p && key == [key[0]] + k;
      assert AtMost(prefix, key) <==> prefix[0] < key[0] || (prefix[0] == key[0] && AtMost(p, k));
      match Successor(p)
      case Some(s) =>
        assert ([prefix[0]] + s)[1..] == s;
      case None =>
        if prefix[0] < 0xff {
          assert !Less(k, [prefix[0] + 1][1..]);
        }
    }
  }

  lemma {:induction false} SuccessorIncrements(prefix: Bytes, i: nat)
    requires i < |prefix| && prefix[i] < 0xff
    requires forall j :: i < j < |prefix| ==> prefix[j] == 0xff
    ensures Successor(prefix) == Some(prefix[..i] + [prefix[i] + 1])
  {
    if i == 0 {
      assert Successor(prefix[1..]).None?;
      assert prefix[..0] + [prefix[0] + 1] == [prefix[0] + 1];
    } else {
      SuccessorIncrements(prefix[1..], i - 1);
      assert [prefix[0]] + (prefix[1..][..i - 1] + [prefix[i] + 1]) == prefix[..i] + [prefix[i] + 1];
    }
  }

  /** Scans backwards for a byte to increment. */
  method SuccessorOf(prefix: Bytes) returns (successor: Option<Bytes>)
    ensures successor == Successor(prefix)
  {
    var position := |prefix| - 1;
    while position >= 0
      invariant -1 <= position < |prefix|
      invariant forall j :: position < j < |prefix| ==> prefix[j] == 0xff
    {
      if prefix[position] == 0xff {
        position := position - 1;
        continue;
      }
      SuccessorIncrements(prefix, position);
      return Some(prefix[..position] + [prefix[position] + 1]);
    }
    successor := None;
  }
}
