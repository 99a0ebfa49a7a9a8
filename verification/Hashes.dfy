/** Word and URL hashes: twelve symbols, or the nine bytes they stand for. libraries/yacymodel/hash.go. */
module Hashes {
  import opened Base64
  import opened ByteStrings
  import opened Wrappers

  const HASH_LENGTH := 12
  const HASH_BYTES := 9
  const RESERVED_LENGTH := 5
  const HIGHEST: Byte := '_' as int
  const LOWEST: Byte := 'A' as int

  predicate IsHash(text: Bytes) {
    |text| == HASH_LENGTH && IsText(text)
  }

  method ParseHash(s: Bytes) returns (r: Option<Bytes>)
    ensures r == if IsHash(s) then Some(s) else None
    ensures r.Some? <==> |s| == 12 && forall i | 0 <= i < |s| :: ValueOf(s[i]).Some?
  {
    if |s| != HASH_LENGTH {
      return None;
    }
    for i := 0 to |s|
      invariant IsText(s[..i])
    {
      if ValueOf(s[i]).None? {
        return None;
      }
    }
    assert s[..|s|] == s;
    r := Some(s);
  }

  function ParseHashBytes(raw: Bytes): Option<Bytes> {
    if |raw| != HASH_BYTES then None else Some(Encoded(raw))
  }

  /** Every nine bytes are the bytes of a hash. */
  lemma BytesAreOfAHash(raw: Bytes)
    ensures ParseHashBytes(raw).Some? <==> |raw| == HASH_BYTES
    ensures |raw| == HASH_BYTES ==> IsHash(Encoded(raw)) && Decoded(Encoded(raw)) == Some(raw)
  {
    SymbolsAreText(0, 0, raw);
    BytesReadBack(raw);
  }

  /** Every hash has nine bytes, and they are the bytes of no other hash. */
  lemma HashOfItsBytes(hash: Bytes)
    requires IsHash(hash)
    ensures Decoded(hash).Some? && ParseHashBytes(Decoded(hash).value) == Some(hash)
  {
    TextReadsBack(hash);
    BytesCounted(0, 0, hash);
  }

  /** Hashes with the reserved beginning name no word. */
  predicate IsReserved(hash: Bytes) {
    |hash| >= RESERVED_LENGTH && forall i | 0 <= i < RESERVED_LENGTH :: hash[i] == HIGHEST
  }

  /** A text without its first k symbols, filled up with the lowest one. */
  function Shifted(text: Bytes, k: nat): (s: Bytes)
    requires k <= |text|
    ensures |s| == |text|
  {
    text[k..] + seq(k, _ => LOWEST)
  }

  lemma ShiftedOnce(text: Bytes, k: nat)
    requires k < |text|
    ensures Shifted(text, k + 1) == Shifted(text, k)[1..] + [LOWEST]
  {
    assert seq(k + 1, _ => LOWEST) == seq(k, _ => LOWEST) + [LOWEST];
  }

  lemma FilledUpIsNotReserved(text: Bytes, k: nat)
    requires |text| == HASH_LENGTH && k <= HASH_LENGTH
    ensures IsReserved(Shifted(text, k)) ==> k + RESERVED_LENGTH <= HASH_LENGTH
  {
    assert k + RESERVED_LENGTH > HASH_LENGTH ==> Shifted(text, k)[HASH_LENGTH - k] == LOWEST;
  }

  /** The first shift of a text that leaves the reserved beginning. */
  predicate IsFirstUnreserved(text: Bytes, hash: Bytes, k: nat) {
    && k <= |text|
    && hash == Shifted(text, k) && !IsReserved(hash)
    && forall j | 0 <= j < k :: IsReserved(Shifted(text, j))
  }

  lemma FirstUnreservedIs(text: Bytes, hash: Bytes, k: nat)
    requires |text| == 12 && IsFirstUnreserved(text, hash, k)
    ensures k <= 8 && hash == text[k..] + seq(k, _ => 'A' as int)
    ensures hash[..5] != ['_' as int, '_' as int, '_' as int, '_' as int, '_' as int]
    ensures k > 0 ==> forall i | 0 <= i < k + 4 :: text[i] == '_' as int
  {
    if k > 8 {
      FilledUpIsNotReserved(text, 8);
    }
    forall i | 0 <= i < 5
      ensures hash[..5][i] == hash[i]
    {
    }
    forall i | 0 <= i < k + 4 && k > 0
      ensures text[i] == '_' as int
    {
      var j := if i < k then i else k - 1;
      assert IsReserved(Shifted(text, j));
      assert Shifted(text, j)[i - j] == text[i];
    }
  }

  function DigestText(digest: Bytes): (text: Bytes)
    requires |digest| == 16
    ensures IsHash(text)
  {
    SymbolsAreText(0, 0, digest);
    Encoded(digest)[..HASH_LENGTH]
  }

  /** Twelve symbols are the first nine bytes of a digest. */
  lemma DigestTextIsOfNineBytes(digest: Bytes)
    requires |digest| == 16
    ensures DigestText(digest) == Encoded(digest[..9]) && Decoded(DigestText(digest)) == Some(digest[..9])
  {
    assert digest == digest[..9] + digest[9..];
    GroupsEncoded(digest[..9], digest[9..]);
    SymbolsAreText(0, 0, digest[..9]);
    assert Encoded(digest)[..12] == Encoded(digest[..9]);
    BytesReadBack(digest[..9]);
  }

  /**
   * The hash of a word from the digest of its lower-case form. The text of the digest's first nine
   * bytes is shifted as long as it is reserved, which ends after eight shifts at the latest.
   */
  method WordHash(digest: Bytes) returns (hash: Bytes)
    requires |digest| == 16
    ensures IsHash(hash) && hash[..5] != ['_' as int, '_' as int, '_' as int, '_' as int, '_' as int]
    ensures exists k | 0 <= k <= 8 :: IsFirstUnreserved(Encoded(digest[..9]), hash, k)
  {
    var text := DigestText(digest);
    DigestTextIsOfNineBytes(digest);
    var h := new Byte[HASH_LENGTH](i requires 0 <= i < HASH_LENGTH => text[i]);
    ghost var k := 0;
    assert h[..] == Shifted(text, 0);
    while h[0] == HIGHEST && h[1] == HIGHEST && h[2] == HIGHEST && h[3] == HIGHEST && h[4] == HIGHEST
      invariant k <= HASH_LENGTH - RESERVED_LENGTH + 1
      invariant h[..] == Shifted(text, k)
      invariant forall j | 0 <= j < k :: IsReserved(Shifted(text, j))
      decreases HASH_LENGTH - k
    {
      assert IsReserved(h[..]);
      FilledUpIsNotReserved(text, k);
      ShiftedOnce(text, k);
      forall i | 0 <= i < HASH_LENGTH - 1 {
        h[i] := h[i + 1];
      }
      h[HASH_LENGTH - 1] := LOWEST;
      k := k + 1;
    }
    hash := h[..];
    assert IsFirstUnreserved(text, hash, k);
    FirstUnreservedIs(text, hash, k);
  }
}
