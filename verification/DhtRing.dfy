/** Positions and distances on the ring of the distributed hash table: libraries/yacymodel/dht_position.go. */
module DhtRing {
  import opened Arithmetic
  import opened Base64
  import opened ByteStrings
  import opened Hashes

  /** The ring is 63 bits wide; positions are kept in 64. */
  const RING := 0x8000_0000_0000_0000
  const POSITION_SYMBOLS := 10

  function SixOf(b: Byte): Six {
    if ValueOf(b).Some? then ValueOf(b).value else 63
  }

  function Pow64(n: nat): (p: nat)
    ensures p > 0
  {
    if n == 0 then 1 else 64 * Pow64(n - 1)
  }

  /** The number that the symbols write in base 64, the first symbol being the highest digit. */
  function NumberOf(symbols: Bytes): (n: nat)
    ensures n < Pow64(|symbols|)
  {
    if symbols == [] then 0
    else NumberOf(symbols[..|symbols| - 1]) * 64 + SixOf(symbols[|symbols| - 1])
  }

  function Digits(n: nat, count: nat): (symbols: Bytes)
    ensures |symbols| == count
  {
    if count == 0 then [] else Digits(n / 64, count - 1) + [Symbol(n % 64)]
  }

  /** The symbols that place a hash: the first ten, with zeros for those a shorter text lacks. */
  function PlacingSymbols(hash: Bytes): (symbols: Bytes)
    ensures |symbols| == POSITION_SYMBOLS
  {
    if |hash| >= POSITION_SYMBOLS then hash[..POSITION_SYMBOLS]
    else hash + Zeros(POSITION_SYMBOLS - |hash|)
  }

  lemma TenSymbolsFillTheRing()
    ensures Pow64(POSITION_SYMBOLS) * 8 == RING
  {
    assert Pow64(4) == 0x100_0000;
    assert Pow64(7) == 0x4_0000 * Pow64(4);
    assert Pow64(10) == 0x4_0000 * Pow64(7);
  }

  function PositionOf(hash: Bytes): (position: nat)
    ensures position < RING
  {
    TenSymbolsFillTheRing();
    NumberOf(PlacingSymbols(hash)) * 8 + 7
  }

  lemma {:induction false} AppendedZero(symbols: Bytes)
    ensures NumberOf(symbols + [LOWEST]) == NumberOf(symbols) * 64
  {
    assert (symbols + [LOWEST])[..|symbols|] == symbols;
  }

  function Zeros(n: nat): (symbols: Bytes)
    ensures |symbols| == n
  {
    seq(n, _ => LOWEST)
  }

  lemma OneMoreZero(symbols: Bytes, n: nat)
    ensures NumberOf(symbols + Zeros(n + 1)) == NumberOf(symbols + Zeros(n)) * 64
    ensures symbols + Zeros(0) == symbols
  {
    assert symbols + Zeros(n + 1) == (symbols + Zeros(n)) + [LOWEST];
    AppendedZero(symbols + Zeros(n));
  }

  lemma OneMoreSymbol(hash: Bytes, i: nat)
    requires i < |hash|
    ensures NumberOf(hash[..i + 1]) == NumberOf(hash[..i]) * 64 + SixOf(hash[i])
  {
    assert hash[..i + 1][..i] == hash[..i];
  }

  method DhtRingPositionOf(hash: Bytes) returns (position: nat)
    ensures position == PositionOf(hash)
  {
    var read := if |hash| < POSITION_SYMBOLS then |hash| else POSITION_SYMBOLS;
    position := 0;
    for i := 0 to read
      invariant position == NumberOf(hash[..i])
    {
      OneMoreSymbol(hash, i);
      position := position * 64 + SixOf(hash[i]);
    }
    OneMoreZero(hash[..read], 0);
    for i := 0 to POSITION_SYMBOLS - read
      invariant position == NumberOf(hash[..read] + Zeros(i))
    {
      OneMoreZero(hash[..read], i);
      position := position * 64;
    }
    assert hash[..read] + Zeros(POSITION_SYMBOLS - read) == PlacingSymbols(hash);
    position := position * 8 + 7;
  }

  function HashAt(position: nat): (hash: Bytes)
    ensures |hash| == HASH_LENGTH
  {
    Digits(position / 8, POSITION_SYMBOLS) + [HIGHEST, HIGHEST]
  }

  lemma {:induction false} DigitsAreText(n: nat, count: nat)
    ensures IsText(Digits(n, count))
  {
    if count > 0 {
      DigitsAreText(n / 64, count - 1);
    }
  }

  method HashFromDhtRingPosition(position: nat) returns (hash: Bytes)
    ensures hash == HashAt(position) && IsHash(hash)
  {
    var remaining: nat := position / 8;
    var symbols := new Byte[HASH_LENGTH](_ => HIGHEST);
    var i := POSITION_SYMBOLS - 1;
    while i >= 0
      invariant -1 <= i < POSITION_SYMBOLS
      invariant Digits(position / 8, POSITION_SYMBOLS) == Digits(remaining, i + 1) + symbols[i + 1..POSITION_SYMBOLS]
      invariant symbols[POSITION_SYMBOLS..] == [HIGHEST, HIGHEST]
    {
      symbols[i] := Symbol(remaining % 64);
      assert symbols[i..POSITION_SYMBOLS] == [symbols[i]] + symbols[i + 1..POSITION_SYMBOLS];
      remaining := remaining / 64;
      i := i - 1;
    }
    DigitsAreText(position / 8, POSITION_SYMBOLS);
    assert symbols[..] == symbols[..POSITION_SYMBOLS] + symbols[POSITION_SYMBOLS..];
    hash := symbols[..];
  }

  lemma Regrouped(q: nat, m: nat)
    ensures q * m * 64 == q * (64 * m)
  {
  }

  lemma {:induction false} DigitsReadBack(n: nat, count: nat)
    ensures NumberOf(Digits(n, count)) == n % Pow64(count)
  {
    if count > 0 {
      var high := Digits(n / 64, count - 1);
      DigitsReadBack(n / 64, count - 1);
      assert Digits(n, count)[..count - 1] == high;
      SymbolReadsBack(n % 64);
      var m := Pow64(count - 1);
      var q, r := n / 64 / m, n / 64 % m;
      Quotient(n / 64, m);
      Regrouped(q, m);
      DivModUnique(n, 64 * m, q, r * 64 + n % 64);
    }
  }

  lemma {:induction false} NumberReadsBack(symbols: Bytes)
    requires IsText(symbols)
    ensures Digits(NumberOf(symbols), |symbols|) == symbols
  {
    if symbols != [] {
      var last := |symbols| - 1;
      NumberReadsBack(symbols[..last]);
      ValueReadsBack(symbols[last]);
      var n, v := NumberOf(symbols[..last]), SixOf(symbols[last]);
      assert (n * 64 + v) / 64 == n && (n * 64 + v) % 64 == v;
      assert symbols == symbols[..last] + [symbols[last]];
    }
  }

  /** Turned into a hash and placed again, a position keeps all but its low three bits, which are set. */
  lemma PositionReadsBack(position: nat)
    requires position < WORD64
    ensures PositionOf(HashAt(position)) == position % 0x8000_0000_0000_0000 / 8 * 8 + 7
  {
    TenSymbolsFillTheRing();
    assert PlacingSymbols(HashAt(position)) == Digits(position / 8, POSITION_SYMBOLS);
    DigitsReadBack(position / 8, POSITION_SYMBOLS);
    ShiftedOut(position, 8, Pow64(POSITION_SYMBOLS));
  }

  /** Placed and turned back, a hash keeps its first ten symbols. */
  lemma HashReadsBack(hash: Bytes)
    requires IsHash(hash)
    ensures HashAt(PositionOf(hash)) == hash[..10] + ['_' as int, '_' as int]
  {
    var symbols := hash[..POSITION_SYMBOLS];
    assert PlacingSymbols(hash) == symbols;
    NumberReadsBack(symbols);
    assert (NumberOf(symbols) * 8 + 7) / 8 == NumberOf(symbols);
  }

  /** How far to go forward from one position to another, around the end of the ring if need be. */
  function DistanceTo(from: nat, other: nat): int
    requires from < RING && other < RING
  {
    if other >= from then other - from else (RING - 1 - from) + other + 1
  }

  /** The distance is the difference modulo the size of the ring. */
  lemma DistanceIsTheDifference(from: nat, other: nat)
    requires from < RING && other < RING
    ensures DistanceTo(from, other) == (other - from) % RING
    ensures (from + DistanceTo(from, other)) % RING == other
  {
  }

  /** A count of partitions is a power of two; its bit length tells the low bits inside one of them. */
  function BitLength(n: nat): nat {
    if n == 0 then 0 else 1 + BitLength(n / 2)
  }

  function ShiftLength(partitions: nat): int {
    63 - (BitLength(partitions) - 1)
  }

  lemma {:induction false} ShiftLengthOfExponent(e: nat)
    ensures BitLength(Pow2(e)) == e + 1
  {
    if e > 0 {
      ShiftLengthOfExponent(e - 1);
    }
  }

  lemma RingIsAPowerOfTwo()
    ensures Pow2(63) == RING
  {
    assert Pow2(7) == 0x80;
    assert Pow2(15) == 0x100 * Pow2(7);
    assert Pow2(23) == 0x100 * Pow2(15);
    assert Pow2(31) == 0x100 * Pow2(23);
    assert Pow2(39) == 0x100 * Pow2(31);
    assert Pow2(47) == 0x100 * Pow2(39);
    assert Pow2(55) == 0x100 * Pow2(47);
    assert Pow2(63) == 0x100 * Pow2(55);
  }

  lemma PartitionsFillTheRing(e: nat)
    requires e < 63
    ensures Times(Pow2(e), Pow2(63 - e)) == RING
  {
    RingIsAPowerOfTwo();
    Pow2Adds(e, 63 - e);
  }

  /**
   * Where a posting goes in partitions of size m: the part inside a partition comes from the
   * word, and the number of the partition from the URL.
   */
  function PostingPosition(word: nat, url: nat, m: nat): nat
    requires m > 0
  {
    word % m + (url - url % m)
  }

  /** How far a peer is past the postings of a word in partitions of size m. */
  function ForwardDistance(peer: nat, word: nat, m: nat): nat
    requires m > 0
  {
    (peer - word) % WORD64 % m
  }

  /** The place for the postings of a word in partition number j. */
  function Place(word: nat, j: nat, m: nat): nat
    requires m > 0
  {
    word % m + Times(j, m)
  }

  lemma MultipleAdded(x: int, k: int, m: nat)
    requires m > 0
    ensures (x + k * m) % m == x % m
  {
    var q, r := x / m, x % m;
    assert x == m * q + r;
    assert (q + k) * m == m * q + k * m;
    DivModUnique(x + k * m, m, q + k, r);
  }

  lemma SameInsidePartitions(x: int, n: nat, m: nat)
    requires n > 0 && m > 0
    ensures x % Times(n, m) % m == x % m
  {
    var d := Times(n, m);
    var q, r := x / d, x % d;
    assert x == d * q + r;
    assert d * q == (q * n) * m;
    MultipleAdded(r, q * n, m);
  }

  lemma WordInsidePartitions(peer: nat, word: nat, n: nat, m: nat)
    requires m > 0 && n > 0 && Times(n, m) == RING
    ensures ForwardDistance(peer, word, m) == (peer - word) % m
  {
    assert Times(2 * n, m) == 2 * Times(n, m);
    SameInsidePartitions(peer - word, 2 * n, m);
  }

  lemma PlaceInsidePartitions(peer: nat, word: nat, j: nat, m: nat)
    requires m > 0
    ensures (peer - Place(word, j, m)) % m == (peer - word) % m
  {
    assert word == m * (word / m) + word % m;
    assert (word / m - j) * m == m * (word / m) - j * m;
    MultipleAdded(peer - word, word / m - j, m);
  }

  lemma PlaceIsOnTheRing(word: nat, j: nat, n: nat, m: nat)
    requires m > 0 && j < n
    ensures Place(word, j, m) < Times(n, m)
  {
    assert (j + 1) * m <= n * m;
  }

  /** The distance from any of the places is the distance inside the partition, and whole partitions. */
  lemma DistanceFromPlace(peer: nat, word: nat, j: nat, n: nat, m: nat)
    requires m > 0 && j < n && Times(n, m) == RING && peer < RING
    ensures Place(word, j, m) < RING
    ensures DistanceTo(Place(word, j, m), peer) % m == ForwardDistance(peer, word, m)
  {
    PlaceIsOnTheRing(word, j, n, m);
    var place := Place(word, j, m);
    DistanceIsTheDifference(place, peer);
    SameInsidePartitions(peer - place, n, m);
    PlaceInsidePartitions(peer, word, j, m);
    WordInsidePartitions(peer, word, n, m);
  }

  /** The partition before the peer's place in its own, or its own when the place is not past it. */
  function PartitionBefore(peer: nat, word: nat, n: nat, m: nat): nat
    requires m > 0 && n > 0
  {
    if peer % m >= word % m then peer / m
    else if peer / m > 0 then peer / m - 1
    else n - 1
  }

  lemma PeerIsInAPartition(peer: nat, n: nat, m: nat)
    requires m > 0 && peer < Times(n, m)
    ensures peer / m < n
  {
    Quotient(peer, m);
  }

  lemma NearestIsInside(peer: nat, word: nat, n: nat, m: nat)
    requires m > 0 && n > 0 && Times(n, m) == RING && peer < RING && peer / m < n
    requires PartitionBefore(peer, word, n, m) < n
    requires Place(word, PartitionBefore(peer, word, n, m), m) < RING
    ensures 0 <= DistanceTo(Place(word, PartitionBefore(peer, word, n, m), m), peer) < m
  {
    var a := peer / m;
    Quotient(peer, m);
    assert (a - 1) * m == a * m - m;
    assert (n - 1) * m == n * m - m;
  }

  lemma RemainderOfLess(d: nat, m: nat)
    requires d < m
    ensures d % m == d
  {
    DivModUnique(d, m, 0, d);
  }

  lemma NearestPlace(peer: nat, word: nat, n: nat, m: nat) returns (j: nat)
    requires m > 0 && n > 0 && Times(n, m) == RING && peer < RING
    ensures j < n && Place(word, j, m) < RING
    ensures DistanceTo(Place(word, j, m), peer) == ForwardDistance(peer, word, m)
  {
    PeerIsInAPartition(peer, n, m);
    j := PartitionBefore(peer, word, n, m);
    DistanceFromPlace(peer, word, j, n, m);
    NearestIsInside(peer, word, n, m);
    RemainderOfLess(DistanceTo(Place(word, j, m), peer), m);
  }

  lemma NoPlaceIsNearer(peer: nat, word: nat, j: nat, n: nat, m: nat)
    requires m > 0 && j < n && Times(n, m) == RING && peer < RING
    ensures Place(word, j, m) < RING
    ensures ForwardDistance(peer, word, m) <= DistanceTo(Place(word, j, m), peer)
  {
    DistanceFromPlace(peer, word, j, n, m);
    Quotient(DistanceTo(Place(word, j, m), peer), m);
  }

  /** The size of a partition as the code computes it, from the count of partitions. */
  function PartitionSize(partitions: nat): nat
    requires 0 <= ShiftLength(partitions)
  {
    Pow2(ShiftLength(partitions))
  }

  /**
   * Of the places for the postings of a word, one in each partition, the peer's distance is the
   * forward distance from the nearest one behind it.
   */
  lemma DistanceIsTheLeastOfAllPartitions(peer: nat, word: nat, e: nat)
    requires e < 63 && peer < RING
    ensures ShiftLength(Pow2(e)) == 63 - e
    ensures var m := PartitionSize(Pow2(e));
            && (forall j: nat | j < Pow2(e) :: Place(word, j, m) < RING
                 && ForwardDistance(peer, word, m) <= DistanceTo(Place(word, j, m), peer))
            && (exists j: nat | j < Pow2(e) :: Place(word, j, m) < RING
                 && ForwardDistance(peer, word, m) == DistanceTo(Place(word, j, m), peer))
  {
    ShiftLengthOfExponent(e);
    PartitionsFillTheRing(e);
    var n, m := Pow2(e), Pow2(63 - e);
    forall j: nat | j < n
      ensures Place(word, j, m) < RING && ForwardDistance(peer, word, m) <= DistanceTo(Place(word, j, m), peer)
    {
      NoPlaceIsNearer(peer, word, j, n, m);
    }
    var nearest := NearestPlace(peer, word, n, m);
  }

  /** Every posting of a word goes to the word's place in the partition that its URL is in. */
  lemma {:induction false} PostingsGoToThePlaces(word: nat, url: nat, e: nat)
    requires e < 63 && url < RING
    ensures ShiftLength(Pow2(e)) == 63 - e
    ensures var m := PartitionSize(Pow2(e));
            url / m < Pow2(e) && PostingPosition(word, url, m) == Place(word, url / m, m)
  {
    ShiftLengthOfExponent(e);
    PartitionsFillTheRing(e);
    PeerIsInAPartition(url, Pow2(e), Pow2(63 - e));
    Quotient(url, Pow2(63 - e));
  }

  /**
   * The first ten symbols of a hash write its position in base 64, with three set bits below it. A
   * shorter text has the symbol of zero in the places it lacks, and 63 stands for what is no symbol.
   */
  lemma PositionIs(hash: Bytes, symbols: Bytes, b: Byte)
    ensures |hash| >= 10 ==> PositionOf(hash) == 8 * NumberOf(hash[..10]) + 7
    ensures |hash| < 10 ==> PositionOf(hash) == PositionOf(hash + ['A' as int])
    ensures NumberOf([]) == 0
    ensures NumberOf(symbols + [b]) == 64 * NumberOf(symbols) + if ValueOf(b).Some? then ValueOf(b).value else 63
  {
    assert (symbols + [b])[..|symbols|] == symbols;
    if |hash| < 10 {
      assert hash + Zeros(10 - |hash|) == (hash + ['A' as int]) + Zeros(9 - |hash|);
      assert PlacingSymbols(hash) == PlacingSymbols(hash + ['A' as int]);
    }
  }

  /** The places for a word are one partition apart, and partitions are equal parts of the ring. */
  lemma PlacesAre(word: nat, url: nat, j: nat, e: nat)
    requires e < 63
    ensures ShiftLength(Pow2(e)) == 63 - e && PartitionSize(Pow2(e)) == Pow2(63 - e)
    ensures Pow2(e) * Pow2(63 - e) == 0x8000_0000_0000_0000
    ensures var m := Pow2(63 - e);
      && Place(word, j, m) == word % m + j * m
      && PostingPosition(word, url, m) == word % m + (url - url % m)
      && ForwardDistance(word, url, m) == (word - url) % m
  {
    ShiftLengthOfExponent(e);
    PartitionsFillTheRing(e);
    WordInsidePartitions(word, url, Pow2(e), Pow2(63 - e));
  }
}
