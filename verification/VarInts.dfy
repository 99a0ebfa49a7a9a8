/** The variable-length integers of the stored records: seven bits a byte, low bits first. */
module VarInts {
  import opened ByteStrings
  import opened Wrappers

  const MAX_INT := 0x7fff_ffff_ffff_ffff
  const MIN_INT := -0x8000_0000_0000_0000
  const MAX_VARINT_LENGTH := 10

  predicate IsInt(x: int) {
    MIN_INT <= x <= MAX_INT
  }

  function Uvarint(n: nat): (s: Bytes)
    ensures |s| > 0
  {
    if n < 128 then [n] else [n % 128 + 128] + Uvarint(n / 128)
  }

  /** Reads the integer from its byte at index i: ten bytes at most, and 64 bits. */
  function ReadUvarintFrom(s: Bytes, i: nat): (r: Option<(nat, Bytes)>)
    ensures r.Some? ==> |r.value.1| < |s|
    decreases |s|
  {
    if s == [] || i >= MAX_VARINT_LENGTH then None
    else if s[0] < 128 then
      if i == MAX_VARINT_LENGTH - 1 && s[0] > 1 then None else Some((s[0], s[1..]))
    else
      match ReadUvarintFrom(s[1..], i + 1)
      case None => None
      case Some((high, rest)) => Some((s[0] - 128 + 128 * high, rest))
  }

  function ReadUvarint(s: Bytes): (r: Option<(nat, Bytes)>)
    ensures r.Some? ==> |r.value.1| < |s|
  {
    ReadUvarintFrom(s, 0)
  }

  /** What can still be written from the byte at index i on. */
  function Room(i: nat): nat
    requires i < MAX_VARINT_LENGTH
    decreases MAX_VARINT_LENGTH - i
  {
    if i == MAX_VARINT_LENGTH - 1 then 2 else 128 * Room(i + 1)
  }

  lemma RoomIs64Bits()
    ensures Room(0) == 0x1_0000_0000_0000_0000
  {
    assert Room(7) == 2 * 128 * 128;
    assert Room(5) == 128 * 128 * Room(7);
    assert Room(3) == 128 * 128 * Room(5);
    assert Room(1) == 128 * 128 * Room(3);
  }

  lemma {:induction false} UvarintReadsBackFrom(n: nat, i: nat, rest: Bytes)
    requires i < MAX_VARINT_LENGTH && n < Room(i)
    ensures ReadUvarintFrom(Uvarint(n) + rest, i) == Some((n, rest))
    decreases n
  {
    var s := Uvarint(n) + rest;
    if n < 128 {
      assert s[0] == n && s[1..] == rest;
    } else {
      assert s[0] == n % 128 + 128 && s[1..] == Uvarint(n / 128) + rest;
      UvarintReadsBackFrom(n / 128, i + 1, rest);
    }
  }

  /** Every 64-bit number is read back, whatever follows it. */
  lemma UvarintReadsBack(n: nat, rest: Bytes)
    requires n < 0x1_0000_0000_0000_0000
    ensures ReadUvarint(Uvarint(n) + rest) == Some((n, rest))
  {
    RoomIs64Bits();
    UvarintReadsBackFrom(n, 0, rest);
  }

  lemma UvarintParts(n: nat, rest: Bytes) returns (low: nat, high: nat)
    requires n >= 128
    ensures n == 128 * high + low && low < 128 && high < n
    ensures Uvarint(n) + rest == [low + 128] + (Uvarint(high) + rest)
  {
    low, high := n % 128, n / 128;
  }

  /** No encoding is a prefix of another. */
  lemma {:induction false} UvarintPrefixFree(a: nat, b: nat, s: Bytes, t: Bytes)
    requires Uvarint(a) + s == Uvarint(b) + t
    ensures a == b && s == t
    decreases a
  {
    assert (Uvarint(a) + s)[0] == (Uvarint(b) + t)[0];
    if a < 128 {
      assert (Uvarint(a) + s)[1..] == s && (Uvarint(b) + t)[1..] == t;
    } else {
      var low, high := UvarintParts(a, s);
      var low', high' := UvarintParts(b, t);
      assert (Uvarint(a) + s)[1..] == Uvarint(high) + s;
      assert (Uvarint(b) + t)[1..] == Uvarint(high') + t;
      UvarintPrefixFree(high, high', s, t);
    }
  }

  function ZigZag(x: int): nat {
    if x >= 0 then 2 * x else -2 * x - 1
  }

  function UnZigZag(u: nat): int {
    if u % 2 == 0 then u / 2 else -(u / 2) - 1
  }

  function Varint(x: int): Bytes {
    Uvarint(ZigZag(x))
  }

  function ReadVarint(s: Bytes): (r: Option<(int, Bytes)>)
    ensures r.Some? ==> |r.value.1| < |s|
  {
    match ReadUvarint(s)
    case None => None
    case Some((u, rest)) => Some((UnZigZag(u), rest))
  }

  lemma VarintReadsBack(x: int, rest: Bytes)
    requires MIN_INT <= x <= MAX_INT
    ensures ReadVarint(Varint(x) + rest) == Some((x, rest))
  {
    UvarintReadsBack(ZigZag(x), rest);
  }

  /** Seven bits to a byte, the low ones first, and the high bit set on all but the last byte. */
  lemma UvarintIs(n: nat)
    ensures Uvarint(n) == if n < 0x80 then [n] else [0x80 + n % 0x80] + Uvarint(n / 0x80)
    ensures forall x :: Varint(x) == Uvarint(if x >= 0 then 2 * x else -2 * x - 1)
  {
  }

  /** A number may take ten bytes, of which the last may hold one bit; longer ones and cut ones are malformed. */
  lemma ReadUvarintIs(b: Byte, s: Bytes, i: nat)
    ensures ReadUvarint(s) == ReadUvarintFrom(s, 0) && ReadUvarintFrom([], i) == None
    ensures ReadUvarintFrom([b] + s, i) ==
      if i >= 10 then None
      else if b < 0x80 then (if i == 9 && b > 1 then None else Some((b, s)))
      else
        match ReadUvarintFrom(s, i + 1)
        case None => None
        case Some((high, rest)) => Some((b - 0x80 + 0x80 * high, rest))
  {
    assert ([b] + s)[1..] == s;
  }
}
