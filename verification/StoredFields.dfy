/** Packing fields into a record and reading them back past its end: libraries/storedfields. */
module StoredFields {
  import opened Arithmetic
  import opened ByteStrings
  import opened VarInts

  /** What a reader has left: the unread bytes, or nothing after the first malformed field. */
  datatype Cursor = Open(left: Bytes) | Failed

  datatype Read<+T> = Read(value: T, cursor: Cursor)

  predicate NothingRemains(c: Cursor) {
    c.Failed? || c.left == []
  }

  function LittleEndian(n: nat, width: nat): (s: Bytes)
    ensures |s| == width
  {
    if width == 0 then [] else [n % 256] + LittleEndian(n / 256, width - 1)
  }

  function FromLittleEndian(s: Bytes): nat {
    if s == [] then 0 else s[0] + 256 * FromLittleEndian(s[1..])
  }

  lemma {:induction false} LittleEndianReadsBack(n: nat, width: nat)
    requires n < Power256(width)
    ensures FromLittleEndian(LittleEndian(n, width)) == n
  {
    if width > 0 {
      var s := LittleEndian(n, width);
      assert s[1..] == LittleEndian(n / 256, width - 1);
      LittleEndianReadsBack(n / 256, width - 1);
    }
  }

  lemma WidthOfBytes()
    ensures Power256(2) == 0x1_0000 && Power256(8) == 0x1_0000_0000_0000_0000
  {
    assert Power256(4) == 0x1_0000 * Power256(2);
    assert Power256(6) == 0x1_0000 * Power256(4);
    assert Power256(8) == 0x1_0000 * Power256(6);
  }

  function PackedText(text: Bytes): (s: Bytes)
    ensures |s| > 0
  {
    Uvarint(|text|) + text
  }

  function FixedAt(c: Cursor, length: nat): Read<Bytes> {
    if NothingRemains(c) then Read([], c)
    else if |c.left| < length then Read([], Failed)
    else Read(c.left[..length], Open(c.left[length..]))
  }

  function ByteAt(c: Cursor): Read<Byte> {
    var packed := FixedAt(c, 1);
    Read(if packed.value == [] then 0 else packed.value[0], packed.cursor)
  }

  /** The fixed-width numbers: a 16-bit mask, or the 64 bits of a float. */
  function WideAt(c: Cursor, width: nat): Read<nat> {
    var packed := FixedAt(c, width);
    Read(FromLittleEndian(packed.value), packed.cursor)
  }

  function CountAt(c: Cursor): Read<nat> {
    if NothingRemains(c) then Read(0, c)
    else
      match ReadUvarint(c.left)
      case None => Read(0, Failed)
      case Some((number, rest)) => if number > MAX_INT then Read(0, Failed) else Read(number, Open(rest))
  }

  function SignedAt(c: Cursor): Read<int> {
    if NothingRemains(c) then Read(0, c)
    else
      match ReadVarint(c.left)
      case None => Read(0, Failed)
      case Some((number, rest)) => Read(number, Open(rest))
  }

  function TextAt(c: Cursor): Read<Bytes> {
    if NothingRemains(c) then Read([], c)
    else
      match ReadUvarint(c.left)
      case None => Read([], Failed)
      case Some((length, rest)) =>
        if length > |rest| then Read([], Failed) else FixedAt(Open(rest), length)
  }

  /** How a machine integer is converted before it is written as a count. */
  function Unsigned(x: int): nat {
    x % WORD64
  }

  lemma FixedReadsBack(data: Bytes, rest: Bytes)
    requires data != []
    ensures FixedAt(Open(data + rest), |data|) == Read(data, Open(rest))
  {
    assert (data + rest)[..|data|] == data && (data + rest)[|data|..] == rest;
  }

  lemma ByteReadsBack(b: Byte, rest: Bytes)
    ensures ByteAt(Open([b] + rest)) == Read(b, Open(rest))
  {
    FixedReadsBack([b], rest);
  }

  lemma WideReadsBack(n: nat, width: nat, rest: Bytes)
    requires 0 < width && n < Power256(width)
    ensures WideAt(Open(LittleEndian(n, width) + rest), width) == Read(n, Open(rest))
  {
    FixedReadsBack(LittleEndian(n, width), rest);
    LittleEndianReadsBack(n, width);
  }

  /** A count is read back exactly when it does not exceed the largest machine integer. */
  lemma CountReadsBackIff(n: nat, rest: Bytes)
    requires n < 0x1_0000_0000_0000_0000
    ensures CountAt(Open(Uvarint(n) + rest)) == if n <= MAX_INT then Read(n, Open(rest)) else Read(0, Failed)
  {
    UvarintReadsBack(n, rest);
  }

  /** A machine integer is read back as a count exactly when it is not negative. */
  lemma MachineCountReadsBackIff(n: int, rest: Bytes)
    requires MIN_INT <= n <= MAX_INT
    ensures CountAt(Open(Uvarint(Unsigned(n)) + rest)) == if n >= 0 then Read(n, Open(rest)) else Read(0, Failed)
  {
    DivModUnique(n, WORD64, if n >= 0 then 0 else -1, if n >= 0 then n else n + WORD64);
    CountReadsBackIff(Unsigned(n), rest);
  }

  lemma SignedReadsBack(x: int, rest: Bytes)
    requires MIN_INT <= x <= MAX_INT
    ensures SignedAt(Open(Varint(x) + rest)) == Read(x, Open(rest))
  {
    VarintReadsBack(x, rest);
  }

  lemma TextReadsBack(text: Bytes, rest: Bytes)
    requires |text| <= MAX_INT
    ensures TextAt(Open(PackedText(text) + rest)) == Read(text, Open(rest))
  {
    assert PackedText(text) + rest == Uvarint(|text|) + (text + rest);
    UvarintReadsBack(|text|, text + rest);
    if text == [] {
      assert text + rest == rest;
    } else {
      FixedReadsBack(text, rest);
    }
  }

  class Reader {
    var left: Bytes
    var failed: bool

    function State(): Cursor
      reads this
    {
      if failed then Failed else Open(left)
    }

    constructor (record: Bytes)
      ensures State() == Open(record)
    {
      left, failed := record, false;
    }

    function BytesLeft(): (n: nat)
      reads this
      ensures n > 0 <==> !NothingRemains(State())
    {
      if failed then 0 else |left|
    }

    method Reject()
      modifies this
      ensures State() == Failed
    {
      failed := true;
    }

    method Fixed(length: nat) returns (value: Bytes)
      modifies this
      ensures FixedAt(old(State()), length) == Read(value, State())
    {
      if NothingRemains(State()) {
        return [];
      }
      if |left| < length {
        failed := true;
        return [];
      }
      value := left[..length];
      left := left[length..];
    }

    method Byte() returns (value: Byte)
      modifies this
      ensures ByteAt(old(State())) == Read(value, State())
    {
      var packed := Fixed(1);
      if packed == [] {
        return 0;
      }
      value := packed[0];
    }

    method Presence() returns (present: bool)
      modifies this
      ensures ByteAt(old(State())).cursor == State()
      ensures present <==> ByteAt(old(State())).value != 0
    {
      var packed := Byte();
      present := packed != 0;
    }

    method Wide(width: nat) returns (value: nat)
      modifies this
      ensures WideAt(old(State()), width) == Read(value, State())
    {
      var packed := Fixed(width);
      value := FromLittleEndian(packed);
    }

    method Count() returns (value: nat)
      modifies this
      ensures CountAt(old(State())) == Read(value, State())
    {
      if NothingRemains(State()) {
        return 0;
      }
      match ReadUvarint(left) {
        case None =>
          failed := true;
          return 0;
        case Some((number, rest)) =>
          left := rest;
          if number > MAX_INT {
            failed := true;
            return 0;
          }
          return number;
      }
    }

    method Signed() returns (value: int)
      modifies this
      ensures SignedAt(old(State())) == Read(value, State())
    {
      if NothingRemains(State()) {
        return 0;
      }
      match ReadVarint(left) {
        case None =>
          failed := true;
          return 0;
        case Some((number, rest)) =>
          left := rest;
          return number;
      }
    }

    method Text() returns (value: Bytes)
      modifies this
      ensures TextAt(old(State())) == Read(value, State())
    {
      if NothingRemains(State()) {
        return [];
      }
      match ReadUvarint(left) {
        case None =>
          failed := true;
          return [];
        case Some((length, rest)) =>
          left := rest;
          if length > |left| {
            failed := true;
            return [];
          }
          value := Fixed(length);
      }
    }
  }

  class Writer {
    var record: Bytes

    constructor ()
      ensures record == []
    {
      record := [];
    }

    method Byte(number: Byte)
      modifies this
      ensures record == old(record) + [number]
    {
      record := record + [number];
    }

    method Presence(present: bool)
      modifies this
      ensures record == old(record) + [if present then 1 else 0]
    {
      if present {
        record := record + [1];
        return;
      }
      record := record + [0];
    }

    method Wide(number: nat, width: nat)
      modifies this
      ensures record == old(record) + LittleEndian(number, width)
    {
      record := record + LittleEndian(number, width);
    }

    method Count(number: int)
      modifies this
      ensures record == old(record) + Uvarint(Unsigned(number))
    {
      record := record + Uvarint(Unsigned(number));
    }

    method Signed(number: int)
      modifies this
      ensures record == old(record) + Varint(number)
    {
      record := record + Varint(number);
    }

    method Fixed(data: Bytes)
      modifies this
      ensures record == old(record) + data
    {
      record := record + data;
    }

    method Text(text: Bytes)
      modifies this
      ensures record == old(record) + PackedText(text)
    {
      record := record + Uvarint(|text|);
      record := record + text;
    }
  }

  // --------------------------------------------------- the bytes of the fields

  /** Numbers of a fixed width have their low byte first, and texts their length. */
  lemma BytesAre(n: nat, width: nat, text: Bytes, x: int)
    ensures LittleEndian(n, 0) == [] && LittleEndian(n, width + 1) == [n % 256] + LittleEndian(n / 256, width)
    ensures PackedText(text) == Uvarint(|text|) + text
    ensures Unsigned(x) == x % 0x1_0000_0000_0000_0000
  {
  }

  /** Past the end of a record there is nothing, without an error; a field cut short is one, and so is every field after it. */
  lemma FixedIs(s: Bytes, length: nat)
    ensures FixedAt(Failed, length) == Read([], Failed) && FixedAt(Open([]), length) == Read([], Open([]))
    ensures s != [] && |s| < length ==> FixedAt(Open(s), length) == Read([], Failed)
    ensures s != [] && |s| >= length ==> FixedAt(Open(s), length) == Read(s[..length], Open(s[length..]))
    ensures ByteAt(Failed) == Read(0, Failed) && ByteAt(Open([])) == Read(0, Open([]))
    ensures s != [] ==> ByteAt(Open(s)) == Read(s[0], Open(s[1..]))
    ensures WideAt(Open(s), length).cursor == FixedAt(Open(s), length).cursor
    ensures WideAt(Open(s), length).value == FromLittleEndian(FixedAt(Open(s), length).value)
    ensures FromLittleEndian([]) == 0 && (s != [] ==> FromLittleEndian(s) == s[0] + 256 * FromLittleEndian(s[1..]))
  {
  }

  /** A count beyond the machine integers is malformed, and so is a number that its bytes do not end. */
  lemma NumbersAre(s: Bytes)
    ensures CountAt(Failed) == Read(0, Failed) && CountAt(Open([])) == Read(0, Open([]))
    ensures SignedAt(Failed) == Read(0, Failed) && SignedAt(Open([])) == Read(0, Open([]))
    ensures s != [] ==>
      CountAt(Open(s)) ==
      if ReadUvarint(s).None? || ReadUvarint(s).value.0 > 0x7fff_ffff_ffff_ffff then Read(0, Failed)
      else Read(ReadUvarint(s).value.0, Open(ReadUvarint(s).value.1))
    ensures s != [] ==>
      SignedAt(Open(s)) ==
      if ReadVarint(s).None? then Read(0, Failed) else Read(ReadVarint(s).value.0, Open(ReadVarint(s).value.1))
  {
  }

  /** A text whose length is malformed, or is more than the bytes left, is malformed. */
  lemma TextIs(s: Bytes)
    ensures TextAt(Failed) == Read([], Failed) && TextAt(Open([])) == Read([], Open([]))
    ensures s != [] ==>
      TextAt(Open(s)) ==
      if ReadUvarint(s).None? || ReadUvarint(s).value.0 > |ReadUvarint(s).value.1| then Read([], Failed)
      else
        var (length, rest) := ReadUvarint(s).value;
        Read(rest[..length], Open(rest[length..]))
  {
  }
}
