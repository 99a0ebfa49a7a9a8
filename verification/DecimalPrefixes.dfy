/** Cardinals of a posting's wire form: libraries/yacyproto/rwi_posting_wire_form.go. */
module DecimalPrefixes {
  import opened Arithmetic
  import opened ByteStrings
  import opened Decimals

  const SPACE: Byte := ' ' as int
  const MINUS: Byte := '-' as int
  const PLUS: Byte := '+' as int

  predicate IsDigitByte(b: Byte) {
    '0' as int <= b <= '9' as int
  }

  function WithoutSpaces(s: Bytes): (r: Bytes)
    ensures |r| <= |s|
  {
    if s != [] && s[0] == SPACE then WithoutSpaces(s[1..]) else s
  }

  function DigitsAtTheStart(s: Bytes): (n: nat)
    ensures n <= |s|
    ensures forall i | 0 <= i < n :: IsDigitByte(s[i])
    ensures n < |s| ==> !IsDigitByte(s[n])
  {
    if s == [] || !IsDigitByte(s[0]) then 0 else 1 + DigitsAtTheStart(s[1..])
  }

  function Characters(digits: Bytes): (s: string)
    requires forall i | 0 <= i < |digits| :: IsDigitByte(digits[i])
    ensures forall i | 0 <= i < |s| :: IsDigit(s[i])
  {
    var s := seq(|digits|, i requires 0 <= i < |digits| => digits[i] as char);
    assert forall i | 0 <= i < |s| :: IsDigit(s[i]) by {
      forall i | 0 <= i < |s|
        ensures IsDigit(s[i])
      {
        assert IsDigitByte(digits[i]);
      }
    }
    s
  }

  function NumberOf(digits: Bytes): nat
    requires forall i | 0 <= i < |digits| :: IsDigitByte(digits[i])
  {
    ValueOf(Characters(digits))
  }

  datatype Prefix = Prefix(magnitude: nat, negative: bool)

  const NOTHING := Prefix(0, false)

  /** The digits a text starts with; none when they write more than 64 bits hold. */
  function Magnitude(digits: Bytes, negative: bool): (p: Prefix)
    ensures p.magnitude < WORD64
  {
    var n := DigitsAtTheStart(digits);
    if n == 0 || NumberOf(digits[..n]) >= WORD64 then NOTHING else Prefix(NumberOf(digits[..n]), negative)
  }

  /** The sign and the number that a text starts with after its spaces. */
  function PrefixOf(value: Bytes): (p: Prefix)
    ensures p.magnitude < WORD64
  {
    var s := WithoutSpaces(value);
    if s == [] then NOTHING
    else if s[0] == MINUS || s[0] == PLUS then Magnitude(s[1..], s[0] == MINUS)
    else Magnitude(s, false)
  }

  method ParseDecimalPrefix(value: Bytes) returns (r: Prefix)
    ensures r == PrefixOf(value)
  {
    var trimmed := WithoutSpaces(value);
    if trimmed == [] {
      return NOTHING;
    }
    var position: nat := 0;
    var negative := false;
    if trimmed[0] == MINUS || trimmed[0] == PLUS {
      negative := trimmed[0] == MINUS;
      position := 1;
      if position == |trimmed| {
        return NOTHING;
      }
    }
    var start := position;
    ghost var count := DigitsAtTheStart(trimmed[start..]);
    while position < |trimmed| && IsDigitByte(trimmed[position])
      invariant start <= position <= start + count
    {
      assert trimmed[position] == trimmed[start..][position - start];
      position := position + 1;
    }
    assert trimmed[start..][..count] == trimmed[start..position];
    if position == start || NumberOf(trimmed[start..position]) >= WORD64 {
      return NOTHING;
    }
    r := Prefix(NumberOf(trimmed[start..position]), negative);
  }

  /** The number as 64 bits hold it: a negative one is taken from the top. */
  function Unsigned(p: Prefix): nat
    requires p.magnitude < WORD64
  {
    if p.negative then (WORD64 - 1 - p.magnitude + 1) % WORD64 else p.magnitude
  }

  function Ascii(s: string): (r: Bytes)
    requires forall i | 0 <= i < |s| :: s[i] as int < 128
    ensures |r| == |s|
  {
    seq(|s|, i requires 0 <= i < |s| => s[i] as int)
  }

  lemma NumberIsAscii(n: int)
    ensures forall i | 0 <= i < |Integer(n)| :: Integer(n)[i] as int < 128
  {
  }

  function Written(n: int): Bytes {
    NumberIsAscii(n);
    Ascii(Integer(n))
  }

  lemma NumberOfAscii(s: string, digits: Bytes)
    requires forall i | 0 <= i < |s| :: IsDigit(s[i])
    requires |digits| == |s| && forall i | 0 <= i < |s| :: digits[i] == s[i] as int
    ensures forall i | 0 <= i < |digits| :: IsDigitByte(digits[i])
    ensures NumberOf(digits) == ValueOf(s)
  {
    forall i | 0 <= i < |digits|
      ensures IsDigitByte(digits[i])
    {
      assert IsDigit(s[i]);
    }
    assert Characters(digits) == s;
  }

  lemma {:induction false} OnlyDigits(s: Bytes)
    requires forall i | 0 <= i < |s| :: IsDigitByte(s[i])
    ensures DigitsAtTheStart(s) == |s|
  {
  }

  lemma MagnitudeOfDecimal(n: nat, digits: Bytes, negative: bool)
    requires n < WORD64 && |digits| == |Decimal(n)|
    requires forall i | 0 <= i < |digits| :: digits[i] == Decimal(n)[i] as int
    ensures IsDigitByte(digits[0]) && Magnitude(digits, negative) == Prefix(n, negative)
  {
    NumberOfAscii(Decimal(n), digits);
    OnlyDigits(digits);
    assert digits[..|digits|] == digits;
    ValueOfDecimal(n);
  }

  lemma PrefixOfWritten(n: int)
    requires -WORD64 < n < WORD64
    ensures PrefixOf(Written(n)) == if n < 0 then Prefix(-n, true) else Prefix(n, false)
  {
    var s := Written(n);
    if n < 0 {
      MagnitudeOfDecimal(-n, s[1..], true);
    } else {
      MagnitudeOfDecimal(n, s, false);
    }
  }

  /** A number printed by one side is read by the other modulo 64 bits. */
  lemma WrittenReadsBack(n: int)
    requires -WORD64 < n < WORD64
    ensures Unsigned(PrefixOf(Written(n))) == n % WORD64
  {
    PrefixOfWritten(n);
    if n < 0 {
      DivModUnique(n, WORD64, -1, n + WORD64);
      DivModUnique(n + WORD64, WORD64, 0, n + WORD64);
    } else {
      DivModUnique(n, WORD64, 0, n);
    }
  }

  lemma {:induction false} WrittenIsPlain(n: int)
    ensures Written(n) != []
    ensures forall i | 0 <= i < |Written(n)| :: Written(n)[i] == MINUS || IsDigitByte(Written(n)[i])
  {
    forall i | 0 <= i < |Written(n)|
      ensures Written(n)[i] == MINUS || IsDigitByte(Written(n)[i])
    {
      if n < 0 && i > 0 {
        assert IsDigit(Decimal(-n)[i - 1]);
      }
    }
  }

  // ------------------------------------------------------------- any other text

  lemma {:induction false} SpacesSkipped(spaces: Bytes, s: Bytes)
    requires (forall i | 0 <= i < |spaces| :: spaces[i] == ' ' as int) && (s != [] ==> s[0] != ' ' as int)
    ensures WithoutSpaces(spaces + s) == s
  {
    if spaces == [] {
      assert spaces + s == s;
    } else {
      assert (spaces + s)[1..] == spaces[1..] + s;
      SpacesSkipped(spaces[1..], s);
    }
  }

  lemma {:induction false} DigitsBefore(digits: Bytes, rest: Bytes)
    requires forall i | 0 <= i < |digits| :: IsDigitByte(digits[i])
    requires rest != [] ==> !IsDigitByte(rest[0])
    ensures DigitsAtTheStart(digits + rest) == |digits|
  {
    if digits == [] {
      assert digits + rest == rest;
    } else {
      assert (digits + rest)[1..] == digits[1..] + rest;
      DigitsBefore(digits[1..], rest);
    }
  }

  lemma MagnitudeIs(digits: Bytes, rest: Bytes, negative: bool)
    requires forall i | 0 <= i < |digits| :: IsDigitByte(digits[i])
    requires rest != [] ==> !IsDigitByte(rest[0])
    ensures Magnitude(digits + rest, negative)
      == if digits == [] || NumberOf(digits) >= WORD64 then Prefix(0, false) else Prefix(NumberOf(digits), negative)
  {
    DigitsBefore(digits, rest);
    assert (digits + rest)[..|digits|] == digits;
  }

  /**
   * After spaces and at most one sign come the digits; whatever follows them is left alone. Without
   * a digit, and when the digits write more than 64 bits hold, there is no number.
   */
  lemma PrefixIs(spaces: Bytes, sign: Bytes, digits: Bytes, rest: Bytes)
    requires forall i | 0 <= i < |spaces| :: spaces[i] == ' ' as int
    requires sign == [] || sign == ['-' as int] || sign == ['+' as int]
    requires forall i | 0 <= i < |digits| :: '0' as int <= digits[i] <= '9' as int
    requires rest != [] ==> !('0' as int <= rest[0] <= '9' as int)
    requires sign == [] && digits == [] && rest != [] ==>
      rest[0] != ' ' as int && rest[0] != '-' as int && rest[0] != '+' as int
    ensures PrefixOf(spaces + (sign + (digits + rest)))
      == if digits == [] || NumberOf(digits) >= 0x1_0000_0000_0000_0000 then Prefix(0, false)
         else Prefix(NumberOf(digits), sign == ['-' as int])
  {
    var s := sign + (digits + rest);
    if sign == [] {
      assert s == digits + rest;
      SpacesSkipped(spaces, s);
      assert s != [] ==> s[0] == if digits != [] then digits[0] else rest[0];
      MagnitudeIs(digits, rest, false);
    } else {
      SpacesSkipped(spaces, s);
      assert s[0] == sign[0] && s[1..] == digits + rest;
      MagnitudeIs(digits, rest, sign == ['-' as int]);
    }
  }

  /** A negative number is taken from the top of the 64 bits, and the digits are decimal. */
  lemma NumbersAre(p: Prefix, digits: Bytes, digit: Byte)
    requires p.magnitude < 0x1_0000_0000_0000_0000
    requires (forall i | 0 <= i < |digits| :: IsDigitByte(digits[i])) && IsDigitByte(digit)
    ensures Unsigned(p) == (if p.negative then -1 else 1) * p.magnitude % 0x1_0000_0000_0000_0000
    ensures NumberOf([]) == 0
    ensures NumberOf(digits + [digit]) == 10 * NumberOf(digits) + (digit - '0' as int)
  {
    var s, s' := Characters(digits), Characters(digits + [digit]);
    assert s' == s + [digit as char];
    assert s'[..|s'| - 1] == s;
  }
}
