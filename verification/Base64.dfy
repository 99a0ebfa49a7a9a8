/** The enhanced base64 of the peer protocol: libraries/yacymodel/alphabet.go. */
module Base64 {
  import opened Arithmetic
  import opened ByteStrings
  import opened Wrappers

  const NEWLINE: Byte := '\n' as int

  /** A 32-bit accumulator drops the bits shifted out of it. */
  const WORD := 0x1_0000_0000

  type Six = v: int | 0 <= v < 64

  function Symbol(v: Six): Byte {
    if v < 26 then 'A' as int + v
    else if v < 52 then 'a' as int + (v - 26)
    else if v < 62 then '0' as int + (v - 52)
    else if v == 62 then '-' as int
    else '_' as int
  }

  /** The decode table: no value for a byte outside the alphabet. */
  function ValueOf(b: Byte): Option<Six> {
    if 'A' as int <= b <= 'Z' as int then Some(b - 'A' as int)
    else if 'a' as int <= b <= 'z' as int then Some(b - 'a' as int + 26)
    else if '0' as int <= b <= '9' as int then Some(b - '0' as int + 52)
    else if b == '-' as int then Some(62)
    else if b == '_' as int then Some(63)
    else None
  }

  predicate IsText(s: Bytes) {
    forall i | 0 <= i < |s| :: ValueOf(s[i]).Some?
  }

  lemma SymbolReadsBack(v: Six)
    ensures ValueOf(Symbol(v)) == Some(v) && Symbol(v) != NEWLINE
  {
  }

  lemma ValueReadsBack(b: Byte)
    requires ValueOf(b).Some?
    ensures Symbol(ValueOf(b).value) == b && b != NEWLINE
  {
  }

  /** How many values so many pending bits have; there are never more than twelve, an even number. */
  function Values(bits: nat): nat {
    match bits
    case 0 => 1
    case 2 => 4
    case 4 => 16
    case 6 => 64
    case 8 => 256
    case 10 => 1024
    case 12 => 4096
    case _ => 0
  }

  /** The low bits of x, and what is above them: a mask and a shift by a constant amount. */
  function Low(x: nat, bits: nat): nat {
    match bits
    case 0 => 0
    case 2 => x % 4
    case 4 => x % 16
    case 6 => x % 64
    case 8 => x % 256
    case 10 => x % 1024
    case _ => x % 4096
  }

  function Above(x: nat, bits: nat): nat {
    match bits
    case 0 => x
    case 2 => x / 4
    case 4 => x / 16
    case 6 => x / 64
    case 8 => x / 256
    case 10 => x / 1024
    case _ => x / 4096
  }

  /** The pending bits as the high bits of a last symbol. */
  function Padded(x: nat, bits: nat): nat {
    match bits
    case 2 => x * 16
    case 4 => x * 4
    case _ => x
  }

  predicate Pending(x: nat, bits: nat) {
    x < Values(bits)
  }

  lemma SixSplit(x: nat, bits: nat)
    requires Pending(x, bits) && bits >= 6
    ensures Above(x, bits - 6) < 64 && Pending(Low(x, bits - 6), bits - 6)
  {
  }

  lemma ByteAppended(x: nat, bits: nat, b: Byte)
    requires Pending(x, bits) && bits < 6
    ensures Pending(x * 256 + b, bits + 8)
  {
  }

  /** The symbols for the bits still pending, which are those of x, and then the bytes of s. */
  function Symbols(x: nat, bits: nat, s: Bytes): Bytes
    requires Pending(x, bits)
    decreases |s|, bits
  {
    if bits >= 6 then
      SixSplit(x, bits);
      [Symbol(Above(x, bits - 6))] + Symbols(Low(x, bits - 6), bits - 6, s)
    else if s != [] then
      ByteAppended(x, bits, s[0]);
      Symbols(x * 256 + s[0], bits + 8, s[1..])
    else if bits == 0 then []
    else [Symbol(Padded(x, bits))]
  }

  function Encoded(s: Bytes): Bytes {
    Symbols(0, 0, s)
  }

  function Prefixed(out: Bytes, rest: Option<Bytes>): Option<Bytes> {
    match rest
    case None => None
    case Some(bytes) => Some(out + bytes)
  }

  /** The bytes of the bits still pending and then the symbols of s; none when one is no symbol. */
  function BytesOf(x: nat, bits: nat, s: Bytes): Option<Bytes>
    requires Pending(x, bits) && bits < 8
    decreases |s|
  {
    if s == [] then Some([])
    else if s[0] == NEWLINE then BytesOf(x, bits, s[1..])
    else
      match ValueOf(s[0])
      case None => None
      case Some(v) =>
        if bits < 2 then BytesOf(x * 64 + v, bits + 6, s[1..])
        else
          var y := x * 64 + v;
          Prefixed([Above(y, bits - 2)], BytesOf(Low(y, bits - 2), bits - 2, s[1..]))
  }

  function Decoded(s: Bytes): Option<Bytes> {
    BytesOf(0, 0, s)
  }

  lemma FirstByteWritten(a: Byte, t: Bytes)
    ensures Symbols(0, 0, [a] + t) == [Symbol(a / 4)] + Symbols(a % 4, 2, t)
  {
    assert ([a] + t)[1..] == t;
  }

  lemma SecondByteWritten(x: nat, b: Byte, t: Bytes)
    requires x < 4
    ensures Symbols(x, 2, [b] + t) == [Symbol(x * 16 + b / 16)] + Symbols(b % 16, 4, t)
  {
    assert ([b] + t)[1..] == t;
    assert (x * 256 + b) / 16 == x * 16 + b / 16;
  }

  lemma ThirdByteWritten(x: nat, c: Byte, t: Bytes)
    requires x < 16
    ensures Symbols(x, 4, [c] + t) == [Symbol(x * 4 + c / 64), Symbol(c % 64)] + Symbols(0, 0, t)
  {
    assert ([c] + t)[1..] == t;
    assert (x * 256 + c) / 64 == x * 4 + c / 64;
    assert Symbols(x, 4, [c] + t) == [Symbol(x * 4 + c / 64)] + Symbols(c % 64, 6, t);
  }

  lemma FirstSymbolRead(v: Six, t: Bytes)
    ensures BytesOf(0, 0, [Symbol(v)] + t) == BytesOf(v, 6, t)
  {
    SymbolReadsBack(v);
    assert ([Symbol(v)] + t)[1..] == t;
  }

  lemma SecondSymbolRead(y: nat, v: Six, t: Bytes)
    requires y < 64
    ensures BytesOf(y, 6, [Symbol(v)] + t) == Prefixed([y * 4 + v / 16], BytesOf(v % 16, 4, t))
  {
    SymbolReadsBack(v);
    assert ([Symbol(v)] + t)[1..] == t;
    assert (y * 64 + v) / 16 == y * 4 + v / 16 && (y * 64 + v) % 16 == v % 16;
  }

  lemma ThirdSymbolRead(y: nat, v: Six, t: Bytes)
    requires y < 16
    ensures BytesOf(y, 4, [Symbol(v)] + t) == Prefixed([y * 16 + v / 4], BytesOf(v % 4, 2, t))
  {
    SymbolReadsBack(v);
    assert ([Symbol(v)] + t)[1..] == t;
    assert (y * 64 + v) / 4 == y * 16 + v / 4 && (y * 64 + v) % 4 == v % 4;
  }

  lemma FourthSymbolRead(y: nat, v: Six, t: Bytes)
    requires y < 4
    ensures BytesOf(y, 2, [Symbol(v)] + t) == Prefixed([y * 64 + v], BytesOf(0, 0, t))
  {
    SymbolReadsBack(v);
    assert ([Symbol(v)] + t)[1..] == t;
  }

  /** Decoding undoes encoding for every byte string. */
  lemma {:induction false} BytesReadBack(s: Bytes)
    ensures Decoded(Encoded(s)) == Some(s)
    decreases |s|
  {
    if s != [] {
      var a, t := s[0], s[1..];
      assert s == [a] + t;
      FirstByteWritten(a, t);
      FirstSymbolRead(a / 4, Symbols(a % 4, 2, t));
      BytesReadBackAfterOne(a, t);
    }
  }

  lemma {:induction false} BytesReadBackAfterOne(a: Byte, s: Bytes)
    ensures BytesOf(a / 4, 6, Symbols(a % 4, 2, s)) == Some([a] + s)
    decreases |s|
  {
    if s == [] {
      assert Symbols(a % 4, 2, s) == [Symbol(a % 4 * 16)] + [];
      SecondSymbolRead(a / 4, a % 4 * 16, []);
    } else {
      var b, t := s[0], s[1..];
      var v := a % 4 * 16 + b / 16;
      assert s == [b] + t;
      SecondByteWritten(a % 4, b, t);
      SecondSymbolRead(a / 4, v, Symbols(b % 16, 4, t));
      assert v / 16 == a % 4 && v % 16 == b / 16;
      BytesReadBackAfterTwo(b, t);
    }
  }

  lemma {:induction false} BytesReadBackAfterTwo(b: Byte, s: Bytes)
    ensures BytesOf(b / 16, 4, Symbols(b % 16, 4, s)) == Some([b] + s)
    decreases |s|
  {
    if s == [] {
      assert Symbols(b % 16, 4, s) == [Symbol(b % 16 * 4)] + [];
      ThirdSymbolRead(b / 16, b % 16 * 4, []);
    } else {
      var c, t := s[0], s[1..];
      var v, rest := b % 16 * 4 + c / 64, Symbols(0, 0, t);
      assert s == [c] + t;
      ThirdByteWritten(b % 16, c, t);
      assert [Symbol(v), Symbol(c % 64)] + rest == [Symbol(v)] + ([Symbol(c % 64)] + rest);
      ThirdSymbolRead(b / 16, v, [Symbol(c % 64)] + rest);
      assert v / 4 == b % 16 && v % 4 == c / 64;
      FourthSymbolRead(c / 64, c % 64, rest);
      BytesReadBack(t);
    }
  }

  lemma GroupRead(v: Six, w: Six, x: Six, y: Six, t: Bytes)
    ensures BytesOf(0, 0, [Symbol(v)] + ([Symbol(w)] + ([Symbol(x)] + ([Symbol(y)] + t))))
         == Prefixed([v * 4 + w / 16], Prefixed([w % 16 * 16 + x / 4], Prefixed([x % 4 * 64 + y], BytesOf(0, 0, t))))
  {
    FirstSymbolRead(v, [Symbol(w)] + ([Symbol(x)] + ([Symbol(y)] + t)));
    SecondSymbolRead(v, w, [Symbol(x)] + ([Symbol(y)] + t));
    ThirdSymbolRead(w % 16, x, [Symbol(y)] + t);
    FourthSymbolRead(x % 4, y, t);
  }

  lemma GroupWritten(v: Six, w: Six, x: Six, y: Six, t: Bytes)
    ensures Symbols(0, 0, [v * 4 + w / 16] + ([w % 16 * 16 + x / 4] + ([x % 4 * 64 + y] + t)))
         == [Symbol(v)] + ([Symbol(w)] + ([Symbol(x), Symbol(y)] + Symbols(0, 0, t)))
  {
    var a, b, c := v * 4 + w / 16, w % 16 * 16 + x / 4, x % 4 * 64 + y;
    FirstByteWritten(a, [b] + ([c] + t));
    SecondByteWritten(a % 4, b, [c] + t);
    ThirdByteWritten(b % 16, c, t);
    assert a / 4 == v && a % 4 * 16 + b / 16 == w && b % 16 * 4 + c / 64 == x && c % 64 == y;
  }

  lemma GroupReadsBack(s: Bytes)
    requires IsText(s) && |s| >= 4 && Decoded(s[4..]).Some?
    ensures Decoded(s).Some? && Encoded(Decoded(s).value) == s[..4] + Encoded(Decoded(s[4..]).value)
  {
    var v, w, x, y := ValueOf(s[0]).value, ValueOf(s[1]).value, ValueOf(s[2]).value, ValueOf(s[3]).value;
    assert Symbol(v) == s[0] && Symbol(w) == s[1] by {
      ValueReadsBack(s[0]);
      ValueReadsBack(s[1]);
    }
    assert Symbol(x) == s[2] && Symbol(y) == s[3] by {
      ValueReadsBack(s[2]);
      ValueReadsBack(s[3]);
    }
    assert s == [s[0]] + ([s[1]] + ([s[2]] + ([s[3]] + s[4..])));
    GroupRead(v, w, x, y, s[4..]);
    GroupWritten(v, w, x, y, Decoded(s[4..]).value);
  }

  /** Encoding undoes decoding for every text of whole groups of four symbols. */
  lemma {:induction false} TextReadsBack(s: Bytes)
    requires IsText(s) && |s| % 4 == 0
    ensures Decoded(s).Some? && Encoded(Decoded(s).value) == s
  {
    if s != [] {
      TextReadsBack(s[4..]);
      GroupReadsBack(s);
      assert s == s[..4] + s[4..];
    }
  }

  lemma {:induction false} SymbolsAreText(x: nat, bits: nat, s: Bytes)
    requires Pending(x, bits)
    ensures IsText(Symbols(x, bits, s)) && |Symbols(x, bits, s)| == (bits + 8 * |s| + 5) / 6
    decreases |s|, bits
  {
    if bits >= 6 {
      SixSplit(x, bits);
      SymbolsAreText(Low(x, bits - 6), bits - 6, s);
    } else if s != [] {
      ByteAppended(x, bits, s[0]);
      SymbolsAreText(x * 256 + s[0], bits + 8, s[1..]);
    }
  }

  lemma {:induction false} BytesCounted(x: nat, bits: nat, s: Bytes)
    requires Pending(x, bits) && bits < 8 && IsText(s)
    ensures BytesOf(x, bits, s).Some? && |BytesOf(x, bits, s).value| == (bits + 6 * |s|) / 8
    decreases |s|
  {
    if s != [] {
      ValueReadsBack(s[0]);
      var y := x * 64 + ValueOf(s[0]).value;
      if bits < 2 {
        BytesCounted(y, bits + 6, s[1..]);
      } else {
        BytesCounted(Low(y, bits - 2), bits - 2, s[1..]);
      }
    }
  }

  // ----------------------------------------------- the code of RFC 4648, section 4

  /** Letters, then digits, then a minus and an underscore; nothing else has a value. */
  lemma AlphabetIs(v: Six, b: Byte)
    ensures Symbol(v) ==
      if v < 26 then 'A' as int + v else if v < 52 then 'a' as int + v - 26
      else if v < 62 then '0' as int + v - 52 else if v == 62 then '-' as int else '_' as int
    ensures ValueOf(b) == Some(v) <==> b == Symbol(v)
  {
  }

  /** Three bytes are four symbols of six bits each, the first bits first. */
  lemma GroupEncoded(a: Byte, b: Byte, c: Byte, t: Bytes)
    ensures Encoded([a, b, c] + t)
      == [Symbol(a / 4), Symbol(a % 4 * 16 + b / 16), Symbol(b % 16 * 4 + c / 64), Symbol(c % 64)] + Encoded(t)
  {
    assert [a, b, c] + t == [a] + ([b] + ([c] + t));
    FirstByteWritten(a, [b] + ([c] + t));
    SecondByteWritten(a % 4, b, [c] + t);
    ThirdByteWritten(b % 16, c, t);
  }

  /** One or two bytes left are padded with zero bits to whole symbols. */
  lemma RestEncoded(a: Byte, b: Byte)
    ensures Encoded([]) == []
    ensures Encoded([a]) == [Symbol(a / 4), Symbol(a % 4 * 16)]
    ensures Encoded([a, b]) == [Symbol(a / 4), Symbol(a % 4 * 16 + b / 16), Symbol(b % 16 * 4)]
  {
    assert [a] == [a] + [] && [a, b] == [a] + ([b] + []);
    FirstByteWritten(a, []);
    FirstByteWritten(a, [b] + []);
    SecondByteWritten(a % 4, b, []);
  }

  /** Whole groups are encoded by themselves. */
  lemma {:induction false} GroupsEncoded(s: Bytes, t: Bytes)
    requires |s| % 3 == 0
    ensures Encoded(s + t) == Encoded(s) + Encoded(t)
    decreases |s|
  {
    if s == [] {
      assert s + t == t && [] + Encoded(t) == Encoded(t);
    } else {
      var rest := s[3..];
      assert s == [s[0], s[1], s[2]] + rest && s + t == [s[0], s[1], s[2]] + (rest + t);
      GroupEncoded(s[0], s[1], s[2], rest);
      GroupEncoded(s[0], s[1], s[2], rest + t);
      GroupsEncoded(rest, t);
    }
  }

  /** Line breaks are skipped; any other byte that is no symbol makes the text unreadable. */
  lemma {:induction false} ReadableIff(x: nat, bits: nat, s: Bytes)
    requires Pending(x, bits) && bits < 8
    ensures BytesOf(x, bits, s).Some? <==> forall b :: b in s ==> b == '\n' as int || ValueOf(b).Some?
    ensures BytesOf(x, bits, ['\n' as int] + s) == BytesOf(x, bits, s)
    decreases |s|
  {
    assert (['\n' as int] + s)[1..] == s;
    if s != [] {
      assert s == [s[0]] + s[1..];
      if s[0] == NEWLINE {
        ReadableIff(x, bits, s[1..]);
      } else if ValueOf(s[0]).Some? {
        var y := x * 64 + ValueOf(s[0]).value;
        if bits < 2 {
          ReadableIff(y, bits + 6, s[1..]);
        } else {
          ReadableIff(Low(y, bits - 2), bits - 2, s[1..]);
        }
      }
    }
  }

  /** The bits left of the last symbols that make no whole byte are dropped. */
  lemma RestDecoded(v: Six, w: Six, x: Six)
    ensures Decoded([]) == Some([]) && Decoded([Symbol(v)]) == Some([])
    ensures Decoded([Symbol(v), Symbol(w)]) == Some([v * 4 + w / 16])
    ensures Decoded([Symbol(v), Symbol(w), Symbol(x)]) == Some([v * 4 + w / 16, w % 16 * 16 + x / 4])
  {
    FirstSymbolRead(v, []);
    FirstSymbolRead(v, [Symbol(w)] + []);
    FirstSymbolRead(v, [Symbol(w)] + ([Symbol(x)] + []));
    SecondSymbolRead(v, w, []);
    SecondSymbolRead(v, w, [Symbol(x)] + []);
    ThirdSymbolRead(w % 16, x, []);
    assert [Symbol(v)] + [] == [Symbol(v)] && [Symbol(v)] + ([Symbol(w)] + []) == [Symbol(v), Symbol(w)];
    assert [Symbol(v)] + ([Symbol(w)] + ([Symbol(x)] + [])) == [Symbol(v), Symbol(w), Symbol(x)];
    assert [v * 4 + w / 16] + [] == [v * 4 + w / 16];
    assert [v * 4 + w / 16] + ([w % 16 * 16 + x / 4] + []) == [v * 4 + w / 16, w % 16 * 16 + x / 4];
  }

  lemma ShiftedOut(buf: nat, low: nat, n: nat)
    requires low > 0 && n > 0
    ensures buf / low % n == buf % (low * n) / low
    ensures buf % low == buf % (low * n) % low
  {
    var q, r := buf / low, buf % low;
    var q', r' := q / n, q % n;
    Quotient(buf, low);
    Quotient(q, n);
    ProductSplit(q', r', n, low);
    DivModUnique(buf, low * n, q', r' * low + r);
    DivModUnique(r' * low + r, low, r', r);
  }

  lemma ProductSplit(q: nat, r: nat, n: nat, low: nat)
    requires r < n
    ensures (q * n + r) * low == q * (low * n) + r * low
    ensures r * low + low <= low * n && low * n >= 0
  {
    Distributed(q * n, r, low);
    assert (q * n) * low == q * (low * n);
    Distributed(r + 1, n - r - 1, low);
    assert (r + 1) * low == r * low + low;
  }

  lemma Distributed(a: nat, b: nat, c: nat)
    ensures (a + b) * c == a * c + b * c && b * c >= 0
  {
  }

  /** The low bits of the accumulator are the pending ones; whatever is above them was written. */
  lemma AccumulatedByte(buf: nat, bits: nat, b: Byte)
    requires bits < 6 && Values(bits) > 0
    ensures Low(buf * 256 % WORD + b, bits + 8) == Low(buf, bits) * 256 + b
  {
    var shifted, lost := buf * 256 % WORD, buf * 256 / WORD;
    if bits == 0 {
      DivModUnique(shifted + b, 256, buf - lost * 0x100_0000, b);
    } else if bits == 2 {
      DivModUnique(shifted + b, 1024, buf / 4 - lost * 0x40_0000, buf % 4 * 256 + b);
    } else {
      DivModUnique(shifted + b, 4096, buf / 16 - lost * 0x10_0000, buf % 16 * 256 + b);
    }
  }

  lemma AccumulatedSix(buf: nat, bits: nat)
    requires bits >= 6 && Values(bits) > 0
    ensures Above(buf, bits - 6) % 64 == Above(Low(buf, bits), bits - 6)
    ensures Low(buf, bits - 6) == Low(Low(buf, bits), bits - 6)
  {
    ShiftedOut(buf, Values(bits - 6), 64);
  }

  lemma AccumulatedSymbol(buf: nat, bits: nat, v: Six)
    requires bits < 8 && Values(bits) > 0
    ensures Low(buf * 64 % WORD + v, bits + 6) == Low(buf, bits) * 64 + v
  {
    var shifted, lost := buf * 64 % WORD, buf * 64 / WORD;
    if bits == 0 {
      DivModUnique(shifted + v, 64, buf - lost * 0x400_0000, v);
    } else if bits == 2 {
      DivModUnique(shifted + v, 256, buf / 4 - lost * 0x100_0000, buf % 4 * 64 + v);
    } else if bits == 4 {
      DivModUnique(shifted + v, 1024, buf / 16 - lost * 0x40_0000, buf % 16 * 64 + v);
    } else {
      DivModUnique(shifted + v, 4096, buf / 64 - lost * 0x10_0000, buf % 64 * 64 + v);
    }
  }

  lemma AccumulatedEight(buf: nat, bits: nat)
    requires bits >= 8 && Values(bits) > 0
    ensures Above(buf, bits - 8) % 256 == Above(Low(buf, bits), bits - 8)
    ensures Low(buf, bits - 8) == Low(Low(buf, bits), bits - 8)
  {
    ShiftedOut(buf, Values(bits - 8), 256);
  }

  lemma AccumulatedPadding(buf: nat, bits: nat)
    requires bits == 2 || bits == 4
    ensures Padded(buf, bits) % WORD % 64 == Padded(Low(buf, bits), bits)
  {
    if bits == 2 {
      DivModUnique(buf * 16 % WORD, 64, buf / 4 - buf * 16 / WORD * 0x400_0000, buf % 4 * 16);
    } else {
      DivModUnique(buf * 4 % WORD, 64, buf / 16 - buf * 4 / WORD * 0x400_0000, buf % 16 * 4);
    }
  }

  lemma ByteTaken(buf: nat, bits: nat, s: Bytes)
    requires bits < 6 && Values(bits) > 0 && s != []
    ensures Symbols(Low(buf, bits), bits, s) == Symbols(Low(buf * 256 % WORD + s[0], bits + 8), bits + 8, s[1..])
  {
    AccumulatedByte(buf, bits, s[0]);
  }

  lemma SixGiven(buf: nat, bits: nat, s: Bytes, out: Bytes)
    requires bits >= 6 && Values(bits) > 0
    ensures out + Symbols(Low(buf, bits), bits, s)
         == (out + [Symbol(Above(buf, bits - 6) % 64)]) + Symbols(Low(buf, bits - 6), bits - 6, s)
  {
    AccumulatedSix(buf, bits);
    var six, rest := [Symbol(Above(buf, bits - 6) % 64)], Symbols(Low(buf, bits - 6), bits - 6, s);
    assert out + (six + rest) == (out + six) + rest;
  }

  lemma PaddingGiven(buf: nat, bits: nat, out: Bytes)
    requires bits < 6 && Values(bits) > 0
    ensures out + Symbols(Low(buf, bits), bits, [])
         == if bits == 0 then out else out + [Symbol(Padded(buf, bits) % WORD % 64)]
  {
    if bits == 0 {
      assert out + [] == out;
    } else {
      AccumulatedPadding(buf, bits);
    }
  }

  method Encode(src: Bytes) returns (out: Bytes)
    ensures out == Encoded(src)
  {
    out := [];
    var buf: nat, bits: nat := 0, 0;
    for i := 0 to |src|
      invariant bits < 6 && Values(bits) > 0
      invariant out + Symbols(Low(buf, bits), bits, src[i..]) == Encoded(src)
    {
      ByteTaken(buf, bits, src[i..]);
      assert src[i..][1..] == src[i + 1..];
      buf := buf * 256 % WORD + src[i];
      bits := bits + 8;
      while bits >= 6
        invariant Values(bits) > 0
        invariant out + Symbols(Low(buf, bits), bits, src[i + 1..]) == Encoded(src)
      {
        SixGiven(buf, bits, src[i + 1..], out);
        bits := bits - 6;
        out := out + [Symbol(Above(buf, bits) % 64)];
      }
    }
    PaddingGiven(buf, bits, out);
    if bits > 0 {
      out := out + [Symbol(Padded(buf, bits) % WORD % 64)];
    }
  }

  lemma PrefixedInTurn(out: Bytes, more: Bytes, rest: Option<Bytes>)
    ensures Prefixed([], rest) == rest
    ensures Prefixed(out, Prefixed(more, rest)) == Prefixed(out + more, rest)
  {
    if rest.Some? {
      assert [] + rest.value == rest.value;
      assert out + (more + rest.value) == (out + more) + rest.value;
    }
  }

  lemma SymbolTaken(buf: nat, bits: nat, s: Bytes, out: Bytes)
    requires bits < 8 && Values(bits) > 0 && s != [] && ValueOf(s[0]).Some?
    ensures var buf', bits' := buf * 64 % WORD + ValueOf(s[0]).value, bits + 6;
              Prefixed(out, BytesOf(Low(buf, bits), bits, s))
              == if bits' < 8 then Prefixed(out, BytesOf(Low(buf', bits'), bits', s[1..]))
                 else Prefixed(out + [Above(buf', bits' - 8) % 256], BytesOf(Low(buf', bits' - 8), bits' - 8, s[1..]))
  {
    ValueReadsBack(s[0]);
    var buf', bits' := buf * 64 % WORD + ValueOf(s[0]).value, bits + 6;
    AccumulatedSymbol(buf, bits, ValueOf(s[0]).value);
    if bits' >= 8 {
      AccumulatedEight(buf', bits');
      PrefixedInTurn(out, [Above(buf', bits' - 8) % 256], BytesOf(Low(buf', bits' - 8), bits' - 8, s[1..]));
    }
  }

  method Decode(s: Bytes) returns (r: Option<Bytes>)
    ensures r == Decoded(s)
  {
    var out: Bytes := [];
    PrefixedInTurn([], [], Decoded(s));
    var buf: nat, bits: nat := 0, 0;
    for i := 0 to |s|
      invariant bits < 8 && Values(bits) > 0
      invariant Decoded(s) == Prefixed(out, BytesOf(Low(buf, bits), bits, s[i..]))
    {
      assert s[i..][1..] == s[i + 1..];
      if s[i] == NEWLINE {
        continue;
      }
      var v := ValueOf(s[i]);
      if v.None? {
        return None;
      }
      SymbolTaken(buf, bits, s[i..], out);
      buf := buf * 64 % WORD + v.value;
      bits := bits + 6;
      if bits >= 8 {
        bits := bits - 8;
        out := out + [Above(buf, bits) % 256];
      }
    }
    assert out + [] == out;
    r := Some(out);
  }
}
