/** Postings as the lines that peers exchange: libraries/yacyproto/rwi_posting_wire_form.go. */
module WireForm {
  import opened Appearances
  import opened Arithmetic
  import opened Base64
  import opened ByteStrings
  import opened DecimalPrefixes
  import opened Hashes
  import opened KeyOrder
  import opened Languages
  import opened PropertyPairs
  import opened RwiPostings
  import opened Separators
  import opened VarInts
  import opened Wrappers

  const MICRO_DATE_MODULUS := 0x4_0000
  const BYTE_MODULUS := 0x100
  const UINT16_MODULUS := 0x1_0000
  const UNKNOWN: Byte := 0
  const LAST_TYPE := 10

  datatype Column =
    | UrlHash | LastModified | TitleWords | TextWords | Phrases | DocType | Language | LocalLinks
    | ExternalLinks | UrlLength | UrlComponents | Flags | Hits | TextPosition | RelativePosition | PhrasePosition

  function Letter(c: Column): char {
    match c
    case UrlHash => 'h'
    case LastModified => 'a'
    case TitleWords => 'u'
    case TextWords => 'w'
    case Phrases => 'p'
    case DocType => 'd'
    case Language => 'l'
    case LocalLinks => 'x'
    case ExternalLinks => 'y'
    case UrlLength => 'm'
    case UrlComponents => 'n'
    case Flags => 'z'
    case Hits => 'c'
    case TextPosition => 't'
    case RelativePosition => 'r'
    case PhrasePosition => 'o'
  }

  function KeyOf(c: Column): (key: Bytes)
    ensures IsText(key) && key != []
  {
    [Letter(c) as int]
  }

  function ColumnOf(letter: Byte): Column {
    match letter as char
    case 'h' => UrlHash
    case 'a' => LastModified
    case 'u' => TitleWords
    case 'w' => TextWords
    case 'p' => Phrases
    case 'd' => DocType
    case 'l' => Language
    case 'x' => LocalLinks
    case 'y' => ExternalLinks
    case 'm' => UrlLength
    case 'n' => UrlComponents
    case 'z' => Flags
    case 'c' => Hits
    case 't' => TextPosition
    case 'r' => RelativePosition
    case _ => PhrasePosition
  }

  /** The letter of a document type; none for a type the protocol does not have. */
  function CharOf(documentType: Byte): Byte {
    match documentType
    case 0 => 'u' as int
    case 1 => 't' as int
    case 2 => 'h' as int
    case 3 => 'd' as int
    case 4 => 'i' as int
    case 5 => 'm' as int
    case 6 => 'f' as int
    case 7 => 's' as int
    case 8 => 'a' as int
    case 9 => 'p' as int
    case 10 => 'b' as int
    case _ => 0
  }

  /** A letter that stands for no document type is read as the unknown one. */
  function TypeOf(letter: Byte): Byte {
    match letter as char
    case 't' => 1
    case 'h' => 2
    case 'd' => 3
    case 'i' => 4
    case 'm' => 5
    case 'f' => 6
    case 's' => 7
    case 'a' => 8
    case 'p' => 9
    case 'b' => 10
    case _ => UNKNOWN
  }

  lemma TypeReadsBack(documentType: Byte)
    ensures TypeOf(CharOf(documentType)) == if documentType <= LAST_TYPE then documentType else UNKNOWN
  {
  }

  /** The remainder of a division that rounds towards zero. */
  function TruncatedRemainder(x: int, m: nat): int
    requires m > 0
  {
    if x >= 0 then x % m else -((-x) % m)
  }

  lemma WrappedRemainder(x: int, m: nat)
    requires m > 0
    ensures var r := TruncatedRemainder(x, m); x % m == if r < 0 then r + m else r
  {
    if x < 0 {
      var q, r := (-x) / m, (-x) % m;
      assert -x == m * q + r;
      assert m * q == q * m;
      if r == 0 {
        assert (-q) * m == -(q * m);
        DivModUnique(x, m, -q, 0);
      } else {
        assert (-q - 1) * m == -(q * m) - m;
        DivModUnique(x, m, -q - 1, m - r);
      }
    }
  }

  function MicroDateEncoded(day: int): (days: nat)
    ensures days == day % MICRO_DATE_MODULUS
  {
    WrappedRemainder(day, MICRO_DATE_MODULUS);
    var days := TruncatedRemainder(day, MICRO_DATE_MODULUS);
    if days < 0 then days + MICRO_DATE_MODULUS else days
  }

  function ColumnText(p: Posting, c: Column): Bytes {
    match c
    case UrlHash => p.url
    case LastModified => Written(MicroDateEncoded(p.lastModified))
    case TitleWords => Written(p.titleWords)
    case TextWords => Written(p.textWords)
    case Phrases => Written(p.phrases)
    case DocType => Written(CharOf(p.documentType))
    case Language => p.language
    case LocalLinks => Written(p.localLinks)
    case ExternalLinks => Written(p.externalLinks)
    case UrlLength => Written(p.urlLength)
    case UrlComponents => Written(p.urlComponents)
    case Flags => Encoded(FieldOf(p.appearance))
    case Hits => Written(p.hits)
    case TextPosition => Written(p.textPosition)
    case RelativePosition => Written(p.phraseRelativePosition)
    case PhrasePosition => Written(p.phrasePosition)
  }

  function ColumnKeys(): set<Bytes> {
    set c: Column | true :: KeyOf(c)
  }

  function PropertiesOf(p: Posting): Properties {
    map key | key in ColumnKeys() :: ColumnText(p, ColumnOf(key[0]))
  }

  lemma PropertyAt(p: Posting, c: Column)
    ensures KeyOf(c) in PropertiesOf(p) && PropertiesOf(p)[KeyOf(c)] == ColumnText(p, c)
  {
    assert ColumnOf(KeyOf(c)[0]) == c;
  }

  /** The text of a column; an absent one is empty. */
  function TextIn(props: Properties, c: Column): Bytes {
    if KeyOf(c) in props then props[KeyOf(c)] else []
  }

  function Cardinal(props: Properties, c: Column): nat {
    if KeyOf(c) in props then Unsigned(PrefixOf(props[KeyOf(c)])) else 0
  }

  function ByteCardinal(props: Properties, c: Column): (n: Byte) {
    Cardinal(props, c) % BYTE_MODULUS
  }

  function Uint16Cardinal(props: Properties, c: Column): nat {
    Cardinal(props, c) % UINT16_MODULUS
  }

  /** The language that the first two letters name; peers are known to send more. */
  function LanguageIn(props: Properties): Option<Bytes> {
    var value := TextIn(props, Language);
    var code := if |value| > CODE_LENGTH then value[..CODE_LENGTH] else value;
    if IsLanguage(code) then Some(code) else None
  }

  function AppearanceIn(props: Properties): Option<Appearance> {
    if KeyOf(Flags) !in props then Some(OfField([]))
    else
      match Decoded(props[KeyOf(Flags)])
      case None => None
      case Some(field) => Some(OfField(field))
  }

  function Domain(word: Bytes, props: Properties): Option<Posting> {
    var url, language, appearance := TextIn(props, UrlHash), LanguageIn(props), AppearanceIn(props);
    if !IsHash(url) || language.None? || appearance.None? then None
    else
      Some(Posting(
             word := word,
             url := url,
             lastModified := Cardinal(props, LastModified) % MICRO_DATE_MODULUS,
             titleWords := ByteCardinal(props, TitleWords),
             textWords := Uint16Cardinal(props, TextWords),
             phrases := Uint16Cardinal(props, Phrases),
             documentType := TypeOf(ByteCardinal(props, DocType)),
             language := language.value,
             localLinks := ByteCardinal(props, LocalLinks),
             externalLinks := ByteCardinal(props, ExternalLinks),
             urlLength := ByteCardinal(props, UrlLength),
             urlComponents := ByteCardinal(props, UrlComponents),
             appearance := appearance.value,
             hits := ByteCardinal(props, Hits),
             textPosition := Uint16Cardinal(props, TextPosition),
             phraseRelativePosition := ByteCardinal(props, RelativePosition),
             phrasePosition := ByteCardinal(props, PhrasePosition)))
  }

  /** What the types of the program admit: machine integers, and hashes and languages that may be unset. */
  predicate IsPosting(p: Posting) {
    && (p.word == [] || IsHash(p.word)) && (p.url == [] || IsHash(p.url))
    && (p.language == [] || IsLanguage(p.language))
    && forall c: Column :: IsInt(Count(p, c))
  }

  function Count(p: Posting, c: Column): int {
    match c
    case LastModified => p.lastModified
    case TitleWords => p.titleWords
    case TextWords => p.textWords
    case Phrases => p.phrases
    case LocalLinks => p.localLinks
    case ExternalLinks => p.externalLinks
    case UrlLength => p.urlLength
    case UrlComponents => p.urlComponents
    case Hits => p.hits
    case TextPosition => p.textPosition
    case RelativePosition => p.phraseRelativePosition
    case PhrasePosition => p.phrasePosition
    case _ => 0
  }

  predicate IsComplete(p: Posting) {
    IsHash(p.word) && IsHash(p.url) && IsLanguage(p.language)
  }

  /** What is left of a posting on the wire: every cardinal modulo the width of its column. */
  function Reduced(p: Posting): Posting {
    p.(lastModified := p.lastModified % MICRO_DATE_MODULUS,
       titleWords := p.titleWords % BYTE_MODULUS,
       textWords := p.textWords % UINT16_MODULUS,
       phrases := p.phrases % UINT16_MODULUS,
       documentType := if p.documentType <= LAST_TYPE then p.documentType else UNKNOWN,
       localLinks := p.localLinks % BYTE_MODULUS,
       externalLinks := p.externalLinks % BYTE_MODULUS,
       urlLength := p.urlLength % BYTE_MODULUS,
       urlComponents := p.urlComponents % BYTE_MODULUS,
       hits := p.hits % BYTE_MODULUS,
       textPosition := p.textPosition % UINT16_MODULUS,
       phraseRelativePosition := p.phraseRelativePosition % BYTE_MODULUS,
       phrasePosition := p.phrasePosition % BYTE_MODULUS)
  }

  predicate IsCardinal(c: Column) {
    c != UrlHash && c != Language && c != Flags && c != DocType && c != LastModified
  }

  lemma WordRemainder(x: int)
    ensures x % WORD64 % BYTE_MODULUS == x % BYTE_MODULUS
    ensures x % WORD64 % UINT16_MODULUS == x % UINT16_MODULUS
    ensures x % WORD64 % MICRO_DATE_MODULUS == x % MICRO_DATE_MODULUS
  {
    var q, r := x / WORD64, x % WORD64;
    DivModUnique(x, BYTE_MODULUS, q * 0x100_0000_0000_0000 + r / BYTE_MODULUS, r % BYTE_MODULUS);
    DivModUnique(x, UINT16_MODULUS, q * 0x1_0000_0000_0000 + r / UINT16_MODULUS, r % UINT16_MODULUS);
    DivModUnique(x, MICRO_DATE_MODULUS, q * 0x4000_0000_0000 + r / MICRO_DATE_MODULUS, r % MICRO_DATE_MODULUS);
  }

  lemma CardinalText(p: Posting, c: Column)
    requires IsCardinal(c)
    ensures ColumnText(p, c) == Written(Count(p, c))
  {
  }

  lemma CardinalReadsBack(p: Posting, c: Column)
    requires IsPosting(p) && IsCardinal(c)
    ensures Cardinal(PropertiesOf(p), c) == Count(p, c) % WORD64
    ensures ByteCardinal(PropertiesOf(p), c) == Count(p, c) % BYTE_MODULUS
    ensures Uint16Cardinal(PropertiesOf(p), c) == Count(p, c) % UINT16_MODULUS
  {
    PropertyAt(p, c);
    CardinalText(p, c);
    var n := Count(p, c);
    assert IsInt(n);
    WrittenReadsBack(n);
    WordRemainder(n);
  }

  lemma DayReadsBack(p: Posting)
    requires IsPosting(p)
    ensures Cardinal(PropertiesOf(p), LastModified) % MICRO_DATE_MODULUS == p.lastModified % MICRO_DATE_MODULUS
  {
    var days := MicroDateEncoded(p.lastModified);
    PropertyAt(p, LastModified);
    WrittenReadsBack(days);
    DivModUnique(days, WORD64, 0, days);
    DivModUnique(days, MICRO_DATE_MODULUS, 0, days);
  }

  lemma DocTypeReadsBack(p: Posting)
    ensures TypeOf(ByteCardinal(PropertiesOf(p), DocType)) == Reduced(p).documentType
  {
    var letter := CharOf(p.documentType);
    PropertyAt(p, DocType);
    WrittenReadsBack(letter);
    DivModUnique(letter, WORD64, 0, letter);
    DivModUnique(letter, BYTE_MODULUS, 0, letter);
    TypeReadsBack(p.documentType);
  }

  lemma TextsReadBack(p: Posting)
    requires IsPosting(p)
    ensures TextIn(PropertiesOf(p), UrlHash) == p.url
    ensures LanguageIn(PropertiesOf(p)) == if IsLanguage(p.language) then Some(p.language) else None
    ensures AppearanceIn(PropertiesOf(p)) == Some(p.appearance)
  {
    PropertyAt(p, UrlHash);
    PropertyAt(p, Language);
    PropertyAt(p, Flags);
    BytesReadBack(FieldOf(p.appearance));
    FieldReadsBack(p.appearance);
  }

  lemma ByteReadsBack(p: Posting, c: Column, n: int)
    requires IsPosting(p) && IsCardinal(c) && n == Count(p, c)
    ensures ByteCardinal(PropertiesOf(p), c) == n % BYTE_MODULUS
  {
    CardinalReadsBack(p, c);
  }

  lemma Uint16ReadsBack(p: Posting, c: Column, n: int)
    requires IsPosting(p) && IsCardinal(c) && n == Count(p, c)
    ensures Uint16Cardinal(PropertiesOf(p), c) == n % UINT16_MODULUS
  {
    CardinalReadsBack(p, c);
  }

  lemma WordCountsReadBack(p: Posting, props: Properties)
    requires IsPosting(p) && props == PropertiesOf(p)
    ensures ByteCardinal(props, TitleWords) == p.titleWords % BYTE_MODULUS
    ensures Uint16Cardinal(props, TextWords) == p.textWords % UINT16_MODULUS
    ensures Uint16Cardinal(props, Phrases) == p.phrases % UINT16_MODULUS
  {
    ByteReadsBack(p, TitleWords, p.titleWords);
    Uint16ReadsBack(p, TextWords, p.textWords);
    Uint16ReadsBack(p, Phrases, p.phrases);
  }

  lemma LinkCountsReadBack(p: Posting, props: Properties)
    requires IsPosting(p) && props == PropertiesOf(p)
    ensures ByteCardinal(props, LocalLinks) == p.localLinks % BYTE_MODULUS
    ensures ByteCardinal(props, ExternalLinks) == p.externalLinks % BYTE_MODULUS
  {
    ByteReadsBack(p, LocalLinks, p.localLinks);
    ByteReadsBack(p, ExternalLinks, p.externalLinks);
  }

  lemma UrlCountsReadBack(p: Posting, props: Properties)
    requires IsPosting(p) && props == PropertiesOf(p)
    ensures ByteCardinal(props, UrlLength) == p.urlLength % BYTE_MODULUS
    ensures ByteCardinal(props, UrlComponents) == p.urlComponents % BYTE_MODULUS
  {
    ByteReadsBack(p, UrlLength, p.urlLength);
    ByteReadsBack(p, UrlComponents, p.urlComponents);
  }

  lemma PlacesReadBack(p: Posting, props: Properties)
    requires IsPosting(p) && props == PropertiesOf(p)
    ensures ByteCardinal(props, Hits) == p.hits % BYTE_MODULUS
    ensures Uint16Cardinal(props, TextPosition) == p.textPosition % UINT16_MODULUS
    ensures ByteCardinal(props, RelativePosition) == p.phraseRelativePosition % BYTE_MODULUS
    ensures ByteCardinal(props, PhrasePosition) == p.phrasePosition % BYTE_MODULUS
  {
    ByteReadsBack(p, Hits, p.hits);
    Uint16ReadsBack(p, TextPosition, p.textPosition);
    ByteReadsBack(p, RelativePosition, p.phraseRelativePosition);
    ByteReadsBack(p, PhrasePosition, p.phrasePosition);
  }

  /** The columns of a posting give back what of it fits them, unless its URL or language is unset. */
  lemma DomainReadsBack(p: Posting, props: Properties)
    requires IsPosting(p) && props == PropertiesOf(p)
    ensures Domain(p.word, props) == if IsHash(p.url) && IsLanguage(p.language) then Some(Reduced(p)) else None
  {
    TextsReadBack(p);
    DayReadsBack(p);
    DocTypeReadsBack(p);
    WordCountsReadBack(p, props);
    LinkCountsReadBack(p, props);
    UrlCountsReadBack(p, props);
    PlacesReadBack(p, props);
  }

  /** A posting's line: the word hash and the property form. */
  function LineOf(p: Posting): Bytes {
    p.word + ([OPEN] + Body(PropertiesOf(p)) + [CLOSE])
  }

  function PostedUnder(word: Bytes, body: Bytes): Option<Posting> {
    if !IsHash(word) then None
    else
      match ParsedPairs(body)
      case None => None
      case Some(props) => Domain(word, props)
  }

  function Posted(line: Bytes): Option<Posting> {
    var open := IndexOf(line, OPEN);
    if open == |line| || line[|line| - 1] != CLOSE then None
    else PostedUnder(line[..open], line[open + 1..|line| - 1])
  }

  method DecodeForm(word: Bytes, body: Bytes) returns (r: Option<Posting>)
    ensures r == PostedUnder(word, body)
  {
    var hash := ParseHash(word);
    if hash.None? {
      return None;
    }
    var props := ParsePropertyPairs(body);
    if props.None? {
      return None;
    }
    r := Domain(hash.value, props.value);
  }

  method DecodeLine(line: Bytes) returns (r: Option<Posting>)
    ensures r == Posted(line)
  {
    var open := IndexOf(line, OPEN);
    if open == |line| || line[|line| - 1] != CLOSE {
      return None;
    }
    r := DecodeForm(line[..open], line[open + 1..|line| - 1]);
  }

  method EncodeLine(p: Posting) returns (line: Bytes)
    ensures line == LineOf(p)
  {
    var form := PropertyForm(PropertiesOf(p));
    line := p.word + form;
  }

  lemma TextIsPlain(s: Bytes)
    requires IsText(s)
    ensures COMMA !in s && EQUALS !in s && OPEN !in s && CLOSE !in s && NEWLINE !in s && IsTrimmed(s)
  {
  }

  lemma ColumnsAreText(p: Posting, c: Column)
    requires IsPosting(p)
    ensures IsText(ColumnText(p, c))
  {
    match c
    case UrlHash =>
    case Language =>
    case Flags => SymbolsAreText(0, 0, FieldOf(p.appearance));
    case LastModified => WrittenIsPlain(MicroDateEncoded(p.lastModified));
    case DocType => WrittenIsPlain(CharOf(p.documentType));
    case _ => CardinalText(p, c); WrittenIsPlain(Count(p, c));
  }

  lemma PropertiesAreText(p: Posting, key: Bytes)
    requires IsPosting(p) && key in PropertiesOf(p)
    ensures key != [] && IsText(key) && IsText(PropertiesOf(p)[key])
  {
    var c :| key == KeyOf(c);
    PropertyAt(p, c);
    ColumnsAreText(p, c);
  }

  lemma PropertiesAreClean(p: Posting)
    requires IsPosting(p)
    ensures IsClean(PropertiesOf(p))
  {
    forall key | key in PropertiesOf(p)
      ensures IsCleanKey(key) && IsCleanValue(PropertiesOf(p)[key])
    {
      PropertiesAreText(p, key);
      TextIsPlain(key);
      TextIsPlain(PropertiesOf(p)[key]);
    }
  }

  lemma FormParts(word: Bytes, body: Bytes)
    requires OPEN !in word
    ensures var line := word + ([OPEN] + body + [CLOSE]);
            && IndexOf(line, OPEN) == |word| && |word| < |line| && line[|line| - 1] == CLOSE
            && line[..|word|] == word && line[|word| + 1..|line| - 1] == body
  {
    IndexOfAfter(word, OPEN, body + [CLOSE]);
    assert [OPEN] + body + [CLOSE] == [OPEN] + (body + [CLOSE]);
  }

  /**
   * A printed line is read back exactly when the posting has its hashes and its language. What
   * is read is the posting with every cardinal, negative ones included, modulo its column.
   */
  lemma LineReadsBackIff(p: Posting)
    requires IsPosting(p)
    ensures Posted(LineOf(p)) == if IsComplete(p) then Some(Reduced(p)) else None
  {
    var props := PropertiesOf(p);
    TextIsPlain(p.word);
    PostedIs(p.word, Body(props), []);
    PropertiesAreClean(p);
    PropertiesReadBack(props);
    DomainReadsBack(p, props);
  }

  const MAX_POSTINGS := 1000
  const RETURN: Byte := '\r' as int

  function Lines(ps: seq<Posting>): (lines: seq<Bytes>)
    ensures |lines| == |ps|
  {
    seq(|ps|, i requires 0 <= i < |ps| => LineOf(ps[i]))
  }

  method EncodeLines(ps: seq<Posting>) returns (raw: Bytes)
    ensures raw == Joined(Lines(ps), NEWLINE)
  {
    var lines: seq<Bytes> := [];
    for i := 0 to |ps|
      invariant lines == Lines(ps)[..i]
    {
      var line := EncodeLine(ps[i]);
      lines := lines + [line];
    }
    assert Lines(ps)[..|ps|] == Lines(ps);
    raw := Joined(lines, NEWLINE);
  }

  function WithoutReturns(line: Bytes): (r: Bytes)
    ensures |r| <= |line|
  {
    if line != [] && line[|line| - 1] == RETURN then WithoutReturns(line[..|line| - 1]) else line
  }

  /** The posting on a line, if there is one that is not malformed. */
  function OnLine(line: Bytes): Option<Posting> {
    var form := WithoutReturns(line);
    if form == [] then None else Posted(form)
  }

  function OnLines(lines: seq<Bytes>): (found: seq<Option<Posting>>)
    ensures |found| == |lines|
  {
    seq(|lines|, i requires 0 <= i < |lines| => OnLine(lines[i]))
  }

  function Present<T>(found: seq<Option<T>>): seq<T> {
    if found == [] then []
    else if found[0].Some? then [found[0].value] + Present(found[1..])
    else Present(found[1..])
  }

  lemma OneMorePresent<T>(found: seq<Option<T>>, n: nat, read: seq<T>, limit: nat)
    requires n < |found| && |read| < limit
    ensures read + FirstOf(Present(found[n..]), limit - |read|)
         == match found[n]
            case None => read + FirstOf(Present(found[n + 1..]), limit - |read|)
            case Some(x) => (read + [x]) + FirstOf(Present(found[n + 1..]), limit - |read| - 1)
  {
    assert found[n..][0] == found[n] && found[n..][1..] == found[n + 1..];
    if found[n].Some? {
      var others := Present(found[n + 1..]);
      assert FirstOf([found[n].value] + others, limit - |read|)
          == [found[n].value] + FirstOf(others, limit - |read| - 1);
    }
  }

  /** Reads the first postings that are on the lines; malformed lines are dropped. */
  method DecodeLines(raw: Bytes) returns (ps: seq<Posting>)
    ensures ps == FirstOf(Present(OnLines(Split(raw, '\n' as int))), 1000)
  {
    ps := [];
    var lines := Split(raw, NEWLINE);
    ghost var found := OnLines(lines);
    assert found[0..] == found;
    for n := 0 to |lines|
      invariant |ps| <= MAX_POSTINGS
      invariant FirstOf(Present(found), MAX_POSTINGS) == ps + FirstOf(Present(found[n..]), MAX_POSTINGS - |ps|)
    {
      if |ps| < MAX_POSTINGS {
        OneMorePresent(found, n, ps, MAX_POSTINGS);
      }
      assert found[n] == OnLine(lines[n]);
      var line := WithoutReturns(lines[n]);
      if line == [] {
        if |ps| == MAX_POSTINGS {
          assert FirstOf(Present(found[n + 1..]), 0) == FirstOf(Present(found[n..]), 0);
        }
        continue;
      }
      if |ps| >= MAX_POSTINGS {
        break;
      }
      var p := DecodeLine(line);
      if p.None? {
        continue;
      }
      ps := ps + [p.value];
    }
  }

  /** What of a posting survives the wire. */
  function Survivor(p: Posting): Option<Posting> {
    if IsComplete(p) then Some(Reduced(p)) else None
  }

  function Survivors(ps: seq<Posting>): (found: seq<Option<Posting>>)
    ensures |found| == |ps|
  {
    seq(|ps|, i requires 0 <= i < |ps| => Survivor(ps[i]))
  }

  lemma BodyHasNoNewline(p: Posting)
    requires IsPosting(p)
    ensures NEWLINE !in Body(PropertiesOf(p))
  {
    var props := PropertiesOf(p);
    var keys := SortedKeys(props);
    forall i | 0 <= i < |keys|
      ensures NEWLINE !in Pairs(keys, props)[i]
    {
      PropertiesAreText(p, keys[i]);
      TextIsPlain(keys[i]);
      TextIsPlain(props[keys[i]]);
    }
    JoinedWithout(Pairs(keys, props), COMMA, NEWLINE);
  }

  lemma {:induction false} JoinedWithout(parts: seq<Bytes>, separator: Byte, b: Byte)
    requires b != separator && forall i | 0 <= i < |parts| :: b !in parts[i]
    ensures b !in Joined(parts, separator)
  {
    if |parts| > 1 {
      JoinedWithout(parts[1..], separator, b);
    }
  }

  lemma LineIsOneLine(p: Posting)
    requires IsPosting(p)
    ensures NEWLINE !in LineOf(p) && LineOf(p) != [] && WithoutReturns(LineOf(p)) == LineOf(p)
  {
    TextIsPlain(p.word);
    BodyHasNoNewline(p);
    var line := LineOf(p);
    assert line[|line| - 1] == CLOSE;
  }

  lemma SurvivorOnItsLine(p: Posting)
    requires IsPosting(p)
    ensures OnLine(LineOf(p)) == Survivor(p)
  {
    LineIsOneLine(p);
    LineReadsBackIff(p);
  }

  lemma LinesSplit(ps: seq<Posting>)
    requires ps != [] && forall i | 0 <= i < |ps| :: IsPosting(ps[i])
    ensures Split(Joined(Lines(ps), NEWLINE), NEWLINE) == Lines(ps)
  {
    forall i | 0 <= i < |ps|
      ensures NEWLINE !in Lines(ps)[i]
    {
      LineIsOneLine(ps[i]);
    }
    SplitOfJoined(Lines(ps), NEWLINE);
  }

  lemma NoLines()
    ensures Present(OnLines(Split([], NEWLINE))) == []
  {
    assert OnLines([[]]) == [None];
    assert Present<Posting>([None]) == Present<Posting>([]);
  }

  /**
   * A batch is on its lines in order: the postings of it that are complete, each reduced to what
   * its columns hold.
   */
  lemma BatchReadsBack(ps: seq<Posting>)
    requires forall i | 0 <= i < |ps| :: IsPosting(ps[i])
    ensures Present(OnLines(Split(Joined(Lines(ps), NEWLINE), NEWLINE)))
         == Present(Survivors(ps))
  {
    if ps == [] {
      NoLines();
    } else {
      LinesSplit(ps);
      forall i | 0 <= i < |ps|
        ensures OnLines(Lines(ps))[i] == Survivor(ps[i])
      {
        SurvivorOnItsLine(ps[i]);
      }
      assert OnLines(Lines(ps)) == Survivors(ps);
    }
  }

  lemma {:induction false} CompletePostingsSurvive(ps: seq<Posting>)
    requires forall i | 0 <= i < |ps| :: IsComplete(ps[i])
    ensures Present(Survivors(ps)) == seq(|ps|, i requires 0 <= i < |ps| => Reduced(ps[i]))
  {
    if ps != [] {
      CompletePostingsSurvive(ps[1..]);
      assert Survivors(ps)[1..] == Survivors(ps[1..]);
      assert Survivors(ps)[0] == Some(Reduced(ps[0]));
    }
  }

  /** A batch of complete postings comes back whole and in order, or the first thousand of it. */
  lemma CompleteBatchReadsBack(ps: seq<Posting>)
    requires forall i | 0 <= i < |ps| :: IsPosting(ps[i]) && IsComplete(ps[i])
    ensures FirstOf(Present(OnLines(Split(Joined(Lines(ps), '\n' as int), '\n' as int))), 1000)
         == FirstOf(seq(|ps|, i requires 0 <= i < |ps| => Reduced(ps[i])), 1000)
  {
    BatchReadsBack(ps);
    CompletePostingsSurvive(ps);
  }

  // ------------------------------------------- what the lines of other peers mean

  /** Every column has its letter. */
  lemma LettersAre()
    ensures KeyOf(UrlHash) == ['h' as int] && KeyOf(LastModified) == ['a' as int]
    ensures KeyOf(TitleWords) == ['u' as int] && KeyOf(TextWords) == ['w' as int] && KeyOf(Phrases) == ['p' as int]
    ensures KeyOf(DocType) == ['d' as int] && KeyOf(Language) == ['l' as int]
    ensures KeyOf(LocalLinks) == ['x' as int] && KeyOf(ExternalLinks) == ['y' as int]
    ensures KeyOf(UrlLength) == ['m' as int] && KeyOf(UrlComponents) == ['n' as int]
    ensures KeyOf(Flags) == ['z' as int] && KeyOf(Hits) == ['c' as int] && KeyOf(TextPosition) == ['t' as int]
    ensures KeyOf(RelativePosition) == ['r' as int] && KeyOf(PhrasePosition) == ['o' as int]
  {
  }

  /** A printed line has exactly the columns, each with its field of the posting. */
  lemma ColumnsWritten(p: Posting, c: Column)
    ensures PropertiesOf(p).Keys == set d: Column | true :: KeyOf(d)
    ensures PropertiesOf(p)[KeyOf(c)] ==
      match c
      case UrlHash => p.url
      case LastModified => Written(p.lastModified % 0x4_0000)
      case TitleWords => Written(p.titleWords)
      case TextWords => Written(p.textWords)
      case Phrases => Written(p.phrases)
      case DocType => Written(CharOf(p.documentType))
      case Language => p.language
      case LocalLinks => Written(p.localLinks)
      case ExternalLinks => Written(p.externalLinks)
      case UrlLength => Written(p.urlLength)
      case UrlComponents => Written(p.urlComponents)
      case Flags => Encoded(FieldOf(p.appearance))
      case Hits => Written(p.hits)
      case TextPosition => Written(p.textPosition)
      case RelativePosition => Written(p.phraseRelativePosition)
      case PhrasePosition => Written(p.phrasePosition)
  {
    PropertyAt(p, c);
  }

  /** Every document type has its letter, and no other letter is one. */
  lemma DocumentTypesAre(documentType: Byte, letter: Byte)
    ensures CharOf(documentType) == if documentType <= 10 then "uthdimfsapb"[documentType] as int else 0
    ensures TypeOf(letter) ==
      if exists t: Byte :: 1 <= t <= 10 && letter == CharOf(t) then (var t: Byte :| 1 <= t <= 10 && letter == CharOf(t); t)
      else 0
  {
    assert forall t: Byte :: 1 <= t <= 10 ==> TypeOf(CharOf(t)) == t;
    if TypeOf(letter) != 0 {
      assert letter == CharOf(TypeOf(letter));
    }
  }

  /** A cardinal that is absent is zero; one that is there is the number its text starts with. */
  lemma CardinalIs(props: Properties, c: Column)
    ensures KeyOf(c) !in props ==> Cardinal(props, c) == 0
    ensures KeyOf(c) in props ==> Cardinal(props, c) == Unsigned(PrefixOf(props[KeyOf(c)]))
  {
  }

  /** The language is what the first two letters of its column name; what comes after them is ignored. */
  lemma LanguageIs(props: Properties)
    ensures var value := if ['l' as int] in props then props[['l' as int]] else [];
      LanguageIn(props) ==
      if |value| >= 2 && 'a' as int <= value[0] <= 'z' as int && 'a' as int <= value[1] <= 'z' as int then Some(value[..2])
      else None
  {
    var value := TextIn(props, Language);
    assert |value| == 2 ==> value[..2] == value;
  }

  /** Without the column of the flags none is set; an unreadable one makes the line malformed. */
  lemma AppearanceIs(props: Properties)
    ensures AppearanceIn(props) ==
      if ['z' as int] !in props then Some(OfField([]))
      else if Decoded(props[['z' as int]]).None? then None
      else Some(OfField(Decoded(props[['z' as int]]).value))
  {
  }

  /** A posting is read when its URL hash, language and flags are; its cardinals are cut to their width. */
  lemma DomainIs(word: Bytes, props: Properties)
    ensures var url := if ['h' as int] in props then props[['h' as int]] else [];
      Domain(word, props).Some? <==> IsHash(url) && LanguageIn(props).Some? && AppearanceIn(props).Some?
    ensures Domain(word, props).Some? ==>
      var p := Domain(word, props).value;
      && p.word == word && p.url == props[['h' as int]]
      && Some(p.language) == LanguageIn(props) && Some(p.appearance) == AppearanceIn(props)
      && p.lastModified == Cardinal(props, LastModified) % 0x4_0000
      && p.documentType == TypeOf(Cardinal(props, DocType) % 0x100)
      && p.titleWords == Cardinal(props, TitleWords) % 0x100
      && p.textWords == Cardinal(props, TextWords) % 0x1_0000
      && p.phrases == Cardinal(props, Phrases) % 0x1_0000
      && p.localLinks == Cardinal(props, LocalLinks) % 0x100
      && p.externalLinks == Cardinal(props, ExternalLinks) % 0x100
      && p.urlLength == Cardinal(props, UrlLength) % 0x100
      && p.urlComponents == Cardinal(props, UrlComponents) % 0x100
      && p.hits == Cardinal(props, Hits) % 0x100
      && p.textPosition == Cardinal(props, TextPosition) % 0x1_0000
      && p.phraseRelativePosition == Cardinal(props, RelativePosition) % 0x100
      && p.phrasePosition == Cardinal(props, PhrasePosition) % 0x100
  {
  }

  /** What the width of every column leaves of a posting. */
  lemma ReducedIs(p: Posting)
    ensures var r := Reduced(p);
      && r.word == p.word && r.url == p.url && r.language == p.language && r.appearance == p.appearance
      && r.lastModified == p.lastModified % 0x4_0000
      && r.documentType == (if p.documentType <= 10 then p.documentType else 0)
      && r.titleWords == p.titleWords % 0x100
      && r.textWords == p.textWords % 0x1_0000
      && r.phrases == p.phrases % 0x1_0000
      && r.localLinks == p.localLinks % 0x100
      && r.externalLinks == p.externalLinks % 0x100
      && r.urlLength == p.urlLength % 0x100
      && r.urlComponents == p.urlComponents % 0x100
      && r.hits == p.hits % 0x100
      && r.textPosition == p.textPosition % 0x1_0000
      && r.phraseRelativePosition == p.phraseRelativePosition % 0x100
      && r.phrasePosition == p.phrasePosition % 0x100
    ensures IsComplete(p) <==> IsHash(p.word) && IsHash(p.url) && IsLanguage(p.language)
  {
  }

  /** A line is a word's hash, an opening brace, the pairs and a closing brace; any other line is malformed. */
  lemma PostedIs(word: Bytes, body: Bytes, line: Bytes)
    requires '{' as int !in word
    ensures Posted(word + (['{' as int] + body + ['}' as int])) ==
      if IsHash(word) && ParsedPairs(body).Some? then Domain(word, ParsedPairs(body).value) else None
    ensures Posted(line).Some? ==> '{' as int in line && line[|line| - 1] == '}' as int
  {
    FormParts(word, body);
  }

  lemma {:induction false} ReturnsDropped(line: Bytes, tail: Bytes)
    requires line != [] ==> line[|line| - 1] != '\r' as int
    requires forall i | 0 <= i < |tail| :: tail[i] == '\r' as int
    ensures WithoutReturns(line + tail) == line
    decreases |tail|
  {
    if tail == [] {
      assert line + tail == line;
    } else {
      var last := |tail| - 1;
      assert (line + tail)[..|line + tail| - 1] == line + tail[..last];
      ReturnsDropped(line, tail[..last]);
    }
  }

  /** Carriage returns at the end of a line are dropped, and a line of nothing else has no posting. */
  lemma OnLineIs(line: Bytes, tail: Bytes)
    requires line != [] ==> line[|line| - 1] != '\r' as int
    requires forall i | 0 <= i < |tail| :: tail[i] == '\r' as int
    ensures OnLine(line + tail) == if line == [] then None else Posted(line)
  {
    ReturnsDropped(line, tail);
  }
}
