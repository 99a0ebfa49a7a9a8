/** The stored form of postings: services/yacynode/internal/rwipostings/posting_directory_vault.go. */
module PostingRecords {
  import opened Appearances
  import opened ByteStrings
  import opened Languages
  import opened RecordLayouts
  import opened RwiPostings
  import opened StoredFields
  import opened VarInts
  import opened Wrappers

  const FIELDS := 15

  /** The language is the field with this index. */
  const LANGUAGE := 5

  function FieldOf(p: Posting, i: nat): Field {
    match i
    case 0 => SignedField(p.lastModified)
    case 1 => CountField(p.titleWords)
    case 2 => CountField(p.textWords)
    case 3 => CountField(p.phrases)
    case 4 => ByteField(p.documentType)
    case 5 => LanguageField(p.language)
    case 6 => CountField(p.localLinks)
    case 7 => CountField(p.externalLinks)
    case 8 => CountField(p.urlLength)
    case 9 => CountField(p.urlComponents)
    case 10 => MaskField(MaskOf(p.appearance))
    case 11 => CountField(p.hits)
    case 12 => CountField(p.textPosition)
    case 13 => CountField(p.phraseRelativePosition)
    case 14 => CountField(p.phrasePosition)
    case _ => ByteField(0)
  }

  function KindOf(i: nat): Kind {
    match i
    case 0 => SignedKind
    case 1 => CountKind
    case 2 => CountKind
    case 3 => CountKind
    case 4 => ByteKind
    case 5 => LanguageKind
    case 6 => CountKind
    case 7 => CountKind
    case 8 => CountKind
    case 9 => CountKind
    case 10 => MaskKind
    case 11 => CountKind
    case 12 => CountKind
    case 13 => CountKind
    case 14 => CountKind
    case _ => ByteKind
  }

  function Layout(): (layout: seq<Kind>)
    ensures |layout| == FIELDS
  {
    seq(FIELDS, i requires 0 <= i => KindOf(i))
  }

  function FieldsOf(p: Posting): (fields: seq<Field>)
    ensures |fields| == FIELDS
  {
    seq(FIELDS, i requires 0 <= i => FieldOf(p, i))
  }

  predicate IsCount(x: int) {
    0 <= x <= MAX_INT
  }

  predicate HasCounts(p: Posting) {
    && IsCount(p.titleWords) && IsCount(p.textWords) && IsCount(p.phrases)
    && IsCount(p.localLinks) && IsCount(p.externalLinks) && IsCount(p.urlLength) && IsCount(p.urlComponents)
    && IsCount(p.hits) && IsCount(p.textPosition) && IsCount(p.phraseRelativePosition) && IsCount(p.phrasePosition)
  }

  predicate HasInts(p: Posting) {
    && IsInt(p.titleWords) && IsInt(p.textWords) && IsInt(p.phrases)
    && IsInt(p.localLinks) && IsInt(p.externalLinks) && IsInt(p.urlLength) && IsInt(p.urlComponents)
    && IsInt(p.hits) && IsInt(p.textPosition) && IsInt(p.phraseRelativePosition) && IsInt(p.phrasePosition)
    && IsInt(p.lastModified)
  }

  /** A posting as its fields' types allow it: machine integers, and a language or none. */
  predicate IsStorable(p: Posting) {
    HasInts(p) && (p.language == [] || IsLanguage(p.language))
  }

  /** A posting with a language, and with counts that are not negative. */
  predicate WellFormed(p: Posting) {
    HasCounts(p) && IsInt(p.lastModified) && IsLanguage(p.language)
  }

  lemma WellFormedFits(p: Posting)
    requires WellFormed(p)
    ensures AllFit(Layout(), FieldsOf(p))
  {
    MaskFitsSixteenBits(p.appearance);
  }

  function PostingOf(fields: seq<Field>): Posting
    requires |fields| == FIELDS
  {
    Posting(
      word := [],
      url := [],
      lastModified := SignedIn(fields[0]),
      titleWords := CountIn(fields[1]),
      textWords := CountIn(fields[2]),
      phrases := CountIn(fields[3]),
      documentType := ByteIn(fields[4]),
      language := LanguageIn(fields[5]),
      localLinks := CountIn(fields[6]),
      externalLinks := CountIn(fields[7]),
      urlLength := CountIn(fields[8]),
      urlComponents := CountIn(fields[9]),
      appearance := OfMask(MaskIn(fields[10])),
      hits := CountIn(fields[11]),
      textPosition := CountIn(fields[12]),
      phraseRelativePosition := CountIn(fields[13]),
      phrasePosition := CountIn(fields[14])
    )
  }

  /** The record that holds the first k fields. */
  function RecordUpTo(p: Posting, k: nat): Bytes
    requires k <= FIELDS
  {
    RecordOf(FieldsOf(p)[..k])
  }

  function Decoded(data: Bytes): Result<Posting, CodecError> {
    if data == [] then Err(EmptyValue)
    else
      var all := ReadAll(Layout(), data);
      if all.cursor.Failed? then Err(Malformed) else Ok(PostingOf(all.value))
  }

  lemma Wrote(p: Posting, i: nat)
    requires i < FIELDS
    ensures RecordUpTo(p, i + 1) == RecordUpTo(p, i) + RecordLayouts.Packed(FieldOf(p, i))
  {
    PackedNext(FieldsOf(p), i);
  }

  lemma WroteCount(p: Posting, i: nat, count: int)
    requires i < FIELDS && FieldOf(p, i) == CountField(count)
    ensures RecordUpTo(p, i + 1) == RecordUpTo(p, i) + Uvarint(Unsigned(count))
  {
    Wrote(p, i);
  }

  method WriteWords(stored: Writer, p: Posting)
    requires stored.record == RecordUpTo(p, 0)
    modifies stored
    ensures stored.record == RecordUpTo(p, 4)
  {
    stored.Signed(p.lastModified);
    assert stored.record == RecordUpTo(p, 1) by { Wrote(p, 0); }
    stored.Count(p.titleWords);
    assert stored.record == RecordUpTo(p, 2) by { WroteCount(p, 1, p.titleWords); }
    stored.Count(p.textWords);
    assert stored.record == RecordUpTo(p, 3) by { WroteCount(p, 2, p.textWords); }
    stored.Count(p.phrases);
    assert stored.record == RecordUpTo(p, 4) by { WroteCount(p, 3, p.phrases); }
  }

  method WriteKind(stored: Writer, p: Posting)
    requires stored.record == RecordUpTo(p, 4)
    modifies stored
    ensures stored.record == RecordUpTo(p, 6)
  {
    stored.Byte(p.documentType);
    assert stored.record == RecordUpTo(p, 5) by { Wrote(p, 4); }
    stored.Text(p.language);
    assert stored.record == RecordUpTo(p, 6) by { Wrote(p, 5); }
  }

  method WriteLinks(stored: Writer, p: Posting)
    requires stored.record == RecordUpTo(p, 6)
    modifies stored
    ensures stored.record == RecordUpTo(p, 8)
  {
    stored.Count(p.localLinks);
    assert stored.record == RecordUpTo(p, 7) by { WroteCount(p, 6, p.localLinks); }
    stored.Count(p.externalLinks);
    assert stored.record == RecordUpTo(p, 8) by { WroteCount(p, 7, p.externalLinks); }
  }

  method WriteUrl(stored: Writer, p: Posting)
    requires stored.record == RecordUpTo(p, 8)
    modifies stored
    ensures stored.record == RecordUpTo(p, 10)
  {
    stored.Count(p.urlLength);
    assert stored.record == RecordUpTo(p, 9) by { WroteCount(p, 8, p.urlLength); }
    stored.Count(p.urlComponents);
    assert stored.record == RecordUpTo(p, 10) by { WroteCount(p, 9, p.urlComponents); }
  }

  method WriteHits(stored: Writer, p: Posting)
    requires stored.record == RecordUpTo(p, 10)
    modifies stored
    ensures stored.record == RecordUpTo(p, 12)
  {
    var mask := PackAppearance(p.appearance);
    stored.Wide(mask, 2);
    assert stored.record == RecordUpTo(p, 11) by { Wrote(p, 10); }
    stored.Count(p.hits);
    assert stored.record == RecordUpTo(p, 12) by { WroteCount(p, 11, p.hits); }
  }

  method WritePlaces(stored: Writer, p: Posting)
    requires stored.record == RecordUpTo(p, 12)
    modifies stored
    ensures stored.record == RecordUpTo(p, 15)
  {
    stored.Count(p.textPosition);
    assert stored.record == RecordUpTo(p, 13) by { WroteCount(p, 12, p.textPosition); }
    stored.Count(p.phraseRelativePosition);
    assert stored.record == RecordUpTo(p, 14) by { WroteCount(p, 13, p.phraseRelativePosition); }
    stored.Count(p.phrasePosition);
    assert stored.record == RecordUpTo(p, 15) by { WroteCount(p, 14, p.phrasePosition); }
  }

  method Encode(p: Posting) returns (record: Bytes)
    ensures record == RecordUpTo(p, FIELDS)
  {
    var stored := new Writer();
    WriteWords(stored, p);
    WriteKind(stored, p);
    WriteLinks(stored, p);
    WriteUrl(stored, p);
    WriteHits(stored, p);
    WritePlaces(stored, p);
    record := stored.record;
  }

  method ReadWords(stored: Reader, ghost p: Progress) returns (
    lastModified: int, titleWords: nat, textWords: nat, phrases: nat, ghost q: Progress
  )
    requires p.layout == Layout() && |p.read| == 0 && p.At(stored.State())
    modifies stored
    ensures q.At(stored.State())
    ensures q == p.(read := p.read + [SignedField(lastModified), CountField(titleWords), CountField(textWords), CountField(phrases)])
  {
    q := p;
    lastModified, q := TakeSigned(stored, q);
    titleWords, q := TakeCount(stored, q);
    textWords, q := TakeCount(stored, q);
    phrases, q := TakeCount(stored, q);
  }

  method ReadKind(stored: Reader, ghost p: Progress) returns (
    documentType: Byte, language: Bytes, ghost q: Progress
  )
    requires p.layout == Layout() && |p.read| == 4 && p.At(stored.State())
    modifies stored
    ensures q.At(stored.State())
    ensures q == p.(read := p.read + [ByteField(documentType), LanguageField(language)])
  {
    q := p;
    documentType, q := TakeByte(stored, q);
    language, q := TakeLanguage(stored, q);
  }

  method ReadLinks(stored: Reader, ghost p: Progress) returns (
    localLinks: nat, externalLinks: nat, urlLength: nat, urlComponents: nat, ghost q: Progress
  )
    requires p.layout == Layout() && |p.read| == 6 && p.At(stored.State())
    modifies stored
    ensures q.At(stored.State())
    ensures q == p.(read := p.read + [CountField(localLinks), CountField(externalLinks), CountField(urlLength), CountField(urlComponents)])
  {
    q := p;
    localLinks, q := TakeCount(stored, q);
    externalLinks, q := TakeCount(stored, q);
    urlLength, q := TakeCount(stored, q);
    urlComponents, q := TakeCount(stored, q);
  }

  method ReadPlaces(stored: Reader, ghost p: Progress) returns (
    mask: nat, hits: nat, textPosition: nat, phraseRelativePosition: nat, phrasePosition: nat, ghost q: Progress
  )
    requires p.layout == Layout() && |p.read| == 10 && p.At(stored.State())
    modifies stored
    ensures q.At(stored.State())
    ensures q == p.(read := p.read + [MaskField(mask), CountField(hits), CountField(textPosition), CountField(phraseRelativePosition), CountField(phrasePosition)])
  {
    q := p;
    mask, q := TakeMask(stored, q);
    hits, q := TakeCount(stored, q);
    textPosition, q := TakeCount(stored, q);
    phraseRelativePosition, q := TakeCount(stored, q);
    phrasePosition, q := TakeCount(stored, q);
  }

  method ReadPosting(stored: Reader, ghost data: Bytes) returns (p: Posting, ghost q: Progress)
    requires stored.State() == Open(data)
    modifies stored
    ensures q.layout == Layout() && q.record == data && |q.read| == FIELDS
    ensures q.At(stored.State()) && p == PostingOf(q.read)
  {
    ghost var p0 := Progress(Layout(), data, []);
    var lastModified, titleWords, textWords, phrases, p4 := ReadWords(stored, p0);
    var documentType, language, p6 := ReadKind(stored, p4);
    var localLinks, externalLinks, urlLength, urlComponents, p10 := ReadLinks(stored, p6);
    var mask, hits, textPosition, phraseRelativePosition, phrasePosition, p15 := ReadPlaces(stored, p10);
    q := p15;
    var appearance := UnpackAppearance(mask);
    p := Posting(
      [],
      [],
      lastModified,
      titleWords,
      textWords,
      phrases,
      documentType,
      language,
      localLinks,
      externalLinks,
      urlLength,
      urlComponents,
      appearance,
      hits,
      textPosition,
      phraseRelativePosition,
      phrasePosition
    );
  }

  method Decode(data: Bytes) returns (r: Result<Posting, CodecError>)
    ensures r == Decoded(data)
  {
    if data == [] {
      return Err(EmptyValue);
    }
    var stored := new Reader(data);
    var p, q := ReadPosting(stored, data);
    if stored.failed {
      return Err(Malformed);
    }
    r := Ok(p);
  }

  lemma OnlyTheLanguageIsRequired(k: nat)
    requires k <= FIELDS
    ensures HasLanguage(Layout()[k..]) <==> k <= LANGUAGE
  {
    if k <= LANGUAGE {
      assert Layout()[k..][LANGUAGE - k] == LanguageKind;
    }
  }

  lemma RecordsAreNotEmpty(p: Posting, k: nat)
    requires 0 < k <= FIELDS
    ensures RecordUpTo(p, k) != []
  {
  }

  lemma NoFlagsReadBack()
    ensures MaskOf(OfMask(0)) == 0
  {
    var none := OfMask(0);
    forall k | 0 <= k < FLAGS
      ensures !FlagsOf(none)[k]
    {
      NoBitOfZero(k);
    }
    NothingPacked(0, FlagsOf(none), 0);
  }

  lemma {:induction false} NothingPacked(mask: nat, flags: seq<bool>, k: nat)
    requires k <= |flags| && forall j | 0 <= j < |flags| :: !flags[j]
    ensures Appearances.Packed(mask, flags, k) == mask
    decreases |flags| - k
  {
    if k < |flags| {
      NothingPacked(mask, flags, k + 1);
    }
  }

  lemma FieldOfPosting(fields: seq<Field>, i: nat)
    requires |fields| == FIELDS && i < FIELDS && IsOf(KindOf(i), fields[i])
    requires fields[i].MaskField? ==> MaskOf(OfMask(fields[i].mask)) == fields[i].mask
    ensures FieldOf(PostingOf(fields), i) == fields[i]
  {
  }

  lemma FieldOfCutPosting(p: Posting, k: nat, i: nat)
    requires WellFormed(p) && k <= FIELDS && i < FIELDS
    ensures FieldOf(PostingOf(FieldsOf(p)[..k] + Zeros(Layout()[k..])), i)
         == if i < k then FieldOf(p, i) else Zero(KindOf(i))
  {
    WellFormedFits(p);
    assert Fits(Layout()[i], FieldsOf(p)[i]);
    if i < k {
      MaskReadsBack(p.appearance);
    } else {
      NoFlagsReadBack();
    }
    FieldOfPosting(FieldsOf(p)[..k] + Zeros(Layout()[k..]), i);
  }

  /**
   * A record of the first fields decodes exactly when the language is one of them; the fields
   * after them are then zero.
   */
  lemma FirstFieldsDecodeIff(p: Posting, k: nat)
    requires WellFormed(p) && 0 < k <= FIELDS
    ensures var r := Decoded(RecordUpTo(p, k));
            && (r.Ok? <==> k > LANGUAGE)
            && (r.Ok? ==> forall i | 0 <= i < FIELDS ::
                  FieldOf(r.value, i) == if i < k then FieldOf(p, i) else Zero(KindOf(i)))
  {
    var written := FieldsOf(p)[..k];
    var read := written + Zeros(Layout()[k..]);
    WellFormedFits(p);
    CutRecordReadsBackIff(Layout(), written);
    OnlyTheLanguageIsRequired(k);
    RecordsAreNotEmpty(p, k);
    forall i | 0 <= i < FIELDS
      ensures FieldOf(PostingOf(read), i) == if i < k then FieldOf(p, i) else Zero(KindOf(i))
    {
      FieldOfCutPosting(p, k, i);
    }
  }

  lemma PostingOfItsFields(p: Posting)
    ensures PostingOf(FieldsOf(p)) == p.(word := [], url := [])
  {
    MaskReadsBack(p.appearance);
  }

  lemma FieldsAreStorable(p: Posting)
    requires IsStorable(p)
    ensures AllStorable(Layout(), FieldsOf(p))
  {
    MaskFitsSixteenBits(p.appearance);
  }

  lemma FitsAt(p: Posting, i: nat)
    requires AllFit(Layout(), FieldsOf(p)) && i < FIELDS
    ensures Fits(KindOf(i), FieldOf(p, i))
  {
    assert Fits(Layout()[i], FieldsOf(p)[i]);
  }

  lemma CountFits(p: Posting, i: nat, count: int)
    requires AllFit(Layout(), FieldsOf(p)) && i < FIELDS && FieldOf(p, i) == CountField(count)
    ensures IsCount(count)
  {
    FitsAt(p, i);
  }

  lemma FitsOnlyIf(p: Posting)
    requires IsStorable(p) && AllFit(Layout(), FieldsOf(p))
    ensures WellFormed(p)
  {
    FitsAt(p, LANGUAGE);
    CountFits(p, 1, p.titleWords);
    CountFits(p, 2, p.textWords);
    CountFits(p, 3, p.phrases);
    CountFits(p, 6, p.localLinks);
    CountFits(p, 7, p.externalLinks);
    CountFits(p, 8, p.urlLength);
    CountFits(p, 9, p.urlComponents);
    CountFits(p, 11, p.hits);
    CountFits(p, 12, p.textPosition);
    CountFits(p, 13, p.phraseRelativePosition);
    CountFits(p, 14, p.phrasePosition);
  }

  /**
   * A posting is read back from its record, but for the hashes, which are in its key, exactly when
   * it has a language and no negative counts; the record of any other is rejected.
   */
  lemma PostingReadsBackIff(p: Posting)
    requires IsStorable(p)
    ensures Decoded(RecordUpTo(p, FIELDS))
         == if WellFormed(p) then Ok(p.(word := [], url := [])) else Err(Malformed)
  {
    assert FieldsOf(p)[..FIELDS] == FieldsOf(p);
    FieldsAreStorable(p);
    if WellFormed(p) {
      WellFormedFits(p);
    } else if AllFit(Layout(), FieldsOf(p)) {
      FitsOnlyIf(p);
    }
    RecordReadsBackIff(Layout(), FieldsOf(p));
    RecordsAreNotEmpty(p, FIELDS);
    PostingOfItsFields(p);
  }

  /** The record: its fields one after another, in this order, and an empty one is no record. */
  lemma RecordIs(p: Posting, i: nat)
    requires i < 15
    ensures RecordUpTo(p, 0) == [] && Decoded([]) == Err(EmptyValue)
    ensures RecordUpTo(p, i + 1) == RecordUpTo(p, i) +
      match i
      case 0 => Varint(p.lastModified)
      case 1 => Uvarint(Unsigned(p.titleWords))
      case 2 => Uvarint(Unsigned(p.textWords))
      case 3 => Uvarint(Unsigned(p.phrases))
      case 4 => [p.documentType]
      case 5 => PackedText(p.language)
      case 6 => Uvarint(Unsigned(p.localLinks))
      case 7 => Uvarint(Unsigned(p.externalLinks))
      case 8 => Uvarint(Unsigned(p.urlLength))
      case 9 => Uvarint(Unsigned(p.urlComponents))
      case 10 => LittleEndian(MaskOf(p.appearance), 2)
      case 11 => Uvarint(Unsigned(p.hits))
      case 12 => Uvarint(Unsigned(p.textPosition))
      case 13 => Uvarint(Unsigned(p.phraseRelativePosition))
      case _ => Uvarint(Unsigned(p.phrasePosition))
  {
    Wrote(p, i);
  }
}
