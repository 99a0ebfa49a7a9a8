/** The stored form of URL metadata: services/yacynode/internal/urlmeta/stored_url_metadata_codec.go. */
module UrlMetadataRecords {
  import opened ByteStrings
  import opened CalendarDays
  import opened RecordLayouts
  import opened StoredFields
  import opened VarInts
  import opened Wrappers

  datatype UrlMetadata = UrlMetadata(
    address: Bytes,
    referrer: Option<Bytes>,
    title: Bytes,
    author: Bytes,
    tags: seq<Bytes>,
    publisher: Bytes,
    location: Option<Point>,
    modified: Option<CalendarDay>,
    loaded: Option<CalendarDay>,
    freshUntil: Option<CalendarDay>,
    documentType: Byte,
    mediaType: Bytes,
    language: Option<Bytes>,
    byteSize: int,
    wordCount: int,
    localLinks: int,
    externalLinks: int,
    imageLinks: int,
    audioLinks: int,
    videoLinks: int,
    applicationLinks: int,
    snippet: Bytes,
    faviconAddress: Bytes
  )

  const FIELDS := 23

  function FieldOf(m: UrlMetadata, i: nat): Field {
    match i
    case 0 => TextField(m.address)
    case 1 => HashField(m.referrer)
    case 2 => TextField(m.title)
    case 3 => TextField(m.author)
    case 4 => TagsField(m.tags)
    case 5 => TextField(m.publisher)
    case 6 => PointField(m.location)
    case 7 => DayField(m.modified)
    case 8 => DayField(m.loaded)
    case 9 => DayField(m.freshUntil)
    case 10 => ByteField(m.documentType)
    case 11 => TextField(m.mediaType)
    case 12 => SpokenField(m.language)
    case 13 => CountField(m.byteSize)
    case 14 => CountField(m.wordCount)
    case 15 => CountField(m.localLinks)
    case 16 => CountField(m.externalLinks)
    case 17 => CountField(m.imageLinks)
    case 18 => CountField(m.audioLinks)
    case 19 => CountField(m.videoLinks)
    case 20 => CountField(m.applicationLinks)
    case 21 => TextField(m.snippet)
    case 22 => TextField(m.faviconAddress)
    case _ => TextField([])
  }

  function KindOf(i: nat): Kind {
    match i
    case 0 => TextKind
    case 1 => HashKind
    case 2 => TextKind
    case 3 => TextKind
    case 4 => TagsKind
    case 5 => TextKind
    case 6 => PointKind
    case 7 => DayKind
    case 8 => DayKind
    case 9 => DayKind
    case 10 => ByteKind
    case 11 => TextKind
    case 12 => SpokenKind
    case 13 => CountKind
    case 14 => CountKind
    case 15 => CountKind
    case 16 => CountKind
    case 17 => CountKind
    case 18 => CountKind
    case 19 => CountKind
    case 20 => CountKind
    case 21 => TextKind
    case 22 => TextKind
    case _ => TextKind
  }

  function Layout(): (layout: seq<Kind>)
    ensures |layout| == FIELDS
  {
    seq(FIELDS, i requires 0 <= i => KindOf(i))
  }

  function FieldsOf(m: UrlMetadata): (fields: seq<Field>)
    ensures |fields| == FIELDS
  {
    seq(FIELDS, i requires 0 <= i => FieldOf(m, i))
  }

  /** Metadata as its fields' types allow it: machine integers, languages, real days. */
  predicate IsStorable(m: UrlMetadata) {
    AllStorable(Layout(), FieldsOf(m))
  }

  /** Metadata without negative counts or years, and with coordinates in range. */
  predicate WellFormed(m: UrlMetadata) {
    AllFit(Layout(), FieldsOf(m))
  }

  function MetadataOf(fields: seq<Field>): UrlMetadata
    requires |fields| == FIELDS
  {
    UrlMetadata(
      TextIn(fields[0]),
      HashIn(fields[1]),
      TextIn(fields[2]),
      TextIn(fields[3]),
      TagsIn(fields[4]),
      TextIn(fields[5]),
      PointIn(fields[6]),
      DayIn(fields[7]),
      DayIn(fields[8]),
      DayIn(fields[9]),
      ByteIn(fields[10]),
      TextIn(fields[11]),
      SpokenIn(fields[12]),
      CountIn(fields[13]),
      CountIn(fields[14]),
      CountIn(fields[15]),
      CountIn(fields[16]),
      CountIn(fields[17]),
      CountIn(fields[18]),
      CountIn(fields[19]),
      CountIn(fields[20]),
      TextIn(fields[21]),
      TextIn(fields[22])
    )
  }

  /** The record that holds the first k fields. */
  function RecordUpTo(m: UrlMetadata, k: nat): Bytes
    requires k <= FIELDS
  {
    RecordOf(FieldsOf(m)[..k])
  }

  function Decoded(data: Bytes): Result<UrlMetadata, CodecError> {
    if data == [] then Err(EmptyValue)
    else
      var all := ReadAll(Layout(), data);
      if all.cursor.Failed? then Err(Malformed) else Ok(MetadataOf(all.value))
  }

  lemma Wrote(m: UrlMetadata, i: nat)
    requires i < FIELDS
    ensures RecordUpTo(m, i + 1) == RecordUpTo(m, i) + Packed(FieldOf(m, i))
  {
    PackedNext(FieldsOf(m), i);
  }

  lemma WroteText(m: UrlMetadata, i: nat, text: Bytes)
    requires i < FIELDS && FieldOf(m, i) == TextField(text)
    ensures RecordUpTo(m, i + 1) == RecordUpTo(m, i) + PackedText(text)
  {
    Wrote(m, i);
  }

  lemma WroteCount(m: UrlMetadata, i: nat, count: int)
    requires i < FIELDS && FieldOf(m, i) == CountField(count)
    ensures RecordUpTo(m, i + 1) == RecordUpTo(m, i) + Uvarint(Unsigned(count))
  {
    Wrote(m, i);
  }

  lemma WroteDay(m: UrlMetadata, i: nat, day: Option<CalendarDay>)
    requires i < FIELDS && FieldOf(m, i) == DayField(day)
    ensures RecordUpTo(m, i + 1) == RecordUpTo(m, i) + PackedDay(day)
  {
    Wrote(m, i);
  }

  method WriteSource(stored: Writer, m: UrlMetadata)
    requires stored.record == RecordUpTo(m, 0)
    modifies stored
    ensures stored.record == RecordUpTo(m, 3)
  {
    stored.Text(m.address);
    assert stored.record == RecordUpTo(m, 1) by { WroteText(m, 0, m.address); }
    WriteHash(stored, m.referrer);
    assert stored.record == RecordUpTo(m, 2) by { Wrote(m, 1); }
    stored.Text(m.title);
    assert stored.record == RecordUpTo(m, 3) by { WroteText(m, 2, m.title); }
  }

  method WriteDescription(stored: Writer, m: UrlMetadata)
    requires stored.record == RecordUpTo(m, 3)
    modifies stored
    ensures stored.record == RecordUpTo(m, 6)
  {
    stored.Text(m.author);
    assert stored.record == RecordUpTo(m, 4) by { WroteText(m, 3, m.author); }
    WriteTags(stored, m.tags);
    assert stored.record == RecordUpTo(m, 5) by { Wrote(m, 4); }
    stored.Text(m.publisher);
    assert stored.record == RecordUpTo(m, 6) by { WroteText(m, 5, m.publisher); }
  }

  method WritePlace(stored: Writer, m: UrlMetadata)
    requires stored.record == RecordUpTo(m, 6)
    modifies stored
    ensures stored.record == RecordUpTo(m, 8)
  {
    WritePoint(stored, m.location);
    assert stored.record == RecordUpTo(m, 7) by { Wrote(m, 6); }
    WriteDay(stored, m.modified);
    assert stored.record == RecordUpTo(m, 8) by { WroteDay(m, 7, m.modified); }
  }

  method WriteDays(stored: Writer, m: UrlMetadata)
    requires stored.record == RecordUpTo(m, 8)
    modifies stored
    ensures stored.record == RecordUpTo(m, 10)
  {
    WriteDay(stored, m.loaded);
    assert stored.record == RecordUpTo(m, 9) by { WroteDay(m, 8, m.loaded); }
    WriteDay(stored, m.freshUntil);
    assert stored.record == RecordUpTo(m, 10) by { WroteDay(m, 9, m.freshUntil); }
  }

  method WriteContent(stored: Writer, m: UrlMetadata)
    requires stored.record == RecordUpTo(m, 10)
    modifies stored
    ensures stored.record == RecordUpTo(m, 13)
  {
    stored.Byte(m.documentType);
    assert stored.record == RecordUpTo(m, 11) by { Wrote(m, 10); }
    stored.Text(m.mediaType);
    assert stored.record == RecordUpTo(m, 12) by { WroteText(m, 11, m.mediaType); }
    WriteSpoken(stored, m.language);
    assert stored.record == RecordUpTo(m, 13) by { Wrote(m, 12); }
  }

  method WriteSizes(stored: Writer, m: UrlMetadata)
    requires stored.record == RecordUpTo(m, 13)
    modifies stored
    ensures stored.record == RecordUpTo(m, 15)
  {
    stored.Count(m.byteSize);
    assert stored.record == RecordUpTo(m, 14) by { WroteCount(m, 13, m.byteSize); }
    stored.Count(m.wordCount);
    assert stored.record == RecordUpTo(m, 15) by { WroteCount(m, 14, m.wordCount); }
  }

  method WritePageLinks(stored: Writer, m: UrlMetadata)
    requires stored.record == RecordUpTo(m, 15)
    modifies stored
    ensures stored.record == RecordUpTo(m, 17)
  {
    stored.Count(m.localLinks);
    assert stored.record == RecordUpTo(m, 16) by { WroteCount(m, 15, m.localLinks); }
    stored.Count(m.externalLinks);
    assert stored.record == RecordUpTo(m, 17) by { WroteCount(m, 16, m.externalLinks); }
  }

  method WriteMediaLinks(stored: Writer, m: UrlMetadata)
    requires stored.record == RecordUpTo(m, 17)
    modifies stored
    ensures stored.record == RecordUpTo(m, 19)
  {
    stored.Count(m.imageLinks);
    assert stored.record == RecordUpTo(m, 18) by { WroteCount(m, 17, m.imageLinks); }
    stored.Count(m.audioLinks);
    assert stored.record == RecordUpTo(m, 19) by { WroteCount(m, 18, m.audioLinks); }
  }

  method WriteFileLinks(stored: Writer, m: UrlMetadata)
    requires stored.record == RecordUpTo(m, 19)
    modifies stored
    ensures stored.record == RecordUpTo(m, 21)
  {
    stored.Count(m.videoLinks);
    assert stored.record == RecordUpTo(m, 20) by { WroteCount(m, 19, m.videoLinks); }
    stored.Count(m.applicationLinks);
    assert stored.record == RecordUpTo(m, 21) by { WroteCount(m, 20, m.applicationLinks); }
  }

  method WriteTexts(stored: Writer, m: UrlMetadata)
    requires stored.record == RecordUpTo(m, 21)
    modifies stored
    ensures stored.record == RecordUpTo(m, 23)
  {
    stored.Text(m.snippet);
    assert stored.record == RecordUpTo(m, 22) by { WroteText(m, 21, m.snippet); }
    stored.Text(m.faviconAddress);
    assert stored.record == RecordUpTo(m, 23) by { WroteText(m, 22, m.faviconAddress); }
  }

  method Encode(m: UrlMetadata) returns (record: Bytes)
    ensures record == RecordUpTo(m, FIELDS)
  {
    var stored := new Writer();
    WriteSource(stored, m);
    WriteDescription(stored, m);
    WritePlace(stored, m);
    WriteDays(stored, m);
    WriteContent(stored, m);
    WriteSizes(stored, m);
    WritePageLinks(stored, m);
    WriteMediaLinks(stored, m);
    WriteFileLinks(stored, m);
    WriteTexts(stored, m);
    record := stored.record;
  }

  method ReadDescription(stored: Reader, ghost p: Progress) returns (
    address: Bytes,
    referrer: Option<Bytes>,
    title: Bytes,
    author: Bytes,
    tags: seq<Bytes>,
    publisher: Bytes, ghost q: Progress
  )
    requires p.layout == Layout() && |p.read| == 0 && p.At(stored.State())
    modifies stored
    ensures q.At(stored.State())
    ensures q == p.(read := p.read + [TextField(address), HashField(referrer), TextField(title), TextField(author), TagsField(tags), TextField(publisher)])
  {
    q := p;
    address, q := TakeText(stored, q);
    referrer, q := TakeHash(stored, q);
    title, q := TakeText(stored, q);
    author, q := TakeText(stored, q);
    tags, q := TakeTags(stored, q);
    publisher, q := TakeText(stored, q);
  }

  method ReadPlace(stored: Reader, ghost p: Progress) returns (
    location: Option<Point>,
    modified: Option<CalendarDay>, ghost q: Progress
  )
    requires p.layout == Layout() && |p.read| == 6 && p.At(stored.State())
    modifies stored
    ensures q.At(stored.State())
    ensures q == p.(read := p.read + [PointField(location), DayField(modified)])
  {
    q := p;
    location, q := TakePoint(stored, q);
    modified, q := TakeDay(stored, q);
  }

  method ReadDays(stored: Reader, ghost p: Progress) returns (
    loaded: Option<CalendarDay>,
    freshUntil: Option<CalendarDay>, ghost q: Progress
  )
    requires p.layout == Layout() && |p.read| == 8 && p.At(stored.State())
    modifies stored
    ensures q.At(stored.State())
    ensures q == p.(read := p.read + [DayField(loaded), DayField(freshUntil)])
  {
    q := p;
    loaded, q := TakeDay(stored, q);
    freshUntil, q := TakeDay(stored, q);
  }

  method ReadContent(stored: Reader, ghost p: Progress) returns (
    documentType: Byte,
    mediaType: Bytes,
    language: Option<Bytes>, ghost q: Progress
  )
    requires p.layout == Layout() && |p.read| == 10 && p.At(stored.State())
    modifies stored
    ensures q.At(stored.State())
    ensures q == p.(read := p.read + [ByteField(documentType), TextField(mediaType), SpokenField(language)])
  {
    q := p;
    documentType, q := TakeByte(stored, q);
    mediaType, q := TakeText(stored, q);
    language, q := TakeSpoken(stored, q);
  }

  method ReadSizes(stored: Reader, ghost p: Progress) returns (
    byteSize: nat,
    wordCount: nat,
    localLinks: nat,
    externalLinks: nat, ghost q: Progress
  )
    requires p.layout == Layout() && |p.read| == 13 && p.At(stored.State())
    modifies stored
    ensures q.At(stored.State())
    ensures q == p.(read := p.read + [CountField(byteSize), CountField(wordCount), CountField(localLinks), CountField(externalLinks)])
  {
    q := p;
    byteSize, q := TakeCount(stored, q);
    wordCount, q := TakeCount(stored, q);
    localLinks, q := TakeCount(stored, q);
    externalLinks, q := TakeCount(stored, q);
  }

  method ReadLinks(stored: Reader, ghost p: Progress) returns (
    imageLinks: nat,
    audioLinks: nat,
    videoLinks: nat,
    applicationLinks: nat, ghost q: Progress
  )
    requires p.layout == Layout() && |p.read| == 17 && p.At(stored.State())
    modifies stored
    ensures q.At(stored.State())
    ensures q == p.(read := p.read + [CountField(imageLinks), CountField(audioLinks), CountField(videoLinks), CountField(applicationLinks)])
  {
    q := p;
    imageLinks, q := TakeCount(stored, q);
    audioLinks, q := TakeCount(stored, q);
    videoLinks, q := TakeCount(stored, q);
    applicationLinks, q := TakeCount(stored, q);
  }

  method ReadTexts(stored: Reader, ghost p: Progress) returns (
    snippet: Bytes,
    faviconAddress: Bytes, ghost q: Progress
  )
    requires p.layout == Layout() && |p.read| == 21 && p.At(stored.State())
    modifies stored
    ensures q.At(stored.State())
    ensures q == p.(read := p.read + [TextField(snippet), TextField(faviconAddress)])
  {
    q := p;
    snippet, q := TakeText(stored, q);
    faviconAddress, q := TakeText(stored, q);
  }

  method ReadMetadata(stored: Reader, ghost data: Bytes) returns (m: UrlMetadata, ghost q: Progress)
    requires stored.State() == Open(data)
    modifies stored
    ensures q.layout == Layout() && q.record == data && |q.read| == FIELDS
    ensures q.At(stored.State()) && m == MetadataOf(q.read)
  {
    ghost var p := Progress(Layout(), data, []);
    var address, referrer, title, author, tags, publisher, p6 := ReadDescription(stored, p);
    var location, modified, p8 := ReadPlace(stored, p6);
    var loaded, freshUntil, p10 := ReadDays(stored, p8);
    var documentType, mediaType, language, p13 := ReadContent(stored, p10);
    var byteSize, wordCount, localLinks, externalLinks, p17 := ReadSizes(stored, p13);
    var imageLinks, audioLinks, videoLinks, applicationLinks, p21 := ReadLinks(stored, p17);
    var snippet, faviconAddress, p23 := ReadTexts(stored, p21);
    q := p23;
    m := UrlMetadata(address, referrer, title, author, tags, publisher, location, modified, loaded, freshUntil, documentType, mediaType, language, byteSize, wordCount, localLinks, externalLinks, imageLinks, audioLinks, videoLinks, applicationLinks, snippet, faviconAddress);
  }

  method Decode(data: Bytes) returns (r: Result<UrlMetadata, CodecError>)
    ensures r == Decoded(data)
  {
    if data == [] {
      return Err(EmptyValue);
    }
    var stored := new Reader(data);
    var m, q := ReadMetadata(stored, data);
    if stored.failed {
      return Err(Malformed);
    }
    r := Ok(m);
  }

  lemma FieldOfMetadata(fields: seq<Field>, i: nat)
    requires |fields| == FIELDS && i < FIELDS && IsOf(KindOf(i), fields[i])
    ensures FieldOf(MetadataOf(fields), i) == fields[i]
  {
  }

  lemma NoLanguageFrom(k: nat)
    requires k <= FIELDS
    ensures !HasLanguage(Layout()[k..])
  {
  }

  lemma RecordsAreNotEmpty(m: UrlMetadata, k: nat)
    requires 0 < k <= FIELDS
    ensures RecordUpTo(m, k) != []
  {
  }

  /** What a record of the first k fields, written before the others existed, decodes to. */
  lemma FirstFieldsDecode(m: UrlMetadata, k: nat)
    requires WellFormed(m) && 0 < k <= FIELDS
    ensures var r := Decoded(RecordUpTo(m, k));
            && r.Ok?
            && forall i | 0 <= i < FIELDS ::
                 FieldOf(r.value, i) == if i < k then FieldOf(m, i) else Zero(KindOf(i))
  {
    var written := FieldsOf(m)[..k];
    var read := written + Zeros(Layout()[k..]);
    CutRecordReadsBackIff(Layout(), written);
    NoLanguageFrom(k);
    RecordsAreNotEmpty(m, k);
    forall i | 0 <= i < FIELDS
      ensures FieldOf(MetadataOf(read), i) == if i < k then FieldOf(m, i) else Zero(KindOf(i))
    {
      if i < k {
        assert Fits(Layout()[i], FieldsOf(m)[i]);
      }
      FieldOfMetadata(read, i);
    }
  }

  lemma MetadataOfItsFields(m: UrlMetadata)
    ensures MetadataOf(FieldsOf(m)) == m
  {
  }

  /** Metadata is read back from its record exactly when it is well-formed, and rejected when it is not. */
  lemma MetadataReadsBackIff(m: UrlMetadata)
    requires IsStorable(m)
    ensures Decoded(RecordUpTo(m, FIELDS)) == if WellFormed(m) then Ok(m) else Err(Malformed)
  {
    assert FieldsOf(m)[..FIELDS] == FieldsOf(m);
    RecordReadsBackIff(Layout(), FieldsOf(m));
    RecordsAreNotEmpty(m, FIELDS);
    MetadataOfItsFields(m);
  }

  /** The record: its fields one after another, in this order, and an empty one is no record. */
  lemma RecordIs(m: UrlMetadata, i: nat)
    requires i < 23
    ensures RecordUpTo(m, 0) == [] && Decoded([]) == Err(EmptyValue)
    ensures RecordUpTo(m, i + 1) == RecordUpTo(m, i) +
      match i
      case 0 => PackedText(m.address)
      case 1 => PackedHash(m.referrer)
      case 2 => PackedText(m.title)
      case 3 => PackedText(m.author)
      case 4 => PackedTags(m.tags)
      case 5 => PackedText(m.publisher)
      case 6 => PackedPoint(m.location)
      case 7 => PackedDay(m.modified)
      case 8 => PackedDay(m.loaded)
      case 9 => PackedDay(m.freshUntil)
      case 10 => [m.documentType]
      case 11 => PackedText(m.mediaType)
      case 12 => PackedSpoken(m.language)
      case 13 => Uvarint(Unsigned(m.byteSize))
      case 14 => Uvarint(Unsigned(m.wordCount))
      case 15 => Uvarint(Unsigned(m.localLinks))
      case 16 => Uvarint(Unsigned(m.externalLinks))
      case 17 => Uvarint(Unsigned(m.imageLinks))
      case 18 => Uvarint(Unsigned(m.audioLinks))
      case 19 => Uvarint(Unsigned(m.videoLinks))
      case 20 => Uvarint(Unsigned(m.applicationLinks))
      case 21 => PackedText(m.snippet)
      case _ => PackedText(m.faviconAddress)
  {
    Wrote(m, i);
  }

  lemma StorableAt(m: UrlMetadata, i: nat)
    requires IsStorable(m) && i < FIELDS
    ensures Storable(KindOf(i), FieldOf(m, i))
    ensures WellFormed(m) ==> Fits(KindOf(i), FieldOf(m, i))
  {
    assert Storable(Layout()[i], FieldsOf(m)[i]);
    assert WellFormed(m) ==> Fits(Layout()[i], FieldsOf(m)[i]);
  }

  predicate IsPastDay(day: Option<CalendarDay>) {
    day.Some? ==> day.value.year >= 0
  }

  lemma FitsWhenItShould(m: UrlMetadata, i: nat)
    requires IsStorable(m) && i < FIELDS
    requires (m.location.Some? ==> IsPoint(m.location.value))
      && IsPastDay(m.modified) && IsPastDay(m.loaded) && IsPastDay(m.freshUntil)
      && m.byteSize >= 0 && m.wordCount >= 0 && m.localLinks >= 0 && m.externalLinks >= 0
      && m.imageLinks >= 0 && m.audioLinks >= 0 && m.videoLinks >= 0 && m.applicationLinks >= 0
    ensures Fits(KindOf(i), FieldOf(m, i))
  {
    StorableAt(m, i);
  }

  /** What keeps metadata from being read back: coordinates out of range, a year before year zero, a negative count. */
  lemma WellFormedIff(m: UrlMetadata)
    requires IsStorable(m)
    ensures WellFormed(m) <==>
      && (m.location.Some? ==> IsPoint(m.location.value))
      && (m.modified.Some? ==> m.modified.value.year >= 0)
      && (m.loaded.Some? ==> m.loaded.value.year >= 0)
      && (m.freshUntil.Some? ==> m.freshUntil.value.year >= 0)
      && m.byteSize >= 0 && m.wordCount >= 0 && m.localLinks >= 0 && m.externalLinks >= 0
      && m.imageLinks >= 0 && m.audioLinks >= 0 && m.videoLinks >= 0 && m.applicationLinks >= 0
  {
    if WellFormed(m) {
      StorableAt(m, 6);
      StorableAt(m, 7);
      StorableAt(m, 8);
      StorableAt(m, 9);
      CountsFit(m);
    } else if (m.location.Some? ==> IsPoint(m.location.value))
      && IsPastDay(m.modified) && IsPastDay(m.loaded) && IsPastDay(m.freshUntil)
      && m.byteSize >= 0 && m.wordCount >= 0 && m.localLinks >= 0 && m.externalLinks >= 0
      && m.imageLinks >= 0 && m.audioLinks >= 0 && m.videoLinks >= 0 && m.applicationLinks >= 0
    {
      forall i | 0 <= i < FIELDS
        ensures Fits(Layout()[i], FieldsOf(m)[i])
      {
        FitsWhenItShould(m, i);
      }
      assert false;
    }
  }

  lemma CountFits(m: UrlMetadata, i: nat, count: int)
    requires WellFormed(m) && i < FIELDS && FieldOf(m, i) == CountField(count)
    ensures count >= 0
  {
    assert Fits(Layout()[i], FieldsOf(m)[i]);
  }

  lemma CountsFit(m: UrlMetadata)
    requires WellFormed(m)
    ensures m.byteSize >= 0 && m.wordCount >= 0 && m.localLinks >= 0 && m.externalLinks >= 0
      && m.imageLinks >= 0 && m.audioLinks >= 0 && m.videoLinks >= 0 && m.applicationLinks >= 0
  {
    CountFits(m, 13, m.byteSize);
    CountFits(m, 14, m.wordCount);
    CountFits(m, 15, m.localLinks);
    CountFits(m, 16, m.externalLinks);
    CountFits(m, 17, m.imageLinks);
    CountFits(m, 18, m.audioLinks);
    CountFits(m, 19, m.videoLinks);
    CountFits(m, 20, m.applicationLinks);
  }
}
