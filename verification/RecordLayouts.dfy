/** Records as lists of typed fields: what any layout over the stored fields keeps. */
module RecordLayouts {
  import opened Arithmetic
  import opened ByteStrings
  import opened CalendarDays
  import opened Languages
  import opened StoredFields
  import opened VarInts
  import opened Wrappers

  datatype CodecError = EmptyValue | Malformed

  const HASH_BYTES := 9

  /** The bits of the floats 90 and 180, and of infinity. */
  const LATITUDE_LIMIT := 0x4056_8000_0000_0000
  const LONGITUDE_LIMIT := 0x4066_8000_0000_0000
  const INFINITY := 0x7ff0_0000_0000_0000

  /** A point as the bits of its two floats. */
  datatype Point = Point(latitude: nat, longitude: nat)

  datatype Kind =
    | TextKind | HashKind | TagsKind | PointKind | DayKind | ByteKind | SpokenKind
    | CountKind | SignedKind | LanguageKind | MaskKind

  datatype Field =
    | TextField(text: Bytes)
    | HashField(hash: Option<Bytes>)
    | TagsField(tags: seq<Bytes>)
    | PointField(point: Option<Point>)
    | DayField(calendarDay: Option<CalendarDay>)
    | ByteField(byte: Byte)
    | SpokenField(spoken: Option<Bytes>)
    | CountField(count: int)
    | SignedField(signed: int)
    | LanguageField(language: Bytes)
    | MaskField(mask: nat)

  /** A float beyond a limit on either side; what is not a number is beyond no limit. */
  predicate Beyond(bits: nat, limit: nat) {
    var magnitude := bits % 0x8000_0000_0000_0000;
    limit < magnitude <= INFINITY
  }

  predicate IsPoint(p: Point) {
    !Beyond(p.latitude, LATITUDE_LIMIT) && !Beyond(p.longitude, LONGITUDE_LIMIT)
  }

  function PackedTexts(texts: seq<Bytes>): Bytes {
    if texts == [] then [] else PackedText(texts[0]) + PackedTexts(texts[1..])
  }

  function PackedHash(hash: Option<Bytes>): Bytes {
    match hash
    case None => [0]
    case Some(raw) => [1] + raw
  }

  function PackedTags(tags: seq<Bytes>): Bytes {
    Uvarint(Unsigned(|tags|)) + PackedTexts(tags)
  }

  function PackedPoint(point: Option<Point>): Bytes {
    match point
    case None => [0]
    case Some(p) => [1] + (LittleEndian(p.latitude, 8) + LittleEndian(p.longitude, 8))
  }

  function PackedDay(day: Option<CalendarDay>): Bytes {
    match day
    case None => [0]
    case Some(d) => [1] + (Uvarint(Unsigned(d.year)) + (Uvarint(Unsigned(d.month)) + Uvarint(Unsigned(d.day))))
  }

  function PackedSpoken(spoken: Option<Bytes>): Bytes {
    PackedText(if spoken.Some? then spoken.value else [])
  }

  predicate IsOf(kind: Kind, f: Field) {
    match kind
    case TextKind => f.TextField?
    case HashKind => f.HashField?
    case TagsKind => f.TagsField?
    case PointKind => f.PointField?
    case DayKind => f.DayField?
    case ByteKind => f.ByteField?
    case SpokenKind => f.SpokenField?
    case CountKind => f.CountField?
    case SignedKind => f.SignedField?
    case LanguageKind => f.LanguageField?
    case MaskKind => f.MaskField?
  }

  function TextIn(f: Field): Bytes {
    if f.TextField? then f.text else []
  }

  function HashIn(f: Field): Option<Bytes> {
    if f.HashField? then f.hash else None
  }

  function TagsIn(f: Field): seq<Bytes> {
    if f.TagsField? then f.tags else []
  }

  function PointIn(f: Field): Option<Point> {
    if f.PointField? then f.point else None
  }

  function DayIn(f: Field): Option<CalendarDay> {
    if f.DayField? then f.calendarDay else None
  }

  function ByteIn(f: Field): Byte {
    if f.ByteField? then f.byte else 0
  }

  function SpokenIn(f: Field): Option<Bytes> {
    if f.SpokenField? then f.spoken else None
  }

  function CountIn(f: Field): int {
    if f.CountField? then f.count else 0
  }

  function SignedIn(f: Field): int {
    if f.SignedField? then f.signed else 0
  }

  function LanguageIn(f: Field): Bytes {
    if f.LanguageField? then f.language else []
  }

  function MaskIn(f: Field): nat {
    if f.MaskField? then f.mask else 0
  }

  /** What the types of the written values allow in a field. */
  predicate Storable(kind: Kind, f: Field) {
    match (kind, f)
    case (TextKind, TextField(text)) => |text| <= MAX_INT
    case (HashKind, HashField(hash)) => hash.Some? ==> |hash.value| == HASH_BYTES
    case (TagsKind, TagsField(tags)) => |tags| <= MAX_INT && forall i | 0 <= i < |tags| :: |tags[i]| <= MAX_INT
    case (PointKind, PointField(point)) => point.Some? ==> point.value.latitude < WORD64 && point.value.longitude < WORD64
    case (DayKind, DayField(day)) => day.Some? ==> IsReal(day.value) && MIN_INT <= day.value.year <= MAX_INT
    case (ByteKind, ByteField(_)) => true
    case (SpokenKind, SpokenField(spoken)) => spoken.Some? ==> IsLanguage(spoken.value)
    case (CountKind, CountField(count)) => MIN_INT <= count <= MAX_INT
    case (SignedKind, SignedField(signed)) => MIN_INT <= signed <= MAX_INT
    case (LanguageKind, LanguageField(language)) => language == [] || IsLanguage(language)
    case (MaskKind, MaskField(mask)) => mask < 0x1_0000
    case _ => false
  }

  /** What a record may hold in a field: what its reader accepts. */
  predicate Fits(kind: Kind, f: Field) {
    && Storable(kind, f)
    && match f
       case PointField(point) => point.Some? ==> IsPoint(point.value)
       case DayField(day) => day.Some? ==> day.value.year >= 0
       case CountField(count) => count >= 0
       case LanguageField(language) => language != []
       case _ => true
  }

  function Packed(f: Field): (s: Bytes)
    ensures |s| > 0
  {
    match f
    case TextField(text) => PackedText(text)
    case HashField(hash) => PackedHash(hash)
    case TagsField(tags) => PackedTags(tags)
    case PointField(point) => PackedPoint(point)
    case DayField(day) => PackedDay(day)
    case ByteField(b) => [b]
    case SpokenField(spoken) => PackedSpoken(spoken)
    case CountField(count) => Uvarint(Unsigned(count))
    case SignedField(signed) => Varint(signed)
    case LanguageField(code) => PackedText(code)
    case MaskField(mask) => LittleEndian(mask, 2)
  }

  function HashAt(c: Cursor): Read<Option<Bytes>> {
    var present := ByteAt(c);
    if present.value == 0 then Read(None, present.cursor)
    else
      var raw := FixedAt(present.cursor, HASH_BYTES);
      if |raw.value| != HASH_BYTES then Read(None, Failed) else Read(Some(raw.value), raw.cursor)
  }

  function TextsAt(count: nat, c: Cursor): Read<seq<Bytes>> {
    if count == 0 then Read([], c)
    else
      var first := TextAt(c);
      var others := TextsAt(count - 1, first.cursor);
      Read([first.value] + others.value, others.cursor)
  }

  function BytesLeft(c: Cursor): nat {
    if c.Failed? then 0 else |c.left|
  }

  function TagsAt(c: Cursor): Read<seq<Bytes>> {
    var count := CountAt(c);
    if count.value == 0 then Read([], count.cursor)
    else if count.value > BytesLeft(count.cursor) then Read([], Failed)
    else
      var tags := TextsAt(count.value, count.cursor);
      if tags.cursor.Failed? then Read([], Failed) else tags
  }

  function PointAt(c: Cursor): Read<Option<Point>> {
    var present := ByteAt(c);
    if present.value == 0 then Read(None, present.cursor)
    else
      var latitude := WideAt(present.cursor, 8);
      var longitude := WideAt(latitude.cursor, 8);
      var p := Point(latitude.value, longitude.value);
      if !IsPoint(p) then Read(None, Failed) else Read(Some(p), longitude.cursor)
  }

  function DayAt(c: Cursor): Read<Option<CalendarDay>> {
    var present := ByteAt(c);
    if present.value == 0 then Read(None, present.cursor)
    else
      var year := CountAt(present.cursor);
      var month := CountAt(year.cursor);
      var day := CountAt(month.cursor);
      Read(Some(NewCalendarDay(year.value, month.value, day.value)), day.cursor)
  }

  function SpokenAt(c: Cursor): Read<Option<Bytes>> {
    var raw := TextAt(c);
    if raw.value == [] then Read(None, raw.cursor)
    else if !IsLanguage(raw.value) then Read(None, Failed)
    else Read(Some(raw.value), raw.cursor)
  }

  function LanguageAt(c: Cursor): Read<Bytes> {
    var raw := TextAt(c);
    if !IsLanguage(raw.value) then Read([], Failed) else raw
  }

  function FieldAt(kind: Kind, c: Cursor): Read<Field> {
    match kind
    case TextKind => var r := TextAt(c); Read(TextField(r.value), r.cursor)
    case HashKind => var r := HashAt(c); Read(HashField(r.value), r.cursor)
    case TagsKind => var r := TagsAt(c); Read(TagsField(r.value), r.cursor)
    case PointKind => var r := PointAt(c); Read(PointField(r.value), r.cursor)
    case DayKind => var r := DayAt(c); Read(DayField(r.value), r.cursor)
    case ByteKind => var r := ByteAt(c); Read(ByteField(r.value), r.cursor)
    case SpokenKind => var r := SpokenAt(c); Read(SpokenField(r.value), r.cursor)
    case CountKind => var r := CountAt(c); Read(CountField(r.value), r.cursor)
    case SignedKind => var r := SignedAt(c); Read(SignedField(r.value), r.cursor)
    case LanguageKind => var r := LanguageAt(c); Read(LanguageField(r.value), r.cursor)
    case MaskKind => var r := WideAt(c, 2); Read(MaskField(r.value), r.cursor)
  }

  /** What a field reads as when the record ends before it. */
  function Zero(kind: Kind): Field {
    match kind
    case TextKind => TextField([])
    case HashKind => HashField(None)
    case TagsKind => TagsField([])
    case PointKind => PointField(None)
    case DayKind => DayField(None)
    case ByteKind => ByteField(0)
    case SpokenKind => SpokenField(None)
    case CountKind => CountField(0)
    case SignedKind => SignedField(0)
    case LanguageKind => LanguageField([])
    case MaskKind => MaskField(0)
  }

  lemma HashReadsBack(hash: Option<Bytes>, rest: Bytes)
    requires Fits(HashKind, HashField(hash))
    ensures HashAt(Open(PackedHash(hash) + rest)) == Read(hash, Open(rest))
  {
    match hash
    case None => ByteReadsBack(0, rest);
    case Some(raw) =>
      assert ([1] + raw) + rest == [1] + (raw + rest);
      ByteReadsBack(1, raw + rest);
      FixedReadsBack(raw, rest);
      assert FixedAt(Open(raw + rest), HASH_BYTES) == Read(raw, Open(rest));
  }

  lemma FirstOfTexts(texts: seq<Bytes>, rest: Bytes)
    requires texts != [] && |texts[0]| <= MAX_INT
    ensures TextAt(Open(PackedTexts(texts) + rest)) == Read(texts[0], Open(PackedTexts(texts[1..]) + rest))
  {
    var first, others := PackedText(texts[0]), PackedTexts(texts[1..]);
    assert (first + others) + rest == first + (others + rest);
    TextReadsBack(texts[0], others + rest);
  }

  lemma {:induction false} TextsReadBack(texts: seq<Bytes>, rest: Bytes)
    requires forall i | 0 <= i < |texts| :: |texts[i]| <= MAX_INT
    ensures TextsAt(|texts|, Open(PackedTexts(texts) + rest)) == Read(texts, Open(rest))
  {
    if texts == [] {
      assert PackedTexts(texts) + rest == rest;
    } else {
      TextsReadBack(texts[1..], rest);
      FirstOfTexts(texts, rest);
      assert texts == [texts[0]] + texts[1..];
    }
  }

  /** Every text takes a byte or more, so the tags never outnumber the bytes left. */
  lemma {:induction false} TagsFitTheBytesLeft(tags: seq<Bytes>)
    ensures |tags| <= |PackedTexts(tags)|
  {
    if tags != [] {
      TagsFitTheBytesLeft(tags[1..]);
    }
  }

  lemma TagsReadBack(tags: seq<Bytes>, rest: Bytes)
    requires Fits(TagsKind, TagsField(tags))
    ensures TagsAt(Open(PackedTags(tags) + rest)) == Read(tags, Open(rest))
  {
    CountOfTagsReadsBack(tags, rest);
    TagsFitTheBytesLeft(tags);
    TextsReadBack(tags, rest);
    if tags == [] {
      assert PackedTexts(tags) + rest == rest;
    }
  }

  lemma CountOfTagsReadsBack(tags: seq<Bytes>, rest: Bytes)
    requires |tags| <= MAX_INT
    ensures CountAt(Open(PackedTags(tags) + rest)) == Read(|tags|, Open(PackedTexts(tags) + rest))
  {
    assert PackedTags(tags) + rest == Uvarint(Unsigned(|tags|)) + (PackedTexts(tags) + rest);
    MachineCountReadsBackIff(|tags|, PackedTexts(tags) + rest);
  }

  lemma PointReadsBack(point: Option<Point>, rest: Bytes)
    requires Fits(PointKind, PointField(point))
    ensures PointAt(Open(PackedPoint(point) + rest)) == Read(point, Open(rest))
  {
    match point
    case None => ByteReadsBack(0, rest);
    case Some(p) =>
      var latitude, longitude := LittleEndian(p.latitude, 8), LittleEndian(p.longitude, 8);
      assert ([1] + (latitude + longitude)) + rest == [1] + (latitude + (longitude + rest));
      ByteReadsBack(1, latitude + (longitude + rest));
      WidthOfBytes();
      WideReadsBack(p.latitude, 8, longitude + rest);
      WideReadsBack(p.longitude, 8, rest);
  }

  lemma DayReadsBack(day: Option<CalendarDay>, rest: Bytes)
    requires Fits(DayKind, DayField(day))
    ensures DayAt(Open(PackedDay(day) + rest)) == Read(day, Open(rest))
  {
    match day
    case None => ByteReadsBack(0, rest);
    case Some(d) =>
      var inMonth := Uvarint(Unsigned(d.day)) + rest;
      var inYear := Uvarint(Unsigned(d.month)) + inMonth;
      YearComesFirst(d, rest);
      MachineCountReadsBackIff(d.year, inYear);
      MachineCountReadsBackIff(d.month, inMonth);
      MachineCountReadsBackIff(d.day, rest);
      RealDayIsItself(d);
  }

  lemma YearComesFirst(d: CalendarDay, rest: Bytes)
    ensures ByteAt(Open(PackedDay(Some(d)) + rest))
         == Read(1, Open(Uvarint(Unsigned(d.year)) + (Uvarint(Unsigned(d.month)) + (Uvarint(Unsigned(d.day)) + rest))))
  {
    var year, month, day := Uvarint(Unsigned(d.year)), Uvarint(Unsigned(d.month)), Uvarint(Unsigned(d.day));
    assert PackedDay(Some(d)) + rest == [1] + (year + (month + (day + rest)));
    ByteReadsBack(1, year + (month + (day + rest)));
  }

  lemma SpokenReadsBack(spoken: Option<Bytes>, rest: Bytes)
    requires Fits(SpokenKind, SpokenField(spoken))
    ensures SpokenAt(Open(PackedSpoken(spoken) + rest)) == Read(spoken, Open(rest))
  {
    TextReadsBack(if spoken.Some? then spoken.value else [], rest);
  }

  /** Every field is read back from what was written of it, whatever follows. */
  lemma FieldReadsBack(kind: Kind, f: Field, rest: Bytes)
    requires Fits(kind, f)
    ensures FieldAt(kind, Open(Packed(f) + rest)) == Read(f, Open(rest))
  {
    match f
    case TextField(text) => TextReadsBack(text, rest);
    case HashField(hash) => HashReadsBack(hash, rest);
    case TagsField(tags) => TagsReadBack(tags, rest);
    case PointField(point) => PointReadsBack(point, rest);
    case DayField(day) => DayReadsBack(day, rest);
    case ByteField(b) => ByteReadsBack(b, rest);
    case SpokenField(spoken) => SpokenReadsBack(spoken, rest);
    case CountField(count) => MachineCountReadsBackIff(count, rest);
    case SignedField(signed) => SignedReadsBack(signed, rest);
    case LanguageField(code) => TextReadsBack(code, rest);
    case MaskField(mask) => WidthOfBytes(); WideReadsBack(mask, 2, rest);
  }

  lemma UnfitPointIsRejected(p: Point, rest: Bytes)
    requires p.latitude < WORD64 && p.longitude < WORD64 && !IsPoint(p)
    ensures PointAt(Open(PackedPoint(Some(p)) + rest)).cursor == Failed
  {
    var latitude, longitude := LittleEndian(p.latitude, 8), LittleEndian(p.longitude, 8);
    assert ([1] + (latitude + longitude)) + rest == [1] + (latitude + (longitude + rest));
    ByteReadsBack(1, latitude + (longitude + rest));
    WidthOfBytes();
    WideReadsBack(p.latitude, 8, longitude + rest);
    WideReadsBack(p.longitude, 8, rest);
  }

  lemma UnfitDayIsRejected(d: CalendarDay, rest: Bytes)
    requires MIN_INT <= d.year < 0
    ensures DayAt(Open(PackedDay(Some(d)) + rest)).cursor == Failed
  {
    YearComesFirst(d, rest);
    MachineCountReadsBackIff(d.year, Uvarint(Unsigned(d.month)) + (Uvarint(Unsigned(d.day)) + rest));
  }

  /** What can be written but does not fit is rejected by the reader. */
  lemma UnfitIsRejected(kind: Kind, f: Field, rest: Bytes)
    requires Storable(kind, f) && !Fits(kind, f)
    ensures FieldAt(kind, Open(Packed(f) + rest)).cursor == Failed
  {
    match f
    case PointField(point) => UnfitPointIsRejected(point.value, rest);
    case DayField(day) => UnfitDayIsRejected(day.value, rest);
    case CountField(count) => MachineCountReadsBackIff(count, rest);
    case LanguageField(code) => TextReadsBack(code, rest);
    case _ =>
  }

  /** At the end of a record every field but a language is read as its zero, without an error. */
  lemma PastTheEnd(kind: Kind)
    ensures FieldAt(kind, Open([])) == Read(Zero(kind), if kind == LanguageKind then Failed else Open([]))
  {
  }

  lemma FailureStays(kind: Kind)
    ensures FieldAt(kind, Failed).cursor == Failed
  {
  }

  /** Reads the fields that the layout holds after the ones already read. */
  function ReadOnto(read: seq<Field>, layout: seq<Kind>, c: Cursor): (r: Read<seq<Field>>)
    requires |read| <= |layout|
    ensures |r.value| == |layout|
    decreases |layout| - |read|
  {
    if |read| == |layout| then Read(read, c)
    else
      var next := FieldAt(layout[|read|], c);
      ReadOnto(read + [next.value], layout, next.cursor)
  }

  function ReadAll(layout: seq<Kind>, record: Bytes): (r: Read<seq<Field>>)
    ensures |r.value| == |layout|
  {
    ReadOnto([], layout, Open(record))
  }

  /** Fields for the beginning of a layout, or for all of it. */
  predicate AllFit(layout: seq<Kind>, fields: seq<Field>) {
    |fields| <= |layout| && forall i | 0 <= i < |fields| :: Fits(layout[i], fields[i])
  }

  /** Values for a whole layout as their types allow them. */
  predicate AllStorable(layout: seq<Kind>, fields: seq<Field>) {
    |fields| == |layout| && forall i | 0 <= i < |fields| :: Storable(layout[i], fields[i])
  }

  function PackedFrom(fields: seq<Field>, i: nat): Bytes
    requires i <= |fields|
    decreases |fields| - i
  {
    if i == |fields| then [] else Packed(fields[i]) + PackedFrom(fields, i + 1)
  }

  function RecordOf(fields: seq<Field>): Bytes {
    PackedFrom(fields, 0)
  }

  function Zeros(layout: seq<Kind>): (fields: seq<Field>)
    ensures |fields| == |layout|
  {
    seq(|layout|, i requires 0 <= i < |layout| => Zero(layout[i]))
  }

  predicate HasLanguage(layout: seq<Kind>) {
    LanguageKind in layout
  }

  lemma {:induction false} FailureStaysToTheEnd(read: seq<Field>, layout: seq<Kind>)
    requires |read| <= |layout|
    ensures ReadOnto(read, layout, Failed).cursor == Failed
    decreases |layout| - |read|
  {
    if |read| < |layout| {
      FailureStays(layout[|read|]);
      FailureStaysToTheEnd(read + [FieldAt(layout[|read|], Failed).value], layout);
    }
  }

  lemma {:induction false} ZerosPastTheEnd(read: seq<Field>, layout: seq<Kind>)
    requires |read| <= |layout|
    ensures ReadOnto(read, layout, Open([])).cursor == if HasLanguage(layout[|read|..]) then Failed else Open([])
    ensures !HasLanguage(layout[|read|..]) ==> ReadOnto(read, layout, Open([])).value == read + Zeros(layout[|read|..])
    decreases |layout| - |read|
  {
    var k := |read|;
    if k < |layout| {
      var kind := layout[k];
      assert layout[k..] == [kind] + layout[k + 1..];
      PastTheEnd(kind);
      if kind == LanguageKind {
        FailureStaysToTheEnd(read + [Zero(kind)], layout);
      } else {
        ZerosPastTheEnd(read + [Zero(kind)], layout);
        assert Zeros(layout[k..]) == [Zero(kind)] + Zeros(layout[k + 1..]);
      }
    }
  }

  lemma {:induction false} FieldsReadBack(layout: seq<Kind>, fields: seq<Field>, i: nat)
    requires AllFit(layout, fields) && i <= |fields|
    ensures ReadOnto(fields[..i], layout, Open(PackedFrom(fields, i))) == ReadOnto(fields, layout, Open([]))
    decreases |fields| - i
  {
    if i < |fields| {
      FieldReadsBack(layout[i], fields[i], PackedFrom(fields, i + 1));
      assert fields[..i] + [fields[i]] == fields[..i + 1];
      FieldsReadBack(layout, fields, i + 1);
    } else {
      assert fields[..i] == fields;
    }
  }

  /**
   * A record that holds only the first fields of its layout, as one written before the others
   * existed does, is readable exactly when no language is among the others. It then reads back
   * the fields it holds, and the others as zero.
   */
  lemma CutRecordReadsBackIff(layout: seq<Kind>, fields: seq<Field>)
    requires AllFit(layout, fields)
    ensures var r, others := ReadAll(layout, RecordOf(fields)), layout[|fields|..];
            && (r.cursor == Failed <==> HasLanguage(others))
            && (!HasLanguage(others) ==> r == Read(fields + Zeros(others), Open([])))
  {
    assert fields[..0] == [];
    FieldsReadBack(layout, fields, 0);
    ZerosPastTheEnd(fields, layout);
  }

  lemma Joined(a: Bytes, b: Bytes, c: Bytes, d: Bytes)
    ensures ((a + b) + c) + d == a + (b + (c + d))
    ensures (b + c) + d == b + (c + d)
  {
  }

  lemma {:induction false} UnfitRecordIsRejected(layout: seq<Kind>, fields: seq<Field>, read: seq<Field>, i: nat)
    requires AllStorable(layout, fields) && |read| == i <= |fields|
    requires exists j | i <= j < |fields| :: !Fits(layout[j], fields[j])
    ensures ReadOnto(read, layout, Open(PackedFrom(fields, i))).cursor == Failed
    decreases |fields| - i
  {
    var rest := PackedFrom(fields, i + 1);
    var next := FieldAt(layout[i], Open(Packed(fields[i]) + rest));
    if Fits(layout[i], fields[i]) {
      FieldReadsBack(layout[i], fields[i], rest);
      UnfitRecordIsRejected(layout, fields, read + [next.value], i + 1);
    } else {
      UnfitIsRejected(layout[i], fields[i], rest);
      FailureStaysToTheEnd(read + [next.value], layout);
    }
  }

  /** A whole record is readable exactly when every field fits; it is then read back. */
  lemma RecordReadsBackIff(layout: seq<Kind>, fields: seq<Field>)
    requires AllStorable(layout, fields)
    ensures if AllFit(layout, fields) then ReadAll(layout, RecordOf(fields)) == Read(fields, Open([]))
            else ReadAll(layout, RecordOf(fields)).cursor == Failed
  {
    if AllFit(layout, fields) {
      CutRecordReadsBackIff(layout, fields);
      assert layout[|fields|..] == [] && fields + Zeros([]) == fields;
    } else {
      UnfitRecordIsRejected(layout, fields, [], 0);
    }
  }

  lemma {:induction false} PackedNextFrom(fields: seq<Field>, i: nat, k: nat)
    requires i <= k < |fields|
    ensures PackedFrom(fields[..k + 1], i) == PackedFrom(fields[..k], i) + Packed(fields[k])
    decreases k - i
  {
    if i < k {
      PackedNextFrom(fields, i + 1, k);
      Joined([], Packed(fields[i]), PackedFrom(fields[..k], i + 1), Packed(fields[k]));
    }
  }

  lemma PackedNext(fields: seq<Field>, k: nat)
    requires k < |fields|
    ensures RecordOf(fields[..k + 1]) == RecordOf(fields[..k]) + Packed(fields[k])
  {
    PackedNextFrom(fields, 0, k);
  }

  method WriteHash(stored: Writer, hash: Option<Bytes>)
    modifies stored
    ensures stored.record == old(stored.record) + PackedHash(hash)
  {
    stored.Presence(hash.Some?);
    if hash.None? {
      return;
    }
    stored.Fixed(hash.value);
  }

  method WriteTags(stored: Writer, tags: seq<Bytes>)
    modifies stored
    ensures stored.record == old(stored.record) + PackedTags(tags)
  {
    stored.Count(|tags|);
    for i := 0 to |tags|
      invariant stored.record + PackedTexts(tags[i..]) == old(stored.record) + PackedTags(tags)
    {
      stored.Text(tags[i]);
    }
  }

  method WritePoint(stored: Writer, point: Option<Point>)
    modifies stored
    ensures stored.record == old(stored.record) + PackedPoint(point)
  {
    stored.Presence(point.Some?);
    if point.None? {
      return;
    }
    var Point(latitude, longitude) := point.value;
    stored.Wide(latitude, 8);
    stored.Wide(longitude, 8);
    Joined(old(stored.record), [1], LittleEndian(latitude, 8), LittleEndian(longitude, 8));
  }

  method WriteDay(stored: Writer, day: Option<CalendarDay>)
    modifies stored
    ensures stored.record == old(stored.record) + PackedDay(day)
  {
    stored.Presence(day.Some?);
    if day.None? {
      return;
    }
    stored.Count(day.value.year);
    stored.Count(day.value.month);
    stored.Count(day.value.day);
  }

  method WriteSpoken(stored: Writer, spoken: Option<Bytes>)
    modifies stored
    ensures stored.record == old(stored.record) + PackedSpoken(spoken)
  {
    if spoken.None? {
      stored.Text([]);
      return;
    }
    stored.Text(spoken.value);
  }

  /** How far a reader is through a record: the fields it has read so far. */
  datatype Progress = Progress(layout: seq<Kind>, record: Bytes, read: seq<Field>) {

    /** Reading on from cursor c gives what reading the whole record gives. */
    ghost predicate At(c: Cursor) {
      |read| <= |layout| && ReadOnto(read, layout, c) == ReadAll(layout, record)
    }

    ghost predicate Expects(kind: Kind) {
      |read| < |layout| && layout[|read|] == kind
    }

    ghost function Then(f: Field): Progress {
      this.(read := read + [f])
    }

    lemma Advances(kind: Kind, c: Cursor)
      requires At(c) && Expects(kind)
      ensures var next := FieldAt(kind, c); Then(next.value).At(next.cursor)
    {
    }
  }

  method TakeText(stored: Reader, ghost p: Progress) returns (text: Bytes, ghost q: Progress)
    requires p.At(stored.State()) && p.Expects(TextKind)
    modifies stored
    ensures q == p.Then(TextField(text)) && q.At(stored.State())
  {
    p.Advances(TextKind, stored.State());
    text := stored.Text();
    q := p.Then(TextField(text));
  }

  method TakeByte(stored: Reader, ghost p: Progress) returns (b: Byte, ghost q: Progress)
    requires p.At(stored.State()) && p.Expects(ByteKind)
    modifies stored
    ensures q == p.Then(ByteField(b)) && q.At(stored.State())
  {
    p.Advances(ByteKind, stored.State());
    b := stored.Byte();
    q := p.Then(ByteField(b));
  }

  method TakeCount(stored: Reader, ghost p: Progress) returns (count: nat, ghost q: Progress)
    requires p.At(stored.State()) && p.Expects(CountKind)
    modifies stored
    ensures q == p.Then(CountField(count)) && q.At(stored.State())
  {
    p.Advances(CountKind, stored.State());
    count := stored.Count();
    q := p.Then(CountField(count));
  }

  method TakeSigned(stored: Reader, ghost p: Progress) returns (signed: int, ghost q: Progress)
    requires p.At(stored.State()) && p.Expects(SignedKind)
    modifies stored
    ensures q == p.Then(SignedField(signed)) && q.At(stored.State())
  {
    p.Advances(SignedKind, stored.State());
    signed := stored.Signed();
    q := p.Then(SignedField(signed));
  }

  method TakeMask(stored: Reader, ghost p: Progress) returns (mask: nat, ghost q: Progress)
    requires p.At(stored.State()) && p.Expects(MaskKind)
    modifies stored
    ensures q == p.Then(MaskField(mask)) && q.At(stored.State())
  {
    p.Advances(MaskKind, stored.State());
    mask := stored.Wide(2);
    q := p.Then(MaskField(mask));
  }

  method ReadHash(stored: Reader) returns (hash: Option<Bytes>)
    modifies stored
    ensures HashAt(old(stored.State())) == Read(hash, stored.State())
  {
    var present := stored.Presence();
    if !present {
      return None;
    }
    var raw := stored.Fixed(HASH_BYTES);
    if |raw| != HASH_BYTES {
      stored.Reject();
      return None;
    }
    hash := Some(raw);
  }

  method TakeHash(stored: Reader, ghost p: Progress) returns (hash: Option<Bytes>, ghost q: Progress)
    requires p.At(stored.State()) && p.Expects(HashKind)
    modifies stored
    ensures q == p.Then(HashField(hash)) && q.At(stored.State())
  {
    p.Advances(HashKind, stored.State());
    hash := ReadHash(stored);
    q := p.Then(HashField(hash));
  }

  lemma TextsAtNext(tags: seq<Bytes>, count: nat, c: Cursor)
    requires count > 0
    ensures var first := TextAt(c);
            var others, all := TextsAt(count - 1, first.cursor), TextsAt(count, c);
            all.cursor == others.cursor && tags + all.value == (tags + [first.value]) + others.value
  {
  }

  method ReadTags(stored: Reader) returns (tags: seq<Bytes>)
    modifies stored
    ensures TagsAt(old(stored.State())) == Read(tags, stored.State())
  {
    var count := stored.Count();
    if count == 0 {
      return [];
    }
    if count > stored.BytesLeft() {
      stored.Reject();
      return [];
    }
    ghost var all := TextsAt(count, stored.State());
    tags := [];
    for i := 0 to count
      invariant all.cursor == TextsAt(count - i, stored.State()).cursor
      invariant all.value == tags + TextsAt(count - i, stored.State()).value
    {
      TextsAtNext(tags, count - i, stored.State());
      var tag := stored.Text();
      tags := tags + [tag];
    }
    assert tags + [] == tags;
    if stored.failed {
      tags := [];
    }
  }

  method TakeTags(stored: Reader, ghost p: Progress) returns (tags: seq<Bytes>, ghost q: Progress)
    requires p.At(stored.State()) && p.Expects(TagsKind)
    modifies stored
    ensures q == p.Then(TagsField(tags)) && q.At(stored.State())
  {
    p.Advances(TagsKind, stored.State());
    tags := ReadTags(stored);
    q := p.Then(TagsField(tags));
  }

  method ReadPoint(stored: Reader) returns (point: Option<Point>)
    modifies stored
    ensures PointAt(old(stored.State())) == Read(point, stored.State())
  {
    var present := stored.Presence();
    if !present {
      return None;
    }
    var latitude := stored.Wide(8);
    var longitude := stored.Wide(8);
    if !IsPoint(Point(latitude, longitude)) {
      stored.Reject();
      return None;
    }
    point := Some(Point(latitude, longitude));
  }

  method TakePoint(stored: Reader, ghost p: Progress) returns (point: Option<Point>, ghost q: Progress)
    requires p.At(stored.State()) && p.Expects(PointKind)
    modifies stored
    ensures q == p.Then(PointField(point)) && q.At(stored.State())
  {
    p.Advances(PointKind, stored.State());
    point := ReadPoint(stored);
    q := p.Then(PointField(point));
  }

  method ReadDay(stored: Reader) returns (day: Option<CalendarDay>)
    modifies stored
    ensures DayAt(old(stored.State())) == Read(day, stored.State())
  {
    var present := stored.Presence();
    if !present {
      return None;
    }
    var year := stored.Count();
    var month := stored.Count();
    var dayOfMonth := stored.Count();
    day := Some(NewCalendarDay(year, month, dayOfMonth));
  }

  method TakeDay(stored: Reader, ghost p: Progress) returns (day: Option<CalendarDay>, ghost q: Progress)
    requires p.At(stored.State()) && p.Expects(DayKind)
    modifies stored
    ensures q == p.Then(DayField(day)) && q.At(stored.State())
  {
    p.Advances(DayKind, stored.State());
    day := ReadDay(stored);
    q := p.Then(DayField(day));
  }

  method ReadSpoken(stored: Reader) returns (spoken: Option<Bytes>)
    modifies stored
    ensures SpokenAt(old(stored.State())) == Read(spoken, stored.State())
  {
    var raw := stored.Text();
    if raw == [] {
      return None;
    }
    if !IsLanguage(raw) {
      stored.Reject();
      return None;
    }
    spoken := Some(raw);
  }

  method TakeSpoken(stored: Reader, ghost p: Progress) returns (spoken: Option<Bytes>, ghost q: Progress)
    requires p.At(stored.State()) && p.Expects(SpokenKind)
    modifies stored
    ensures q == p.Then(SpokenField(spoken)) && q.At(stored.State())
  {
    p.Advances(SpokenKind, stored.State());
    spoken := ReadSpoken(stored);
    q := p.Then(SpokenField(spoken));
  }

  method ReadLanguage(stored: Reader) returns (language: Bytes)
    modifies stored
    ensures LanguageAt(old(stored.State())) == Read(language, stored.State())
  {
    var raw := stored.Text();
    if !IsLanguage(raw) {
      stored.Reject();
      return [];
    }
    language := raw;
  }

  method TakeLanguage(stored: Reader, ghost p: Progress) returns (language: Bytes, ghost q: Progress)
    requires p.At(stored.State()) && p.Expects(LanguageKind)
    modifies stored
    ensures q == p.Then(LanguageField(language)) && q.At(stored.State())
  {
    p.Advances(LanguageKind, stored.State());
    language := ReadLanguage(stored);
    q := p.Then(LanguageField(language));
  }

  // --------------------------------------------------- the bytes of the fields

  /** How every field is written: what may be absent has a byte before it, 1 when it is there and 0 when it is not. */
  lemma PackedIs(raw: Bytes, tag: Bytes, tags: seq<Bytes>, p: Point, d: CalendarDay, b: Byte, count: int)
    ensures Packed(TextField(raw)) == PackedText(raw) && Packed(LanguageField(raw)) == PackedText(raw)
    ensures Packed(HashField(None)) == [0] && Packed(HashField(Some(raw))) == [1] + raw
    ensures Packed(TagsField(tags)) == Uvarint(Unsigned(|tags|)) + PackedTexts(tags)
    ensures PackedTexts([]) == [] && PackedTexts([tag] + tags) == PackedText(tag) + PackedTexts(tags)
    ensures Packed(PointField(None)) == [0]
    ensures Packed(PointField(Some(p))) == [1] + (LittleEndian(p.latitude, 8) + LittleEndian(p.longitude, 8))
    ensures Packed(DayField(None)) == [0]
    ensures Packed(DayField(Some(d)))
         == [1] + (Uvarint(Unsigned(d.year)) + (Uvarint(Unsigned(d.month)) + Uvarint(Unsigned(d.day))))
    ensures Packed(ByteField(b)) == [b]
    ensures Packed(SpokenField(None)) == PackedText([]) && Packed(SpokenField(Some(raw))) == PackedText(raw)
    ensures Packed(CountField(count)) == Uvarint(Unsigned(count)) && Packed(SignedField(count)) == Varint(count)
    ensures Packed(MaskField(b)) == LittleEndian(b, 2)
  {
    assert ([tag] + tags)[1..] == tags;
  }

  /** Coordinates are in range when the floats are no more than 90 and 180 on either side, or are no numbers. */
  lemma IsPointIff(p: Point)
    ensures IsPoint(p) <==>
      && !(0x4056_8000_0000_0000 < p.latitude % 0x8000_0000_0000_0000 <= 0x7ff0_0000_0000_0000)
      && !(0x4066_8000_0000_0000 < p.longitude % 0x8000_0000_0000_0000 <= 0x7ff0_0000_0000_0000)
  {
  }

  /** An optional field is there when its first byte is not zero. */
  lemma OptionalFieldsAre(b: Byte, s: Bytes)
    ensures b == 0 ==> HashAt(Open([b] + s)) == Read(None, Open(s))
                       && PointAt(Open([b] + s)) == Read(None, Open(s)) && DayAt(Open([b] + s)) == Read(None, Open(s))
    ensures b != 0 ==> HashAt(Open([b] + s)) == if |s| >= 9 then Read(Some(s[..9]), Open(s[9..])) else Read(None, Failed)
    ensures b != 0 ==>
      PointAt(Open([b] + s)) ==
      var latitude := WideAt(Open(s), 8);
      var longitude := WideAt(latitude.cursor, 8);
      if IsPoint(Point(latitude.value, longitude.value))
      then Read(Some(Point(latitude.value, longitude.value)), longitude.cursor) else Read(None, Failed)
    ensures b != 0 ==>
      DayAt(Open([b] + s)) ==
      var year := CountAt(Open(s));
      var month := CountAt(year.cursor);
      var day := CountAt(month.cursor);
      Read(Some(NewCalendarDay(year.value, month.value, day.value)), day.cursor)
  {
    assert ([b] + s)[1..] == s && ([b] + s)[..1] == [b];
    assert ByteAt(Open([b] + s)) == Read(b, Open(s));
  }

  /** A language is two small letters; a spoken one may also be empty, and then is none. */
  lemma LanguagesAre(c: Cursor)
    ensures var raw := TextAt(c).value;
      var two := |raw| == 2 && 'a' as int <= raw[0] <= 'z' as int && 'a' as int <= raw[1] <= 'z' as int;
      && LanguageAt(c) == (if two then TextAt(c) else Read([], Failed))
      && SpokenAt(c) == (if raw == [] then Read(None, TextAt(c).cursor)
                         else if two then Read(Some(raw), TextAt(c).cursor) else Read(None, Failed))
  {
  }

  /** More tags than bytes left are malformed; a malformed tag makes all of them so. */
  lemma TagsAre(c: Cursor, count: nat)
    ensures var n := CountAt(c);
      TagsAt(c) ==
      if n.value == 0 then Read([], n.cursor)
      else if n.cursor.Failed? || n.value > |n.cursor.left| || TextsAt(n.value, n.cursor).cursor.Failed?
      then Read([], Failed) else TextsAt(n.value, n.cursor)
    ensures TextsAt(0, c) == Read([], c)
    ensures TextsAt(count + 1, c) ==
      var first := TextAt(c);
      var others := TextsAt(count, first.cursor);
      Read([first.value] + others.value, others.cursor)
  {
  }
}
