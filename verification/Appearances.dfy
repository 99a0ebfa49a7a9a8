/** Where a word appears in a document, as flags in a mask or in a bitfield of bytes. */
module Appearances {
  import opened Arithmetic
  import opened ByteStrings

  datatype Appearance = Appearance(
    indexOf: bool,
    hasLocation: bool,
    hasImage: bool,
    hasAudio: bool,
    hasVideo: bool,
    hasApp: bool,
    inDescription: bool,
    inTitle: bool,
    inCreator: bool,
    inSubject: bool,
    inIdentifier: bool,
    emphasized: bool
  )

  const FLAGS := 12

  predicate FlagOf(a: Appearance, flag: nat) {
    match flag
    case 0 => a.indexOf
    case 1 => a.hasLocation
    case 2 => a.hasImage
    case 3 => a.hasAudio
    case 4 => a.hasVideo
    case 5 => a.hasApp
    case 6 => a.inDescription
    case 7 => a.inTitle
    case 8 => a.inCreator
    case 9 => a.inSubject
    case 10 => a.inIdentifier
    case _ => a.emphasized
  }

  /** The flags in the order of the fields. */
  function FlagsOf(a: Appearance): (flags: seq<bool>)
    ensures |flags| == FLAGS
  {
    seq(FLAGS, flag requires 0 <= flag => FlagOf(a, flag))
  }

  function OfFlags(flags: seq<bool>): Appearance
    requires |flags| == FLAGS
  {
    Appearance(flags[0], flags[1], flags[2], flags[3], flags[4], flags[5],
               flags[6], flags[7], flags[8], flags[9], flags[10], flags[11])
  }

  lemma FlagsReadBack(a: Appearance)
    ensures OfFlags(FlagsOf(a)) == a
  {
  }

  predicate BitAt(n: nat, k: nat) {
    if k == 0 then n % 2 == 1 else BitAt(n / 2, k - 1)
  }

  /** A number with one of its bits on or cleared. */
  function WithBit(n: nat, k: nat, on: bool): nat {
    if k == 0 then n / 2 * 2 + (if on then 1 else 0) else WithBit(n / 2, k - 1, on) * 2 + n % 2
  }

  lemma {:induction false} BitOfWithBit(n: nat, k: nat, on: bool, j: nat)
    ensures BitAt(WithBit(n, k, on), j) == if j == k then on else BitAt(n, j)
  {
    if k > 0 && j > 0 {
      assert WithBit(n, k, on) / 2 == WithBit(n / 2, k - 1, on);
      BitOfWithBit(n / 2, k - 1, on, j - 1);
    }
  }

  lemma {:induction false} WithBitKeepsWidth(n: nat, k: nat, on: bool, width: nat)
    requires n < Pow2(width) && k < width
    ensures WithBit(n, k, on) < Pow2(width)
  {
    if k > 0 {
      WithBitKeepsWidth(n / 2, k - 1, on, width - 1);
    }
  }

  lemma {:induction false} NoBitOfZero(k: nat)
    ensures !BitAt(0, k)
  {
    if k > 0 {
      NoBitOfZero(k - 1);
    }
  }

  /** The mask after the flags from k on are added to it. */
  function Packed(mask: nat, flags: seq<bool>, k: nat): nat
    requires k <= |flags|
    decreases |flags| - k
  {
    if k == |flags| then mask else Packed(if flags[k] then WithBit(mask, k, true) else mask, flags, k + 1)
  }

  function MaskOf(a: Appearance): nat {
    Packed(0, FlagsOf(a), 0)
  }

  function OfMask(mask: nat): Appearance {
    OfFlags(seq(FLAGS, k requires 0 <= k => BitAt(mask, k)))
  }

  lemma {:induction false} BitsOfPacked(mask: nat, flags: seq<bool>, k: nat, j: nat)
    requires k <= |flags| && (j >= k ==> !BitAt(mask, j))
    ensures BitAt(Packed(mask, flags, k), j) == if k <= j < |flags| then flags[j] else BitAt(mask, j)
    decreases |flags| - k
  {
    if k < |flags| {
      BitOfWithBit(mask, k, true, j);
      BitsOfPacked(if flags[k] then WithBit(mask, k, true) else mask, flags, k + 1, j);
    }
  }

  lemma {:induction false} PackedKeepsWidth(mask: nat, flags: seq<bool>, k: nat)
    requires k <= |flags| && mask < Pow2(|flags|)
    ensures Packed(mask, flags, k) < Pow2(|flags|)
    decreases |flags| - k
  {
    if k < |flags| {
      WithBitKeepsWidth(mask, k, true, |flags|);
      PackedKeepsWidth(if flags[k] then WithBit(mask, k, true) else mask, flags, k + 1);
    }
  }

  lemma MaskReadsBack(a: Appearance)
    ensures OfMask(MaskOf(a)) == a
  {
    var mask := MaskOf(a);
    forall j | 0 <= j < FLAGS
      ensures BitAt(mask, j) == FlagsOf(a)[j]
    {
      NoBitOfZero(j);
      BitsOfPacked(0, FlagsOf(a), 0, j);
    }
    assert seq(FLAGS, k requires 0 <= k => BitAt(mask, k)) == FlagsOf(a);
    FlagsReadBack(a);
  }

  lemma MaskFitsSixteenBits(a: Appearance)
    ensures MaskOf(a) < 0x1_0000
  {
    PackedKeepsWidth(0, FlagsOf(a), 0);
    assert Pow2(FLAGS) == 0x1000;
  }

  method PackAppearance(a: Appearance) returns (mask: nat)
    ensures mask == MaskOf(a)
  {
    var flags := FlagsOf(a);
    mask := 0;
    for position := 0 to |flags|
      invariant Packed(mask, flags, position) == MaskOf(a)
    {
      if flags[position] {
        mask := WithBit(mask, position, true);
      }
    }
  }

  method UnpackAppearance(mask: nat) returns (a: Appearance)
    ensures a == OfMask(mask)
  {
    var flags := seq(FLAGS, _ => false);
    for position := 0 to FLAGS
      invariant |flags| == FLAGS
      invariant forall k | 0 <= k < position :: flags[k] == BitAt(mask, k)
    {
      flags := flags[position := BitAt(mask, position)];
    }
    assert flags == seq(FLAGS, k requires 0 <= k => BitAt(mask, k));
    a := OfFlags(flags);
  }

  /** The flag at a position of a bitfield; clear outside it. */
  predicate IsSet(field: Bytes, position: int) {
    position >= 0 && position / 8 < |field| && BitAt(field[position / 8], position % 8)
  }

  function WithFlag(field: Bytes, position: int, on: bool): (changed: Bytes)
    ensures |changed| == |field|
  {
    if position < 0 || position / 8 >= |field| then field
    else
      ByteKeepsWidth(field[position / 8], position % 8, on);
      field[position / 8 := WithBit(field[position / 8], position % 8, on)]
  }

  lemma ByteKeepsWidth(b: Byte, k: nat, on: bool)
    requires k < 8
    ensures WithBit(b, k, on) < 256
  {
    assert Pow2(8) == 256;
    WithBitKeepsWidth(b, k, on, 8);
  }

  method SetBit(field: array<Byte>, position: int, on: bool)
    modifies field
    ensures field[..] == WithFlag(old(field[..]), position, on)
  {
    var slot := position / 8;
    if position < 0 || slot >= field.Length {
      return;
    }
    ByteKeepsWidth(field[slot], position % 8, on);
    field[slot] := WithBit(field[slot], position % 8, on);
  }

  /** Setting a flag changes that flag and no other. */
  lemma FlagOfWithFlag(field: Bytes, position: nat, on: bool, other: nat)
    requires position < 8 * |field|
    ensures IsSet(WithFlag(field, position, on), other) == if other == position then on else IsSet(field, other)
  {
    BitOfWithBit(field[position / 8], position % 8, on, other % 8);
  }

  const FIELD_BYTES := 4

  /** Where the flags stand in the bitfield of a posting. */
  function PositionOf(flag: nat): nat {
    if flag == 0 then 0 else 18 + flag
  }

  function FieldFrom(field: Bytes, flags: seq<bool>, k: nat): Bytes
    requires k <= |flags|
    decreases |flags| - k
  {
    if k == |flags| then field else FieldFrom(WithFlag(field, PositionOf(k), flags[k]), flags, k + 1)
  }

  function FieldOf(a: Appearance): Bytes {
    FieldFrom(seq(FIELD_BYTES, _ => 0), FlagsOf(a), 0)
  }

  function OfField(field: Bytes): Appearance {
    OfFlags(seq(FLAGS, k requires 0 <= k => IsSet(field, PositionOf(k))))
  }

  lemma {:induction false} FlagsOfField(field: Bytes, flags: seq<bool>, k: nat, j: nat)
    requires |field| == FIELD_BYTES && |flags| == FLAGS && k <= FLAGS && j < FLAGS
    ensures |FieldFrom(field, flags, k)| == FIELD_BYTES
    ensures IsSet(FieldFrom(field, flags, k), PositionOf(j)) == if j < k then IsSet(field, PositionOf(j)) else flags[j]
    decreases FLAGS - k
  {
    if k < FLAGS {
      FlagOfWithFlag(field, PositionOf(k), flags[k], PositionOf(j));
      FlagsOfField(WithFlag(field, PositionOf(k), flags[k]), flags, k + 1, j);
    }
  }

  lemma FieldReadsBack(a: Appearance)
    ensures OfField(FieldOf(a)) == a
  {
    var field := FieldOf(a);
    forall j | 0 <= j < FLAGS
      ensures IsSet(field, PositionOf(j)) == FlagsOf(a)[j]
    {
      FlagsOfField(seq(FIELD_BYTES, _ => 0), FlagsOf(a), 0, j);
    }
    assert seq(FLAGS, k requires 0 <= k => IsSet(field, PositionOf(k))) == FlagsOf(a);
    FlagsReadBack(a);
  }

  /** A bitfield that holds the flags before one of them. */
  ghost predicate Holds(field: Bytes, a: Appearance, flag: nat) {
    flag <= FLAGS && FieldFrom(field, FlagsOf(a), flag) == FieldOf(a)
  }

  method SetNext(field: array<Byte>, position: int, on: bool, ghost a: Appearance, ghost flag: nat)
    requires Holds(field[..], a, flag) && flag < FLAGS
    requires position == PositionOf(flag) && on == FlagOf(a, flag)
    modifies field
    ensures Holds(field[..], a, flag + 1)
  {
    SetBit(field, position, on);
  }

  method SetContents(field: array<Byte>, a: Appearance)
    requires Holds(field[..], a, 0)
    modifies field
    ensures Holds(field[..], a, 6)
  {
    SetNext(field, 0, a.indexOf, a, 0);
    SetNext(field, 19, a.hasLocation, a, 1);
    SetNext(field, 20, a.hasImage, a, 2);
    SetNext(field, 21, a.hasAudio, a, 3);
    SetNext(field, 22, a.hasVideo, a, 4);
    SetNext(field, 23, a.hasApp, a, 5);
  }

  method SetPlaces(field: array<Byte>, a: Appearance)
    requires Holds(field[..], a, 6)
    modifies field
    ensures Holds(field[..], a, FLAGS)
  {
    SetNext(field, 24, a.inDescription, a, 6);
    SetNext(field, 25, a.inTitle, a, 7);
    SetNext(field, 26, a.inCreator, a, 8);
    SetNext(field, 27, a.inSubject, a, 9);
    SetNext(field, 28, a.inIdentifier, a, 10);
    SetNext(field, 29, a.emphasized, a, 11);
  }

  method BitfieldFromAppearance(a: Appearance) returns (field: array<Byte>)
    ensures fresh(field) && field[..] == FieldOf(a)
  {
    field := new Byte[FIELD_BYTES](_ => 0);
    assert field[..] == seq(FIELD_BYTES, _ => 0);
    SetContents(field, a);
    SetPlaces(field, a);
  }

  method AppearanceFromBitfield(field: array<Byte>) returns (a: Appearance)
    ensures a == OfField(field[..])
  {
    var b := field[..];
    a := Appearance(IsSet(b, 0), IsSet(b, 19), IsSet(b, 20), IsSet(b, 21), IsSet(b, 22), IsSet(b, 23),
                    IsSet(b, 24), IsSet(b, 25), IsSet(b, 26), IsSet(b, 27), IsSet(b, 28), IsSet(b, 29));
  }

  // --------------------------------------------------------- which bit is which

  /** Bit k of a number is worth two to the k. */
  lemma BitsAre(n: nat, k: nat)
    ensures BitAt(n, 0) <==> n % 2 == 1
    ensures BitAt(n, k + 1) <==> BitAt(n / 2, k)
  {
  }

  lemma {:induction false} OtherBitsStay(field: Bytes, flags: seq<bool>, k: nat, position: nat)
    requires |field| == FIELD_BYTES && |flags| == FLAGS && k <= FLAGS
    requires position != 0 && !(19 <= position <= 29)
    ensures IsSet(FieldFrom(field, flags, k), position) == IsSet(field, position)
    decreases FLAGS - k
  {
    if k < FLAGS {
      FlagOfWithFlag(field, PositionOf(k), flags[k], position);
      OtherBitsStay(WithFlag(field, PositionOf(k), flags[k]), flags, k + 1, position);
    }
  }

  /** The mask has the flags from the lowest bit on, and nothing above them. */
  lemma MaskBits(a: Appearance, k: nat)
    ensures BitAt(MaskOf(a), k) ==
      match k
      case 0 => a.indexOf
      case 1 => a.hasLocation
      case 2 => a.hasImage
      case 3 => a.hasAudio
      case 4 => a.hasVideo
      case 5 => a.hasApp
      case 6 => a.inDescription
      case 7 => a.inTitle
      case 8 => a.inCreator
      case 9 => a.inSubject
      case 10 => a.inIdentifier
      case 11 => a.emphasized
      case _ => false
  {
    NoBitOfZero(k);
    BitsOfPacked(0, FlagsOf(a), 0, k);
  }

  lemma FlagInField(a: Appearance, flag: nat)
    requires flag < FLAGS
    ensures IsSet(FieldOf(a), PositionOf(flag)) == FlagOf(a, flag)
  {
    FlagsOfField(seq(FIELD_BYTES, _ => 0), FlagsOf(a), 0, flag);
  }

  /** The field of a posting is four bytes, with the first flag at bit 0, the others from bit 19 on, and nothing else. */
  lemma FieldBits(a: Appearance, k: nat)
    ensures |FieldOf(a)| == 4
    ensures IsSet(FieldOf(a), k) ==
      match k
      case 0 => a.indexOf
      case 19 => a.hasLocation
      case 20 => a.hasImage
      case 21 => a.hasAudio
      case 22 => a.hasVideo
      case 23 => a.hasApp
      case 24 => a.inDescription
      case 25 => a.inTitle
      case 26 => a.inCreator
      case 27 => a.inSubject
      case 28 => a.inIdentifier
      case 29 => a.emphasized
      case _ => false
  {
    FlagsOfField(seq(FIELD_BYTES, _ => 0), FlagsOf(a), 0, 0);
    if k == 0 {
      FlagInField(a, 0);
    } else if 19 <= k <= 29 {
      FlagInField(a, k - 18);
    } else {
      OtherBitsStay(seq(FIELD_BYTES, _ => 0), FlagsOf(a), 0, k);
      NoBitOfZero(k % 8);
    }
  }

  /** A field of any length is read at the same bits; the first bit of a byte is its lowest. */
  lemma FieldIsReadAt(field: Bytes, position: nat)
    ensures OfField(field).indexOf == IsSet(field, 0)
    ensures OfField(field).hasLocation == IsSet(field, 19)
    ensures OfField(field).hasImage == IsSet(field, 20)
    ensures OfField(field).hasAudio == IsSet(field, 21)
    ensures OfField(field).hasVideo == IsSet(field, 22)
    ensures OfField(field).hasApp == IsSet(field, 23)
    ensures OfField(field).inDescription == IsSet(field, 24)
    ensures OfField(field).inTitle == IsSet(field, 25)
    ensures OfField(field).inCreator == IsSet(field, 26)
    ensures OfField(field).inSubject == IsSet(field, 27)
    ensures OfField(field).inIdentifier == IsSet(field, 28)
    ensures OfField(field).emphasized == IsSet(field, 29)
    ensures IsSet(field, position) <==> position / 8 < |field| && BitAt(field[position / 8], position % 8)
  {
  }
}
