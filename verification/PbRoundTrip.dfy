/**
 * Decoding what was encoded restores the message, up to the contents of absent fields:
 * pb_decode of pb_encode's output, for any tree of static fields.
 */
module PbRoundTrip {
  import opened Wrappers
  import opened DbFormat
  import opened Coding
  import opened PbFormat
  import opened PbEncode
  import opened PbDecode

  // ----- Equal up to what is absent

  ghost predicate SameItem(f: Field, a: Item, b: Item)
    decreases f, 0
  {
    match f.ltype
    case Bool => (IntOf(a) != 0) == (IntOf(b) != 0)
    case ByteArray => BytesOf(a) == BytesOf(b)
    case Text => CString(BufferOf(a)) == CString(BufferOf(b))
    case FixedLengthBytes => BytesOf(a) == BytesOf(b)
    case Submessage(sub) => Same(sub, SlotsOf(a), SlotsOf(b))
    case _ => IntOf(a) == IntOf(b)
  }

  ghost predicate SameItems(f: Field, a: seq<Item>, b: seq<Item>, n: nat)
    decreases f, 1
  {
    forall i: nat :: i < n ==> SameItem(f, ItemAt(a, i), ItemAt(b, i))
  }

  ghost predicate SameSlot(f: Field, a: Slot, b: Slot)
    decreases f, 2
  {
    match f.htype
    case Optional => (a.count != 0) == (b.count != 0) && (a.count != 0 ==> SameItems(f, a.items, b.items, 1))
    case Repeated => a.count == b.count && SameItems(f, a.items, b.items, a.count)
    case FixedCount => SameItems(f, a.items, b.items, f.arraySize)
    case Oneof => a.count == b.count && (a.count == f.tag ==> SameItems(f, a.items, b.items, 1))
    case _ => SameItems(f, a.items, b.items, 1)
  }

  ghost predicate Same(fields: Fields, a: Message, b: Message)
    decreases fields, 3
  {
    forall k :: 0 <= k < |fields| ==> SameSlot(fields[k], SlotAt(a, SlotOf(fields, k)), SlotAt(b, SlotOf(fields, k)))
  }

  // ----- Descriptors, as the generator writes them

  ghost predicate FieldFormed(f: Field)
    decreases f, 0
  {
    && 1 <= f.tag <= MAX_TAG
    && f.dataSize < TWO32
    && (f.ltype.Submessage? ==> Formed(f.ltype.fields))
  }

  ghost predicate Formed(fields: Fields)
    decreases fields, 1
  {
    DistinctTags(fields) && forall i :: 0 <= i < |fields| ==> FieldFormed(fields[i])
  }

  // ----- Messages with values in range

  ghost predicate InSigned(v: int, width: nat) {
    -(Pow(256, width) as int) <= 2 * v < Pow(256, width)
  }

  ghost predicate ItemOk(f: Field, item: Item)
    decreases f, 0
  {
    match f.ltype
    case Bool => true
    case VarInt => InSigned(IntOf(item), f.dataSize)
    case SVarInt => InSigned(IntOf(item), f.dataSize)
    case UVarInt => 0 <= IntOf(item) < Pow(256, f.dataSize)
    case Word32 => 0 <= IntOf(item) < TWO32
    case Word64 => 0 <= IntOf(item) < TWO64
    case ByteArray => true
    case Text => |BufferOf(item)| == f.dataSize
    case FixedLengthBytes => |BytesOf(item)| == f.dataSize
    case Submessage(sub) => MessageOk(sub, SlotsOf(item))
  }

  ghost predicate ItemsOk(f: Field, items: seq<Item>, n: nat)
    decreases f, 1
  {
    forall i: nat :: i < n ==> ItemOk(f, ItemAt(items, i))
  }

  // Only what is present matters.
  ghost predicate SlotOk(f: Field, slot: Slot)
    decreases f, 2
  {
    match f.htype
    case Optional => slot.count != 0 ==> ItemsOk(f, slot.items, 1)
    case Repeated => ItemsOk(f, slot.items, slot.count)
    case FixedCount => ItemsOk(f, slot.items, f.arraySize)
    case Oneof => slot.count == f.tag ==> ItemsOk(f, slot.items, 1)
    case _ => ItemsOk(f, slot.items, 1)
  }

  // The which_ tag of a union names one of its members, or nothing.
  ghost predicate Selects(fields: Fields, s: nat, tag: nat) {
    tag == 0 || exists i :: 0 <= i < |fields| && SlotOf(fields, i) == s && fields[i].tag == tag
  }

  ghost predicate MessageOk(fields: Fields, m: Message)
    decreases fields, 3
  {
    && (forall k :: 0 <= k < |fields| ==> SlotOk(fields[k], SlotAt(m, SlotOf(fields, k))))
    && (forall k :: 0 <= k < |fields| && fields[k].htype.Oneof? ==> Selects(fields, SlotOf(fields, k), SlotAt(m, SlotOf(fields, k)).count))
  }

  // How many items of a present field are sent.
  function CountOf(f: Field, slot: Slot): nat {
    if f.htype.FixedCount? then f.arraySize else if f.htype.Repeated? then slot.count else 1
  }

  // ----- Messages whose strings are terminated, wherever they are sent

  ghost predicate TerminatedItem(f: Field, item: Item)
    decreases f, 0
  {
    match f.ltype
    case Text => 0 in BufferOf(item)
    case Submessage(sub) => Terminated(sub, SlotsOf(item))
    case _ => true
  }

  ghost predicate TerminatedItems(f: Field, items: seq<Item>, i: nat, n: nat)
    decreases f, 1
  {
    forall j: nat :: i <= j < n ==> TerminatedItem(f, ItemAt(items, j))
  }

  ghost predicate TerminatedSlot(f: Field, slot: Slot)
    decreases f, 2
  {
    Present(f, slot) ==> TerminatedItems(f, slot.items, 0, CountOf(f, slot))
  }

  ghost predicate Terminated(fields: Fields, m: Message)
    decreases fields, 3
  {
    forall k :: 0 <= k < |fields| ==> TerminatedSlot(fields[k], SlotAt(m, SlotOf(fields, k)))
  }

  // ----- Messages that leave out only what the decoder's defaults restore

  // The default of the field reads as zero.
  ghost predicate ZeroDefault(f: Field)
    decreases f, 0
  {
    match f.ltype
    case Submessage(sub) => ZeroDefaults(sub)
    case _ => f.initial.None? || SameItem(f, ZeroItem(f), f.initial.value)
  }

  ghost predicate ZeroDefaults(fields: Fields)
    decreases fields, 1
  {
    forall k :: 0 <= k < |fields| && fields[k].htype.Singular? ==> ZeroDefault(fields[k])
  }

  ghost predicate RestorableItem(f: Field, item: Item)
    decreases f, 0
  {
    f.ltype.Submessage? ==> Restorable(f.ltype.fields, SlotsOf(item))
  }

  ghost predicate RestorableSlot(f: Field, slot: Slot)
    decreases f, 1
  {
    if Present(f, slot) then forall j: nat :: j < CountOf(f, slot) ==> RestorableItem(f, ItemAt(slot.items, j))
    else f.htype.Singular? ==> ZeroDefault(f)
  }

  ghost predicate Restorable(fields: Fields, m: Message)
    decreases fields, 2
  {
    forall k :: 0 <= k < |fields| ==> RestorableSlot(fields[k], SlotAt(m, SlotOf(fields, k)))
  }

  // ----- Memory of the right type, and memory holding defaults

  ghost predicate ShapedItem(f: Field, item: Item)
    decreases f, 0
  {
    f.ltype.Submessage? ==> item.Struct? && Shaped(f.ltype.fields, item.slots)
  }

  ghost predicate ShapedSlot(f: Field, slot: Slot)
    decreases f, 1
  {
    && |slot.items| == Capacity(f)
    && (!f.htype.Oneof? ==> forall i :: 0 <= i < |slot.items| ==> ShapedItem(f, slot.items[i]))
  }

  ghost predicate Shaped(fields: Fields, m: Message)
    decreases fields, 2
  {
    && |m| == SlotCount(fields)
    && forall k :: 0 <= k < |fields| ==> ShapedSlot(fields[k], SlotAt(m, SlotOf(fields, k)))
  }

  ghost predicate FreshItem(f: Field, item: Item)
    decreases f, 0
  {
    match f.ltype
    case Submessage(sub) => item.Struct? && Fresh(sub, item.slots)
    case _ => item == if f.initial.Some? then f.initial.value else ZeroItem(f)
  }

  ghost predicate FreshSlot(f: Field, slot: Slot)
    decreases f, 1
  {
    && ShapedSlot(f, slot)
    && (f.htype.Optional? || f.htype.Repeated? || f.htype.Oneof? ==> slot.count == 0)
    && (!IsArray(f.htype) && !f.htype.Oneof? ==> FreshItem(f, ItemAt(slot.items, 0)))
  }

  ghost predicate Fresh(fields: Fields, m: Message)
    decreases fields, 2
  {
    && |m| == SlotCount(fields)
    && forall k :: 0 <= k < |fields| ==> FreshSlot(fields[k], SlotAt(m, SlotOf(fields, k)))
  }

  // ----- Setting defaults makes memory fresh

  lemma {:induction false} InitialIsFresh(f: Field, item: Item)
    requires ShapedItem(f, item)
    ensures FreshItem(f, InitialItem(f, item)) && ShapedItem(f, InitialItem(f, item))
    decreases f, 0
  {
    if f.ltype.Submessage? {
      DefaultsAreFresh(f.ltype.fields, item.slots);
    }
  }

  lemma {:induction false} DefaultSlotIsFresh(f: Field, slot: Slot)
    requires ShapedSlot(f, slot)
    ensures FreshSlot(f, DefaultSlot(f, slot))
    decreases f, 1
  {
    if !IsArray(f.htype) && !f.htype.Oneof? {
      InitialIsFresh(f, ItemAt(slot.items, 0));
    }
  }

  ghost predicate FreshUpTo(fields: Fields, m: Message, k: nat) {
    && Shaped(fields, m)
    && forall j :: 0 <= j < k && j < |fields| ==> FreshSlot(fields[j], SlotAt(m, SlotOf(fields, j)))
  }

  // A slot shared by two members of a union becomes fresh for both.
  lemma UnionFresh(f: Field, g: Field, slot: Slot)
    requires f.htype.Oneof? && g.htype.Oneof? && ShapedSlot(f, slot)
    ensures FreshSlot(g, DefaultSlot(f, slot))
  {
  }

  lemma FreshSlotIsShaped(f: Field, slot: Slot)
    requires FreshSlot(f, slot)
    ensures ShapedSlot(f, slot)
  {
  }

  // Field j after field k was set to its default.
  lemma {:induction false} DefaultAt(fields: Fields, m: Message, k: nat, j: nat, next: Message)
    requires k < |fields| && j < |fields| && FreshUpTo(fields, m, k)
    requires FreshSlot(fields[k], DefaultSlot(fields[k], SlotAt(m, SlotOf(fields, k))))
    requires next == WithSlot(m, SlotOf(fields, k), DefaultSlot(fields[k], SlotAt(m, SlotOf(fields, k))))
    ensures ShapedSlot(fields[j], SlotAt(next, SlotOf(fields, j)))
    ensures j <= k ==> FreshSlot(fields[j], SlotAt(next, SlotOf(fields, j)))
  {
    hide ShapedSlot, FreshSlot, DefaultSlot;
    var s := SlotOf(fields, k);
    SlotsAscend(fields, k, k);
    assert ShapedSlot(fields[k], SlotAt(m, s));
    assert ShapedSlot(fields[j], SlotAt(m, SlotOf(fields, j)));
    if j == k {
      FreshSlotIsShaped(fields[k], DefaultSlot(fields[k], SlotAt(m, s)));
    } else {
      OnlyUnionsShare(fields, j, k);
      if SlotOf(fields, j) == s {
        UnionFresh(fields[k], fields[j], SlotAt(m, s));
        FreshSlotIsShaped(fields[j], DefaultSlot(fields[k], SlotAt(m, s)));
      }
    }
  }

  function WithDefault(fields: Fields, m: Message, k: nat): Message
    requires k < |fields|
  {
    WithSlot(m, SlotOf(fields, k), DefaultSlot(fields[k], SlotAt(m, SlotOf(fields, k))))
  }

  lemma {:induction false} DefaultStep(fields: Fields, m: Message, k: nat)
    requires k < |fields| && FreshUpTo(fields, m, k)
    requires FreshSlot(fields[k], DefaultSlot(fields[k], SlotAt(m, SlotOf(fields, k))))
    ensures FreshUpTo(fields, WithDefault(fields, m, k), k + 1)
  {
    hide ShapedSlot, FreshSlot, DefaultSlot;
    var next := WithDefault(fields, m, k);
    forall j | 0 <= j < |fields|
      ensures ShapedSlot(fields[j], SlotAt(next, SlotOf(fields, j)))
      ensures j <= k ==> FreshSlot(fields[j], SlotAt(next, SlotOf(fields, j)))
    {
      DefaultAt(fields, m, k, j, next);
    }
  }

  lemma ShapedAt(fields: Fields, m: Message, k: nat)
    requires k < |fields| && Shaped(fields, m)
    ensures SlotOf(fields, k) < |m| && ShapedSlot(fields[k], SlotAt(m, SlotOf(fields, k)))
  {
    SlotsAscend(fields, k, k);
  }

  lemma AllFresh(fields: Fields, m: Message)
    requires FreshUpTo(fields, m, |fields|)
    ensures Fresh(fields, m)
  {
  }

  lemma {:induction false} DefaultsFromAreFresh(fields: Fields, m: Message, k: nat)
    requires k <= |fields| && FreshUpTo(fields, m, k)
    ensures Fresh(fields, Defaults(fields, m, k))
    decreases fields, 2, |fields| - k
  {
    hide ShapedSlot, FreshSlot, DefaultSlot, Fresh;
    if k < |fields| {
      ShapedAt(fields, m, k);
      DefaultSlotIsFresh(fields[k], SlotAt(m, SlotOf(fields, k)));
      DefaultStep(fields, m, k);
      DefaultsFromAreFresh(fields, WithDefault(fields, m, k), k + 1);
    } else {
      AllFresh(fields, m);
    }
  }

  lemma {:induction false} DefaultsAreFresh(fields: Fields, m: Message)
    requires Shaped(fields, m)
    ensures Fresh(fields, Defaults(fields, m, 0))
    decreases fields, 3
  {
    DefaultsFromAreFresh(fields, m, 0);
  }

  lemma {:induction false} ZeroIsShaped(fields: Fields)
    ensures Shaped(fields, ZeroMessage(fields, |fields|))
    decreases fields, 3
  {
    forall k | 0 <= k < |fields|
      ensures ShapedSlot(fields[k], SlotAt(ZeroMessage(fields, |fields|), SlotOf(fields, k)))
    {
      ZeroSlotIsShaped(fields, |fields|, k);
    }
  }

  lemma {:induction false} ZeroSlotIsShaped(fields: Fields, n: nat, k: nat)
    requires k < n <= |fields|
    ensures ShapedSlot(fields[k], SlotAt(ZeroMessage(fields, n), SlotOf(fields, k)))
    decreases fields, 2, n
  {
    SlotsAscend(fields, k, n - 1);
    if k < n - 1 {
      SlotsAscend(fields, k, n - 2);
      ZeroSlotIsShaped(fields, n - 1, k);
    } else {
      if k > 0 && SlotOf(fields, k) == SlotOf(fields, k - 1) {
        ZeroSlotIsShaped(fields, n - 1, k - 1);
      } else {
        ZeroItemIsShaped(fields[k]);
      }
    }
  }

  lemma {:induction false} ZeroItemIsShaped(f: Field)
    ensures ShapedItem(f, ZeroItem(f))
    decreases f, 4
  {
    if f.ltype.Submessage? {
      ZeroIsShaped(f.ltype.fields);
    }
  }

  // ----- What arrives: fields that were sent, among the defaults of those that were left out

  ghost predicate GotItem(f: Field, a: Item, b: Item)
    decreases f, 0
  {
    match f.ltype
    case Submessage(sub) => Got(sub, SlotsOf(a), SlotsOf(b))
    case _ => SameItem(f, a, b)
  }

  ghost predicate GotItems(f: Field, a: seq<Item>, b: seq<Item>, n: nat)
    decreases f, 1
  {
    forall i: nat :: i < n ==> GotItem(f, ItemAt(a, i), ItemAt(b, i))
  }

  ghost predicate GotSlot(f: Field, a: Slot, b: Slot)
    decreases f, 2
  {
    match f.htype
    case Optional => (a.count != 0) == (b.count != 0) && (a.count != 0 ==> GotItems(f, a.items, b.items, 1))
    case Repeated => a.count == b.count && GotItems(f, a.items, b.items, a.count)
    case FixedCount => GotItems(f, a.items, b.items, f.arraySize)
    case Oneof => a.count == b.count && (a.count == f.tag ==> GotItems(f, a.items, b.items, 1))
    case Singular => if IsDefault(f, a) then FreshItem(f, ItemAt(b.items, 0)) else GotItems(f, a.items, b.items, 1)
    case Required => GotItems(f, a.items, b.items, 1)
  }

  ghost predicate Got(fields: Fields, a: Message, b: Message)
    decreases fields, 3
  {
    forall k :: 0 <= k < |fields| ==> GotSlot(fields[k], SlotAt(a, SlotOf(fields, k)), SlotAt(b, SlotOf(fields, k)))
  }

  // A field that was not emitted keeps what fresh memory holds for it.
  lemma AbsentIsGot(f: Field, a: Slot, b: Slot)
    requires FieldFormed(f) && !Present(f, a) && FreshSlot(f, b)
    requires f.htype.Oneof? ==> a.count == 0
    ensures GotSlot(f, a, b)
  {
  }

  // ----- Numbers

  lemma Powers()
    ensures Pow(256, 1) == 0x100 && Pow(256, 2) == 0x1_0000 && Pow(256, 4) == TWO32 && Pow(256, 8) == TWO64
  {
    Widths();
    assert Pow(256, 1) == 256;
    assert Pow(256, 2) == 0x1_0000;
  }

  lemma {:induction false} ShiftAdds(b: nat, i: nat, j: nat)
    ensures ShiftLeft(ShiftLeft(b, i), j) == ShiftLeft(b, i + j)
  {
    if j > 0 {
      ShiftAdds(b, i, j - 1);
    }
  }

  lemma ShiftSeven(b: nat)
    ensures ShiftLeft(b, 7) == 0x80 * b
  {
    assert ShiftLeft(b, 1) == 2 * b;
    assert ShiftLeft(b, 3) == 8 * b;
    assert ShiftLeft(b, 5) == 32 * b;
  }

  lemma Shifts(b: nat)
    ensures ShiftLeft(b, 7) == 0x80 * b && ShiftLeft(b, 14) == 0x4000 * b
    ensures ShiftLeft(b, 21) == 0x20_0000 * b && ShiftLeft(b, 28) == 0x1000_0000 * b
  {
    hide ShiftLeft;
    ShiftSeven(b);
    ShiftSeven(0x80 * b);
    ShiftSeven(0x4000 * b);
    ShiftSeven(0x20_0000 * b);
    ShiftAdds(b, 7, 7);
    ShiftAdds(b, 14, 7);
    ShiftAdds(b, 21, 7);
  }

  predicate DigitPosition(bitpos: nat, scale: nat) {
    || (bitpos == 7 && scale == 0x80)
    || (bitpos == 14 && scale == 0x4000)
    || (bitpos == 21 && scale == 0x20_0000)
    || (bitpos == 28 && scale == 0x1000_0000)
  }

  lemma DigitIsAdded(low: nat, b: byte, bitpos: nat, scale: nat)
    requires DigitPosition(bitpos, scale) && low < scale && b % 128 * scale < TWO32
    ensures PbDecode.Extended(low, b, bitpos) == low + b % 128 * scale
  {
    hide BitOr, ShiftLeft;
    Shifts(b % 128);
    Shifts(1);
    BitOrAdds(low, b % 128, bitpos);
  }

  // The remaining digits v of a 32-bit number, behind a known lower part.
  lemma {:induction false} More32RoundTrip(v: nat, low: nat, bitpos: nat, scale: nat, rest: Bytes)
    requires DigitPosition(bitpos, scale) && low < scale && low + v * scale < TWO32
    ensures More32(Varint(v) + rest, low, bitpos) == Some(Parsed(low + v * scale, rest))
    decreases 28 - bitpos
  {
    hide PbDecode.Extended;
    var b := Varint(v) + rest;
    var high: nat, digit: nat := v / 128, v % 128;
    Distribute(scale, digit, high);
    assert v * scale == digit * scale + 128 * scale * high;
    DigitIsAdded(low, b[0], bitpos, scale);
    if v < 128 {
      assert b[1..] == rest;
    } else {
      assert b[1..] == Varint(high) + rest;
      assert bitpos < 28;
      More32RoundTrip(high, low + digit * scale, bitpos + 7, 128 * scale, rest);
    }
  }

  lemma Decode32RoundTrip(v: nat, rest: Bytes)
    requires v < TWO32
    ensures Decode32(Varint(v) + rest) == Some(Parsed(v, rest))
  {
    hide More32;
    var b := Varint(v) + rest;
    if v < 128 {
      assert b[1..] == rest;
    } else {
      assert b[1..] == Varint(v / 128) + rest;
      More32RoundTrip(v / 128, v % 128, 7, 0x80, rest);
    }
  }

  lemma TakeStringRoundTrip(s: Bytes, rest: Bytes)
    requires |s| < TWO32
    ensures TakeString(LengthPrefixed(s) + rest) == Some(Parsed(s, rest))
  {
    assert LengthPrefixed(s) + rest == Varint(|s|) + (s + rest);
    Decode32RoundTrip(|s|, s + rest);
    assert (s + rest)[..|s|] == s && (s + rest)[|s|..] == rest;
  }

  lemma Modulo(u: int, q: int, m: nat, r: int)
    requires 0 <= r < m && u == q * m + r
    ensures u % m == r
  {
    var d := u / m - q;
    assert d * m == r - u % m;
    SmallMultiple(d, m);
  }

  lemma SmallMultiple(d: int, m: nat)
    requires -(m as int) < d * m < m
    ensures d == 0
  {
    assert d >= 1 ==> d * m >= m;
    assert d <= -1 ==> (-d) * m >= m;
  }

  // Cut to m values and read as signed, a value in range comes back, from either representation.
  lemma SignedFits(v: int, m: nat, n: nat)
    requires m > 0 && -(m as int) <= 2 * v < m
    ensures var u := (if v < 0 then v + n * m else v) % m; (if 2 * u >= m then u - m else u) == v
  {
    if v < 0 {
      assert v + n * m == (n - 1) * m + (v + m);
      Modulo(v + n * m, n - 1, m, v + m);
    } else {
      Modulo(v, 0, m, v);
    }
  }

  lemma Cut64(v: int)
    requires -0x8000_0000_0000_0000 <= v < 0x8000_0000_0000_0000
    ensures v % TWO64 == if v < 0 then v + TWO64 else v
  {
  }

  lemma SignedRoundTrip(v: int, width: nat)
    requires IntSize(width) && InSigned(v, width)
    ensures -0x8000_0000_0000_0000 <= v < 0x8000_0000_0000_0000
    ensures Signed(v % TWO64, width) == v
    ensures width != 8 ==> Signed(v % TWO64 % TWO32, 4) == v
  {
    hide Pow, Fixed;
    Powers();
    var m: nat := Pow(256, width);
    Cut64(v);
    var n: nat := TWO64 / m;
    SignedFits(v, m, n);
    if width != 8 {
      SignedFits(v, TWO32, TWO32);
    }
  }

  lemma ZigZagRoundTrip(v: int)
    requires -0x8000_0000_0000_0000 <= v < 0x8000_0000_0000_0000
    ensures ZigZag(v) < TWO64 && UnZigZag(ZigZag(v)) == v
  {
  }

  // The item that decoding reads back, and nothing more is consumed.
  ghost predicate ReadsBack(f: Field, item: Item, r: Option<Parsed<Item>>, rest: Bytes) {
    r.Some? && r.value.rest == rest && GotItem(f, item, r.value.value)
  }

  lemma VarIntRoundTrip(f: Field, item: Item, rest: Bytes)
    requires f.ltype.VarInt? && IntSize(f.dataSize) && InSigned(IntOf(item), f.dataSize)
    ensures ReadsBack(f, item, DecodeInteger(f, Varint(IntOf(item) % TWO64) + rest), rest)
  {
    hide Pow, Varint, GetVarint64, Signed, InSigned;
    SignedRoundTrip(IntOf(item), f.dataSize);
    VarintRoundTrip(IntOf(item) % TWO64, rest);
  }

  lemma SVarIntRoundTrip(f: Field, item: Item, rest: Bytes)
    requires f.ltype.SVarInt? && IntSize(f.dataSize) && InSigned(IntOf(item), f.dataSize)
    ensures ReadsBack(f, item, DecodeInteger(f, Varint(ZigZag(IntOf(item))) + rest), rest)
  {
    hide Pow, Varint, GetVarint64, Signed, InSigned, ZigZag, UnZigZag;
    SignedRoundTrip(IntOf(item), f.dataSize);
    ZigZagRoundTrip(IntOf(item));
    VarintRoundTrip(ZigZag(IntOf(item)), rest);
  }

  lemma UVarIntRoundTrip(f: Field, item: Item, rest: Bytes)
    requires f.ltype.UVarInt? && IntSize(f.dataSize) && 0 <= IntOf(item) < Pow(256, f.dataSize)
    ensures ReadsBack(f, item, DecodeInteger(f, Varint(IntOf(item) % TWO64) + rest), rest)
  {
    hide Pow, Varint, GetVarint64;
    UnsignedFits(IntOf(item), f.dataSize);
    VarintRoundTrip(IntOf(item), rest);
  }

  lemma UnsignedFits(v: nat, width: nat)
    requires IntSize(width) && v < Pow(256, width)
    ensures v < TWO64 && v % TWO64 == v && v % Pow(256, width) == v
  {
    hide Pow;
    Powers();
  }

  lemma WordRoundTrip(f: Field, item: Item, rest: Bytes)
    requires f.ltype.Word32? || f.ltype.Word64?
    requires ItemOk(f, item)
    ensures ReadsBack(f, item, DecodeNumber(f, EncodeItem(f, item).value + rest), rest)
  {
    hide FromFixed, Fixed;
    var b := EncodeItem(f, item).value;
    assert (b + rest)[..|b|] == b && (b + rest)[|b|..] == rest;
  }

  lemma {:induction false} NumberRoundTrip(f: Field, item: Item, rest: Bytes)
    requires Packable(f.ltype) && ItemOk(f, item) && EncodeItem(f, item).Some?
    ensures ReadsBack(f, item, DecodeNumber(f, EncodeItem(f, item).value + rest), rest)
  {
    hide ReadsBack, InSigned, DecodeInteger, Varint, Fixed, Pow, Decode32;
    match f.ltype
    case Bool => BoolRoundTrip(f, item, rest);
    case Word32 => WordRoundTrip(f, item, rest);
    case Word64 => WordRoundTrip(f, item, rest);
    case VarInt => VarIntRoundTrip(f, item, rest);
    case SVarInt => SVarIntRoundTrip(f, item, rest);
    case UVarInt => UVarIntRoundTrip(f, item, rest);
  }

  lemma BoolRoundTrip(f: Field, item: Item, rest: Bytes)
    requires f.ltype.Bool?
    ensures ReadsBack(f, item, DecodeNumber(f, EncodeItem(f, item).value + rest), rest)
  {
    hide Varint, Decode32;
    Decode32RoundTrip(if IntOf(item) != 0 then 1 else 0, rest);
  }

  // ----- Items

  // What a submessage is decoded into.
  ghost predicate Ready(f: Field, item: Item) {
    f.ltype.Submessage? ==> item.Struct? && if IsArray(f.htype) then Shaped(f.ltype.fields, item.slots) else Fresh(f.ltype.fields, item.slots)
  }

  lemma BytesRoundTrip(f: Field, item: Item, rest: Bytes)
    requires f.ltype.ByteArray? && EncodeItem(f, item).Some? && |EncodeItem(f, item).value| < TWO32
    ensures ReadsBack(f, item, DecodeBytes(f, EncodeItem(f, item).value + rest), rest)
  {
    hide Varint, Decode32;
    var s := BytesOf(item);
    assert LengthPrefixed(s) + rest == Varint(|s|) + (s + rest);
    Decode32RoundTrip(|s|, s + rest);
    assert (s + rest)[..|s|] == s && (s + rest)[|s|..] == rest;
  }

  lemma {:induction false} TerminatedIsShorter(b: Bytes)
    ensures 0 in b <==> |CString(b)| < |b|
  {
    if b != [] && b[0] != 0 {
      assert b == [b[0]] + b[1..];
      TerminatedIsShorter(b[1..]);
    }
  }

  /** A string comes back exactly when it is terminated inside its buffer; otherwise the decoder refuses it. */
  lemma TextRoundTrip(f: Field, item: Item, old_: Item, rest: Bytes)
    requires f.ltype.Text? && |BufferOf(item)| == f.dataSize < TWO32
    ensures var r := DecodeText(f, old_, EncodeItem(f, item).value + rest); if 0 in BufferOf(item) then ReadsBack(f, item, r, rest) else r.None?
  {
    hide Varint, Decode32;
    var s := CString(BufferOf(item));
    TerminatedIsShorter(BufferOf(item));
    CStringHasNoZero(BufferOf(item));
    assert LengthPrefixed(s) + rest == Varint(|s|) + (s + rest);
    Decode32RoundTrip(|s|, s + rest);
    assert (s + rest)[..|s|] == s && (s + rest)[|s|..] == rest;
    if 0 in BufferOf(item) {
      CStringEnds(s, Tail(f, old_, |s|));
    }
  }

  lemma FixedLengthRoundTrip(f: Field, item: Item, rest: Bytes)
    requires f.ltype.FixedLengthBytes? && |BytesOf(item)| == f.dataSize < TWO32
    ensures ReadsBack(f, item, DecodeFixedLength(f, EncodeItem(f, item).value + rest), rest)
  {
    hide Varint, Decode32;
    var s := BytesOf(item);
    assert LengthPrefixed(s) + rest == Varint(|s|) + (s + rest);
    Decode32RoundTrip(|s|, s + rest);
    assert (s + rest)[..|s|] == s && (s + rest)[|s|..] == rest;
  }

  lemma StartIsFresh(f: Field, item: Item)
    requires f.ltype.Submessage? && Ready(f, item)
    ensures Fresh(f.ltype.fields, Start(f, f.ltype.fields, item))
  {
    if IsArray(f.htype) {
      DefaultsAreFresh(f.ltype.fields, item.slots);
    }
  }

  /** An item comes back exactly when its strings are terminated; otherwise the decoder refuses it. */
  lemma {:induction false} ItemRoundTrip(f: Field, item: Item, old_: Item, rest: Bytes)
    requires FieldFormed(f) && ItemOk(f, item) && Ready(f, old_)
    requires EncodeItem(f, item).Some? && |EncodeItem(f, item).value| < TWO32
    ensures var r := DecodeItem(f, old_, EncodeItem(f, item).value + rest);
            if TerminatedItem(f, item) then ReadsBack(f, item, r, rest) else r.None?
    decreases f, 0
  {
    hide ReadsBack, DecodeBytes, DecodeText, DecodeFixedLength, DecodeNumber, TakeString, Fresh, Shaped, DecodeMessage;
    match f.ltype
    case ByteArray => BytesRoundTrip(f, item, rest);
    case Text => TextRoundTrip(f, item, old_, rest);
    case FixedLengthBytes => FixedLengthRoundTrip(f, item, rest);
    case Submessage(sub) =>
      var body := EncodeFrom(sub, SlotsOf(item), 0).value;
      StartIsFresh(f, old_);
      TakeStringRoundTrip(body, rest);
      MessageRoundTrip(sub, SlotsOf(item), Start(f, sub, old_));
      if Terminated(sub, SlotsOf(item)) {
        StructReadsBack(f, item, DecodeMessage(sub, Start(f, sub, old_), body).value, rest);
      }
    case _ => NumberRoundTrip(f, item, rest);
  }

  lemma StructReadsBack(f: Field, item: Item, m: Message, rest: Bytes)
    requires f.ltype.Submessage? && Got(f.ltype.fields, SlotsOf(item), m)
    ensures ReadsBack(f, item, Some(Parsed(Struct(m), rest)), rest)
  {
  }

  // ----- One field

  ghost predicate Reads<T(!new)>(r: Option<Parsed<T>>, value: T, rest: Bytes) {
    r == Some(Parsed(value, rest))
  }

  lemma UnionIsReady(f: Field, old_: Item)
    requires f.htype.Oneof?
    ensures Ready(f, UnionItem(f, old_))
  {
    if f.ltype.Submessage? {
      var sub := f.ltype.fields;
      ZeroIsShaped(sub);
      DefaultsAreFresh(sub, ZeroMessage(sub, |sub|));
    }
  }

  lemma FreshIsReady(f: Field, b: Slot)
    requires FreshSlot(f, b) && !IsArray(f.htype) && !f.htype.Oneof?
    ensures Ready(f, ItemAt(b.items, 0))
  {
  }

  lemma SingleTerminated(f: Field, a: Slot)
    requires !IsArray(f.htype) && Present(f, a)
    ensures TerminatedSlot(f, a) <==> TerminatedItem(f, ItemAt(a.items, 0))
  {
    hide TerminatedItem, Present;
  }

  // A single value that was emitted arrives in a fresh slot.
  lemma {:induction false} SingleRoundTrip(f: Field, a: Slot, b: Slot, rest: Bytes) returns (c: Slot)
    requires FieldFormed(f) && !IsArray(f.htype) && Present(f, a) && SlotOk(f, a) && FreshSlot(f, b)
    requires EncodeItem(f, ItemAt(a.items, 0)).Some? && |EncodeItem(f, ItemAt(a.items, 0)).value| < TWO32
    ensures var r := DecodeSingle(f, b, EncodeItem(f, ItemAt(a.items, 0)).value + rest);
            if TerminatedSlot(f, a) then Reads(r, c, rest) && GotSlot(f, a, c) else r.None?
    decreases f, 1
  {
    hide GotItem, TerminatedItem, TerminatedSlot;
    SingleTerminated(f, a);
    var item := ItemAt(a.items, 0);
    var old_ := ItemAt(b.items, 0);
    assert ItemOk(f, item);
    var from := if f.htype.Oneof? then UnionItem(f, old_) else old_;
    if f.htype.Oneof? {
      UnionIsReady(f, old_);
    } else {
      FreshIsReady(f, b);
    }
    ItemRoundTrip(f, item, from, rest);
    var r := DecodeSingle(f, b, EncodeItem(f, item).value + rest);
    c := if r.Some? then r.value.value else b;
    assert |b.items| == 1;
  }

  // ----- Arrays

  ghost predicate Filled(f: Field, src: seq<Item>, a: Entries) {
    && |a.items| == f.arraySize
    && a.size <= f.arraySize
    && GotItems(f, src, a.items, a.size)
    && forall i :: a.size <= i < |a.items| ==> ShapedItem(f, a.items[i])
  }

  lemma FilledMore(f: Field, src: seq<Item>, a: Entries, item: Item)
    requires Filled(f, src, a) && a.size < f.arraySize && GotItem(f, ItemAt(src, a.size), item)
    ensures Filled(f, src, Entries(WithItem(a.items, a.size, item), a.size + 1))
  {
    hide GotItem, ShapedItem;
  }

  lemma FilledIsReady(f: Field, src: seq<Item>, a: Entries)
    requires Filled(f, src, a) && a.size < f.arraySize && IsArray(f.htype)
    ensures Ready(f, ItemAt(a.items, a.size))
  {
  }

  lemma {:induction false} PackedRoundTrip(f: Field, src: seq<Item>, count: nat, a: Entries)
    requires Packable(f.ltype) && Filled(f, src, a) && a.size <= count <= f.arraySize && ItemsOk(f, src, count)
    requires EncodeItems(f, src, a.size, count).Some?
    ensures DecodePacked(f, a, EncodeItems(f, src, a.size, count).value).Some?
    ensures var r := DecodePacked(f, a, EncodeItems(f, src, a.size, count).value).value; Filled(f, src, r) && r.size == count
    decreases count - a.size
  {
    hide Filled, ReadsBack, EncodeItem, DecodeNumber;
    if a.size < count {
      var item := ItemAt(src, a.size);
      var e := EncodeItem(f, item).value;
      var others := EncodeItems(f, src, a.size + 1, count).value;
      NumberRoundTrip(f, item, others);
      var r := NumberRead(f, item, e, others);
      FilledMore(f, src, a, r);
      PackedRoundTrip(f, src, count, Entries(WithItem(a.items, a.size, r), a.size + 1));
    }
  }

  // A number takes at least one byte.
  lemma NumberRead(f: Field, item: Item, e: Bytes, rest: Bytes) returns (r: Item)
    requires Packable(f.ltype) && ReadsBack(f, item, DecodeNumber(f, e + rest), rest)
    ensures e != [] && GotItem(f, item, r)
    ensures forall old_ :: DecodeItem(f, old_, e + rest) == Some(Parsed(r, rest))
  {
    r := DecodeNumber(f, e + rest).value.value;
  }

  // ----- One message

  lemma TagLeads(fields: Fields, st: Progress, k: nat, wire: nat, b: Bytes)
    requires Formed(fields) && InRange(fields, st) && k < |fields| && wire < 8
    ensures DecodeLoop(fields, st, TagBytes(fields[k], wire) + b) ==
            var r := DecodeAt(fields, st, k, wire, b); if r.None? then None else DecodeLoop(fields, r.value.value, r.value.rest)
  {
    hide DecodeAt, Decode32, Varint, FieldFormed;
    var temp := 8 * fields[k].tag + wire;
    TagInRange(fields, k);
    Decode32RoundTrip(temp, b);
    assert temp / 8 == fields[k].tag && temp % 8 == wire;
    FindIsUnique(fields, st.pos, k);
  }

  lemma TagInRange(fields: Fields, k: nat)
    requires Formed(fields) && k < |fields|
    ensures 1 <= fields[k].tag <= MAX_TAG && FieldFormed(fields[k])
  {
  }

  // No field before k that lives in slot s was emitted.
  ghost predicate NonePresent(fields: Fields, m: Message, s: nat, k: nat) {
    forall i :: 0 <= i < k && i < |fields| && SlotOf(fields, i) == s ==> !Present(fields[i], SlotAt(m, s))
  }

  /** The first k fields have arrived; what was not touched still holds its defaults. */
  ghost predicate Recovered(fields: Fields, m: Message, cur: Message, k: nat) {
    && |cur| == SlotCount(fields)
    && (forall j :: 0 <= j < k && j < |fields| && Present(fields[j], SlotAt(m, SlotOf(fields, j))) ==>
          GotSlot(fields[j], SlotAt(m, SlotOf(fields, j)), SlotAt(cur, SlotOf(fields, j))))
    && (forall j :: 0 <= j < |fields| && NonePresent(fields, m, SlotOf(fields, j), k) ==>
          FreshSlot(fields[j], SlotAt(cur, SlotOf(fields, j))))
  }

  // Of the fields in one slot only one can be present.
  lemma OnePresent(fields: Fields, m: Message, i: nat, j: nat)
    requires DistinctTags(fields) && i < |fields| && j < |fields| && SlotOf(fields, i) == SlotOf(fields, j)
    requires Present(fields[i], SlotAt(m, SlotOf(fields, i))) && Present(fields[j], SlotAt(m, SlotOf(fields, j)))
    ensures i == j
  {
    if i != j {
      OnlyUnionsShare(fields, i, j);
    }
  }

  lemma FreshBefore(fields: Fields, m: Message, cur: Message, k: nat)
    requires DistinctTags(fields) && k < |fields| && Recovered(fields, m, cur, k) && Present(fields[k], SlotAt(m, SlotOf(fields, k)))
    ensures FreshSlot(fields[k], SlotAt(cur, SlotOf(fields, k)))
  {
    hide Present, FreshSlot, GotSlot;
    var s := SlotOf(fields, k);
    forall i | 0 <= i < k && SlotOf(fields, i) == s ensures !Present(fields[i], SlotAt(m, s)) {
      if Present(fields[i], SlotAt(m, s)) {
        OnePresent(fields, m, i, k);
      }
    }
    assert NonePresent(fields, m, s, k);
  }

  lemma NonePresentBefore(fields: Fields, m: Message, s: nat, k: nat)
    requires NonePresent(fields, m, s, k + 1)
    ensures NonePresent(fields, m, s, k)
  {
    hide Present;
  }

  // Another field is not touched when field k arrives: no second member of its union is present.
  lemma OthersKeep(fields: Fields, m: Message, cur: Message, k: nat, slot: Slot, j: nat)
    requires DistinctTags(fields) && k < |fields| && j < k && Recovered(fields, m, cur, k)
    requires Present(fields[k], SlotAt(m, SlotOf(fields, k))) && Present(fields[j], SlotAt(m, SlotOf(fields, j)))
    ensures GotSlot(fields[j], SlotAt(m, SlotOf(fields, j)), SlotAt(WithSlot(cur, SlotOf(fields, k), slot), SlotOf(fields, j)))
  {
    hide Present, FreshSlot, GotSlot;
    if SlotOf(fields, j) == SlotOf(fields, k) {
      OnePresent(fields, m, j, k);
    }
  }

  lemma OthersFresh(fields: Fields, m: Message, cur: Message, k: nat, slot: Slot, j: nat)
    requires k < |fields| && j < |fields| && Recovered(fields, m, cur, k)
    requires Present(fields[k], SlotAt(m, SlotOf(fields, k))) && NonePresent(fields, m, SlotOf(fields, j), k + 1)
    ensures FreshSlot(fields[j], SlotAt(WithSlot(cur, SlotOf(fields, k), slot), SlotOf(fields, j)))
  {
    hide Present, FreshSlot, GotSlot;
    assert SlotOf(fields, j) != SlotOf(fields, k);
    NonePresentBefore(fields, m, SlotOf(fields, j), k);
  }

  lemma RecoveredMore(fields: Fields, m: Message, cur: Message, k: nat, slot: Slot)
    requires DistinctTags(fields) && k < |fields| && Recovered(fields, m, cur, k) && Present(fields[k], SlotAt(m, SlotOf(fields, k)))
    requires GotSlot(fields[k], SlotAt(m, SlotOf(fields, k)), slot)
    ensures Recovered(fields, m, WithSlot(cur, SlotOf(fields, k), slot), k + 1)
  {
    hide Present, FreshSlot, GotSlot, NonePresent, SlotOf;
    SlotsAscend(fields, k, k);
    var next := WithSlot(cur, SlotOf(fields, k), slot);
    forall j | 0 <= j < k && Present(fields[j], SlotAt(m, SlotOf(fields, j)))
      ensures GotSlot(fields[j], SlotAt(m, SlotOf(fields, j)), SlotAt(next, SlotOf(fields, j)))
    {
      OthersKeep(fields, m, cur, k, slot, j);
    }
    forall j | 0 <= j < |fields| && NonePresent(fields, m, SlotOf(fields, j), k + 1)
      ensures FreshSlot(fields[j], SlotAt(next, SlotOf(fields, j)))
    {
      OthersFresh(fields, m, cur, k, slot, j);
    }
  }

  lemma RecoveredAbsent(fields: Fields, m: Message, cur: Message, k: nat)
    requires k < |fields| && Recovered(fields, m, cur, k) && !Present(fields[k], SlotAt(m, SlotOf(fields, k)))
    ensures Recovered(fields, m, cur, k + 1)
  {
    hide Present, FreshSlot, GotSlot, NonePresent, SlotOf;
    forall j | 0 <= j < |fields| && NonePresent(fields, m, SlotOf(fields, j), k + 1)
      ensures FreshSlot(fields[j], SlotAt(cur, SlotOf(fields, j)))
    {
      NonePresentBefore(fields, m, SlotOf(fields, j), k);
    }
  }

  /** When all fields have arrived the message is the one that was encoded. */
  lemma RecoveredAll(fields: Fields, m: Message, cur: Message)
    requires Formed(fields) && MessageOk(fields, m) && Recovered(fields, m, cur, |fields|)
    ensures Got(fields, m, cur)
  {
    forall j | 0 <= j < |fields| ensures GotSlot(fields[j], SlotAt(m, SlotOf(fields, j)), SlotAt(cur, SlotOf(fields, j))) {
      RecoveredAt(fields, m, cur, j);
    }
  }

  lemma RecoveredAt(fields: Fields, m: Message, cur: Message, j: nat)
    requires Formed(fields) && MessageOk(fields, m) && Recovered(fields, m, cur, |fields|) && j < |fields|
    ensures GotSlot(fields[j], SlotAt(m, SlotOf(fields, j)), SlotAt(cur, SlotOf(fields, j)))
  {
    hide Present, FreshSlot, GotSlot, FieldFormed, SlotOk;
    var s := SlotOf(fields, j);
    var a, b := SlotAt(m, s), SlotAt(cur, s);
    if !Present(fields[j], a) {
      assert FieldFormed(fields[j]) && SlotOk(fields[j], a);
      if NonePresent(fields, m, s, |fields|) {
        if fields[j].htype.Oneof? {
          SomethingSelected(fields, m, j);
        }
        AbsentIsGot(fields[j], a, b);
      } else {
        var i :| 0 <= i < |fields| && SlotOf(fields, i) == s && Present(fields[i], a);
        OnlyUnionsShare(fields, i, j);
        OtherMember(fields[i], fields[j], a, b);
      }
    }
  }

  lemma SelectedIsPresent(fields: Fields, m: Message, j: nat, i: nat)
    requires j < |fields| && fields[j].htype.Oneof? && i < |fields| && SlotOf(fields, i) == SlotOf(fields, j)
    requires fields[i].tag == SlotAt(m, SlotOf(fields, j)).count
    ensures Present(fields[i], SlotAt(m, SlotOf(fields, j)))
  {
    if i != j {
      OnlyUnionsShare(fields, i, j);
    }
  }

  lemma SomethingSelected(fields: Fields, m: Message, j: nat)
    requires j < |fields| && fields[j].htype.Oneof? && MessageOk(fields, m)
    ensures SlotAt(m, SlotOf(fields, j)).count != 0 ==> !NonePresent(fields, m, SlotOf(fields, j), |fields|)
  {
    hide SlotOk, Present;
    var s := SlotOf(fields, j);
    assert Selects(fields, s, SlotAt(m, s).count);
    if SlotAt(m, s).count != 0 {
      var i :| 0 <= i < |fields| && SlotOf(fields, i) == s && fields[i].tag == SlotAt(m, s).count;
      SelectedIsPresent(fields, m, j, i);
    }
  }

  // The union holds member g, so for member f only the which_ tag matters.
  lemma OtherMember(g: Field, f: Field, a: Slot, b: Slot)
    requires g.htype.Oneof? && f.htype.Oneof? && GotSlot(g, a, b) && !Present(f, a)
    ensures GotSlot(f, a, b)
  {
  }

  // The decoder stands in front of field k.
  ghost predicate Going(fields: Fields, m: Message, st: Progress, k: nat)
    requires k <= |fields|
  {
    && InRange(fields, st)
    && Recovered(fields, m, st.m, k)
    && (st.fixedField.Some? ==> st.fixedField.value < k)
    && FixedComplete(fields, st)
    && (forall x: nat :: x < Tracked(RequiredBefore(fields, k)) ==> x in st.seen)
    && (forall x: nat :: x in st.seen ==> x < RequiredBefore(fields, k))
  }

  lemma GoingAbsent(fields: Fields, m: Message, st: Progress, k: nat)
    requires k < |fields| && Going(fields, m, st, k) && !Present(fields[k], SlotAt(m, SlotOf(fields, k)))
    ensures Going(fields, m, st, k + 1)
  {
    hide Recovered;
    RecoveredAbsent(fields, m, st.m, k);
  }

  // The state once a single value has arrived in field k.
  function WithSingle(fields: Fields, st: Progress, k: nat, slot: Slot): Progress
    requires k < |fields|
  {
    st.(m := WithSlot(st.m, SlotOf(fields, k), slot), pos := k, seen := SeenWith(fields, k, st.seen))
  }

  lemma GoingSingle(fields: Fields, m: Message, st: Progress, k: nat, slot: Slot)
    requires DistinctTags(fields) && k < |fields| && Going(fields, m, st, k) && Present(fields[k], SlotAt(m, SlotOf(fields, k)))
    requires GotSlot(fields[k], SlotAt(m, SlotOf(fields, k)), slot)
    ensures Going(fields, m, WithSingle(fields, st, k, slot), k + 1)
  {
    hide Recovered, Present, GotSlot;
    RecoveredMore(fields, m, st.m, k, slot);
  }

  lemma SingleArrives(fields: Fields, st: Progress, k: nat, wire: nat, b: Bytes, c: Slot, rest: Bytes)
    requires InRange(fields, st) && k < |fields| && !IsArray(fields[k].htype)
    requires fields[k].htype.Oneof? ==> SlotAt(st.m, SlotOf(fields, k)).count == 0
    ensures var r := DecodeSingle(fields[k], SlotAt(st.m, SlotOf(fields, k)), b);
            && (Reads(r, c, rest) ==> Reads(DecodeAt(fields, st, k, wire, b), WithSingle(fields, st, k, c), rest))
            && (r.None? ==> DecodeAt(fields, st, k, wire, b).None?)
  {
    hide DecodeSingle;
  }

  // Entries that have arrived for array field k since state st.
  function WithEntries(fields: Fields, st: Progress, k: nat, a: Entries): Progress
    requires k < |fields|
  {
    var s := SlotOf(fields, k);
    if fields[k].htype.FixedCount?
    then Progress(WithSlot(st.m, s, SlotAt(st.m, s).(items := a.items)), k, st.seen, Some(k), a.size)
    else st.(m := WithSlot(st.m, s, Slot(a.size, a.items)), pos := k)
  }

  ghost predicate Arrived(fields: Fields, st0: Progress, st: Progress, k: nat, a: Entries)
    requires k < |fields|
  {
    || st == WithEntries(fields, st0, k, a)
    || (st == st0 && a == Entries(SlotAt(st0.m, SlotOf(fields, k)).items, 0))
  }

  // An array field that is about to receive its first entry.
  ghost predicate Untouched(fields: Fields, st0: Progress, k: nat)
    requires k < |fields|
  {
    && InRange(fields, st0)
    && SlotOf(fields, k) < |st0.m|
    && IsArray(fields[k].htype)
    && FixedComplete(fields, st0)
    && st0.fixedField != Some(k)
    && (fields[k].htype.Repeated? ==> SlotAt(st0.m, SlotOf(fields, k)).count == 0)
  }

  lemma EntriesArrive(fields: Fields, st0: Progress, st: Progress, k: nat, a: Entries, wire: nat, b: Bytes)
    requires k < |fields| && Untouched(fields, st0, k) && Arrived(fields, st0, st, k, a)
    ensures InRange(fields, st)
    ensures DecodeAt(fields, st, k, wire, b) ==
            var r := DecodeArray(fields[k], wire, a, b);
            if r.None? then None else Some(Parsed(WithEntries(fields, st0, k, r.value.value), r.value.rest))
  {
    hide DecodeArray;
    var s := SlotOf(fields, k);
    forall x: Slot, y: Slot ensures WithSlot(WithSlot(st0.m, s, x), s, y) == WithSlot(st0.m, s, y) {
    }
  }

  lemma GoingArray(fields: Fields, m: Message, st: Progress, k: nat, a: Entries)
    requires DistinctTags(fields) && k < |fields| && Going(fields, m, st, k) && Present(fields[k], SlotAt(m, SlotOf(fields, k)))
    requires IsArray(fields[k].htype)
    requires GotSlot(fields[k], SlotAt(m, SlotOf(fields, k)), SlotAt(WithEntries(fields, st, k, a).m, SlotOf(fields, k)))
    requires fields[k].htype.FixedCount? ==> a.size == fields[k].arraySize
    ensures Going(fields, m, WithEntries(fields, st, k, a), k + 1)
  {
    hide Recovered, Present, GotSlot;
    var s := SlotOf(fields, k);
    var next := WithEntries(fields, st, k, a);
    RecoveredMore(fields, m, st.m, k, SlotAt(next.m, s));
  }

  // The next entry of an unpacked array.
  lemma {:induction false} EntryStep(fields: Fields, st0: Progress, st: Progress, k: nat, a: Entries, src: seq<Item>, rest: Bytes) returns (next: Entries)
    requires Formed(fields) && k < |fields| && Untouched(fields, st0, k) && Arrived(fields, st0, st, k, a)
    requires !Packable(fields[k].ltype) && Filled(fields[k], src, a) && a.size < fields[k].arraySize && ItemOk(fields[k], ItemAt(src, a.size))
    requires EncodeOne(fields[k], ItemAt(src, a.size)).Some? && |EncodeOne(fields[k], ItemAt(src, a.size)).value| < TWO32
    ensures InRange(fields, st) && InRange(fields, WithEntries(fields, st0, k, next))
    ensures TerminatedItem(fields[k], ItemAt(src, a.size)) ==> Filled(fields[k], src, next) && next.size == a.size + 1
    ensures DecodeLoop(fields, st, EncodeOne(fields[k], ItemAt(src, a.size)).value + rest)
         == if TerminatedItem(fields[k], ItemAt(src, a.size)) then DecodeLoop(fields, WithEntries(fields, st0, k, next), rest) else None
    decreases fields, 5
  {
    hide Filled, DecodeLoop, DecodeAt, DecodeItem, EncodeItem, ItemOk, FieldFormed, TerminatedItem;
    var f := fields[k];
    var wire := WireType(f.ltype);
    var item := ItemAt(src, a.size);
    var e := EncodeItem(f, item).value;
    TagInRange(fields, k);
    FilledIsReady(f, src, a);
    ItemRoundTrip(f, item, ItemAt(a.items, a.size), rest);
    EntriesArrive(fields, st0, st, k, a, wire, e + rest);
    TagLeads(fields, st, k, wire, e + rest);
    assert EncodeOne(f, item).value + rest == TagBytes(f, wire) + (e + rest);
    UntouchedInRange(fields, st0, k, a);
    next := a;
    if TerminatedItem(f, item) {
      var x := DecodeItem(f, ItemAt(a.items, a.size), e + rest).value.value;
      next := Entries(WithItem(a.items, a.size, x), a.size + 1);
      FilledMore(f, src, a, x);
    }
  }

  lemma {:induction false} UnpackedSteps(fields: Fields, st0: Progress, st: Progress, k: nat, a: Entries, src: seq<Item>, count: nat, rest: Bytes)
    returns (all: Entries)
    requires Formed(fields) && k < |fields| && Untouched(fields, st0, k) && Arrived(fields, st0, st, k, a)
    requires !Packable(fields[k].ltype) && Filled(fields[k], src, a) && a.size <= count <= fields[k].arraySize && ItemsOk(fields[k], src, count)
    requires EncodeTagged(fields[k], src, a.size, count).Some? && |EncodeTagged(fields[k], src, a.size, count).value| < TWO32
    requires count > 0 && (a.size > 0 ==> st == WithEntries(fields, st0, k, a))
    ensures InRange(fields, st) && InRange(fields, WithEntries(fields, st0, k, all))
    ensures TerminatedItems(fields[k], src, a.size, count) ==> Filled(fields[k], src, all) && all.size == count
    ensures DecodeLoop(fields, st, EncodeTagged(fields[k], src, a.size, count).value + rest)
         == if TerminatedItems(fields[k], src, a.size, count) then DecodeLoop(fields, WithEntries(fields, st0, k, all), rest) else None
    decreases fields, 6, count - a.size
  {
    hide Filled, DecodeLoop, EncodeOne, ItemOk, Formed, Untouched, TerminatedItem;
    if a.size == count {
      all := a;
      UntouchedInRange(fields, st0, k, a);
      assert [] + rest == rest;
    } else {
      var e := EncodeOne(fields[k], ItemAt(src, a.size)).value;
      var others := EncodeTagged(fields[k], src, a.size + 1, count).value;
      var next := EntryStep(fields, st0, st, k, a, src, others + rest);
      assert e + others + rest == e + (others + rest);
      all := next;
      if TerminatedItem(fields[k], ItemAt(src, a.size)) {
        all := UnpackedSteps(fields, st0, WithEntries(fields, st0, k, next), k, next, src, count, rest);
      }
    }
  }

  lemma UntouchedInRange(fields: Fields, st0: Progress, k: nat, a: Entries)
    requires k < |fields| && Untouched(fields, st0, k)
    ensures InRange(fields, WithEntries(fields, st0, k, a))
  {
  }

  lemma {:induction false} PackedStep(fields: Fields, st0: Progress, k: nat, a: Entries, src: seq<Item>, count: nat, rest: Bytes)
    returns (all: Entries)
    requires Formed(fields) && k < |fields| && Untouched(fields, st0, k) && Arrived(fields, st0, st0, k, a)
    requires Packable(fields[k].ltype) && Filled(fields[k], src, a) && a.size == 0 && count <= fields[k].arraySize && ItemsOk(fields[k], src, count)
    requires EncodePacked(fields[k], src, count).Some? && |EncodePacked(fields[k], src, count).value| < TWO32
    ensures InRange(fields, WithEntries(fields, st0, k, all))
    ensures Filled(fields[k], src, all) && all.size == count
    ensures DecodeLoop(fields, st0, EncodePacked(fields[k], src, count).value + rest) == DecodeLoop(fields, WithEntries(fields, st0, k, all), rest)
  {
    hide Filled, DecodeLoop, DecodeAt, DecodeItem, EncodeItems, DecodePacked, TakeString, ItemsOk, FieldFormed, Varint;
    var f := fields[k];
    var body := EncodeItems(f, src, 0, count).value;
    PackedRoundTrip(f, src, count, a);
    all := DecodePacked(f, a, body).value;
    TakeStringRoundTrip(body, rest);
    EntriesArrive(fields, st0, st0, k, a, 2, LengthPrefixed(body) + rest);
    TagLeads(fields, st0, k, 2, LengthPrefixed(body) + rest);
    assert EncodePacked(f, src, count).value + rest == TagBytes(f, 2) + (LengthPrefixed(body) + rest);
  }

  function FieldBytes(fields: Fields, m: Message, k: nat): Option<Bytes>
    requires k < |fields|
  {
    EncodeField(fields[k], SlotAt(m, SlotOf(fields, k)))
  }

  ghost predicate TerminatedAt(fields: Fields, m: Message, k: nat)
    requires k < |fields|
  {
    TerminatedSlot(fields[k], SlotAt(m, SlotOf(fields, k)))
  }

  lemma ArrayReady(fields: Fields, m: Message, st: Progress, k: nat)
    requires Formed(fields) && k < |fields| && Going(fields, m, st, k) && Present(fields[k], SlotAt(m, SlotOf(fields, k)))
    requires IsArray(fields[k].htype)
    ensures Untouched(fields, st, k)
    ensures Filled(fields[k], SlotAt(m, SlotOf(fields, k)).items, Entries(SlotAt(st.m, SlotOf(fields, k)).items, 0))
  {
    hide Present, GotItem, Recovered, ShapedItem;
    SlotsAscend(fields, k, k);
    RecoveredSize(fields, m, st.m, k);
    FreshBefore(fields, m, st.m, k);
  }

  lemma RecoveredSize(fields: Fields, m: Message, cur: Message, k: nat)
    requires Recovered(fields, m, cur, k)
    ensures |cur| == SlotCount(fields)
  {
  }

  lemma ArrayFilled(f: Field, a: Slot, b: Slot, all: Entries)
    requires IsArray(f.htype) && Filled(f, a.items, all) && all.size == CountOf(f, a) && b.items == all.items
    requires f.htype.Repeated? ==> b.count == all.size
    ensures GotSlot(f, a, b)
  {
    hide GotItem;
  }

  lemma ArrayBytes(f: Field, slot: Slot)
    requires IsArray(f.htype) && Present(f, slot) && EncodeField(f, slot).Some?
    ensures 0 < CountOf(f, slot) <= f.arraySize
    ensures EncodeField(f, slot) == if Packable(f.ltype) then EncodePacked(f, slot.items, CountOf(f, slot))
                                    else EncodeTagged(f, slot.items, 0, CountOf(f, slot))
  {
  }

  lemma SingleBytes(f: Field, slot: Slot)
    requires !IsArray(f.htype) && Present(f, slot)
    ensures EncodeField(f, slot) == Cat(Some(TagBytes(f, WireType(f.ltype))), EncodeItem(f, ItemAt(slot.items, 0)))
  {
  }

  // Numbers and bytes have no terminator.
  lemma PackableTerminated(f: Field, slot: Slot)
    requires Packable(f.ltype)
    ensures TerminatedSlot(f, slot)
  {
  }

  lemma {:induction false} ArrayStep(fields: Fields, m: Message, st: Progress, k: nat, rest: Bytes) returns (next: Progress)
    requires Formed(fields) && k < |fields| && Going(fields, m, st, k) && Present(fields[k], SlotAt(m, SlotOf(fields, k)))
    requires SlotOk(fields[k], SlotAt(m, SlotOf(fields, k))) && IsArray(fields[k].htype)
    requires FieldBytes(fields, m, k).Some? && |FieldBytes(fields, m, k).value| < TWO32
    ensures InRange(fields, st) && InRange(fields, next)
    ensures TerminatedAt(fields, m, k) ==> Going(fields, m, next, k + 1)
    ensures DecodeLoop(fields, st, FieldBytes(fields, m, k).value + rest)
         == if TerminatedAt(fields, m, k) then DecodeLoop(fields, next, rest) else None
    decreases fields, 7
  {
    hide Filled, Untouched, DecodeLoop, EncodePacked, EncodeTagged, EncodeField, Present, Formed, Recovered, ItemsOk, GotSlot, TerminatedItems;
    var f := fields[k];
    var slot := SlotAt(m, SlotOf(fields, k));
    var a := Entries(SlotAt(st.m, SlotOf(fields, k)).items, 0);
    var count := CountOf(f, slot);
    ArrayBytes(f, slot);
    ArrayReady(fields, m, st, k);
    var all: Entries;
    if Packable(f.ltype) {
      PackableTerminated(f, slot);
      all := PackedStep(fields, st, k, a, slot.items, count, rest);
    } else {
      all := UnpackedSteps(fields, st, st, k, a, slot.items, count, rest);
    }
    next := WithEntries(fields, st, k, all);
    if TerminatedAt(fields, m, k) {
      RecoveredSize(fields, m, st.m, k);
      SlotsAscend(fields, k, k);
      ArrayFilled(f, slot, SlotAt(next.m, SlotOf(fields, k)), all);
      DistinctOf(fields);
      GoingArray(fields, m, st, k, all);
    }
  }

  lemma DistinctOf(fields: Fields)
    requires Formed(fields)
    ensures DistinctTags(fields)
  {
  }

  lemma {:induction false} SingleStep(fields: Fields, m: Message, st: Progress, k: nat, rest: Bytes) returns (next: Progress)
    requires Formed(fields) && k < |fields| && Going(fields, m, st, k) && Present(fields[k], SlotAt(m, SlotOf(fields, k)))
    requires SlotOk(fields[k], SlotAt(m, SlotOf(fields, k))) && !IsArray(fields[k].htype)
    requires FieldBytes(fields, m, k).Some? && |FieldBytes(fields, m, k).value| < TWO32
    ensures InRange(fields, st) && InRange(fields, next)
    ensures TerminatedAt(fields, m, k) ==> Going(fields, m, next, k + 1)
    ensures DecodeLoop(fields, st, FieldBytes(fields, m, k).value + rest)
         == if TerminatedAt(fields, m, k) then DecodeLoop(fields, next, rest) else None
    decreases fields, 7
  {
    hide DecodeLoop, DecodeAt, DecodeSingle, EncodeItem, FreshSlot, SlotOk, GotSlot, FieldFormed, Present, Recovered, EncodeField, TerminatedSlot;
    var f := fields[k];
    var wire := WireType(f.ltype);
    var a, b := SlotAt(m, SlotOf(fields, k)), SlotAt(st.m, SlotOf(fields, k));
    SingleBytes(f, a);
    var e := EncodeItem(f, ItemAt(a.items, 0)).value;
    FreshBefore(fields, m, st.m, k);
    FreshCount(f, b);
    TagInRange(fields, k);
    var c := SingleRoundTrip(f, a, b, rest);
    SingleArrives(fields, st, k, wire, e + rest, c, rest);
    TagLeads(fields, st, k, wire, e + rest);
    assert FieldBytes(fields, m, k).value + rest == TagBytes(f, wire) + (e + rest);
    next := st;
    if TerminatedAt(fields, m, k) {
      next := WithSingle(fields, st, k, c);
      GoingSingle(fields, m, st, k, c);
    }
  }

  lemma FreshCount(f: Field, b: Slot)
    requires FreshSlot(f, b)
    ensures f.htype.Oneof? || f.htype.Repeated? ==> b.count == 0
  {
  }

  lemma OkAt(fields: Fields, m: Message, k: nat)
    requires k < |fields| && MessageOk(fields, m)
    ensures SlotOk(fields[k], SlotAt(m, SlotOf(fields, k)))
  {
  }

  lemma AbsentBytes(f: Field, slot: Slot)
    requires !Present(f, slot)
    ensures EncodeField(f, slot) == Some([])
  {
  }

  lemma {:induction false} FieldStep(fields: Fields, m: Message, st: Progress, k: nat, rest: Bytes) returns (next: Progress)
    requires Formed(fields) && k < |fields| && Going(fields, m, st, k) && MessageOk(fields, m)
    requires FieldBytes(fields, m, k).Some? && |FieldBytes(fields, m, k).value| < TWO32
    ensures InRange(fields, st) && InRange(fields, next)
    ensures TerminatedAt(fields, m, k) ==> Going(fields, m, next, k + 1)
    ensures DecodeLoop(fields, st, FieldBytes(fields, m, k).value + rest)
         == if TerminatedAt(fields, m, k) then DecodeLoop(fields, next, rest) else None
    decreases fields, 8
  {
    hide Going, DecodeLoop, Formed, SlotOk, Present, EncodeField, MessageOk, TerminatedItems;
    OkAt(fields, m, k);
    if !Present(fields[k], SlotAt(m, SlotOf(fields, k))) {
      AbsentBytes(fields[k], SlotAt(m, SlotOf(fields, k)));
    }
    GoingInRange(fields, m, st, k);
    if !Present(fields[k], SlotAt(m, SlotOf(fields, k))) {
      GoingAbsent(fields, m, st, k);
      next := st;
      assert [] + rest == rest;
    } else if IsArray(fields[k].htype) {
      next := ArrayStep(fields, m, st, k, rest);
    } else {
      next := SingleStep(fields, m, st, k, rest);
    }
  }

  lemma GoingInRange(fields: Fields, m: Message, st: Progress, k: nat)
    requires k <= |fields| && Going(fields, m, st, k)
    ensures InRange(fields, st)
  {
  }

  lemma {:induction false} AllSteps(fields: Fields, m: Message, st: Progress, k: nat) returns (last: Progress)
    requires Formed(fields) && k <= |fields| && Going(fields, m, st, k) && MessageOk(fields, m)
    requires EncodeFrom(fields, m, k).Some? && |EncodeFrom(fields, m, k).value| < TWO32
    ensures InRange(fields, st)
    ensures var terminated := forall j :: k <= j < |fields| ==> TerminatedAt(fields, m, j);
            && (terminated ==> Going(fields, m, last, |fields|))
            && DecodeLoop(fields, st, EncodeFrom(fields, m, k).value) == if terminated then Some(last) else None
    decreases fields, 9, |fields| - k
  {
    hide Going, Formed, MessageOk, FieldBytes, TerminatedAt;
    GoingInRange(fields, m, st, k);
    last := st;
    if k < |fields| {
      var others := EncodeFrom(fields, m, k + 1).value;
      FromSplits(fields, m, k);
      var next := FieldStep(fields, m, st, k, others);
      if TerminatedAt(fields, m, k) {
        last := AllSteps(fields, m, next, k + 1);
      }
    }
  }

  lemma FromSplits(fields: Fields, m: Message, k: nat)
    requires k < |fields|
    ensures EncodeFrom(fields, m, k) == Cat(FieldBytes(fields, m, k), EncodeFrom(fields, m, k + 1))
  {
  }

  lemma GoingStarts(fields: Fields, m: Message, base: Message)
    requires Fresh(fields, base)
    ensures Going(fields, m, Progress(base, 0, {}, None, 0), 0)
  {
    hide FreshSlot, GotSlot;
  }

  lemma GoingEnds(fields: Fields, m: Message, st: Progress)
    requires Formed(fields) && MessageOk(fields, m) && Going(fields, m, st, |fields|)
    ensures Got(fields, m, st.m) && InRange(fields, st) && FixedComplete(fields, st)
    ensures AllSeen(st.seen, Tracked(RequiredBefore(fields, |fields|)))
  {
    hide Recovered, Formed, MessageOk, Got;
    RecoveredAll(fields, m, st.m);
  }

  /** Into fresh memory, the decoder takes what the encoder accepted, at any depth, exactly when the strings in it
      are terminated. */
  lemma {:induction false} MessageRoundTrip(fields: Fields, m: Message, base: Message)
    requires Formed(fields) && MessageOk(fields, m) && Fresh(fields, base)
    requires Encoded(fields, m).Some? && |Encoded(fields, m).value| < TWO32
    ensures var r := DecodeMessage(fields, base, Encoded(fields, m).value);
            if Terminated(fields, m) then r.Some? && Got(fields, m, r.value) else r.None?
    decreases fields, 10
  {
    hide Going, Formed, MessageOk, Got, Fresh, AllSeen, DecodeLoop, TerminatedSlot;
    var st := Progress(base, 0, {}, None, 0);
    GoingStarts(fields, m, base);
    var last := AllSteps(fields, m, st, 0);
    if Terminated(fields, m) {
      assert forall j :: 0 <= j < |fields| ==> TerminatedAt(fields, m, j);
      GoingEnds(fields, m, last);
    } else {
      var j :| 0 <= j < |fields| && !TerminatedSlot(fields[j], SlotAt(m, SlotOf(fields, j)));
      assert !TerminatedAt(fields, m, j);
    }
  }

  // ----- When what arrives is what was sent

  lemma {:induction false} GotItemIsSame(f: Field, a: Item, b: Item)
    requires FieldFormed(f) && ItemOk(f, a) && GotItem(f, a, b)
    ensures SameItem(f, a, b) <==> RestorableItem(f, a)
    decreases f, 0
  {
    if f.ltype.Submessage? {
      GotIsSame(f.ltype.fields, SlotsOf(a), SlotsOf(b));
    }
  }

  lemma {:induction false} GotItemsAreSame(f: Field, a: seq<Item>, b: seq<Item>, n: nat)
    requires FieldFormed(f) && ItemsOk(f, a, n) && GotItems(f, a, b, n)
    ensures SameItems(f, a, b, n) <==> forall j: nat :: j < n ==> RestorableItem(f, ItemAt(a, j))
    decreases f, 1
  {
    hide FieldFormed, ItemOk, GotItem, SameItem, RestorableItem;
    forall j: nat | j < n
      ensures SameItem(f, ItemAt(a, j), ItemAt(b, j)) <==> RestorableItem(f, ItemAt(a, j))
    {
      GotItemIsSame(f, ItemAt(a, j), ItemAt(b, j));
    }
  }

  lemma {:induction false} GotSlotIsSame(f: Field, a: Slot, b: Slot)
    requires FieldFormed(f) && SlotOk(f, a) && GotSlot(f, a, b)
    ensures SameSlot(f, a, b) <==> RestorableSlot(f, a)
    decreases f, 2
  {
    hide FieldFormed, ItemsOk, GotItems, SameItems, RestorableItem, IsZero, FreshItem;
    if Present(f, a) {
      GotItemsAreSame(f, a.items, b.items, CountOf(f, a));
    } else if f.htype.Singular? {
      FirstOk(f, a.items);
      ZeroIsSame(f, ItemAt(a.items, 0), ItemAt(b.items, 0));
      FirstSame(f, a.items, b.items);
    } else {
      NoItems(f, a.items, b.items);
    }
  }

  lemma NoItems(f: Field, a: seq<Item>, b: seq<Item>)
    ensures SameItems(f, a, b, 0)
  {
  }

  lemma FirstOk(f: Field, items: seq<Item>)
    requires ItemsOk(f, items, 1)
    ensures ItemOk(f, ItemAt(items, 0))
  {
    hide ItemOk;
  }

  lemma FirstSame(f: Field, a: seq<Item>, b: seq<Item>)
    ensures SameItems(f, a, b, 1) <==> SameItem(f, ItemAt(a, 0), ItemAt(b, 0))
  {
    hide SameItem;
  }

  lemma {:induction false} GotIsSame(fields: Fields, a: Message, b: Message)
    requires Formed(fields) && MessageOk(fields, a) && Got(fields, a, b)
    ensures Same(fields, a, b) <==> Restorable(fields, a)
    decreases fields, 3
  {
    hide FieldFormed, SlotOk, GotSlot, SameSlot, RestorableSlot;
    forall k | 0 <= k < |fields|
      ensures SameSlot(fields[k], SlotAt(a, SlotOf(fields, k)), SlotAt(b, SlotOf(fields, k)))
              <==> RestorableSlot(fields[k], SlotAt(a, SlotOf(fields, k)))
    {
      GotSlotIsSame(fields[k], SlotAt(a, SlotOf(fields, k)), SlotAt(b, SlotOf(fields, k)));
    }
  }

  lemma ZerosSpellNothing(n: nat)
    ensures CString(Zeros(n)) == []
  {
  }

  // A zero that was left out comes back exactly when the default of the field reads as zero.
  lemma {:induction false} ZeroIsSame(f: Field, a: Item, b: Item)
    requires FieldFormed(f) && IsZero(f, a) && FreshItem(f, b) && ItemOk(f, a)
    ensures SameItem(f, a, b) <==> ZeroDefault(f)
    decreases f, 0
  {
    match f.ltype
    case Text => ZerosSpellNothing(f.dataSize);
    case Submessage(sub) => DefaultsAreSame(sub, SlotsOf(a), SlotsOf(b));
    case _ =>
  }

  lemma {:induction false} DefaultIsSame(f: Field, a: Slot, b: Slot)
    requires FieldFormed(f) && IsDefault(f, a) && FreshSlot(f, b) && SlotOk(f, a)
    ensures SameSlot(f, a, b) <==> (f.htype.Singular? ==> ZeroDefault(f))
    decreases f, 1
  {
    if f.htype.Singular? {
      FirstOk(f, a.items);
      ZeroIsSame(f, ItemAt(a.items, 0), ItemAt(b.items, 0));
      FirstSame(f, a.items, b.items);
    }
  }

  lemma {:induction false} AllDefaultAt(fields: Fields, m: Message, k: nat, j: nat)
    requires k <= j < |fields| && AllDefault(fields, m, k)
    ensures IsDefault(fields[j], SlotAt(m, SlotOf(fields, j)))
    decreases j - k
  {
    if k < j {
      AllDefaultAt(fields, m, k + 1, j);
    }
  }

  /** An all-default submessage that was left out equals the defaults the decoder set up exactly when those are zero. */
  lemma {:induction false} DefaultsAreSame(fields: Fields, a: Message, b: Message)
    requires Formed(fields) && AllDefault(fields, a, 0) && Fresh(fields, b) && MessageOk(fields, a)
    ensures Same(fields, a, b) <==> ZeroDefaults(fields)
    decreases fields, 2
  {
    hide FieldFormed, SlotOk, FreshSlot, SameSlot, ZeroDefault;
    forall k | 0 <= k < |fields|
      ensures SameSlot(fields[k], SlotAt(a, SlotOf(fields, k)), SlotAt(b, SlotOf(fields, k)))
              <==> (fields[k].htype.Singular? ==> ZeroDefault(fields[k]))
    {
      AllDefaultAt(fields, a, 0, k);
      DefaultIsSame(fields[k], SlotAt(a, SlotOf(fields, k)), SlotAt(b, SlotOf(fields, k)));
    }
  }

  /**
   * pb_decode restores what pb_encode wrote, whatever the struct held before, if and only if every string that was
   * sent is terminated inside its buffer and every proto3 field that was left out has a zero default. Without the
   * first condition the decoder refuses the message, without the second one it gives the default.
   */
  lemma RoundTrip(fields: Fields, m: Message, dest: Message)
    requires Formed(fields) && MessageOk(fields, m) && Shaped(fields, dest)
    requires Encoded(fields, m).Some? && |Encoded(fields, m).value| < TWO32
    ensures var r := Decoded(fields, dest, Encoded(fields, m).value);
            && (r.Some? <==> Terminated(fields, m))
            && (r.Some? && Same(fields, m, r.value) <==> Terminated(fields, m) && Restorable(fields, m))
  {
    hide Formed, MessageOk, Shaped, Fresh, Same, Got, Terminated, Restorable, DecodeMessage, Defaults, EncodeFrom;
    DefaultsAreFresh(fields, dest);
    MessageRoundTrip(fields, m, Defaults(fields, dest, 0));
    if Terminated(fields, m) {
      GotIsSame(fields, m, Decoded(fields, dest, Encoded(fields, m).value).value);
    }
  }

  /** Both conditions can fail: a zero comes back as the default of its field, and an unterminated string is refused. */
  lemma BothConditionsMatter(dest: Message, name: Message)
    requires Shaped([COUNT], dest) && Shaped([NAME], name)
    ensures var r := Decoded([COUNT], dest, []);
            Encoded([COUNT], ZERO_COUNT) == Some([]) && r.Some? && !Same([COUNT], ZERO_COUNT, r.value)
    ensures var e := Encoded([NAME], UNTERMINATED);
            e == Some([10, 1, 65]) && Decoded([NAME], name, e.value).None?
  {
    assert [COUNT][0] == COUNT && [NAME][0] == NAME;
    assert IsDefault(COUNT, ZERO_COUNT[0]);
    assert AllDefault([COUNT], ZERO_COUNT, 1);
    DefaultIsEmpty([COUNT], ZERO_COUNT, 0);
    RoundTrip([COUNT], ZERO_COUNT, dest);
    assert !RestorableSlot(COUNT, ZERO_COUNT[0]);
    assert !TerminatedItem(NAME, ItemAt(UNTERMINATED[0].items, 0));
    assert Present(NAME, UNTERMINATED[0]) && CountOf(NAME, UNTERMINATED[0]) == 1;
    assert !TerminatedSlot(NAME, UNTERMINATED[0]);
    UnterminatedBytes();
    RoundTrip([NAME], UNTERMINATED, name);
  }

  lemma UnterminatedBytes()
    ensures Encoded([NAME], UNTERMINATED) == Some([10, 1, 65])
  {
    var f := [NAME];
    assert f[0] == NAME && SlotOf(f, 0) == 0;
    assert EncodeFrom(f, UNTERMINATED, 1) == Some([]);
    assert CString([65]) == [65] + CString([65][1..]) == [65];
    assert LengthPrefixed([65]) == [1] + [65] == [1, 65];
    assert EncodeItem(NAME, Chars([65])) == Some([1, 65]);
    assert TagBytes(NAME, 2) == [10];
    assert ItemAt(UNTERMINATED[0].items, 0) == Chars([65]);
    assert [10] + [1, 65] == [10, 1, 65];
    assert EncodeOne(NAME, Chars([65])) == Some([10, 1, 65]);
    assert Present(NAME, UNTERMINATED[0]);
    assert EncodeField(NAME, UNTERMINATED[0]) == Some([10, 1, 65]);
    var none: Bytes := [];
    assert [10, 1, 65] + none == [10, 1, 65];
  }

  // A proto3 number of four bytes with the default 5, and a string in a buffer of one byte.
  const COUNT := Field(1, VarInt, Singular, 4, 0, Some(Int(5)), false)
  const ZERO_COUNT: Message := [Slot(0, [Int(0)])]
  const NAME := Field(1, Text, Required, 1, 0, None, false)
  const UNTERMINATED: Message := [Slot(0, [Chars([65])])]

  // What the decoder's methods ask of the descriptors.
  lemma {:induction false} FormedIsDistinct(fields: Fields)
    requires Formed(fields)
    ensures UnionsDistinct(fields)
    decreases fields, 1
  {
    forall i | 0 <= i < |fields| ensures FieldUnionsDistinct(fields[i]) {
      FieldFormedIsDistinct(fields[i]);
    }
  }

  lemma {:induction false} FieldFormedIsDistinct(f: Field)
    requires FieldFormed(f)
    ensures FieldUnionsDistinct(f)
    decreases f, 0
  {
    if f.ltype.Submessage? {
      FormedIsDistinct(f.ltype.fields);
    }
  }
}
