/**
 * Messages from a sender that knows more fields: the decoder skips what it does not know
 * (nanopb's pb_skip_field and the unknown-field branch of pb_decode_noinit), so such a message
 * decodes to what its known fields say.
 */
module PbUnknown {
  import opened Wrappers
  import opened DbFormat
  import opened Coding
  import opened PbFormat
  import opened PbEncode
  import opened PbDecode
  import opened PbRoundTrip

  // ----- Skipping one field, whatever its wire type

  ghost predicate Encodable(f: Field) {
    1 <= f.tag <= MAX_TAG
  }

  ghost predicate Short(e: Option<Bytes>) {
    e.Some? && |e.value| < TWO32
  }

  lemma {:induction false} SkipsVarint(v: nat, rest: Bytes)
    ensures SkipVarint(Varint(v) + rest) == Some(rest)
  {
    var b := Varint(v) + rest;
    if v < 128 {
      assert b[1..] == rest;
    } else {
      assert b[1..] == Varint(v / 128) + rest;
      SkipsVarint(v / 128, rest);
    }
  }

  lemma SkipsBytes(e: Bytes, rest: Bytes)
    ensures Take(e + rest, |e|) == Some(Parsed(e, rest))
  {
    assert (e + rest)[..|e|] == e && (e + rest)[|e|..] == rest;
  }

  lemma SkipsString(s: Bytes, rest: Bytes)
    requires |s| < TWO32
    ensures SkipField(2, LengthPrefixed(s) + rest) == Some(rest)
  {
    hide TakeString;
    TakeStringRoundTrip(s, rest);
  }

  /** Whatever an item holds, its encoding is skipped to the last byte by the wire type it is sent with. */
  lemma SkipsItem(f: Field, item: Item, rest: Bytes)
    requires Short(EncodeItem(f, item))
    ensures SkipField(WireType(f.ltype), EncodeItem(f, item).value + rest) == Some(rest)
  {
    hide Varint, SkipVarint, TakeString, Fixed, FromFixed, EncodeFrom;
    var e := EncodeItem(f, item).value;
    match f.ltype
    case Bool => SkipsVarint(if IntOf(item) != 0 then 1 else 0, rest);
    case VarInt => SkipsVarint(IntOf(item) % TWO64, rest);
    case UVarInt => SkipsVarint(IntOf(item) % TWO64, rest);
    case SVarInt => SkipsVarint(ZigZag(IntOf(item)), rest);
    case Word32 => SkipsBytes(e, rest);
    case Word64 => SkipsBytes(e, rest);
    case ByteArray => SkipsString(BytesOf(item), rest);
    case Text => SkipsString(CString(BufferOf(item)), rest);
    case FixedLengthBytes => SkipsString(BytesOf(item), rest);
    case Submessage(sub) => SkipsString(EncodeFrom(sub, SlotsOf(item), 0).value, rest);
  }

  lemma UnknownTag(fields: Fields, st: Progress, f: Field, wire: nat, b: Bytes)
    requires InRange(fields, st) && Encodable(f) && !HasTag(fields, f.tag) && wire < 8
    ensures DecodeLoop(fields, st, TagBytes(f, wire) + b)
         == var r := SkipField(wire, b); if r.None? then None else DecodeLoop(fields, st, r.value)
  {
    hide SkipField, ReadTag, TagBytes, HasTag;
    TagIsRead(f, wire, b);
    NotFound(fields, st.pos, f.tag);
  }

  lemma NotFound(fields: Fields, p: nat, tag: nat)
    requires !HasTag(fields, tag) && (p < |fields| || p == 0 == |fields|)
    ensures FieldWithTag(fields, p, tag) == None
  {
    hide FindFrom;
  }

  lemma TagIsRead(f: Field, wire: nat, b: Bytes)
    requires Encodable(f) && wire < 8
    ensures TagBytes(f, wire) + b != [] && ReadTag(TagBytes(f, wire) + b) == Tag(f.tag, wire, b)
  {
    hide Decode32, Varint;
    var temp := 8 * f.tag + wire;
    Decode32RoundTrip(temp, b);
    assert temp / 8 == f.tag && temp % 8 == wire;
  }

  /** A value of a field the receiver does not know leaves no trace. */
  lemma UnknownIsSkipped(fields: Fields, st: Progress, f: Field, item: Item, rest: Bytes)
    requires InRange(fields, st) && Encodable(f) && !HasTag(fields, f.tag) && Short(EncodeOne(f, item))
    ensures DecodeLoop(fields, st, EncodeOne(f, item).value + rest) == DecodeLoop(fields, st, rest)
  {
    hide DecodeLoop, SkipField, EncodeItem;
    var e := EncodeItem(f, item).value;
    assert EncodeOne(f, item).value + rest == TagBytes(f, WireType(f.ltype)) + (e + rest);
    SkipsItem(f, item, rest);
    UnknownTag(fields, st, f, WireType(f.ltype), e + rest);
  }

  /** A field the receiver does not know is refused when it comes with a wire type that does not exist. */
  lemma OtherWireTypesAreRefused(fields: Fields, st: Progress, f: Field, wire: nat, b: Bytes)
    requires InRange(fields, st) && Encodable(f) && !HasTag(fields, f.tag) && wire in {3, 4, 6, 7}
    ensures DecodeLoop(fields, st, TagBytes(f, wire) + b) == None
  {
    hide DecodeLoop;
    UnknownTag(fields, st, f, wire, b);
  }

  /** A zero where a tag should be ends the message. */
  lemma ZeroEnds(fields: Fields, st: Progress, b: Bytes)
    requires InRange(fields, st)
    ensures DecodeLoop(fields, st, [0] + b) == Some(st)
  {
  }

  // ----- Inputs that no decoder for these fields can tell apart

  ghost predicate Alike(fields: Fields, x: Bytes, y: Bytes) {
    forall st :: InRange(fields, st) ==> DecodeLoop(fields, st, x) == DecodeLoop(fields, st, y)
  }

  lemma AlikeMessages(fields: Fields, base: Message, x: Bytes, y: Bytes)
    requires Alike(fields, x, y)
    ensures DecodeMessage(fields, base, x) == DecodeMessage(fields, base, y)
  {
    hide DecodeLoop;
    assert InRange(fields, Progress(base, 0, {}, None, 0));
  }

  lemma OneUnknown(fields: Fields, f: Field, item: Item, x: Bytes, y: Bytes)
    requires Encodable(f) && !HasTag(fields, f.tag) && Short(EncodeOne(f, item)) && Alike(fields, x, y)
    ensures Alike(fields, EncodeOne(f, item).value + x, y)
  {
    hide DecodeLoop, EncodeOne, InRange;
    forall st | InRange(fields, st)
      ensures DecodeLoop(fields, st, EncodeOne(f, item).value + x) == DecodeLoop(fields, st, y)
    {
      UnknownIsSkipped(fields, st, f, item, x);
    }
  }

  lemma {:induction false} TaggedUnknown(fields: Fields, f: Field, items: seq<Item>, i: nat, count: nat, x: Bytes,
                                         y: Bytes)
    requires Encodable(f) && !HasTag(fields, f.tag) && Short(EncodeTagged(f, items, i, count)) && Alike(fields, x, y)
    ensures Alike(fields, EncodeTagged(f, items, i, count).value + x, y)
    decreases count - i
  {
    hide Alike, EncodeOne, HasTag;
    if i >= count {
      assert [] + x == x;
    } else {
      var one, others := EncodeOne(f, ItemAt(items, i)), EncodeTagged(f, items, i + 1, count);
      TaggedUnknown(fields, f, items, i + 1, count, x, y);
      OneUnknown(fields, f, ItemAt(items, i), others.value + x, y);
      assert one.value + others.value + x == one.value + (others.value + x);
    }
  }

  lemma PackedUnknown(fields: Fields, f: Field, items: seq<Item>, count: nat, x: Bytes, y: Bytes)
    requires Encodable(f) && !HasTag(fields, f.tag) && Short(EncodePacked(f, items, count)) && Alike(fields, x, y)
    ensures Alike(fields, EncodePacked(f, items, count).value + x, y)
  {
    hide DecodeLoop, EncodeItems, InRange, SkipField, HasTag;
    var body := EncodeItems(f, items, 0, count).value;
    assert EncodePacked(f, items, count).value + x == TagBytes(f, 2) + (LengthPrefixed(body) + x);
    forall st | InRange(fields, st)
      ensures DecodeLoop(fields, st, EncodePacked(f, items, count).value + x) == DecodeLoop(fields, st, y)
    {
      SkipsString(body, x);
      UnknownTag(fields, st, f, 2, LengthPrefixed(body) + x);
    }
  }

  /** A field the receiver does not know, single, repeated or packed, leaves no trace. */
  lemma FieldUnknown(fields: Fields, f: Field, slot: Slot, x: Bytes, y: Bytes)
    requires Encodable(f) && !HasTag(fields, f.tag) && Short(EncodeField(f, slot)) && Alike(fields, x, y)
    ensures Alike(fields, EncodeField(f, slot).value + x, y)
  {
    hide Alike, EncodeOne, EncodeTagged, EncodePacked, HasTag, Present;
    if !Present(f, slot) || (IsArray(f.htype) && CountOf(f, slot) == 0) {
      NothingSent(f, slot);
      assert [] + x == x;
    } else if !IsArray(f.htype) {
      OneUnknown(fields, f, ItemAt(slot.items, 0), x, y);
    } else if Packable(f.ltype) {
      PackedUnknown(fields, f, slot.items, CountOf(f, slot), x, y);
    } else {
      TaggedUnknown(fields, f, slot.items, 0, CountOf(f, slot), x, y);
    }
  }

  lemma NothingSent(f: Field, slot: Slot)
    requires !Present(f, slot) || (IsArray(f.htype) && CountOf(f, slot) == 0)
    ensures EncodeField(f, slot) == Some([])
  {
    hide EncodeOne, EncodeTagged, EncodePacked, Present;
  }

  // ----- A known field is read to its end, and what it gives does not depend on what follows

  ghost predicate Carries<T(!new)>(a: Option<Parsed<T>>, b: Option<Parsed<T>>, x: Bytes, y: Bytes) {
    if a.None? then b.None?
    else a.value.rest == x && b == Some(Parsed(a.value.value, y))
  }

  // The receiver takes the field for what it is; inside submessages the two may differ.
  ghost predicate Agrees(g: Field, f: Field) {
    && IsArray(g.htype) == IsArray(f.htype)
    && (g.ltype == f.ltype || (g.ltype.Submessage? && f.ltype.Submessage?))
  }

  lemma NumberCarries(g: Field, f: Field, item: Item, x: Bytes, y: Bytes)
    requires Packable(f.ltype) && g.ltype == f.ltype && EncodeItem(f, item).Some?
    ensures var e := EncodeItem(f, item).value; Carries(DecodeNumber(g, e + x), DecodeNumber(g, e + y), x, y)
  {
    hide Varint, Decode32, GetVarint64, Fixed, FromFixed, Pow, Signed, UnZigZag, VarIntValue;
    var e := EncodeItem(f, item).value;
    match f.ltype
    case Bool =>
      Decode32RoundTrip(if IntOf(item) != 0 then 1 else 0, x);
      Decode32RoundTrip(if IntOf(item) != 0 then 1 else 0, y);
    case Word32 => SkipsBytes(e, x); SkipsBytes(e, y);
    case Word64 => SkipsBytes(e, x); SkipsBytes(e, y);
    case VarInt => VarintRoundTrip(IntOf(item) % TWO64, x); VarintRoundTrip(IntOf(item) % TWO64, y);
    case UVarInt => VarintRoundTrip(IntOf(item) % TWO64, x); VarintRoundTrip(IntOf(item) % TWO64, y);
    case SVarInt => VarintRoundTrip(ZigZag(IntOf(item)), x); VarintRoundTrip(ZigZag(IntOf(item)), y);
  }

  // The three kinds of length-prefixed data look at the length and at that many bytes.
  lemma StringCarries(g: Field, s: Bytes, old_: Item, x: Bytes, y: Bytes)
    requires |s| < TWO32
    ensures var e := LengthPrefixed(s);
            && Carries(DecodeBytes(g, e + x), DecodeBytes(g, e + y), x, y)
            && Carries(DecodeText(g, old_, e + x), DecodeText(g, old_, e + y), x, y)
            && Carries(DecodeFixedLength(g, e + x), DecodeFixedLength(g, e + y), x, y)
  {
    hide Varint, Decode32, Tail, Zeros;
    var e := LengthPrefixed(s);
    assert e + x == Varint(|s|) + (s + x) && e + y == Varint(|s|) + (s + y);
    Decode32RoundTrip(|s|, s + x);
    Decode32RoundTrip(|s|, s + y);
    SkipsBytes(s, x);
    SkipsBytes(s, y);
    if s == [] {
      assert s + x == x && s + y == y;
    }
  }

  lemma ItemCarries(g: Field, f: Field, item: Item, old_: Item, x: Bytes, y: Bytes)
    requires Agrees(g, f) && Short(EncodeItem(f, item))
    ensures var e := EncodeItem(f, item).value; Carries(DecodeItem(g, old_, e + x), DecodeItem(g, old_, e + y), x, y)
  {
    hide DecodeNumber, DecodeBytes, DecodeText, DecodeFixedLength, TakeString, DecodeMessage, EncodeFrom, Varint;
    match f.ltype
    case ByteArray => StringCarries(g, BytesOf(item), old_, x, y);
    case Text => StringCarries(g, CString(BufferOf(item)), old_, x, y);
    case FixedLengthBytes => StringCarries(g, BytesOf(item), old_, x, y);
    case Submessage(sub) =>
      var body := EncodeFrom(sub, SlotsOf(item), 0).value;
      TakeStringRoundTrip(body, x);
      TakeStringRoundTrip(body, y);
    case _ => NumberCarries(g, f, item, x, y);
  }

  // What the receiver's fields with the tag of f have in common with it.
  ghost predicate KnownAs(fields: Fields, f: Field) {
    HasTag(fields, f.tag) && forall j :: 0 <= j < |fields| && fields[j].tag == f.tag ==> Agrees(fields[j], f)
  }

  // A value that stands behind its tag: an item, or the packed items of an array.
  ghost predicate Body(f: Field, wire: nat, e: Bytes) {
    || (exists item :: EncodeItem(f, item) == Some(e) && Short(EncodeItem(f, item))
                       && wire == WireType(f.ltype) && !(IsArray(f.htype) && Packable(f.ltype)))
    || (wire == 2 && IsArray(f.htype) && Packable(f.ltype) && exists s: Bytes :: |s| < TWO32 && e == LengthPrefixed(s))
  }

  lemma ArrayCarries(g: Field, f: Field, wire: nat, e: Bytes, a: Entries, x: Bytes, y: Bytes)
    requires Agrees(g, f) && IsArray(f.htype) && Body(f, wire, e)
    ensures Carries(DecodeArray(g, wire, a, e + x), DecodeArray(g, wire, a, e + y), x, y)
  {
    hide DecodeItem, DecodePacked, TakeString, EncodeItem, Varint;
    if Packable(f.ltype) {
      var s: Bytes :| |s| < TWO32 && e == LengthPrefixed(s);
      TakeStringRoundTrip(s, x);
      TakeStringRoundTrip(s, y);
    } else {
      var item :| EncodeItem(f, item) == Some(e);
      ItemCarries(g, f, item, ItemAt(a.items, a.size), x, y);
    }
  }

  lemma SingleCarries(g: Field, f: Field, wire: nat, e: Bytes, slot: Slot, x: Bytes, y: Bytes)
    requires Agrees(g, f) && !IsArray(f.htype) && Body(f, wire, e)
    ensures Carries(DecodeSingle(g, slot, e + x), DecodeSingle(g, slot, e + y), x, y)
  {
    hide DecodeItem, EncodeItem;
    var item :| EncodeItem(f, item) == Some(e);
    var old_ := ItemAt(slot.items, 0);
    ItemCarries(g, f, item, if g.htype.Oneof? then UnionItem(g, old_) else old_, x, y);
  }

  lemma AtCarries(fields: Fields, st: Progress, p: nat, f: Field, wire: nat, e: Bytes, x: Bytes, y: Bytes)
    requires InRange(fields, st) && p < |fields| && Agrees(fields[p], f) && Body(f, wire, e)
    ensures Carries(DecodeAt(fields, st, p, wire, e + x), DecodeAt(fields, st, p, wire, e + y), x, y)
  {
    hide DecodeArray, DecodeSingle, Body;
    var g, slot := fields[p], SlotAt(st.m, SlotOf(fields, p));
    if g.htype.FixedCount? {
      ArrayCarries(g, f, wire, e, Entries(slot.items, if st.fixedField == Some(p) then st.fixedSize else 0), x, y);
    } else if g.htype.Repeated? {
      ArrayCarries(g, f, wire, e, Entries(slot.items, slot.count), x, y);
    } else {
      SingleCarries(g, f, wire, e, slot, x, y);
    }
  }

  lemma KnownTag(fields: Fields, st: Progress, f: Field, wire: nat, b: Bytes)
    requires InRange(fields, st) && Encodable(f) && HasTag(fields, f.tag) && wire < 8
    ensures FieldWithTag(fields, st.pos, f.tag).Some?
    ensures DecodeLoop(fields, st, TagBytes(f, wire) + b)
         == var r := DecodeAt(fields, st, FieldWithTag(fields, st.pos, f.tag).value, wire, b);
            if r.None? then None else DecodeLoop(fields, r.value.value, r.value.rest)
  {
    hide DecodeAt, ReadTag, TagBytes, HasTag;
    TagIsRead(f, wire, b);
    TagIsFound(fields, st.pos, f.tag);
  }

  lemma TagIsFound(fields: Fields, p: nat, tag: nat)
    requires HasTag(fields, tag) && (p < |fields| || p == 0 == |fields|)
    ensures FieldWithTag(fields, p, tag).Some?
  {
    var i :| 0 <= i < |fields| && fields[i].tag == tag;
    FindFromMisses(fields, p, |fields|, tag, i);
  }

  lemma BodyKnown(fields: Fields, f: Field, wire: nat, e: Bytes, x: Bytes, y: Bytes)
    requires Encodable(f) && KnownAs(fields, f) && Body(f, wire, e) && Alike(fields, x, y)
    ensures Alike(fields, TagBytes(f, wire) + e + x, TagBytes(f, wire) + e + y)
  {
    hide DecodeLoop, DecodeAt, Agrees, HasTag, Body;
    BodyWire(f, wire, e);
    assert TagBytes(f, wire) + e + x == TagBytes(f, wire) + (e + x);
    assert TagBytes(f, wire) + e + y == TagBytes(f, wire) + (e + y);
    forall st | InRange(fields, st)
      ensures DecodeLoop(fields, st, TagBytes(f, wire) + e + x) == DecodeLoop(fields, st, TagBytes(f, wire) + e + y)
    {
      KnownTag(fields, st, f, wire, e + x);
      KnownTag(fields, st, f, wire, e + y);
      AtCarries(fields, st, FieldWithTag(fields, st.pos, f.tag).value, f, wire, e, x, y);
    }
  }

  lemma BodyWire(f: Field, wire: nat, e: Bytes)
    requires Body(f, wire, e)
    ensures wire < 8
  {
    hide EncodeItem;
  }

  lemma OneKnown(fields: Fields, f: Field, item: Item, x: Bytes, y: Bytes)
    requires Encodable(f) && KnownAs(fields, f) && Short(EncodeOne(f, item)) && Alike(fields, x, y)
    requires !(IsArray(f.htype) && Packable(f.ltype))
    ensures Alike(fields, EncodeOne(f, item).value + x, EncodeOne(f, item).value + y)
  {
    hide Alike, EncodeItem, KnownAs;
    var e := EncodeItem(f, item).value;
    assert EncodeItem(f, item) == Some(e) && Body(f, WireType(f.ltype), e);
    BodyKnown(fields, f, WireType(f.ltype), e, x, y);
  }

  lemma {:induction false} TaggedKnown(fields: Fields, f: Field, items: seq<Item>, i: nat, count: nat, x: Bytes, y: Bytes)
    requires Encodable(f) && KnownAs(fields, f) && Short(EncodeTagged(f, items, i, count)) && Alike(fields, x, y)
    requires !(IsArray(f.htype) && Packable(f.ltype))
    ensures var e := EncodeTagged(f, items, i, count).value; Alike(fields, e + x, e + y)
    decreases count - i
  {
    hide Alike, EncodeOne, KnownAs;
    if i >= count {
      assert [] + x == x && [] + y == y;
    } else {
      var one, others := EncodeOne(f, ItemAt(items, i)), EncodeTagged(f, items, i + 1, count);
      TaggedKnown(fields, f, items, i + 1, count, x, y);
      OneKnown(fields, f, ItemAt(items, i), others.value + x, others.value + y);
      assert one.value + others.value + x == one.value + (others.value + x);
      assert one.value + others.value + y == one.value + (others.value + y);
    }
  }

  lemma PackedKnown(fields: Fields, f: Field, items: seq<Item>, count: nat, x: Bytes, y: Bytes)
    requires Encodable(f) && KnownAs(fields, f) && Short(EncodePacked(f, items, count)) && Alike(fields, x, y)
    requires IsArray(f.htype) && Packable(f.ltype)
    ensures var e := EncodePacked(f, items, count).value; Alike(fields, e + x, e + y)
  {
    hide Alike, EncodeItems, KnownAs;
    var s := EncodeItems(f, items, 0, count).value;
    assert Body(f, 2, LengthPrefixed(s));
    BodyKnown(fields, f, 2, LengthPrefixed(s), x, y);
  }

  lemma FieldKnown(fields: Fields, f: Field, slot: Slot, x: Bytes, y: Bytes)
    requires Encodable(f) && KnownAs(fields, f) && Short(EncodeField(f, slot)) && Alike(fields, x, y)
    ensures var e := EncodeField(f, slot).value; Alike(fields, e + x, e + y)
  {
    hide Alike, EncodeOne, EncodeTagged, EncodePacked, KnownAs, Present;
    if !Present(f, slot) || (IsArray(f.htype) && CountOf(f, slot) == 0) {
      NothingSent(f, slot);
      assert [] + x == x && [] + y == y;
    } else if !IsArray(f.htype) {
      OneKnown(fields, f, ItemAt(slot.items, 0), x, y);
    } else if Packable(f.ltype) {
      PackedKnown(fields, f, slot.items, CountOf(f, slot), x, y);
    } else {
      TaggedKnown(fields, f, slot.items, 0, CountOf(f, slot), x, y);
    }
  }

  // ----- Whole messages

  // What a sender with the fields `more` emits from field k on for the fields the receiver knows.
  ghost function KnownFrom(fields: Fields, more: Fields, m: Message, k: nat): Option<Bytes>
    decreases |more| - k
  {
    if k >= |more| then Some([])
    else
      var others := KnownFrom(fields, more, m, k + 1);
      if HasTag(fields, more[k].tag) then Cat(FieldBytes(more, m, k), others) else others
  }

  // A tag means the same on both sides.
  ghost predicate Compatible(fields: Fields, more: Fields) {
    forall k :: 0 <= k < |more| ==> Encodable(more[k]) && (HasTag(fields, more[k].tag) ==> KnownAs(fields, more[k]))
  }

  lemma {:induction false} AllAlike(fields: Fields, more: Fields, m: Message, k: nat)
    requires Compatible(fields, more) && k <= |more| && Short(EncodeFrom(more, m, k))
    ensures KnownFrom(fields, more, m, k).Some?
    ensures |KnownFrom(fields, more, m, k).value| <= |EncodeFrom(more, m, k).value|
    ensures Alike(fields, EncodeFrom(more, m, k).value, KnownFrom(fields, more, m, k).value)
    decreases |more| - k
  {
    hide Alike, EncodeField, KnownAs, HasTag;
    if k < |more| {
      FromSplits(more, m, k);
      var f, slot := more[k], SlotAt(m, SlotOf(more, k));
      var x, y := EncodeFrom(more, m, k + 1), KnownFrom(fields, more, m, k + 1);
      AllAlike(fields, more, m, k + 1);
      if HasTag(fields, f.tag) {
        FieldKnown(fields, f, slot, x.value, y.value);
      } else {
        FieldUnknown(fields, f, slot, x.value, y.value);
      }
    } else {
      SelfAlike(fields, []);
    }
  }

  lemma SelfAlike(fields: Fields, x: Bytes)
    ensures Alike(fields, x, x)
  {
    hide DecodeLoop;
  }

  /** A message from a sender that knows more fields decodes to what the fields known to the receiver say, wherever
      the others stand. */
  lemma UnknownFieldsDoNotMatter(fields: Fields, more: Fields, m: Message, dest: Message)
    requires Compatible(fields, more) && Short(Encoded(more, m))
    ensures var known := KnownFrom(fields, more, m, 0);
            && Short(known)
            && Decoded(fields, dest, Encoded(more, m).value) == Decoded(fields, dest, known.value)
  {
    hide Alike, DecodeMessage, Defaults, EncodeFrom, KnownFrom;
    AllAlike(fields, more, m, 0);
    AlikeMessages(fields, Defaults(fields, dest, 0), Encoded(more, m).value, KnownFrom(fields, more, m, 0).value);
  }

  // The receiver's fields are the sender's fields at the positions `at`; the sender's other fields have other tags.
  ghost predicate Embeds(fields: Fields, more: Fields, at: seq<nat>) {
    && |at| == |fields|
    && (forall j :: 0 <= j < |at| ==> at[j] < |more| && more[at[j]] == fields[j])
    && (forall i, j :: 0 <= i < j < |at| ==> at[i] < at[j])
    && (forall k :: 0 <= k < |more| && HasTag(fields, more[k].tag) ==> k in at)
    && (forall k :: 0 <= k < |more| ==> Encodable(more[k]))
  }

  // The receiver's struct holds what the sender's holds in the fields both know.
  ghost predicate Restricts(fields: Fields, more: Fields, at: seq<nat>, m: Message, known: Message)
    requires Embeds(fields, more, at)
  {
    forall j :: 0 <= j < |fields| ==> SlotAt(known, SlotOf(fields, j)) == SlotAt(m, SlotOf(more, at[j]))
  }

  // j of the receiver's fields stand in front of the sender's field k.
  ghost predicate Passed(at: seq<nat>, k: nat, j: nat) {
    && j <= |at|
    && (forall i :: 0 <= i < j ==> at[i] < k)
    && (forall i :: j <= i < |at| ==> k <= at[i])
  }

  // The sender's next field is the receiver's next field, or one it does not know.
  lemma NextPicked(fields: Fields, more: Fields, at: seq<nat>, m: Message, known: Message, k: nat, j: nat)
    requires Embeds(fields, more, at) && Restricts(fields, more, at, m, known) && k < |more| && Passed(at, k, j)
    ensures if j < |at| && at[j] == k
            then && HasTag(fields, more[k].tag) && Passed(at, k + 1, j + 1)
                 && FieldBytes(more, m, k) == FieldBytes(fields, known, j)
            else !HasTag(fields, more[k].tag) && Passed(at, k + 1, j)
  {
    hide EncodeField, SlotOf;
    if j < |at| && at[j] == k {
      assert fields[j] == more[k];
    } else {
      assert k !in at;
    }
  }

  lemma NoneLeft(fields: Fields, more: Fields, at: seq<nat>, j: nat)
    requires Embeds(fields, more, at) && Passed(at, |more|, j)
    ensures j == |fields|
  {
    assert at != [] ==> at[|at| - 1] < |more|;
  }

  lemma {:induction false} KnownIsEncoded(fields: Fields, more: Fields, at: seq<nat>, m: Message, known: Message, k: nat,
                                          j: nat)
    requires Embeds(fields, more, at) && Restricts(fields, more, at, m, known) && k <= |more| && Passed(at, k, j)
    ensures KnownFrom(fields, more, m, k) == EncodeFrom(fields, known, j)
    decreases |more| - k
  {
    hide Embeds, Restricts, Passed, HasTag, FieldBytes;
    if k == |more| {
      NoneLeft(fields, more, at, j);
    } else {
      EmbedsSize(fields, more, at);
      NextPicked(fields, more, at, m, known, k, j);
      if j < |at| && at[j] == k {
        KnownIsEncoded(fields, more, at, m, known, k + 1, j + 1);
        FromSplits(fields, known, j);
      } else {
        KnownIsEncoded(fields, more, at, m, known, k + 1, j);
      }
    }
  }

  lemma EmbedsSize(fields: Fields, more: Fields, at: seq<nat>)
    requires Embeds(fields, more, at)
    ensures |at| == |fields|
  {
  }

  lemma EmbeddedIsCompatible(fields: Fields, more: Fields, at: seq<nat>)
    requires Embeds(fields, more, at) && DistinctTags(fields)
    ensures Compatible(fields, more)
  {
    forall k | 0 <= k < |more| && HasTag(fields, more[k].tag)
      ensures KnownAs(fields, more[k])
    {
      var i :| 0 <= i < |at| && at[i] == k;
      assert fields[i] == more[k];
    }
  }

  /**
   * Forward compatibility: pb_decode restores from a newer sender's message exactly what it restores from a message
   * of its own version, the fields it knows, under the same two conditions on them.
   */
  lemma NewerSenderRoundTrip(fields: Fields, more: Fields, at: seq<nat>, m: Message, known: Message, dest: Message)
    requires Formed(fields) && MessageOk(fields, known) && Shaped(fields, dest)
    requires Embeds(fields, more, at) && Restricts(fields, more, at, m, known)
    requires Short(Encoded(more, m))
    ensures var r := Decoded(fields, dest, Encoded(more, m).value);
            && (r.Some? <==> Terminated(fields, known))
            && (r.Some? && Same(fields, known, r.value) <==> Terminated(fields, known) && Restorable(fields, known))
  {
    hide Formed, MessageOk, Shaped, Same, Terminated, Restorable, Decoded, KnownFrom, EncodeFrom, Compatible, Embeds,
         Restricts;
    DistinctOf(fields);
    EmbeddedIsCompatible(fields, more, at);
    EmptyPassed(fields, more, at);
    KnownIsEncoded(fields, more, at, m, known, 0, 0);
    UnknownFieldsDoNotMatter(fields, more, m, dest);
    RoundTrip(fields, known, dest);
  }

  lemma EmptyPassed(fields: Fields, more: Fields, at: seq<nat>)
    requires Embeds(fields, more, at)
    ensures Passed(at, 0, 0)
  {
  }
}
