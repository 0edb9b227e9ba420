/**
 * The decoder (nanopb's pb_decode.c) for static fields: what every input decodes to. The stream
 * methods of PbIStream are proved to compute exactly that.
 */
module PbDecode {
  import opened Wrappers
  import opened DbFormat
  import opened Coding
  import opened PbFormat

  // ----- Varints

  // Bitwise or.
  function BitOr(a: nat, b: nat): nat {
    if a == 0 then b
    else (if a % 2 == 1 || b % 2 == 1 then 1 else 0) + 2 * BitOr(a / 2, b / 2)
  }

  function ShiftLeft(b: nat, k: nat): nat {
    if k == 0 then b else 2 * ShiftLeft(b, k - 1)
  }

  // Bits that do not overlap add up.
  lemma {:induction false} BitOrAdds(a: nat, b: nat, k: nat)
    requires a < ShiftLeft(1, k)
    ensures BitOr(a, ShiftLeft(b, k)) == a + ShiftLeft(b, k)
    decreases k
  {
    if a > 0 {
      BitOrAdds(a / 2, b, k - 1);
    }
  }

  // The rest of a varint whose bits below `bitpos` are known. Bits beyond 32 must be zero or copies of the sign.
  function More32(b: Bytes, result: nat, bitpos: nat): (r: Option<Parsed<nat>>)
    ensures r.Some? ==> |r.value.rest| < |b|
  {
    if b == [] then None
    else if bitpos >= 32 && b[0] % 128 != 0 && (result / 0x8000_0000 == 0 || b[0] != SignExtension(bitpos)) then None
    else
      var next := Extended(result, b[0], bitpos);
      var at := (bitpos + 7) % 256;
      if b[0] >= 128 then More32(b[1..], next, at)
      else if at == 35 && b[0] / 16 != 0 then None
      else Some(Parsed(next, b[1..]))
  }

  function SignExtension(bitpos: nat): nat {
    if bitpos < 63 then 0xFF else 0x01
  }

  function Extended(result: nat, b: byte, bitpos: nat): nat {
    if bitpos >= 32 then result else BitOr(result, ShiftLeft(b % 128, bitpos) % TWO32)
  }

  function Decode32(b: Bytes): (r: Option<Parsed<nat>>)
    ensures r.Some? ==> |r.value.rest| < |b|
  {
    if b == [] then None
    else if b[0] < 128 then Some(Parsed(b[0], b[1..]))
    else More32(b[1..], b[0] % 128, 7)
  }

  // Ten bytes at most; what does not fit into 64 bits is shifted out.
  function Decode64(b: Bytes): (r: Option<Parsed<nat>>)
    ensures r.Some? ==> |r.value.rest| < |b|
  {
    VarintShrinks(b, 10);
    GetVarint64(b)
  }

  function Signed(v: nat, width: nat): int {
    var m := Pow(256, width);
    if m == 0 then 0 else if 2 * (v % m) >= m then v % m - m else v % m
  }

  function UnZigZag(v: nat): int {
    if v % 2 == 1 then -(v / 2) - 1 else v / 2
  }

  // ----- Lengths and skipped data

  function Take(b: Bytes, n: nat): (r: Option<Parsed<Bytes>>)
    ensures r.Some? ==> |r.value.rest| == |b| - n
  {
    if |b| < n then None else Some(Parsed(b[..n], b[n..]))
  }

  // A length and as many bytes.
  function TakeString(b: Bytes): (r: Option<Parsed<Bytes>>)
    ensures r.Some? ==> |r.value.rest| < |b|
  {
    var size := Decode32(b);
    if size.None? then None else Take(size.value.rest, size.value.value)
  }

  function SkipVarint(b: Bytes): (r: Option<Bytes>)
    ensures r.Some? ==> |r.value| < |b|
  {
    if b == [] then None else if b[0] < 128 then Some(b[1..]) else SkipVarint(b[1..])
  }

  function RestOf<T>(r: Option<Parsed<T>>): Option<Bytes> {
    if r.None? then None else Some(r.value.rest)
  }

  function SkipField(wire: nat, b: Bytes): (r: Option<Bytes>)
    ensures r.Some? ==> |r.value| <= |b|
  {
    if wire == 0 then SkipVarint(b)
    else if wire == 1 then RestOf(Take(b, 8))
    else if wire == 2 then RestOf(TakeString(b))
    else if wire == 5 then RestOf(Take(b, 4))
    else None
  }

  datatype TagRead = Stop | Bad | Tag(tag: nat, wire: nat, rest: Bytes)

  // A zero ends the message.
  function ReadTag(b: Bytes): (r: TagRead)
    ensures r.Tag? ==> |r.rest| < |b|
  {
    var temp := Decode32(b);
    if temp.None? then Bad
    else if temp.value.value == 0 then Stop
    else Tag(temp.value.value / 8, temp.value.value % 8, temp.value.rest)
  }

  // ----- Default values

  function Zeros(n: nat): (r: Bytes)
    ensures |r| == n
  {
    if n == 0 then [] else [0] + Zeros(n - 1)
  }

  function Repeat(item: Item, n: nat): (r: seq<Item>)
    ensures |r| == n && forall i :: 0 <= i < n ==> r[i] == item
  {
    if n == 0 then [] else [item] + Repeat(item, n - 1)
  }

  // What zeroed memory holds.
  function ZeroItem(f: Field): Item
    decreases f, 0, 0
  {
    match f.ltype
    case ByteArray => Data([])
    case Text => Chars(Zeros(f.dataSize))
    case FixedLengthBytes => Data(Zeros(f.dataSize))
    case Submessage(sub) => Struct(ZeroMessage(sub, |sub|))
    case _ => Int(0)
  }

  // The slots of the first k fields.
  function ZeroMessage(fields: Fields, k: nat): (m: Message)
    requires k <= |fields|
    ensures |m| == if k == 0 then 0 else SlotOf(fields, k - 1) + 1
    decreases fields, 1, k
  {
    if k == 0 then []
    else if k > 1 && SlotOf(fields, k - 1) == SlotOf(fields, k - 2) then ZeroMessage(fields, k - 1)
    else ZeroMessage(fields, k - 1) + [Slot(0, Repeat(ZeroItem(fields[k - 1]), Capacity(fields[k - 1])))]
  }

  function InitialItem(f: Field, old_: Item): Item
    decreases f, 0, 0
  {
    match f.ltype
    case Submessage(sub) => Struct(Defaults(sub, SlotsOf(old_), 0))
    case _ => if f.initial.Some? then f.initial.value else ZeroItem(f)
  }

  // pb_field_set_to_default: arrays and unions only lose their counter.
  function DefaultSlot(f: Field, slot: Slot): Slot
    decreases f, 1, 0
  {
    match f.htype
    case Repeated => slot.(count := 0)
    case Oneof => slot.(count := 0)
    case FixedCount => slot
    case Optional => Slot(0, [InitialItem(f, ItemAt(slot.items, 0))])
    case _ => slot.(items := [InitialItem(f, ItemAt(slot.items, 0))])
  }

  // The fields from k on, set to their defaults.
  function Defaults(fields: Fields, m: Message, k: nat): (r: Message)
    ensures |r| == |m|
    decreases fields, 2, |fields| - k
  {
    if k >= |fields| then m
    else
      var s := SlotOf(fields, k);
      Defaults(fields, WithSlot(m, s, DefaultSlot(fields[k], SlotAt(m, s))), k + 1)
  }

  // ----- Items

  // The value a signed field gets from a varint: narrow fields look at 32 bits only.
  function VarIntValue(v: nat, dataSize: nat): int {
    if dataSize == 8 then Signed(v, 8) else Signed(v % TWO32, 4)
  }

  function Checked(v: int, clamped: int, rest: Bytes): Option<Parsed<Item>> {
    if v == clamped then Some(Parsed(Int(clamped), rest)) else None
  }

  // What stays behind the terminator of a buffer.
  function Tail(f: Field, old_: Item, size: nat): Bytes
    requires size < f.dataSize
  {
    if old_.Chars? && |old_.buffer| == f.dataSize then old_.buffer[size + 1..] else Zeros(f.dataSize - size - 1)
  }

  function DecodeInteger(f: Field, b: Bytes): (r: Option<Parsed<Item>>)
    ensures r.Some? ==> |r.value.rest| < |b|
  {
    var v := Decode64(b);
    if v.None? || !IntSize(f.dataSize) then None
    else if f.ltype.VarInt? then
      var svalue := VarIntValue(v.value.value, f.dataSize);
      Checked(svalue, Signed(svalue % TWO64, f.dataSize), v.value.rest)
    else if f.ltype.UVarInt? then
      Checked(v.value.value, v.value.value % Pow(256, f.dataSize), v.value.rest)
    else
      var svalue := UnZigZag(v.value.value);
      Checked(svalue, Signed(svalue % TWO64, f.dataSize), v.value.rest)
  }

  function DecodeNumber(f: Field, b: Bytes): (r: Option<Parsed<Item>>)
    ensures r.Some? ==> |r.value.rest| < |b|
  {
    match f.ltype
    case Bool =>
      var v := Decode32(b);
      if v.None? then None else Some(Parsed(Int(if v.value.value != 0 then 1 else 0), v.value.rest))
    case Word32 =>
      var v := Take(b, 4);
      if v.None? then None else Some(Parsed(Int(FromFixed(v.value.value)), v.value.rest))
    case Word64 =>
      var v := Take(b, 8);
      if v.None? then None else Some(Parsed(Int(FromFixed(v.value.value)), v.value.rest))
    case _ => DecodeInteger(f, b)
  }

  function DecodeBytes(f: Field, b: Bytes): (r: Option<Parsed<Item>>)
    ensures r.Some? ==> |r.value.rest| < |b|
  {
    var size := Decode32(b);
    if size.None? || size.value.value + BYTES_OFFSET > f.dataSize then None
    else
      var data := Take(size.value.rest, size.value.value);
      if data.None? then None else Some(Parsed(Data(data.value.value), data.value.rest))
  }

  function DecodeText(f: Field, old_: Item, b: Bytes): (r: Option<Parsed<Item>>)
    ensures r.Some? ==> |r.value.rest| < |b|
  {
    var size := Decode32(b);
    if size.None? || size.value.value + 1 > f.dataSize then None
    else
      var data := Take(size.value.rest, size.value.value);
      if data.None? then None
      else Some(Parsed(Chars(data.value.value + [0] + Tail(f, old_, size.value.value)), data.value.rest))
  }

  // An empty string stands for zeros.
  function DecodeFixedLength(f: Field, b: Bytes): (r: Option<Parsed<Item>>)
    ensures r.Some? ==> |r.value.rest| < |b|
  {
    var size := Decode32(b);
    if size.None? then None
    else if size.value.value == 0 then Some(Parsed(Data(Zeros(f.dataSize)), size.value.rest))
    else if size.value.value != f.dataSize then None
    else
      var data := Take(size.value.rest, f.dataSize);
      if data.None? then None else Some(Parsed(Data(data.value.value), data.value.rest))
  }

  // Array entries start from their defaults; other submessages are decoded into what is there.
  function Start(f: Field, sub: Fields, old_: Item): Message {
    if IsArray(f.htype) then Defaults(sub, SlotsOf(old_), 0) else SlotsOf(old_)
  }

  function DecodeItem(f: Field, old_: Item, b: Bytes): (r: Option<Parsed<Item>>)
    ensures r.Some? ==> |r.value.rest| < |b|
    decreases f, 0, 0
  {
    match f.ltype
    case ByteArray => DecodeBytes(f, b)
    case Text => DecodeText(f, old_, b)
    case FixedLengthBytes => DecodeFixedLength(f, b)
    case Submessage(sub) =>
      var part := TakeString(b);
      if part.None? then None
      else
        var m := DecodeMessage(sub, Start(f, sub, old_), part.value.value);
        if m.None? then None else Some(Parsed(Struct(m.value), part.value.rest))
    case _ => DecodeNumber(f, b)
  }

  // ----- Fields

  // The entries of an array and its counter.
  datatype Entries = Entries(items: seq<Item>, size: nat)

  function DecodePacked(f: Field, a: Entries, b: Bytes): Option<Entries>
    decreases f, 1, |b|
  {
    if b == [] then Some(a)
    else if a.size >= f.arraySize then None
    else
      var r := DecodeItem(f, ItemAt(a.items, a.size), b);
      if r.None? then None
      else DecodePacked(f, Entries(WithItem(a.items, a.size, r.value.value), a.size + 1), r.value.rest)
  }

  function DecodeArray(f: Field, wire: nat, a: Entries, b: Bytes): (r: Option<Parsed<Entries>>)
    ensures r.Some? ==> |r.value.rest| < |b|
    decreases f, 2, 0
  {
    if wire == 2 && Packable(f.ltype) then
      var part := TakeString(b);
      if part.None? then None
      else
        var all := DecodePacked(f, a, part.value.value);
        if all.None? then None else Some(Parsed(all.value, part.value.rest))
    else if a.size >= f.arraySize then None
    else
      var r := DecodeItem(f, ItemAt(a.items, a.size), b);
      if r.None? then None
      else Some(Parsed(Entries(WithItem(a.items, a.size, r.value.value), a.size + 1), r.value.rest))
  }

  // A member that arrives takes over the union; a submessage starts from zeros and defaults.
  function UnionItem(f: Field, old_: Item): Item {
    match f.ltype
    case Submessage(sub) => Struct(Defaults(sub, ZeroMessage(sub, |sub|), 0))
    case _ => old_
  }

  // Every field but an array.
  function DecodeSingle(f: Field, slot: Slot, b: Bytes): (r: Option<Parsed<Slot>>)
    ensures r.Some? ==> |r.value.rest| < |b|
    decreases f, 2, 0
  {
    var old_ := ItemAt(slot.items, 0);
    var r := DecodeItem(f, if f.htype.Oneof? then UnionItem(f, old_) else old_, b);
    if r.None? then None
    else
      var count := if f.htype.Optional? then 1 else if f.htype.Oneof? then f.tag else slot.count;
      Some(Parsed(Slot(count, WithItem(slot.items, 0, r.value.value)), r.value.rest))
  }

  // ----- Messages

  // `seen` is the bitmap of required fields; `fixedField` and `fixedSize` follow the
  // array without a counter that is being received.
  datatype Progress = Progress(m: Message, pos: nat, seen: set<nat>, fixedField: Option<nat>, fixedSize: nat)

  ghost predicate InRange(fields: Fields, st: Progress) {
    && (st.pos < |fields| || st.pos == 0 == |fields|)
    && (st.fixedField.Some? ==> st.fixedField.value < |fields|)
  }

  predicate FixedComplete(fields: Fields, st: Progress)
    requires InRange(fields, st)
  {
    st.fixedField.None? || st.fixedSize == fields[st.fixedField.value].arraySize
  }

  function SeenWith(fields: Fields, p: nat, seen: set<nat>): set<nat>
    requires p < |fields|
  {
    if fields[p].htype.Required? && RequiredBefore(fields, p) < MAX_REQUIRED_FIELDS
    then seen + {RequiredBefore(fields, p)} else seen
  }

  // The member a union still holds must be known before another one replaces it.
  predicate UnionReleases(fields: Fields, p: nat, old_: nat)
    requires p < |fields|
  {
    old_ == 0 || old_ == fields[p].tag || FieldWithTag(fields, p, old_).Some?
  }

  // The value of field p arrives.
  function DecodeAt(fields: Fields, st: Progress, p: nat, wire: nat, b: Bytes): (r: Option<Parsed<Progress>>)
    requires InRange(fields, st) && p < |fields|
    ensures r.Some? ==> |r.value.rest| < |b| && InRange(fields, r.value.value)
    decreases fields, 3, 0
  {
    var f := fields[p];
    var s := SlotOf(fields, p);
    var slot := SlotAt(st.m, s);
    var seen := SeenWith(fields, p, st.seen);
    if f.htype.FixedCount? then
      if st.fixedField != Some(p) && !FixedComplete(fields, st) then None
      else
        var r := DecodeArray(f, wire, Entries(slot.items, if st.fixedField == Some(p) then st.fixedSize else 0), b);
        if r.None? then None
        else
          var m := WithSlot(st.m, s, slot.(items := r.value.value.items));
          Some(Parsed(Progress(m, p, seen, Some(p), r.value.value.size), r.value.rest))
    else if f.htype.Repeated? then
      var r := DecodeArray(f, wire, Entries(slot.items, slot.count), b);
      if r.None? then None
      else
        var m := WithSlot(st.m, s, Slot(r.value.value.size, r.value.value.items));
        Some(Parsed(st.(m := m, pos := p, seen := seen), r.value.rest))
    else if f.htype.Oneof? && !UnionReleases(fields, p, slot.count) then None
    else
      var r := DecodeSingle(f, slot, b);
      if r.None? then None
      else Some(Parsed(st.(m := WithSlot(st.m, s, r.value.value), pos := p, seen := seen), r.value.rest))
  }

  // An unknown field is skipped. In an empty message tag 0 is its terminator's, a required bool.
  function DecodeUnknown(fields: Fields, st: Progress, tag: nat, wire: nat, b: Bytes): (r: Option<Parsed<Progress>>)
    requires InRange(fields, st)
    ensures r.Some? ==> |r.value.rest| <= |b| && InRange(fields, r.value.value)
  {
    if fields == [] && tag == 0 then
      var v := Decode32(b);
      if v.None? then None else Some(Parsed(st.(seen := st.seen + {0}), v.value.rest))
    else
      var rest := SkipField(wire, b);
      if rest.None? then None else Some(Parsed(st, rest.value))
  }

  function DecodeStep(fields: Fields, st: Progress, tag: nat, wire: nat, b: Bytes): (r: Option<Parsed<Progress>>)
    requires InRange(fields, st)
    ensures r.Some? ==> |r.value.rest| <= |b| && InRange(fields, r.value.value)
    decreases fields, 4, 0
  {
    var p := FieldWithTag(fields, st.pos, tag);
    if p.None? then DecodeUnknown(fields, st, tag, wire, b)
    else DecodeAt(fields, st, p.value, wire, b)
  }

  function DecodeLoop(fields: Fields, st: Progress, b: Bytes): (r: Option<Progress>)
    requires InRange(fields, st)
    ensures r.Some? ==> InRange(fields, r.value)
    decreases fields, 5, |b|
  {
    if b == [] then Some(st)
    else
      var t := ReadTag(b);
      match t
      case Bad => None
      case Stop => Some(st)
      case Tag(tag, wire, rest) =>
        var r := DecodeStep(fields, st, tag, wire, rest);
        if r.None? then None else DecodeLoop(fields, r.value.value, r.value.rest)
  }

  // Whole words of the bitmap are compared, and the rest of the last one exactly.
  predicate AllSeen(seen: set<nat>, required: nat) {
    && (forall x: nat :: x < required ==> x in seen)
    && (required % 32 != 0 ==> forall x: nat :: x in seen && x / 32 == required / 32 ==> x < required)
  }

  function Tracked(required: nat): nat {
    if required > MAX_REQUIRED_FIELDS then MAX_REQUIRED_FIELDS else required
  }

  // pb_decode_noinit
  function DecodeMessage(fields: Fields, m: Message, b: Bytes): Option<Message>
    decreases fields, 6, 0
  {
    var r := DecodeLoop(fields, Progress(m, 0, {}, None, 0), b);
    if r.None? || !FixedComplete(fields, r.value) || !AllSeen(r.value.seen, Tracked(RequiredBefore(fields, |fields|)))
    then None else Some(r.value.m)
  }

  // pb_decode
  function Decoded(fields: Fields, m: Message, b: Bytes): Option<Message> {
    DecodeMessage(fields, Defaults(fields, m, 0), b)
  }
}
