/**
 * The encoder (nanopb's pb_encode.c) for static fields, with the two passes over every
 * submessage: the first counts its bytes, the second writes them.
 */
module PbEncode {
  import opened Wrappers
  import opened DbFormat
  import opened Coding
  import opened PbFormat

  // ----- What a message is encoded as; None where the encoder gives up

  function Cat(a: Option<Bytes>, b: Option<Bytes>): Option<Bytes> {
    if a.None? || b.None? then None else Some(a.value + b.value)
  }

  function ZigZag(v: int): nat {
    if v < 0 then TWO64 - 1 - (2 * v) % TWO64 else (2 * v) % TWO64
  }

  function TagBytes(f: Field, wire: nat): Bytes {
    Varint(8 * f.tag + wire)
  }

  function WithLength(body: Option<Bytes>): Option<Bytes> {
    if body.None? then None else Some(LengthPrefixed(body.value))
  }

  function EncodeItem(f: Field, item: Item): Option<Bytes>
    decreases f, 0, 0
  {
    match f.ltype
    case Bool => Some(Varint(if IntOf(item) != 0 then 1 else 0))
    case VarInt => if IntSize(f.dataSize) then Some(Varint(IntOf(item) % TWO64)) else None
    case UVarInt => if IntSize(f.dataSize) then Some(Varint(IntOf(item) % TWO64)) else None
    case SVarInt => if IntSize(f.dataSize) then Some(Varint(ZigZag(IntOf(item)))) else None
    case Word32 => Some(Fixed32(IntOf(item) % TWO32))
    case Word64 => Some(Fixed64(IntOf(item) % TWO64))
    case ByteArray => if |BytesOf(item)| + BYTES_OFFSET > f.dataSize then None else Some(LengthPrefixed(BytesOf(item)))
    case Text => Some(LengthPrefixed(CString(BufferOf(item))))
    case FixedLengthBytes => Some(LengthPrefixed(BytesOf(item)))
    case Submessage(sub) =>
      WithLength(EncodeFrom(sub, SlotsOf(item), 0))
  }

  // Items i and up of an array, without tags.
  function EncodeItems(f: Field, items: seq<Item>, i: nat, count: nat): Option<Bytes>
    decreases f, 1, count - i
  {
    if i >= count then Some([])
    else Cat(EncodeItem(f, ItemAt(items, i)), EncodeItems(f, items, i + 1, count))
  }

  // Items i and up of an array, each behind its own tag.
  function EncodeTagged(f: Field, items: seq<Item>, i: nat, count: nat): Option<Bytes>
    decreases f, 1, count - i
  {
    if i >= count then Some([])
    else Cat(EncodeOne(f, ItemAt(items, i)), EncodeTagged(f, items, i + 1, count))
  }

  function EncodeOne(f: Field, item: Item): Option<Bytes>
    decreases f, 1, -1
  {
    Cat(Some(TagBytes(f, WireType(f.ltype))), EncodeItem(f, item))
  }

  function EncodePacked(f: Field, items: seq<Item>, count: nat): Option<Bytes>
    decreases f, 2, 0
  {
    Cat(Some(TagBytes(f, 2)), WithLength(EncodeItems(f, items, 0, count)))
  }

  function EncodeArray(f: Field, items: seq<Item>, count: nat): Option<Bytes>
    decreases f, 3, 0
  {
    if count == 0 then Some([])
    else if count > f.arraySize then None
    else if Packable(f.ltype) then EncodePacked(f, items, count)
    else EncodeTagged(f, items, 0, count)
  }

  // Does the encoder emit the field at all?
  predicate Present(f: Field, slot: Slot)
    decreases f, 4, 0
  {
    match f.htype
    case Required => true
    case Optional => slot.count != 0
    case Singular => !IsDefault(f, slot)
    case Repeated => slot.count != 0
    case FixedCount => f.arraySize != 0
    case Oneof => slot.count == f.tag
  }

  function EncodeField(f: Field, slot: Slot): Option<Bytes>
    decreases f, 5, 0
  {
    if !Present(f, slot) then Some([])
    else if f.htype.Repeated? then EncodeArray(f, slot.items, slot.count)
    else if f.htype.FixedCount? then EncodeArray(f, slot.items, f.arraySize)
    else EncodeOne(f, ItemAt(slot.items, 0))
  }

  // The fields from k on.
  function EncodeFrom(fields: Fields, m: Message, k: nat): Option<Bytes>
    decreases fields, 6, |fields| - k
  {
    if k >= |fields| then Some([])
    else Cat(EncodeField(fields[k], SlotAt(m, SlotOf(fields, k))), EncodeFrom(fields, m, k + 1))
  }

  function Encoded(fields: Fields, m: Message): Option<Bytes> {
    EncodeFrom(fields, m, 0)
  }

  // ----- What proto3 leaves out

  predicate IsDefault(f: Field, slot: Slot)
    decreases f, 3, 0
  {
    match f.htype
    case Required => false
    case Repeated => slot.count == 0
    case FixedCount => false
    case Oneof => slot.count == 0
    case Optional => slot.count == 0
    case Singular => IsZero(f, ItemAt(slot.items, 0))
  }

  predicate IsZero(f: Field, item: Item)
    decreases f, 2, 0
  {
    match f.ltype
    case ByteArray => BytesOf(item) == []
    case Text => CString(BufferOf(item)) == []
    case FixedLengthBytes => f.dataSize == 0
    case Submessage(sub) => AllDefault(sub, SlotsOf(item), 0)
    case _ => IntOf(item) == 0
  }

  predicate AllDefault(fields: Fields, m: Message, k: nat)
    decreases fields, 6, |fields| - k
  {
    k >= |fields| || (IsDefault(fields[k], SlotAt(m, SlotOf(fields, k))) && AllDefault(fields, m, k + 1))
  }

  lemma DefaultIsAbsent(f: Field, slot: Slot)
    requires f.tag != 0 && IsDefault(f, slot)
    ensures !Present(f, slot) && EncodeField(f, slot) == Some([])
  {
  }

  /** A message at its proto3 defaults encodes to nothing, so leaving it out loses no byte but its tag and length. */
  lemma {:induction false} DefaultIsEmpty(fields: Fields, m: Message, k: nat)
    requires k <= |fields| && AllDefault(fields, m, k)
    requires forall i :: 0 <= i < |fields| ==> fields[i].tag != 0
    ensures EncodeFrom(fields, m, k) == Some([])
    decreases |fields| - k
  {
    if k < |fields| {
      DefaultIsAbsent(fields[k], SlotAt(m, SlotOf(fields, k)));
      DefaultIsEmpty(fields, m, k + 1);
      var none: Bytes := [];
      assert none + none == none;
    }
  }

  // A field whose descriptor matters only for what the bytes look like.
  function Plain(tag: nat, ltype: LType, dataSize: nat): Field {
    Field(tag, ltype, Required, dataSize, 0, None, false)
  }

  lemma OneIs(f: Field, item: Item, all: Bytes)
    requires all != [] && 8 * f.tag + WireType(f.ltype) == all[0] < 128 && EncodeItem(f, item) == Some(all[1..])
    ensures EncodeOne(f, item) == Some(all)
  {
    assert all == [all[0]] + all[1..];
  }

  /** The bytes on the wire for one number of every kind, as the protocol buffers encoding has them. */
  lemma VarintBytes()
    ensures EncodeOne(Plain(1, VarInt, 4), Int(150)) == Some([0x08, 0x96, 0x01])
    ensures EncodeOne(Plain(1, UVarInt, 4), Int(150)) == Some([0x08, 0x96, 0x01])
    ensures EncodeOne(Plain(4, Bool, 1), Int(7)) == Some([0x20, 0x01])
  {
    hide EncodeOne;
    Varint150();
    assert [0x08, 0x96, 0x01][1..] == [0x96, 0x01];
    OneIs(Plain(1, VarInt, 4), Int(150), [0x08, 0x96, 0x01]);
    OneIs(Plain(1, UVarInt, 4), Int(150), [0x08, 0x96, 0x01]);
    OneIs(Plain(4, Bool, 1), Int(7), [0x20, 0x01]);
  }

  lemma ZigZagBytes()
    ensures EncodeOne(Plain(3, SVarInt, 4), Int(-2)) == Some([0x18, 0x03])
    ensures EncodeOne(Plain(3, SVarInt, 4), Int(1)) == Some([0x18, 0x02])
  {
    hide EncodeOne;
    OneIs(Plain(3, SVarInt, 4), Int(-2), [0x18, 0x03]);
    OneIs(Plain(3, SVarInt, 4), Int(1), [0x18, 0x02]);
  }

  lemma WordBytes()
    ensures EncodeOne(Plain(2, Word32, 4), Int(0x102)) == Some([0x15, 0x02, 0x01, 0x00, 0x00])
    ensures EncodeOne(Plain(1, Word64, 8), Int(0x102)) == Some([0x09, 0x02, 0x01, 0x00, 0x00, 0x00, 0x00, 0x00, 0x00])
  {
    hide EncodeOne, Fixed;
    FixedBytes();
    assert [0x15, 0x02, 0x01, 0x00, 0x00][1..] == [0x02, 0x01, 0x00, 0x00];
    OneIs(Plain(2, Word32, 4), Int(0x102), [0x15, 0x02, 0x01, 0x00, 0x00]);
    assert [0x09, 0x02, 0x01, 0x00, 0x00, 0x00, 0x00, 0x00, 0x00][1..] == [0x02, 0x01, 0x00, 0x00, 0x00, 0x00, 0x00, 0x00];
    OneIs(Plain(1, Word64, 8), Int(0x102), [0x09, 0x02, 0x01, 0x00, 0x00, 0x00, 0x00, 0x00, 0x00]);
  }

  /** The same for what is sent behind its length. */
  lemma DataBytes()
    ensures EncodeOne(Plain(2, Text, 4), Chars([0x68, 0x69, 0x00, 0x2A])) == Some([0x12, 0x02, 0x68, 0x69])
    ensures EncodeOne(Plain(2, ByteArray, 8), Data([0x00, 0xFF])) == Some([0x12, 0x02, 0x00, 0xFF])
    ensures EncodeOne(Plain(2, FixedLengthBytes, 1), Data([0xFF])) == Some([0x12, 0x01, 0xFF])
  {
    hide EncodeOne, CString;
    StringOfTwo();
    assert [0x12, 0x02, 0x68, 0x69][1..] == [0x02] + [0x68, 0x69];
    assert [0x12, 0x02, 0x00, 0xFF][1..] == [0x02] + [0x00, 0xFF];
    assert [0x12, 0x01, 0xFF][1..] == [0x01] + [0xFF];
    OneIs(Plain(2, Text, 4), Chars([0x68, 0x69, 0x00, 0x2A]), [0x12, 0x02, 0x68, 0x69]);
    OneIs(Plain(2, ByteArray, 8), Data([0x00, 0xFF]), [0x12, 0x02, 0x00, 0xFF]);
    OneIs(Plain(2, FixedLengthBytes, 1), Data([0xFF]), [0x12, 0x01, 0xFF]);
  }

  lemma NestedBytes()
    ensures EncodeOne(Plain(3, Submessage([Plain(1, VarInt, 4)]), 4), Struct([Slot(0, [Int(150)])]))
         == Some([0x1A, 0x03, 0x08, 0x96, 0x01])
  {
    hide EncodeOne, EncodeFrom;
    InnerBytes();
    assert [0x1A, 0x03, 0x08, 0x96, 0x01][1..] == [0x03] + [0x08, 0x96, 0x01];
    OneIs(Plain(3, Submessage([Plain(1, VarInt, 4)]), 4), Struct([Slot(0, [Int(150)])]), [0x1A, 0x03, 0x08, 0x96, 0x01]);
  }

  lemma StringOfTwo()
    ensures CString([0x68, 0x69, 0x00, 0x2A]) == [0x68, 0x69]
  {
    assert [0x68, 0x69, 0x00, 0x2A][1..] == [0x69, 0x00, 0x2A] && [0x69, 0x00, 0x2A][1..] == [0x00, 0x2A];
    assert CString([0x00, 0x2A]) == [];
    assert CString([0x69, 0x00, 0x2A]) == [0x69] + CString([0x00, 0x2A]);
  }

  lemma InnerBytes()
    ensures EncodeFrom([Plain(1, VarInt, 4)], [Slot(0, [Int(150)])], 0) == Some([0x08, 0x96, 0x01])
  {
    hide EncodeOne;
    VarintBytes();
    var sub := [Plain(1, VarInt, 4)];
    var none: Bytes := [];
    assert SlotOf(sub, 0) == 0 && EncodeFrom(sub, [Slot(0, [Int(150)])], 1) == Some(none);
    assert EncodeField(sub[0], Slot(0, [Int(150)])) == EncodeOne(sub[0], Int(150));
    assert [0x08, 0x96, 0x01] + none == [0x08, 0x96, 0x01];
  }

  lemma Varint150()
    ensures Varint(150) == [0x96, 0x01]
  {
    assert Varint(150) == [0x96] + Varint(1);
  }

  lemma FixedBytes()
    ensures Fixed(0x102, 4) == [0x02, 0x01, 0x00, 0x00]
    ensures Fixed(0x102, 8) == [0x02, 0x01, 0x00, 0x00, 0x00, 0x00, 0x00, 0x00]
  {
    assert Fixed(0, 1) == [0] && Fixed(0, 2) == [0, 0];
    assert Fixed(1, 3) == [1, 0, 0];
    assert Fixed(0, 4) == [0, 0, 0, 0] && Fixed(0, 6) == [0, 0, 0, 0, 0, 0];
    assert Fixed(1, 7) == [1, 0, 0, 0, 0, 0, 0];
  }

  lemma {:induction false} FixedItems(f: Field, items: seq<Item>, i: nat, count: nat)
    requires i <= count
    ensures f.ltype.Word32? || f.ltype.Word64? ==> EncodeItems(f, items, i, count).Some?
    ensures f.ltype.Word32? ==> |EncodeItems(f, items, i, count).value| == 4 * (count - i)
    ensures f.ltype.Word64? ==> |EncodeItems(f, items, i, count).value| == 8 * (count - i)
    decreases count - i
  {
    if i < count {
      FixedItems(f, items, i + 1, count);
    }
  }

  // pb_check_proto3_default_value
  method CheckDefault(f: Field, slot: Slot) returns (isDefault: bool)
    ensures isDefault == IsDefault(f, slot)
    decreases f
  {
    match f.htype
    case Required => return false;
    case Repeated => return slot.count == 0;
    case FixedCount => return false;
    case Oneof => return slot.count == 0;
    case Optional => return slot.count == 0;
    case Singular =>
      var item := ItemAt(slot.items, 0);
      match f.ltype
      case ByteArray => return |BytesOf(item)| == 0;
      case Text =>
        var buffer := BufferOf(item);
        return buffer == [] || buffer[0] == 0;
      case FixedLengthBytes => return f.dataSize == 0;
      case Submessage(sub) =>
        var iter := new FieldIter(sub);
        var more := iter.Begin();
        while more
          invariant iter.Valid() && iter.fields == sub && fresh(iter)
          invariant more ==> iter.pos < |sub| && AllDefault(sub, SlotsOf(item), iter.pos) == AllDefault(sub, SlotsOf(item), 0)
          invariant !more ==> AllDefault(sub, SlotsOf(item), 0)
          decreases if more then |sub| - iter.pos else 0
        {
          isDefault := CheckDefault(sub[iter.pos], SlotAt(SlotsOf(item), iter.slot));
          if !isDefault {
            return;
          }
          more := iter.Next();
        }
        return true;
      case _ => return IntOf(item) == 0;
  }

  // strnlen
  method Length(buffer: Bytes) returns (size: nat)
    ensures size == |CString(buffer)| && buffer[..size] == CString(buffer)
  {
    size := 0;
    while size < |buffer| && buffer[size] != 0
      invariant size <= |buffer|
      invariant size + |CString(buffer[size..])| == |CString(buffer)|
    {
      assert buffer[size..][1..] == buffer[size + 1..];
      size := size + 1;
    }
  }

  // ----- Output streams

  datatype Error = NoError | StreamFull | ArrayMaxSizeExceeded | InvalidDataSize | BytesSizeExceeded | SubmsgSizeChanged

  // A stream without a callback only counts.
  datatype Sink = Sink(writing: bool, maxSize: nat, written: nat, output: Bytes, error: Error)

  ghost predicate Sound(s: Sink) {
    s.error != SubmsgSizeChanged && (s.writing ==> s.written <= s.maxSize)
  }

  ghost predicate Fits(s: Sink, n: nat) {
    s.writing ==> s.written + n <= s.maxSize
  }

  /** From state a to state b exactly the encoding was emitted, and the call failed only where it had to. */
  ghost predicate Emitted(a: Sink, b: Sink, e: Option<Bytes>, ok: bool) {
    && Sound(b)
    && b.writing == a.writing
    && b.maxSize == a.maxSize
    && ok == (e.Some? && Fits(a, |e.value|))
    && a.output <= b.output
    && (ok ==> b.written == a.written + |e.value| && b.output == if a.writing then a.output + e.value else a.output)
  }

  lemma EmittedThen(a: Sink, b: Sink, c: Sink, e1: Option<Bytes>, e2: Option<Bytes>, ok: bool)
    requires Emitted(a, b, e1, true) && Emitted(b, c, e2, ok)
    ensures Emitted(a, c, Cat(e1, e2), ok)
  {
    if ok && a.writing {
      assert a.output + e1.value + e2.value == a.output + (e1.value + e2.value);
    }
  }

  lemma EmittedNoMore(a: Sink, b: Sink, e1: Option<Bytes>, e2: Option<Bytes>)
    requires Emitted(a, b, e1, false)
    ensures Emitted(a, b, Cat(e1, e2), false)
  {
  }

  lemma EmittedThenGaveUp(a: Sink, b: Sink, e: Option<Bytes>)
    requires Emitted(a, b, e, true)
    ensures Emitted(a, b, None, false)
  {
  }

  lemma StaysSound(a: Sink, b: Sink, e: Option<Bytes>, ok: bool)
    requires Emitted(a, b, e, ok)
    ensures Sound(b)
  {
  }

  lemma NothingEmitted(a: Sink)
    requires Sound(a)
    ensures Emitted(a, a, Some([]), true)
  {
  }

  lemma CatAssociates(a: Option<Bytes>, b: Option<Bytes>, c: Option<Bytes>)
    ensures Cat(Cat(a, b), c) == Cat(a, Cat(b, c))
    ensures Cat(Some([]), a) == a == Cat(a, Some([]))
  {
    if a.Some? {
      assert [] + a.value == a.value == a.value + [];
    }
    if a.Some? && b.Some? && c.Some? {
      assert a.value + b.value + c.value == a.value + (b.value + c.value);
    }
  }

  // The error of the second pass, or else that its size differs.
  function FirstError(e: Error, changed: bool): Error {
    if changed && e.NoError? then SubmsgSizeChanged else e
  }

  class OStream {
    const writing: bool
    const maxSize: nat
    var written: nat
    var output: Bytes
    var error: Error

    ghost function State(): Sink
      reads this
    {
      Sink(writing, maxSize, written, output, error)
    }

    constructor Sizing()
      ensures State() == Sink(false, 0, 0, [], NoError)
    {
      writing, maxSize, written, output, error := false, 0, 0, [], NoError;
    }

    // `output` is the state the callback shares with an enclosing stream.
    constructor Writing(maxSize: nat, output: Bytes)
      ensures State() == Sink(true, maxSize, 0, output, NoError)
    {
      this.writing, this.maxSize, this.written, this.output, this.error := true, maxSize, 0, output, NoError;
    }

    // The first message stays.
    method Fail(e: Error)
      requires Sound(State()) && e != SubmsgSizeChanged
      modifies this`error
      ensures Sound(State())
    {
      if error.NoError? {
        error := e;
      }
    }

    // A stream that only counts does not look at the bytes.
    method Write(buf: Bytes, count: nat) returns (ok: bool)
      requires Sound(State()) && (writing ==> count == |buf|)
      modifies this
      ensures forall e: Bytes :: |e| == count && (writing ==> e == buf) ==> Emitted(old(State()), State(), Some(e), ok)
    {
      if count > 0 && writing {
        if written + count > maxSize {
          Fail(StreamFull);
          return false;
        }
        output := output + buf;
      }
      written := written + count;
      ok := true;
    }

    method EncodeVarint(value: nat) returns (ok: bool)
      requires Sound(State())
      modifies this
      ensures Emitted(old(State()), State(), Some(Varint(value)), ok)
    {
      if value <= 0x7F {
        ok := Write([value], 1);
        assert Varint(value) == [value];
        return;
      }
      var buffer: Bytes := [];
      var v := value;
      while v != 0
        invariant v != 0 ==> buffer + Varint(v) == Varint(value)
        invariant v == 0 ==> buffer != [] && buffer[|buffer| - 1] >= 128
        invariant v == 0 ==> buffer[..|buffer| - 1] + [buffer[|buffer| - 1] - 128] == Varint(value)
        modifies {}
      {
        buffer := buffer + [v % 128 + 128];
        v := v / 128;
      }
      buffer := buffer[|buffer| - 1 := buffer[|buffer| - 1] - 128];
      assert buffer == Varint(value);
      ok := Write(buffer, |buffer|);
      assert Emitted(old(State()), State(), Some(buffer), ok);
    }

    method EncodeSVarint(value: int) returns (ok: bool)
      requires Sound(State())
      modifies this
      ensures Emitted(old(State()), State(), Some(Varint(ZigZag(value))), ok)
    {
      var doubled: nat := 2 * value % TWO64;
      var zigzagged: nat := if value < 0 then TWO64 - 1 - doubled else doubled;
      ok := EncodeVarint(zigzagged);
    }

    method EncodeFixed(value: nat, width: nat) returns (ok: bool)
      requires Sound(State())
      modifies this
      ensures Emitted(old(State()), State(), Some(Fixed(value, width)), ok)
    {
      var buffer: Bytes := [];
      var v := value;
      for i: nat := 0 to width
        invariant buffer + Fixed(v, width - i) == Fixed(value, width)
        modifies {}
      {
        buffer := buffer + [v % 256];
        v := v / 256;
      }
      assert buffer == Fixed(value, width);
      ok := Write(buffer, |buffer|);
      assert Emitted(old(State()), State(), Some(buffer), ok);
    }

    method EncodeTag(wire: nat, f: Field) returns (ok: bool)
      requires Sound(State())
      modifies this
      ensures Emitted(old(State()), State(), Some(TagBytes(f, wire)), ok)
    {
      ok := EncodeVarint(8 * f.tag + wire);
    }

    method EncodeString(buf: Bytes, size: nat) returns (ok: bool)
      requires Sound(State()) && size <= |buf|
      modifies this
      ensures Emitted(old(State()), State(), Some(LengthPrefixed(buf[..size])), ok)
    {
      ghost var start := State();
      ok := EncodeVarint(size);
      if !ok {
        EmittedNoMore(start, State(), Some(Varint(size)), Some(buf[..size]));
        return;
      }
      ghost var middle := State();
      ok := Write(buf[..size], size);
      assert Emitted(middle, State(), Some(buf[..size]), ok);
      EmittedThen(start, middle, State(), Some(Varint(size)), Some(buf[..size]), ok);
    }

    // The encoder of each scalar type.
    method EncodeScalar(f: Field, item: Item) returns (ok: bool)
      requires Sound(State()) && !f.ltype.Submessage?
      modifies this
      ensures Emitted(old(State()), State(), EncodeItem(f, item), ok)
    {
      if (f.ltype.VarInt? || f.ltype.UVarInt? || f.ltype.SVarInt?) && !IntSize(f.dataSize) {
        Fail(InvalidDataSize);
        return false;
      }
      match f.ltype
      case Bool =>
        ok := EncodeVarint(if IntOf(item) != 0 then 1 else 0);
      case VarInt =>
        ok := EncodeVarint(IntOf(item) % TWO64);
      case UVarInt =>
        ok := EncodeVarint(IntOf(item) % TWO64);
      case SVarInt =>
        ok := EncodeSVarint(IntOf(item));
      case Word32 =>
        ok := EncodeFixed(IntOf(item) % TWO32, 4);
      case Word64 =>
        ok := EncodeFixed(IntOf(item) % TWO64, 8);
      case ByteArray =>
        ok := EncodeByteString(f, item);
      case Text =>
        ok := EncodeByteString(f, item);
      case FixedLengthBytes =>
        ok := EncodeByteString(f, item);
    }

    method EncodeByteString(f: Field, item: Item) returns (ok: bool)
      requires Sound(State()) && (f.ltype.ByteArray? || f.ltype.Text? || f.ltype.FixedLengthBytes?)
      modifies this
      ensures Emitted(old(State()), State(), EncodeItem(f, item), ok)
    {
      if f.ltype.Text? {
        var size := Length(BufferOf(item));
        ok := EncodeString(BufferOf(item), size);
        return;
      }
      var bytes := BytesOf(item);
      if f.ltype.ByteArray? && |bytes| + BYTES_OFFSET > f.dataSize {
        Fail(BytesSizeExceeded);
        return false;
      }
      ok := EncodeString(bytes, |bytes|);
      assert bytes[..|bytes|] == bytes;
    }

    method EncodeAny(f: Field, item: Item) returns (ok: bool)
      requires Sound(State())
      modifies this
      ensures Emitted(old(State()), State(), EncodeItem(f, item), ok)
      decreases f, 0
    {
      match f.ltype
      case Submessage(sub) =>
        ok := EncodeSubmessage(sub, SlotsOf(item));
      case _ =>
        ok := EncodeScalar(f, item);
    }

    // A tag and one item.
    method EncodeTagAndItem(f: Field, item: Item) returns (ok: bool)
      requires Sound(State())
      modifies this
      ensures Emitted(old(State()), State(), EncodeOne(f, item), ok)
      decreases f, 1
    {
      ghost var start := State();
      ghost var head := Some(TagBytes(f, WireType(f.ltype)));
      ghost var tail := EncodeItem(f, item);
      ok := EncodeTag(WireType(f.ltype), f);
      if !ok {
        EmittedNoMore(start, State(), head, tail);
        return;
      }
      ghost var middle := State();
      ok := EncodeAny(f, item);
      EmittedThen(start, middle, State(), head, tail, ok);
    }

    // Each item without a tag, on this stream.
    method EncodeEach(f: Field, items: seq<Item>, count: nat) returns (ok: bool)
      requires Sound(State()) && Packable(f.ltype)
      modifies this
      ensures Emitted(old(State()), State(), EncodeItems(f, items, 0, count), ok)
    {
      hide Emitted;
      ghost var start := State();
      ghost var done: Option<Bytes> := Some([]);
      ghost var whole := EncodeItems(f, items, 0, count);
      NothingEmitted(start);
      CatAssociates(whole, done, done);
      var i: nat := 0;
      while i < count
        invariant i <= count && Sound(State())
        invariant Emitted(start, State(), done, true)
        invariant Cat(done, EncodeItems(f, items, i, count)) == whole
      {
        ghost var middle := State();
        ghost var e := EncodeItem(f, ItemAt(items, i));
        ghost var others := EncodeItems(f, items, i + 1, count);
        CatAssociates(done, e, others);
        ok := EncodeScalar(f, ItemAt(items, i));
        EmittedThen(start, middle, State(), done, e, ok);
        if !ok {
          EmittedNoMore(start, State(), Cat(done, e), others);
          return;
        }
        done := Cat(done, e);
        StaysSound(middle, State(), e, ok);
        i := i + 1;
      }
      CatAssociates(done, done, done);
      ok := true;
    }

    // The length of a packed array: computed for fixed widths, otherwise counted.
    method PackedSize(f: Field, items: seq<Item>, count: nat) returns (ok: bool, size: nat)
      requires Packable(f.ltype)
      ensures ok == EncodeItems(f, items, 0, count).Some?
      ensures ok ==> size == |EncodeItems(f, items, 0, count).value|
    {
      FixedItems(f, items, 0, count);
      if f.ltype.Word32? {
        return true, 4 * count;
      }
      if f.ltype.Word64? {
        return true, 8 * count;
      }
      var sizing := new OStream.Sizing();
      ok := sizing.EncodeEach(f, items, count);
      size := sizing.written;
    }

    method EncodePackedArray(f: Field, items: seq<Item>, count: nat) returns (ok: bool)
      requires Sound(State()) && Packable(f.ltype)
      modifies this
      ensures Emitted(old(State()), State(), EncodePacked(f, items, count), ok)
    {
      hide Emitted;
      ghost var start := State();
      ghost var body := EncodeItems(f, items, 0, count);
      ghost var tag := Some(TagBytes(f, 2));
      ok := EncodeTag(2, f);
      if !ok {
        EmittedNoMore(start, State(), tag, WithLength(body));
        return;
      }
      StaysSound(start, State(), tag, true);
      ghost var middle := State();
      var size;
      ok, size := PackedSize(f, items, count);
      if !ok {
        EmittedThenGaveUp(start, State(), tag);
        return;
      }
      ok := EncodeVarint(size);
      EmittedThen(start, middle, State(), tag, Some(Varint(size)), ok);
      CatAssociates(tag, Some(Varint(size)), body);
      if !ok {
        EmittedNoMore(start, State(), Cat(tag, Some(Varint(size))), body);
        return;
      }
      StaysSound(middle, State(), Some(Varint(size)), true);
      ghost var before := State();
      if !writing {
        ok := Write([], size);
        assert Emitted(before, State(), Some(body.value), ok);
      } else {
        ok := EncodeEach(f, items, count);
      }
      EmittedThen(start, before, State(), Cat(tag, Some(Varint(size))), body, ok);
    }

    // One after the other, each behind its tag.
    method EncodeUnpackedArray(f: Field, items: seq<Item>, count: nat) returns (ok: bool)
      requires Sound(State())
      modifies this
      ensures Emitted(old(State()), State(), EncodeTagged(f, items, 0, count), ok)
      decreases f, 2
    {
      hide Emitted;
      ghost var start := State();
      ghost var done: Option<Bytes> := Some([]);
      ghost var whole := EncodeTagged(f, items, 0, count);
      NothingEmitted(start);
      CatAssociates(whole, done, done);
      var i: nat := 0;
      while i < count
        invariant i <= count && Sound(State())
        invariant Emitted(start, State(), done, true)
        invariant Cat(done, EncodeTagged(f, items, i, count)) == whole
      {
        ghost var middle := State();
        ghost var e := EncodeOne(f, ItemAt(items, i));
        ghost var others := EncodeTagged(f, items, i + 1, count);
        CatAssociates(done, e, others);
        ok := EncodeTagAndItem(f, ItemAt(items, i));
        EmittedThen(start, middle, State(), done, e, ok);
        if !ok {
          EmittedNoMore(start, State(), Cat(done, e), others);
          return;
        }
        done := Cat(done, e);
        StaysSound(middle, State(), e, ok);
        i := i + 1;
      }
      CatAssociates(done, done, done);
      ok := true;
    }

    method EncodeArrayOf(f: Field, items: seq<Item>, count: nat) returns (ok: bool)
      requires Sound(State())
      modifies this
      ensures Emitted(old(State()), State(), EncodeArray(f, items, count), ok)
      decreases f, 3
    {
      if count == 0 {
        return true;
      }
      if count > f.arraySize {
        Fail(ArrayMaxSizeExceeded);
        return false;
      }
      if Packable(f.ltype) {
        ok := EncodePackedArray(f, items, count);
      } else {
        ok := EncodeUnpackedArray(f, items, count);
      }
    }

    // encode_basic_field for static data.
    method EncodeBasicField(f: Field, slot: Slot) returns (ok: bool)
      requires Sound(State())
      modifies this
      ensures Emitted(old(State()), State(), EncodeField(f, slot), ok)
      decreases f, 4
    {
      var has := true;
      match f.htype {
        case Required =>
        case Optional =>
          has := slot.count != 0;
        case Singular =>
          var isDefault := CheckDefault(f, slot);
          has := !isDefault;
        case Repeated =>
          ok := EncodeArrayOf(f, slot.items, slot.count);
          return;
        case FixedCount =>
          ok := EncodeArrayOf(f, slot.items, f.arraySize);
          return;
        case Oneof =>
          has := slot.count == f.tag;
      }
      if has {
        ok := EncodeTagAndItem(f, ItemAt(slot.items, 0));
      } else {
        ok := true;
      }
    }

    // pb_encode
    method Encode(fields: Fields, m: Message) returns (ok: bool)
      requires Sound(State())
      modifies this
      ensures Emitted(old(State()), State(), Encoded(fields, m), ok)
      decreases fields, 5
    {
      hide Emitted;
      ghost var start := State();
      ghost var done: Option<Bytes> := Some([]);
      ghost var whole := EncodeFrom(fields, m, 0);
      NothingEmitted(start);
      CatAssociates(whole, done, done);
      var iter := new FieldIter(fields);
      var more := iter.Begin();
      ok := true;
      while more
        invariant iter.Valid() && iter.fields == fields && fresh(iter)
        invariant more ==> iter.pos < |fields| && Cat(done, EncodeFrom(fields, m, iter.pos)) == whole
        invariant !more ==> done == whole
        invariant ok && Sound(State()) && Emitted(start, State(), done, true)
        decreases if more then |fields| - iter.pos else 0
      {
        ghost var k := iter.pos;
        ghost var middle := State();
        ghost var e := EncodeField(fields[k], SlotAt(m, SlotOf(fields, k)));
        ghost var others := EncodeFrom(fields, m, k + 1);
        CatAssociates(done, e, others);
        ok := EncodeBasicField(fields[iter.pos], SlotAt(m, iter.slot));
        EmittedThen(start, middle, State(), done, e, ok);
        if !ok {
          EmittedNoMore(start, State(), Cat(done, e), others);
          return;
        }
        StaysSound(middle, State(), e, ok);
        done := Cat(done, e);
        CatAssociates(done, done, done);
        more := iter.Next();
      }
    }

    /**
     * Two passes over the submessage. The second one writes as many bytes as the first one counted,
     * so the size check at the end never fails: Sound rules its error out.
     */
    method EncodeSubmessage(fields: Fields, m: Message) returns (ok: bool)
      requires Sound(State())
      modifies this
      ensures Emitted(old(State()), State(), WithLength(Encoded(fields, m)), ok)
      decreases fields, 6
    {
      ghost var start := State();
      ghost var body := Encoded(fields, m);
      var sizing := new OStream.Sizing();
      ok := sizing.Encode(fields, m);
      if !ok {
        error := sizing.error;
        return;
      }
      var size := sizing.written;
      ok := EncodeVarint(size);
      if !ok {
        EmittedNoMore(start, State(), Some(Varint(size)), body);
        return;
      }
      ghost var middle := State();
      if !writing {
        ok := Write([], size);
        assert Emitted(middle, State(), Some(body.value), ok);
        EmittedThen(start, middle, State(), Some(Varint(size)), body, ok);
        return;
      }
      if written + size > maxSize {
        Fail(StreamFull);
        return false;
      }
      var substream := new OStream.Writing(size, output);
      var status := substream.Encode(fields, m);
      written := written + substream.written;
      output := substream.output;
      var changed := substream.written != size;
      error := FirstError(substream.error, changed);
      ok := status && !changed;
      assert Emitted(middle, State(), body, ok);
      EmittedThen(start, middle, State(), Some(Varint(size)), body, ok);
    }
  }

  /** pb_get_encoded_size counts exactly the bytes that encoding into a large enough stream emits. */
  method EncodedSize(fields: Fields, m: Message) returns (ok: bool, size: nat)
    ensures ok == Encoded(fields, m).Some?
    ensures ok ==> size == |Encoded(fields, m).value|
  {
    var sizing := new OStream.Sizing();
    ok := sizing.Encode(fields, m);
    size := sizing.written;
  }
}
