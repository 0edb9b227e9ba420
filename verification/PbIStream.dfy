/**
 * Input streams and the decoder's methods (nanopb's pb_decode.c). Each computes what the
 * module PbDecode says its input decodes to, for every input, malformed ones included.
 */
module PbIStream {
  import opened Wrappers
  import opened DbFormat
  import opened Coding
  import opened PbFormat
  import opened PbDecode

  /** A call read a value from the front of `before` and left `after`, or failed as it must. */
  ghost predicate Consumed<T(!new)>(before: Bytes, after: Bytes, r: Option<Parsed<T>>, ok: bool, value: T) {
    && ok == r.Some?
    && (ok ==> value == r.value.value && after == r.value.rest)
  }

  lemma Gathered64(b: Bytes, p: nat)
    requires p < |b|
    ensures (Gathered(b, p) % TWO64 + b[p] % 128 * Pow(128, p)) % TWO64 == Gathered(b, p + 1) % TWO64
  {
  }

  // p continuation bytes have been read; the bits gathered so far, and the weight of the next ones.
  ghost predicate Gathering(input: Bytes, p: nat, scale: nat, result: nat) {
    && p <= 10
    && p <= |input|
    && scale == Pow(128, p)
    && result == Gathered(input, p) % TWO64
    && Resumes(input, p, 10)
  }

  lemma GatherStarts(input: Bytes)
    ensures Gathering(input, 0, 1, 0)
  {
    assert input[0..] == input;
  }

  lemma GatherByte(input: Bytes, p: nat, scale: nat, result: nat)
    requires Gathering(input, p, scale, result) && p < 10 && p < |input|
    ensures var next := (result + input[p] % 128 * scale) % TWO64;
            if input[p] < 128 then Decode64(input) == Some(Parsed(next, input[p + 1..])) else Gathering(input, p + 1, 128 * scale, next)
  {
    hide Gathered, ReadVarint;
    Gathered64(input, p);
    ResumesStep(input, p, 10);
  }

  lemma GatherStops(input: Bytes, p: nat, scale: nat, result: nat)
    requires Gathering(input, p, scale, result) && (p == 10 || p == |input|)
    ensures Decode64(input).None?
  {
  }

  class IStream {
    const data: Bytes
    var pos: nat
    var left: nat

    ghost predicate Valid()
      reads this
    {
      pos + left <= |data|
    }

    // What bytes_left still allows to be read.
    ghost function Left(): Bytes
      requires Valid()
      reads this
    {
      data[pos..pos + left]
    }

    constructor (data: Bytes, pos: nat, left: nat)
      requires pos + left <= |data|
      ensures Valid() && this.data == data && this.pos == pos && this.left == left
    {
      this.data, this.pos, this.left := data, pos, left;
    }

    method Read(count: nat) returns (ok: bool, buf: Bytes)
      requires Valid()
      modifies this
      ensures Valid() && pos + left == old(pos + left)
      ensures Consumed(old(Left()), Left(), Take(old(Left()), count), ok, buf)
      ensures !ok ==> Left() == old(Left())
    {
      if left < count {
        return false, [];
      }
      ghost var before := Left();
      buf := data[pos..pos + count];
      assert before[..count] == buf && before[count..] == data[pos + count..pos + left];
      pos := pos + count;
      left := left - count;
      ok := true;
    }

    method ReadByte() returns (ok: bool, b: byte)
      requires Valid()
      modifies this
      ensures Valid() && pos + left == old(pos + left)
      ensures ok == (old(Left()) != [])
      ensures ok ==> b == old(Left())[0] && Left() == old(Left())[1..]
    {
      if left == 0 {
        return false, 0;
      }
      b := data[pos];
      pos := pos + 1;
      left := left - 1;
      ok := true;
    }

    method DecodeVarint32() returns (ok: bool, value: nat)
      requires Valid()
      modifies this
      ensures Valid() && pos + left == old(pos + left)
      ensures Consumed(old(Left()), Left(), Decode32(old(Left())), ok, value)
    {
      var b;
      ok, b := ReadByte();
      if !ok {
        return false, 0;
      }
      if b < 128 {
        return true, b;
      }
      var bitpos: nat := 7;
      var result: nat := b % 128;
      while true
        invariant Valid() && pos + left == old(pos + left)
        invariant Decode32(old(Left())) == More32(Left(), result, bitpos)
        decreases left
      {
        ok, b := ReadByte();
        if !ok {
          return false, 0;
        }
        if bitpos >= 32 {
          if b % 128 != 0 && (result / 0x8000_0000 == 0 || b != SignExtension(bitpos)) {
            return false, 0;
          }
        } else {
          result := BitOr(result, ShiftLeft(b % 128, bitpos) % TWO32);
        }
        bitpos := (bitpos + 7) % 256;
        if b < 128 {
          if bitpos == 35 && b / 16 != 0 {
            return false, 0;
          }
          return true, result;
        }
      }
    }

    method DecodeVarint() returns (ok: bool, value: nat)
      requires Valid()
      modifies this
      ensures Valid() && pos + left == old(pos + left)
      ensures Consumed(old(Left()), Left(), Decode64(old(Left())), ok, value)
    {
      hide Gathering, Decode64;
      ghost var input := Left();
      ghost var p: nat := 0;
      var bitpos: nat, scale: nat, result: nat := 0, 1, 0;
      GatherStarts(input);
      while true
        invariant Valid() && pos + left == old(pos + left)
        invariant p <= 10 && p <= |input| && bitpos == 7 * p && Left() == input[p..]
        invariant Gathering(input, p, scale, result)
        decreases left
      {
        if bitpos >= 64 {
          GatherStops(input, p, scale, result);
          return false, 0;
        }
        var b;
        ok, b := ReadByte();
        if !ok {
          GatherStops(input, p, scale, result);
          return false, 0;
        }
        GatherByte(input, p, scale, result);
        // The shifted bits do not overlap with those of the result.
        result := (result + b % 128 * scale) % TWO64;
        bitpos := bitpos + 7;
        scale := 128 * scale;
        p := p + 1;
        if b < 128 {
          return true, result;
        }
      }
    }

    method DecodeSVarint() returns (ok: bool, value: int)
      requires Valid()
      modifies this
      ensures Valid() && pos + left == old(pos + left)
      ensures ok == Decode64(old(Left())).Some?
      ensures ok ==> value == UnZigZag(Decode64(old(Left())).value.value) && Left() == Decode64(old(Left())).value.rest
    {
      var v;
      ok, v := DecodeVarint();
      var half: int := v / 2;
      value := if v % 2 == 1 then -half - 1 else half;
    }

    method SkipVarint() returns (ok: bool)
      requires Valid()
      modifies this
      ensures Valid() && pos + left == old(pos + left)
      ensures ok == PbDecode.SkipVarint(old(Left())).Some?
      ensures ok ==> Left() == PbDecode.SkipVarint(old(Left())).value
    {
      while true
        invariant Valid() && pos + left == old(pos + left)
        invariant PbDecode.SkipVarint(old(Left())) == PbDecode.SkipVarint(Left())
        decreases left
      {
        var b;
        ok, b := ReadByte();
        if !ok || b < 128 {
          return;
        }
      }
    }

    method ReadString() returns (ok: bool, buf: Bytes)
      requires Valid()
      modifies this
      ensures Valid() && pos + left == old(pos + left)
      ensures Consumed(old(Left()), Left(), TakeString(old(Left())), ok, buf)
    {
      var size;
      ok, size := DecodeVarint32();
      if !ok {
        return false, [];
      }
      ok, buf := Read(size);
    }

    method SkipField(wire: nat) returns (ok: bool)
      requires Valid()
      modifies this
      ensures Valid() && pos + left == old(pos + left)
      ensures ok == PbDecode.SkipField(wire, old(Left())).Some?
      ensures ok ==> Left() == PbDecode.SkipField(wire, old(Left())).value
    {
      var buf;
      if wire == 0 {
        ok := SkipVarint();
      } else if wire == 1 {
        ok, buf := Read(8);
      } else if wire == 2 {
        ok, buf := ReadString();
      } else if wire == 5 {
        ok, buf := Read(4);
      } else {
        ok := false;
      }
    }

    // A zero tag ends the message: eof.
    method DecodeTag() returns (ok: bool, wire: nat, tag: nat, eof: bool)
      requires Valid() && left > 0
      modifies this
      ensures Valid() && pos + left == old(pos + left)
      ensures match ReadTag(old(Left()))
              case Bad => !ok && !eof
              case Stop => !ok && eof
              case Tag(t, w, rest) => ok && tag == t && wire == w && Left() == rest
    {
      var temp;
      eof := false;
      ok, temp := DecodeVarint32();
      if !ok {
        return false, 0, 0, false;
      }
      if temp == 0 {
        return false, 0, 0, true;
      }
      tag := temp / 8;
      wire := temp % 8;
    }

    // Takes the length off the stream and hands out the string as a stream of its own.
    method MakeStringSubstream() returns (ok: bool, substream: IStream)
      requires Valid()
      modifies this
      ensures Valid() && fresh(substream) && substream.Valid()
      ensures ok == TakeString(old(Left())).Some?
      ensures ok ==> substream.Left() == TakeString(old(Left())).value.value && Rejoins(substream, TakeString(old(Left())).value.rest)
      ensures ok ==> pos + left + substream.left == old(pos + left) && substream.pos == pos
    {
      var size;
      ok, size := DecodeVarint32();
      if !ok || left < size {
        ok := false;
        substream := new IStream([], 0, 0);
        return;
      }
      ghost var after := Left();
      substream := new IStream(data, pos, size);
      assert after[..size] == substream.Left();
      assert after[size..] == data[pos + size..pos + left];
      left := left - size;
    }

    // The stream goes on where the substream ends.
    ghost predicate Rejoins(substream: IStream, rest: Bytes)
      reads this, substream
    {
      && substream.Valid()
      && substream.data == data
      && |rest| == left
      && substream.pos + substream.left + left <= |data|
      && rest == data[substream.pos + substream.left..substream.pos + substream.left + left]
    }

    method CloseStringSubstream(substream: IStream, ghost rest: Bytes)
      requires this != substream && Rejoins(substream, rest)
      modifies this, substream
      ensures Valid() && Left() == rest && left == old(left)
      ensures pos == old(substream.pos + substream.left)
    {
      if substream.left > 0 {
        var _, _ := substream.Read(substream.left);
      }
      pos := substream.pos;
    }

    // ----- The decoder of each scalar type

    method DecodeInteger(f: Field) returns (ok: bool, item: Item)
      requires Valid()
      modifies this
      ensures Valid() && pos + left == old(pos + left)
      ensures Consumed(old(Left()), Left(), PbDecode.DecodeInteger(f, old(Left())), ok, item)
    {
      item := Int(0);
      var v: int, clamped: int;
      if f.ltype.VarInt? || f.ltype.UVarInt? {
        var value;
        ok, value := DecodeVarint();
        // Only 64-bit signed fields look at all bits.
        v := if f.ltype.VarInt? then VarIntValue(value, f.dataSize) else value;
      } else {
        ok, v := DecodeSVarint();
      }
      if !ok || !IntSize(f.dataSize) {
        ok := false;
        return;
      }
      clamped := if f.ltype.UVarInt? then v % Pow(256, f.dataSize) else Signed(v % TWO64, f.dataSize);
      ok := clamped == v;
      item := Int(clamped);
    }

    method DecodeNumber(f: Field) returns (ok: bool, item: Item)
      requires Valid()
      modifies this
      ensures Valid() && pos + left == old(pos + left)
      ensures Consumed(old(Left()), Left(), PbDecode.DecodeNumber(f, old(Left())), ok, item)
    {
      if f.ltype.Bool? {
        var v;
        ok, v := DecodeVarint32();
        item := Int(if v != 0 then 1 else 0);
      } else if f.ltype.Word32? {
        var b;
        ok, b := Read(4);
        item := Int(FromFixed(b));
      } else if f.ltype.Word64? {
        var b;
        ok, b := Read(8);
        item := Int(FromFixed(b));
      } else {
        ok, item := DecodeInteger(f);
      }
    }

    method DecodeBytes(f: Field) returns (ok: bool, item: Item)
      requires Valid()
      modifies this
      ensures Valid() && pos + left == old(pos + left)
      ensures Consumed(old(Left()), Left(), PbDecode.DecodeBytes(f, old(Left())), ok, item)
    {
      item := Data([]);
      var size, b;
      ok, size := DecodeVarint32();
      if !ok || size + BYTES_OFFSET > f.dataSize {
        ok := false;
        return;
      }
      ok, b := Read(size);
      item := Data(b);
    }

    method DecodeText(f: Field, old_: Item) returns (ok: bool, item: Item)
      requires Valid()
      modifies this
      ensures Valid() && pos + left == old(pos + left)
      ensures Consumed(old(Left()), Left(), PbDecode.DecodeText(f, old_, old(Left())), ok, item)
    {
      item := old_;
      var size, b;
      ok, size := DecodeVarint32();
      if !ok || size + 1 > f.dataSize {
        ok := false;
        return;
      }
      ok, b := Read(size);
      item := Chars(b + [0] + Tail(f, old_, size));
    }

    method DecodeFixedLength(f: Field) returns (ok: bool, item: Item)
      requires Valid()
      modifies this
      ensures Valid() && pos + left == old(pos + left)
      ensures Consumed(old(Left()), Left(), PbDecode.DecodeFixedLength(f, old(Left())), ok, item)
    {
      item := Data(Zeros(f.dataSize));
      var size, b;
      ok, size := DecodeVarint32();
      if !ok || size == 0 {
        return;
      }
      if size != f.dataSize {
        return false, item;
      }
      ok, b := Read(f.dataSize);
      item := Data(b);
    }

    method DecodeAny(f: Field, old_: Item) returns (ok: bool, item: Item)
      requires Valid() && FieldUnionsDistinct(f)
      modifies this
      ensures Valid() && (ok ==> pos + left == old(pos + left))
      ensures Consumed(old(Left()), Left(), DecodeItem(f, old_, old(Left())), ok, item)
      decreases f, 0
    {
      match f.ltype
      case ByteArray => ok, item := DecodeBytes(f);
      case Text => ok, item := DecodeText(f, old_);
      case FixedLengthBytes => ok, item := DecodeFixedLength(f);
      case Submessage(sub) => ok, item := DecodeSubmessage(f, sub, old_);
      case _ => ok, item := DecodeNumber(f);
    }

    method DecodeSubmessage(f: Field, sub: Fields, old_: Item) returns (ok: bool, item: Item)
      requires Valid() && f.ltype == Submessage(sub) && UnionsDistinct(sub)
      modifies this
      ensures Valid() && (ok ==> pos + left == old(pos + left))
      ensures Consumed(old(Left()), Left(), DecodeItem(f, old_, old(Left())), ok, item)
      decreases sub, 6
    {
      hide TakeString, DecodeMessage, Defaults, UnionsDistinct;
      item := old_;
      var substream, m;
      ok, substream := MakeStringSubstream();
      if !ok {
        return;
      }
      ghost var part := TakeString(old(Left())).value;
      var dest := SlotsOf(old_);
      if IsArray(f.htype) {
        dest := SetToDefaults(sub, dest);
      }
      ok, m := substream.DecodeNoInit(sub, dest);
      if !ok {
        return;
      }
      CloseStringSubstream(substream, part.rest);
      item := Struct(m);
    }

    // ----- Fields

    // The string behind the length is filled with items, as many as the array has room for.
    method DecodePackedArray(f: Field, a: Entries) returns (ok: bool, all: Entries)
      requires Valid() && Packable(f.ltype)
      modifies this
      ensures Valid() && (ok ==> pos + left == old(pos + left))
      ensures Consumed(old(Left()), Left(), DecodeArray(f, 2, a, old(Left())), ok, all)
    {
      hide TakeString, PbDecode.DecodeNumber;
      all := a;
      var substream;
      ok, substream := MakeStringSubstream();
      if !ok {
        return;
      }
      ghost var part := TakeString(old(Left())).value;
      ghost var end := substream.pos + substream.left;
      var status := true;
      while substream.left > 0 && all.size < f.arraySize
        invariant substream.Valid() && substream.pos + substream.left == end && status
        invariant DecodePacked(f, a, part.value) == DecodePacked(f, all, substream.Left())
        decreases substream.left
        modifies substream
      {
        var item;
        status, item := substream.DecodeNumber(f);
        if !status {
          break;
        }
        all := Entries(WithItem(all.items, all.size, item), all.size + 1);
      }
      if substream.left != 0 {
        return false, all;
      }
      CloseStringSubstream(substream, part.rest);
      ok := status;
    }

    method DecodeArrayField(f: Field, wire: nat, a: Entries) returns (ok: bool, all: Entries)
      requires Valid() && FieldUnionsDistinct(f)
      modifies this
      ensures Valid() && (ok ==> pos + left == old(pos + left))
      ensures Consumed(old(Left()), Left(), DecodeArray(f, wire, a, old(Left())), ok, all)
      decreases f, 1
    {
      if wire == 2 && Packable(f.ltype) {
        ok, all := DecodePackedArray(f, a);
      } else if a.size >= f.arraySize {
        return false, a;
      } else {
        var item;
        ok, item := DecodeAny(f, ItemAt(a.items, a.size));
        all := Entries(WithItem(a.items, a.size, item), a.size + 1);
      }
    }

    method DecodeSingleField(f: Field, slot: Slot) returns (ok: bool, next: Slot)
      requires Valid() && FieldUnionsDistinct(f)
      modifies this
      ensures Valid() && (ok ==> pos + left == old(pos + left))
      ensures Consumed(old(Left()), Left(), DecodeSingle(f, slot, old(Left())), ok, next)
      decreases f, 1
    {
      var count := slot.count;
      var dest := ItemAt(slot.items, 0);
      if f.htype.Optional? {
        count := 1;
      } else if f.htype.Oneof? {
        count := f.tag;
        if f.ltype.Submessage? {
          var m := SetToDefaults(f.ltype.fields, ZeroMessage(f.ltype.fields, |f.ltype.fields|));
          dest := Struct(m);
        }
      }
      var item;
      ok, item := DecodeAny(f, dest);
      next := Slot(count, WithItem(slot.items, 0, item));
    }

    // pb_release_union_field: look up the old member, then come back.
    method ReleaseUnion(iter: FieldIter, old_: nat) returns (ok: bool)
      requires iter.Valid() && iter.pos < |iter.fields| && UnionTagsDistinct(iter.fields)
      requires iter.fields[iter.pos].htype.Oneof?
      modifies iter
      ensures iter.Valid() && ok == UnionReleases(iter.fields, old(iter.pos), old_)
      ensures ok ==> iter.pos == old(iter.pos)
    {
      var tag := iter.fields[iter.pos].tag;
      if old_ == 0 || old_ == tag {
        return true;
      }
      ok := iter.Find(old_);
      if ok {
        UnionMemberIsFound(iter.fields, iter.pos, old(iter.pos));
        ok := iter.Find(tag);
      }
    }

    // The value of the field under the iterator arrives.
    method DecodeField(iter: FieldIter, st: Progress, wire: nat) returns (ok: bool, next: Progress)
      requires Valid() && iter.Valid() && iter.pos < |iter.fields| && InRange(iter.fields, st) && UnionsDistinct(iter.fields)
      modifies this, iter
      ensures Valid() && iter.Valid() && (ok ==> pos + left == old(pos + left) && iter.pos == next.pos)
      ensures Consumed(old(Left()), Left(), DecodeAt(iter.fields, st, old(iter.pos), wire, old(Left())), ok, next)
      decreases iter.fields, 2
    {
      var fields := iter.fields;
      var p := iter.pos;
      var f := fields[p];
      var s := iter.slot;
      var slot := SlotAt(st.m, s);
      next := st.(pos := p);
      if f.htype.Required? && iter.requiredIndex < MAX_REQUIRED_FIELDS {
        next := next.(seen := next.seen + {iter.requiredIndex});
      }
      if f.htype.FixedCount? {
        if st.fixedField != Some(p) {
          if st.fixedField.Some? && st.fixedSize != fields[st.fixedField.value].arraySize {
            return false, next;
          }
          next := next.(fixedField := Some(p), fixedSize := 0);
        }
        var all;
        ok, all := DecodeArrayField(f, wire, Entries(slot.items, next.fixedSize));
        next := next.(m := WithSlot(st.m, s, slot.(items := all.items)), fixedSize := all.size);
      } else if f.htype.Repeated? {
        var all;
        ok, all := DecodeArrayField(f, wire, Entries(slot.items, slot.count));
        next := next.(m := WithSlot(st.m, s, Slot(all.size, all.items)));
      } else {
        if f.htype.Oneof? {
          ok := ReleaseUnion(iter, slot.count);
          if !ok {
            return;
          }
        }
        var single;
        ok, single := DecodeSingleField(f, slot);
        next := next.(m := WithSlot(st.m, s, single));
      }
    }

    // ----- Messages

    // One field of the message, known or not.
    method DecodeNext(iter: FieldIter, st: Progress, tag: nat, wire: nat) returns (ok: bool, next: Progress)
      requires Valid() && iter.Valid() && iter.pos == st.pos && InRange(iter.fields, st) && UnionsDistinct(iter.fields)
      modifies this, iter
      ensures Valid() && iter.Valid() && (ok ==> pos + left == old(pos + left) && iter.pos == next.pos)
      ensures Consumed(old(Left()), Left(), DecodeStep(iter.fields, st, tag, wire, old(Left())), ok, next)
      decreases iter.fields, 3
    {
      next := st;
      var found := iter.Find(tag);
      if found {
        ok, next := DecodeField(iter, st, wire);
      } else if iter.fields == [] && tag == 0 {
        var v;
        ok, v := DecodeVarint32();
        next := st.(seen := st.seen + {0});
      } else {
        ok := SkipField(wire);
      }
    }

    // Decodes fields until the stream or a zero tag ends the message.
    method DecodeFields(iter: FieldIter, start: Progress) returns (ok: bool, st: Progress)
      requires Valid() && iter.Valid() && iter.pos == start.pos && InRange(iter.fields, start) && UnionsDistinct(iter.fields)
      modifies this, iter
      ensures Valid() && iter.Valid() && (ok ==> pos + left == old(pos + left))
      ensures ok == DecodeLoop(iter.fields, start, old(Left())).Some?
      ensures ok ==> st == DecodeLoop(iter.fields, start, old(Left())).value
      decreases iter.fields, 4
    {
      hide DecodeStep, ReadTag, UnionsDistinct, RequiredBefore, SlotOf;
      st := start;
      while left > 0
        invariant Valid() && iter.Valid() && iter.pos == st.pos && InRange(iter.fields, st)
        invariant pos + left == old(pos + left)
        invariant DecodeLoop(iter.fields, start, old(Left())) == DecodeLoop(iter.fields, st, Left())
        decreases left
      {
        ghost var b := Left();
        var wire, tag, eof;
        ok, wire, tag, eof := DecodeTag();
        if !ok {
          return eof, st;
        }
        ghost var r := DecodeStep(iter.fields, st, tag, wire, Left());
        ok, st := DecodeNext(iter, st, tag, wire);
        if !ok {
          return;
        }
      }
      ok := true;
    }

    // pb_decode_noinit
    method DecodeNoInit(fields: Fields, dest: Message) returns (ok: bool, m: Message)
      requires Valid() && UnionsDistinct(fields)
      modifies this
      ensures Valid() && (ok ==> pos + left == old(pos + left))
      ensures ok == DecodeMessage(fields, dest, old(Left())).Some?
      ensures ok ==> m == DecodeMessage(fields, dest, old(Left())).value
      decreases fields, 5
    {
      hide DecodeLoop, AllSeen, UnionsDistinct;
      m := dest;
      var iter := new FieldIter(fields);
      var st;
      ok, st := DecodeFields(iter, Progress(dest, 0, {}, None, 0));
      if !ok {
        return;
      }
      m := st.m;
      if st.fixedField.Some? && st.fixedSize != fields[st.fixedField.value].arraySize {
        return false, m;
      }
      ok := CheckRequired(iter, st.seen);
    }

    // pb_decode
    method Decode(fields: Fields, dest: Message) returns (ok: bool, m: Message)
      requires Valid() && UnionsDistinct(fields)
      modifies this
      ensures Valid()
      ensures ok == Decoded(fields, dest, old(Left())).Some?
      ensures ok ==> m == Decoded(fields, dest, old(Left())).value
    {
      m := SetToDefaults(fields, dest);
      ok, m := DecodeNoInit(fields, m);
    }
  }

  predicate WordFull(seen: set<nat>, word: nat) {
    forall x: nat | 32 * word <= x < 32 * word + 32 :: x in seen
  }

  // Runs the iterator to the end to count the required fields, then compares the bitmap word by word.
  method CheckRequired(iter: FieldIter, seen: set<nat>) returns (ok: bool)
    requires iter.Valid()
    modifies iter
    ensures ok == AllSeen(seen, Tracked(RequiredBefore(iter.fields, |iter.fields|)))
  {
    hide SlotOf;
    var required := iter.requiredIndex;
    var last := iter.pos;
    var more := iter.Next();
    while more
      invariant iter.Valid() && (last < |iter.fields| || last == 0 == |iter.fields|)
      invariant required == RequiredBefore(iter.fields, last)
      invariant if more then iter.pos == last + 1 else last + 1 >= |iter.fields|
      decreases |iter.fields| - last, more
    {
      required := iter.requiredIndex;
      last := iter.pos;
      more := iter.Next();
    }
    if last < |iter.fields| && iter.fields[last].htype.Required? {
      required := required + 1;
    }
    if required > MAX_REQUIRED_FIELDS {
      required := MAX_REQUIRED_FIELDS;
    }
    for word: nat := 0 to required / 32
      invariant forall x: nat :: x < 32 * word ==> x in seen
      modifies {}
    {
      if !WordFull(seen, word) {
        return false;
      }
    }
    var word := required / 32;
    ok := required % 32 == 0 || forall x: nat | 32 * word <= x < 32 * word + 32 :: x in seen <==> x < required;
  }

  // pb_field_set_to_default
  method SetFieldToDefault(f: Field, slot: Slot) returns (r: Slot)
    ensures r == DefaultSlot(f, slot)
    decreases f
  {
    r := slot;
    if f.htype.Optional? || f.htype.Repeated? || f.htype.Oneof? {
      r := r.(count := 0);
    }
    if IsArray(f.htype) || f.htype.Oneof? {
      return;
    }
    var item := ItemAt(slot.items, 0);
    if f.ltype.Submessage? {
      var m := SetToDefaults(f.ltype.fields, SlotsOf(item));
      item := Struct(m);
    } else if f.initial.Some? {
      item := f.initial.value;
    } else {
      item := ZeroItem(f);
    }
    r := r.(items := [item]);
  }

  // pb_message_set_to_defaults
  method SetToDefaults(fields: Fields, dest: Message) returns (m: Message)
    ensures m == Defaults(fields, dest, 0)
    decreases fields
  {
    m := dest;
    var iter := new FieldIter(fields);
    var more := iter.Begin();
    while more
      invariant iter.Valid() && iter.fields == fields && fresh(iter)
      invariant if more then iter.pos < |fields| && Defaults(fields, m, iter.pos) == Defaults(fields, dest, 0)
                else m == Defaults(fields, dest, 0)
      decreases if more then |fields| - iter.pos else 0
    {
      var s := iter.slot;
      var slot := SetFieldToDefault(fields[iter.pos], SlotAt(m, s));
      m := WithSlot(m, s, slot);
      more := iter.Next();
    }
  }
}
