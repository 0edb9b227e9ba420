/**
 * Merging (nanopb's pb_decode_noinit): decoding into a struct that already holds a message updates the fields that
 * arrive and no others, the last value wins, and two encodings behind each other merge like one after the other.
 */
module PbMerge {
  import opened Wrappers
  import opened DbFormat
  import opened Coding
  import opened PbFormat
  import opened PbEncode
  import opened PbDecode
  import opened PbRoundTrip
  import opened PbUnknown
  import opened PbRefusals

  // ----- What was read does not depend on what follows

  // The second result is the first with `y` behind what is left.
  ghost predicate Extends<T(!new)>(r: Option<Parsed<T>>, r': Option<Parsed<T>>, y: Bytes) {
    r.Some? ==> r' == Some(Parsed(r.value.value, r.value.rest + y))
  }

  lemma {:induction false} More32Extends(b: Bytes, result: nat, bitpos: nat, y: Bytes)
    ensures Extends(More32(b, result, bitpos), More32(b + y, result, bitpos), y)
  {
    hide Extended, SignExtension;
    if b != [] {
      assert (b + y)[1..] == b[1..] + y;
      if b[0] >= 128 {
        More32Extends(b[1..], Extended(result, b[0], bitpos), (bitpos + 7) % 256, y);
      }
    }
  }

  lemma Decode32Extends(b: Bytes, y: Bytes)
    ensures Extends(Decode32(b), Decode32(b + y), y)
  {
    hide More32;
    if b != [] {
      assert (b + y)[1..] == b[1..] + y;
      More32Extends(b[1..], b[0] % 128, 7, y);
    }
  }

  lemma {:induction false} VarintExtends(b: Bytes, max: nat, y: Bytes)
    ensures Extends(ReadVarint(b, max), ReadVarint(b + y, max), y)
    decreases max
  {
    if max > 0 && b != [] {
      assert (b + y)[1..] == b[1..] + y;
      VarintExtends(b[1..], max - 1, y);
    }
  }

  lemma Decode64Extends(b: Bytes, y: Bytes)
    ensures Extends(Decode64(b), Decode64(b + y), y)
  {
    hide ReadVarint;
    VarintExtends(b, 10, y);
  }

  lemma TakeExtends(b: Bytes, n: nat, y: Bytes)
    ensures Extends(Take(b, n), Take(b + y, n), y)
  {
    if n <= |b| {
      assert (b + y)[..n] == b[..n] && (b + y)[n..] == b[n..] + y;
    }
  }

  lemma TakeStringExtends(b: Bytes, y: Bytes)
    ensures Extends(TakeString(b), TakeString(b + y), y)
  {
    hide Decode32, Take;
    Decode32Extends(b, y);
    var size := Decode32(b);
    if size.Some? {
      TakeExtends(size.value.rest, size.value.value, y);
    }
  }

  lemma {:induction false} SkipVarintExtends(b: Bytes, y: Bytes)
    ensures SkipVarint(b).Some? ==> SkipVarint(b + y) == Some(SkipVarint(b).value + y)
  {
    if b != [] {
      assert (b + y)[1..] == b[1..] + y;
      SkipVarintExtends(b[1..], y);
    }
  }

  lemma SkipFieldExtends(wire: nat, b: Bytes, y: Bytes)
    ensures SkipField(wire, b).Some? ==> SkipField(wire, b + y) == Some(SkipField(wire, b).value + y)
  {
    hide SkipVarint, Take, TakeString;
    SkipVarintExtends(b, y);
    TakeExtends(b, 8, y);
    TakeExtends(b, 4, y);
    TakeStringExtends(b, y);
  }

  lemma NumberExtends(f: Field, b: Bytes, y: Bytes)
    ensures Extends(DecodeNumber(f, b), DecodeNumber(f, b + y), y)
  {
    hide Decode32, Decode64, Take, FromFixed, Pow, Signed, UnZigZag, VarIntValue;
    Decode32Extends(b, y);
    Decode64Extends(b, y);
    TakeExtends(b, 4, y);
    TakeExtends(b, 8, y);
  }

  lemma DataExtends(f: Field, old_: Item, b: Bytes, y: Bytes)
    ensures Extends(DecodeBytes(f, b), DecodeBytes(f, b + y), y)
    ensures Extends(DecodeText(f, old_, b), DecodeText(f, old_, b + y), y)
    ensures Extends(DecodeFixedLength(f, b), DecodeFixedLength(f, b + y), y)
  {
    hide Decode32, Take, Tail, Zeros;
    Decode32Extends(b, y);
    var size := Decode32(b);
    if size.Some? {
      TakeExtends(size.value.rest, size.value.value, y);
      TakeExtends(size.value.rest, f.dataSize, y);
    }
  }

  lemma ItemExtends(f: Field, old_: Item, b: Bytes, y: Bytes)
    ensures Extends(DecodeItem(f, old_, b), DecodeItem(f, old_, b + y), y)
  {
    hide DecodeNumber, DecodeBytes, DecodeText, DecodeFixedLength, TakeString, DecodeMessage;
    NumberExtends(f, b, y);
    DataExtends(f, old_, b, y);
    TakeStringExtends(b, y);
  }

  lemma ArrayExtends(f: Field, wire: nat, a: Entries, b: Bytes, y: Bytes)
    ensures Extends(DecodeArray(f, wire, a, b), DecodeArray(f, wire, a, b + y), y)
  {
    hide DecodeItem, DecodePacked, TakeString;
    TakeStringExtends(b, y);
    ItemExtends(f, ItemAt(a.items, a.size), b, y);
  }

  lemma SingleExtends(f: Field, slot: Slot, b: Bytes, y: Bytes)
    ensures Extends(DecodeSingle(f, slot, b), DecodeSingle(f, slot, b + y), y)
  {
    hide DecodeItem, UnionItem;
    var old_ := ItemAt(slot.items, 0);
    ItemExtends(f, if f.htype.Oneof? then UnionItem(f, old_) else old_, b, y);
  }

  lemma AtExtends(fields: Fields, st: Progress, p: nat, wire: nat, b: Bytes, y: Bytes)
    requires InRange(fields, st) && p < |fields|
    ensures Extends(DecodeAt(fields, st, p, wire, b), DecodeAt(fields, st, p, wire, b + y), y)
  {
    hide DecodeArray, DecodeSingle, SlotOf, SeenWith;
    var f, slot := fields[p], SlotAt(st.m, SlotOf(fields, p));
    ArrayExtends(f, wire, Entries(slot.items, if st.fixedField == Some(p) then st.fixedSize else 0), b, y);
    ArrayExtends(f, wire, Entries(slot.items, slot.count), b, y);
    SingleExtends(f, slot, b, y);
  }

  lemma StepExtends(fields: Fields, st: Progress, tag: nat, wire: nat, b: Bytes, y: Bytes)
    requires InRange(fields, st)
    ensures Extends(DecodeStep(fields, st, tag, wire, b), DecodeStep(fields, st, tag, wire, b + y), y)
  {
    hide DecodeAt, Decode32, SkipField;
    Decode32Extends(b, y);
    SkipFieldExtends(wire, b, y);
    var p := FieldWithTag(fields, st.pos, tag);
    if p.Some? {
      AtExtends(fields, st, p.value, wire, b, y);
    }
  }

  // ----- One input behind another

  // The input is read to its end, without a zero that ends it before.
  ghost predicate ReadsAll(fields: Fields, st: Progress, b: Bytes)
    requires InRange(fields, st)
    decreases |b|
  {
    b != [] ==>
      && ReadTag(b).Tag?
      && var t := ReadTag(b);
         var r := DecodeStep(fields, st, t.tag, t.wire, t.rest);
         r.Some? && ReadsAll(fields, r.value.value, r.value.rest)
  }

  /** Decoding goes on behind an input that was read to its end. */
  lemma {:induction false} DecodesOn(fields: Fields, st: Progress, x: Bytes, y: Bytes)
    requires InRange(fields, st) && ReadsAll(fields, st, x)
    ensures DecodeLoop(fields, st, x).Some?
    ensures DecodeLoop(fields, st, x + y) == DecodeLoop(fields, DecodeLoop(fields, st, x).value, y)
    decreases |x|
  {
    hide DecodeStep, Decode32;
    if x == [] {
      assert x + y == y;
    } else {
      var t := ReadTag(x);
      Decode32Extends(x, y);
      StepExtends(fields, st, t.tag, t.wire, t.rest, y);
      var r := DecodeStep(fields, st, t.tag, t.wire, t.rest);
      DecodesOn(fields, r.value.value, r.value.rest, y);
    }
  }

  // ----- A message that begins in the middle

  lemma SameField(fields: Fields, p: nat, p': nat, tag: nat)
    requires DistinctTags(fields)
    requires (p < |fields| || p == 0 == |fields|) && (p' < |fields| || p' == 0 == |fields|)
    ensures FieldWithTag(fields, p, tag) == FieldWithTag(fields, p', tag)
  {
    hide FindFrom, FieldWithTag, DistinctTags;
    if HasTag(fields, tag) {
      var k :| 0 <= k < |fields| && fields[k].tag == tag;
      FindIsUnique(fields, p, k);
      FindIsUnique(fields, p', k);
    } else {
      NotFound(fields, p, tag);
      NotFound(fields, p', tag);
    }
  }

  // st' knows what st knows, and more required fields and perhaps a complete array without a counter from before.
  ghost predicate GoesOn(fields: Fields, st: Progress, st': Progress, before: set<nat>) {
    && InRange(fields, st) && InRange(fields, st')
    && st'.m == st.m && st'.seen == st.seen + before
    && ((st'.fixedField == st.fixedField && st'.fixedSize == st.fixedSize)
        || (st.fixedField.None? && FixedComplete(fields, st')))
  }

  // Field p, an array that must not begin again, is where st' left off.
  ghost predicate BeginsAgain(fields: Fields, st: Progress, st': Progress, p: nat) {
    && p < |fields| && fields[p].htype.FixedCount? && fields[p].arraySize > 0
    && st.fixedField.None? && st'.fixedField == Some(p)
  }

  lemma AtGoesOn(fields: Fields, st: Progress, st': Progress, before: set<nat>, p: nat, wire: nat, b: Bytes)
    requires GoesOn(fields, st, st', before) && p < |fields| && !BeginsAgain(fields, st, st', p)
    ensures var r, r' := DecodeAt(fields, st, p, wire, b), DecodeAt(fields, st', p, wire, b);
            if r.None? then r'.None?
            else r'.Some? && r'.value.rest == r.value.rest && GoesOn(fields, r.value.value, r'.value.value, before)
  {
    hide DecodeArray, DecodeSingle, SlotOf, RequiredBefore, UnionReleases;
  }

  lemma StepGoesOn(fields: Fields, st: Progress, st': Progress, before: set<nat>, tag: nat, wire: nat, b: Bytes)
    requires GoesOn(fields, st, st', before) && DistinctTags(fields)
    requires var p := FieldWithTag(fields, st.pos, tag); p.Some? ==> !BeginsAgain(fields, st, st', p.value)
    ensures var r, r' := DecodeStep(fields, st, tag, wire, b), DecodeStep(fields, st', tag, wire, b);
            if r.None? then r'.None?
            else r'.Some? && r'.value.rest == r.value.rest && GoesOn(fields, r.value.value, r'.value.value, before)
  {
    hide DecodeAt, SkipField, DistinctTags, Decode32, FieldWithTag;
    SameField(fields, st.pos, st'.pos, tag);
    var p := FieldWithTag(fields, st.pos, tag);
    if p.Some? {
      AtGoesOn(fields, st, st', before, p.value, wire, b);
    }
  }

  // Of the arrays without a counter, p is the first that arrives.
  ghost predicate BeginsWith(fields: Fields, st: Progress, b: Bytes, p: nat)
    requires InRange(fields, st)
    decreases |b|
  {
    && b != [] && ReadTag(b).Tag?
    && var t := ReadTag(b);
       var q := FieldWithTag(fields, st.pos, t.tag);
       if q.Some? && fields[q.value].htype.FixedCount? then q.value == p
       else
         var r := DecodeStep(fields, st, t.tag, t.wire, t.rest);
         r.Some? && BeginsWith(fields, r.value.value, r.value.rest, p)
  }

  // Until an array without a counter arrives, none is being received.
  lemma StillNone(fields: Fields, st: Progress, tag: nat, wire: nat, b: Bytes)
    requires InRange(fields, st) && DecodeStep(fields, st, tag, wire, b).Some?
    requires var p := FieldWithTag(fields, st.pos, tag); p.Some? ==> !fields[p.value].htype.FixedCount?
    ensures var st' := DecodeStep(fields, st, tag, wire, b).value.value;
            st'.fixedField == st.fixedField && st'.fixedSize == st.fixedSize
  {
    hide DecodeArray, DecodeSingle, SkipField, SlotOf, RequiredBefore, Decode32, UnionReleases;
  }

  // The first array without a counter is not the one that st' received last, or that one has no entries.
  ghost predicate NoneTwice(fields: Fields, st: Progress, st': Progress, b: Bytes)
    requires InRange(fields, st)
  {
    forall p :: BeginsAgain(fields, st, st', p) ==> !BeginsWith(fields, st, b, p)
  }

  lemma {:induction false} LoopGoesOn(fields: Fields, st: Progress, st': Progress, before: set<nat>, b: Bytes)
    requires GoesOn(fields, st, st', before) && DistinctTags(fields) && NoneTwice(fields, st, st', b)
    ensures var r, r' := DecodeLoop(fields, st, b), DecodeLoop(fields, st', b);
            if r.None? then r'.None? else r'.Some? && GoesOn(fields, r.value, r'.value, before)
    decreases |b|
  {
    hide DecodeStep, Decode32, GoesOn, FieldWithTag, DistinctTags, BeginsAgain;
    InRangeOf(fields, st, st', before);
    if b != [] && ReadTag(b).Tag? {
      var t := ReadTag(b);
      NextNoneTwice(fields, st, st', b);
      StepGoesOn(fields, st, st', before, t.tag, t.wire, t.rest);
      var r, r' := DecodeStep(fields, st, t.tag, t.wire, t.rest), DecodeStep(fields, st', t.tag, t.wire, t.rest);
      if r.Some? {
        StepNoneTwice(fields, st, st', before, b);
        LoopGoesOn(fields, r.value.value, r'.value.value, before, r.value.rest);
      }
    }
  }

  lemma InRangeOf(fields: Fields, st: Progress, st': Progress, before: set<nat>)
    requires GoesOn(fields, st, st', before)
    ensures InRange(fields, st) && InRange(fields, st')
  {
  }

  lemma NextNoneTwice(fields: Fields, st: Progress, st': Progress, b: Bytes)
    requires InRange(fields, st) && NoneTwice(fields, st, st', b) && b != [] && ReadTag(b).Tag?
    ensures var p := FieldWithTag(fields, st.pos, ReadTag(b).tag); p.Some? ==> !BeginsAgain(fields, st, st', p.value)
  {
    hide DecodeStep, Decode32, FieldWithTag;
  }

  lemma StepNoneTwice(fields: Fields, st: Progress, st': Progress, before: set<nat>, b: Bytes)
    requires GoesOn(fields, st, st', before) && NoneTwice(fields, st, st', b) && b != [] && ReadTag(b).Tag?
    requires DistinctTags(fields)
    requires var t := ReadTag(b);
             && DecodeStep(fields, st, t.tag, t.wire, t.rest).Some?
             && DecodeStep(fields, st', t.tag, t.wire, t.rest).Some?
    ensures var t := ReadTag(b);
            var r, r' := DecodeStep(fields, st, t.tag, t.wire, t.rest), DecodeStep(fields, st', t.tag, t.wire, t.rest);
            NoneTwice(fields, r.value.value, r'.value.value, r.value.rest)
  {
    hide DecodeStep, Decode32, FieldWithTag, DistinctTags;
    var t := ReadTag(b);
    SameField(fields, st.pos, st'.pos, t.tag);
    var q := FieldWithTag(fields, st.pos, t.tag);
    if q.Some? && fields[q.value].htype.FixedCount? {
      NowReceived(fields, st, t.tag, t.wire, t.rest);
    } else {
      StillNone(fields, st, t.tag, t.wire, t.rest);
      StillNone(fields, st', t.tag, t.wire, t.rest);
      var r := DecodeStep(fields, st, t.tag, t.wire, t.rest).value;
      var r' := DecodeStep(fields, st', t.tag, t.wire, t.rest).value;
      forall p | BeginsAgain(fields, r.value, r'.value, p)
        ensures !BeginsWith(fields, r.value, r.rest, p)
      {
        assert BeginsAgain(fields, st, st', p);
      }
    }
  }

  lemma NowReceived(fields: Fields, st: Progress, tag: nat, wire: nat, b: Bytes)
    requires InRange(fields, st) && DecodeStep(fields, st, tag, wire, b).Some?
    requires var p := FieldWithTag(fields, st.pos, tag); p.Some? && fields[p.value].htype.FixedCount?
    ensures DecodeStep(fields, st, tag, wire, b).value.value.fixedField.Some?
  {
    hide DecodeArray, SlotOf, RequiredBefore;
  }

  // ----- An array without a counter that begins again

  // st' holds all entries of array p, st none, and st has begun to receive them.
  ghost predicate Full(fields: Fields, st: Progress, st': Progress, p: nat) {
    && InRange(fields, st) && InRange(fields, st')
    && p < |fields| && fields[p].htype.FixedCount? && fields[p].arraySize > 0
    && st'.m == st.m && (st.fixedField == Some(p) ==> st.fixedSize == 0)
    && (st.fixedField.None? || st.fixedField == Some(p))
    && st'.fixedField == Some(p) && st'.fixedSize == fields[p].arraySize
  }

  lemma ArrayFull(f: Field, wire: nat, items: seq<Item>, b: Bytes)
    requires f.arraySize > 0 && DecodeArray(f, wire, Entries(items, f.arraySize), b).Some?
    requires DecodeArray(f, wire, Entries(items, 0), b).Some?
    ensures var r := DecodeArray(f, wire, Entries(items, 0), b).value;
            && r.value == Entries(items, 0)
            && DecodeArray(f, wire, Entries(items, f.arraySize), b).value == Parsed(Entries(items, f.arraySize), r.rest)
  {
    hide DecodeItem, TakeString;
  }

  // While both are accepted, no entry arrives.
  lemma AtFull(fields: Fields, st: Progress, st': Progress, p: nat, q: nat, wire: nat, b: Bytes)
    requires Full(fields, st, st', p) && q < |fields|
    requires DecodeAt(fields, st, q, wire, b).Some? && DecodeAt(fields, st', q, wire, b).Some?
    requires st.fixedField.Some? || q == p || !fields[q].htype.FixedCount?
    ensures var r, r' := DecodeAt(fields, st, q, wire, b).value, DecodeAt(fields, st', q, wire, b).value;
            && r.rest == r'.rest && Full(fields, r.value, r'.value, p)
            && (st.fixedField.Some? || q == p ==> r.value.fixedField.Some?)
  {
    hide DecodeArray, DecodeSingle, SlotOf, RequiredBefore, UnionReleases;
    if q == p {
      ArrayFull(fields[p], wire, SlotAt(st.m, SlotOf(fields, p)).items, b);
    }
  }

  lemma StepFull(fields: Fields, st: Progress, st': Progress, p: nat, tag: nat, wire: nat, b: Bytes)
    requires Full(fields, st, st', p) && DistinctTags(fields)
    requires DecodeStep(fields, st, tag, wire, b).Some? && DecodeStep(fields, st', tag, wire, b).Some?
    requires var q := FieldWithTag(fields, st.pos, tag);
             st.fixedField.Some? || q == Some(p) || q.None? || !fields[q.value].htype.FixedCount?
    ensures var r, r' := DecodeStep(fields, st, tag, wire, b).value, DecodeStep(fields, st', tag, wire, b).value;
            && r.rest == r'.rest && Full(fields, r.value, r'.value, p)
            && (st.fixedField.Some? || FieldWithTag(fields, st.pos, tag) == Some(p) ==> r.value.fixedField.Some?)
  {
    hide DecodeAt, SkipField, DistinctTags, Decode32, FieldWithTag;
    SameField(fields, st.pos, st'.pos, tag);
    var q := FieldWithTag(fields, st.pos, tag);
    if q.Some? {
      AtFull(fields, st, st', p, q.value, wire, b);
    }
  }

  lemma {:induction false} FullFails(fields: Fields, st: Progress, st': Progress, p: nat, b: Bytes)
    requires Full(fields, st, st', p) && DistinctTags(fields)
    requires st.fixedField.Some? || BeginsWith(fields, st, b, p)
    requires DecodeLoop(fields, st, b).Some? && FixedComplete(fields, DecodeLoop(fields, st, b).value)
    ensures DecodeLoop(fields, st', b) == None
    decreases |b|
  {
    hide DecodeStep, Decode32, FieldWithTag, DistinctTags;
    if b != [] && ReadTag(b).Tag? {
      var t := ReadTag(b);
      var r, r' := DecodeStep(fields, st, t.tag, t.wire, t.rest), DecodeStep(fields, st', t.tag, t.wire, t.rest);
      if r'.Some? {
        StepFull(fields, st, st', p, t.tag, t.wire, t.rest);
        FullFails(fields, r.value.value, r'.value.value, p, r.value.rest);
      }
    }
  }

  // ----- Two messages

  function Beginning(m: Message): Progress {
    Progress(m, 0, {}, None, 0)
  }

  // The array without a counter that the first input ends with is the first one of the second input.
  ghost predicate ArrayBeginsAgain(fields: Fields, base: Message, x: Bytes, y: Bytes)
    requires DecodeLoop(fields, Beginning(base), x).Some?
  {
    var st := DecodeLoop(fields, Beginning(base), x).value;
    && st.fixedField.Some? && fields[st.fixedField.value].htype.FixedCount?
    && fields[st.fixedField.value].arraySize > 0
    && BeginsWith(fields, Beginning(st.m), y, st.fixedField.value)
  }

  lemma BothSeen(s: set<nat>, s': set<nat>, n: nat)
    requires AllSeen(s, n) && AllSeen(s', n)
    ensures AllSeen(s + s', n)
  {
  }

  /**
   * Two encodings behind each other, each acceptable by itself, merge like one after the other, unless the second begins
   * with the array without a counter that the first ended with; then they are refused.
   */
  lemma MergesInOneGo(fields: Fields, base: Message, x: Bytes, y: Bytes)
    requires DistinctTags(fields) && ReadsAll(fields, Beginning(base), x)
    requires DecodeMessage(fields, base, x).Some? && DecodeMessage(fields, DecodeMessage(fields, base, x).value, y).Some?
    ensures DecodeMessage(fields, base, x + y)
         == if ArrayBeginsAgain(fields, base, x, y) then None
            else DecodeMessage(fields, DecodeMessage(fields, base, x).value, y)
  {
    hide DecodeLoop, ReadsAll, BeginsWith, AllSeen, RequiredBefore, DistinctTags;
    DecodesOn(fields, Beginning(base), x, y);
    var st' := DecodeLoop(fields, Beginning(base), x).value;
    var st := Beginning(st'.m);
    if ArrayBeginsAgain(fields, base, x, y) {
      FullFails(fields, st, st', st'.fixedField.value, y);
    } else {
      assert GoesOn(fields, st, st', st'.seen);
      LoopGoesOn(fields, st, st', st'.seen, y);
      BothSeen(DecodeLoop(fields, st, y).value.seen, st'.seen, Tracked(RequiredBefore(fields, |fields|)));
    }
  }

  lemma LoopAt(fields: Fields, st: Progress, k: nat, wire: nat, b: Bytes)
    requires InRange(fields, st) && DistinctTags(fields) && k < |fields| && Encodable(fields[k]) && wire < 8
    ensures DecodeLoop(fields, st, TagBytes(fields[k], wire) + b)
         == var r := DecodeAt(fields, st, k, wire, b);
            if r.None? then None else DecodeLoop(fields, r.value.value, r.value.rest)
  {
    hide DecodeLoop, DecodeAt, TagBytes, DistinctTags;
    FindIsUnique(fields, st.pos, k);
    assert HasTag(fields, fields[k].tag);
    KnownTag(fields, st, fields[k], wire, b);
  }

  // An array of one flag, without a counter.
  const FLAG := Field(1, Bool, FixedCount, 1, 1, None, false)

  lemma FlagArrives(st: Progress, value: int, size: nat, rest: Bytes)
    requires st.m == [Slot(0, [Int(value)])] && st.pos == 0 && st.seen == {}
    requires if st.fixedField.None? then size == 0 else st.fixedField == Some(0) && st.fixedSize == size
    ensures DecodeLoop([FLAG], st, [8, 1] + rest)
         == if size > 0 then None
            else DecodeLoop([FLAG], Progress([Slot(0, [Int(1)])], 0, {}, Some(0), 1), rest)
  {
    hide DecodeLoop, DecodeAt;
    var fields := [FLAG];
    assert fields[0] == FLAG && SlotOf(fields, 0) == 0 && TagBytes(FLAG, 0) == [8];
    assert [8, 1] + rest == [8] + ([1] + rest);
    assert ([1] + rest)[1..] == rest;
    assert Decode32([1] + rest) == Some(Parsed(1, rest));
    assert DecodeItem(FLAG, Int(value), [1] + rest) == Some(Parsed(Int(1), rest));
    LoopAt(fields, st, 0, 0, [1] + rest);
    FlagTaken(st, value, size, rest);
  }

  lemma FlagTaken(st: Progress, value: int, size: nat, rest: Bytes)
    requires st.m == [Slot(0, [Int(value)])] && st.pos == 0 && st.seen == {}
    requires if st.fixedField.None? then size == 0 else st.fixedField == Some(0) && st.fixedSize == size
    requires DecodeItem(FLAG, Int(value), [1] + rest) == Some(Parsed(Int(1), rest))
    ensures DecodeAt([FLAG], st, 0, 0, [1] + rest)
         == if size > 0 then None else Some(Parsed(Progress([Slot(0, [Int(1)])], 0, {}, Some(0), 1), rest))
  {
    hide DecodeItem;
    var fields := [FLAG];
    assert fields[0] == FLAG && SlotOf(fields, 0) == 0 && SlotAt(st.m, 0) == st.m[0];
    assert WithItem([Int(value)], 0, Int(1)) == [Int(1)];
    assert st.m[0 := Slot(0, [Int(1)])] == [Slot(0, [Int(1)])];
  }

  lemma EmptyEnds(fields: Fields)
    ensures forall st: Progress :: InRange(fields, st) ==> DecodeLoop(fields, st, []) == Some(st)
  {
  }

  /** The exception occurs: an array without a counter is accepted twice one after the other, but not in one go. */
  lemma ArrayCannotBeginAgain(value: int)
    ensures var base := [Slot(0, [Int(value)])];
            var r := DecodeMessage([FLAG], base, [8, 1]);
            && r == Some([Slot(0, [Int(1)])]) && DecodeMessage([FLAG], r.value, [8, 1]) == r
            && DecodeMessage([FLAG], base, [8, 1] + [8, 1]) == None
  {
    hide DecodeLoop;
    var end := Progress([Slot(0, [Int(1)])], 0, {}, Some(0), 1);
    assert RequiredBefore([FLAG], 1) == RequiredBefore([FLAG], 0);
    EmptyEnds([FLAG]);
    assert [8, 1] + [] == [8, 1];
    FlagArrives(Beginning([Slot(0, [Int(value)])]), value, 0, []);
    FlagArrives(Beginning([Slot(0, [Int(1)])]), 1, 0, []);
    FlagArrives(Beginning([Slot(0, [Int(value)])]), value, 0, [8, 1]);
    FlagArrives(end, 1, 1, []);
  }

  // ----- What arrives is what changes

  lemma AtKeeps(fields: Fields, st: Progress, p: nat, wire: nat, b: Bytes, s: nat)
    requires InRange(fields, st) && p < |fields| && DecodeAt(fields, st, p, wire, b).Some? && SlotOf(fields, p) != s
    ensures SlotAt(DecodeAt(fields, st, p, wire, b).value.value.m, s) == SlotAt(st.m, s)
  {
    hide DecodeArray, DecodeSingle, SlotOf, RequiredBefore, UnionReleases;
  }

  /** Decoding changes a place in the struct only when a field that lives there arrives. */
  lemma {:induction false} OnlyArrivalsChange(fields: Fields, st: Progress, b: Bytes, s: nat)
    requires InRange(fields, st) && DecodeLoop(fields, st, b).Some?
    requires forall k :: 0 <= k < |fields| && SlotOf(fields, k) == s ==> !Arrives(fields, st, b, k)
    ensures SlotAt(DecodeLoop(fields, st, b).value.m, s) == SlotAt(st.m, s)
    decreases |b|
  {
    hide DecodeAt, Decode32, FieldWithTag, SkipField, SlotOf, SlotAt;
    if b != [] && ReadTag(b).Tag? {
      var t := ReadTag(b);
      var p := FieldWithTag(fields, st.pos, t.tag);
      var r := DecodeStep(fields, st, t.tag, t.wire, t.rest);
      if p.Some? {
        assert Arrives(fields, st, b, p.value);
        AtKeeps(fields, st, p.value, t.wire, t.rest, s);
      }
      forall k | 0 <= k < |fields| && SlotOf(fields, k) == s
        ensures !Arrives(fields, r.value.value, r.value.rest, k)
      {
        assert !Arrives(fields, st, b, k);
      }
      OnlyArrivalsChange(fields, r.value.value, r.value.rest, s);
    }
  }

  // Field j does not arrive in the input.
  ghost predicate Without(fields: Fields, b: Bytes, j: nat) {
    forall st :: InRange(fields, st) ==> !Arrives(fields, st, b, j)
  }

  lemma BodyWithout(fields: Fields, k: nat, wire: nat, e: Bytes, x: Bytes, j: nat)
    requires DistinctTags(fields) && k < |fields| && Encodable(fields[k]) && j != k
    requires Body(fields[k], wire, e) && Without(fields, x, j)
    ensures Without(fields, TagBytes(fields[k], wire) + e + x, j)
  {
    hide DecodeAt, Body, TagBytes, ReadTag, FieldWithTag, DistinctTags;
    var f := fields[k];
    BodyWire(f, wire, e);
    assert TagBytes(f, wire) + e + x == TagBytes(f, wire) + (e + x) && e + [] == e;
    TagIsRead(f, wire, e + x);
    forall st | InRange(fields, st)
      ensures !Arrives(fields, st, TagBytes(f, wire) + e + x, j)
    {
      FindIsUnique(fields, st.pos, k);
      AtCarries(fields, st, k, f, wire, e, x, x);
    }
  }

  lemma OneWithout(fields: Fields, k: nat, item: Item, x: Bytes, j: nat)
    requires DistinctTags(fields) && k < |fields| && Encodable(fields[k]) && j != k
    requires Short(EncodeOne(fields[k], item)) && !(IsArray(fields[k].htype) && Packable(fields[k].ltype))
    requires Without(fields, x, j)
    ensures Without(fields, EncodeOne(fields[k], item).value + x, j)
  {
    hide EncodeItem, Without, DistinctTags;
    var e := EncodeItem(fields[k], item).value;
    assert EncodeItem(fields[k], item) == Some(e) && Body(fields[k], WireType(fields[k].ltype), e);
    BodyWithout(fields, k, WireType(fields[k].ltype), e, x, j);
  }

  lemma {:induction false} TaggedWithout(fields: Fields, k: nat, items: seq<Item>, i: nat, count: nat, x: Bytes, j: nat)
    requires DistinctTags(fields) && k < |fields| && Encodable(fields[k]) && j != k
    requires Short(EncodeTagged(fields[k], items, i, count)) && !(IsArray(fields[k].htype) && Packable(fields[k].ltype))
    requires Without(fields, x, j)
    ensures Without(fields, EncodeTagged(fields[k], items, i, count).value + x, j)
    decreases count - i
  {
    hide EncodeOne, Without, DistinctTags;
    if i >= count {
      assert [] + x == x;
    } else {
      var one, others := EncodeOne(fields[k], ItemAt(items, i)), EncodeTagged(fields[k], items, i + 1, count);
      TaggedWithout(fields, k, items, i + 1, count, x, j);
      OneWithout(fields, k, ItemAt(items, i), others.value + x, j);
      assert one.value + others.value + x == one.value + (others.value + x);
    }
  }

  // The encoder sends something for the field.
  ghost predicate Sent(f: Field, slot: Slot) {
    Present(f, slot) && (IsArray(f.htype) ==> CountOf(f, slot) > 0)
  }

  lemma PackedWithout(fields: Fields, k: nat, items: seq<Item>, count: nat, x: Bytes, j: nat)
    requires DistinctTags(fields) && k < |fields| && Encodable(fields[k]) && j != k
    requires Short(EncodePacked(fields[k], items, count)) && IsArray(fields[k].htype) && Packable(fields[k].ltype)
    requires Without(fields, x, j)
    ensures Without(fields, EncodePacked(fields[k], items, count).value + x, j)
  {
    hide EncodeItems, Without, DistinctTags;
    var s := EncodeItems(fields[k], items, 0, count).value;
    assert Body(fields[k], 2, LengthPrefixed(s));
    BodyWithout(fields, k, 2, LengthPrefixed(s), x, j);
  }

  lemma FieldWithout(fields: Fields, k: nat, slot: Slot, x: Bytes, j: nat)
    requires DistinctTags(fields) && k < |fields| && Encodable(fields[k]) && Short(EncodeField(fields[k], slot))
    requires j == k ==> !Sent(fields[k], slot)
    requires Without(fields, x, j)
    ensures Without(fields, EncodeField(fields[k], slot).value + x, j)
  {
    hide EncodeOne, EncodeTagged, EncodePacked, Present, Without, DistinctTags;
    var f := fields[k];
    if !Sent(f, slot) {
      NothingSent(f, slot);
      assert [] + x == x;
    } else if !IsArray(f.htype) {
      OneWithout(fields, k, ItemAt(slot.items, 0), x, j);
    } else if Packable(f.ltype) {
      PackedWithout(fields, k, slot.items, CountOf(f, slot), x, j);
    } else {
      TaggedWithout(fields, k, slot.items, 0, CountOf(f, slot), x, j);
    }
  }

  lemma {:induction false} EncodingWithout(fields: Fields, m: Message, k: nat, j: nat)
    requires DistinctTags(fields) && (forall i :: 0 <= i < |fields| ==> Encodable(fields[i]))
    requires k <= |fields| && j < |fields| && Short(EncodeFrom(fields, m, k))
    requires !Sent(fields[j], SlotAt(m, SlotOf(fields, j)))
    ensures Without(fields, EncodeFrom(fields, m, k).value, j)
    decreases |fields| - k
  {
    hide EncodeField, Sent, DistinctTags, Arrives, SlotOf;
    if k < |fields| {
      FromSplits(fields, m, k);
      EncodingWithout(fields, m, k + 1, j);
      FieldWithout(fields, k, SlotAt(m, SlotOf(fields, k)), EncodeFrom(fields, m, k + 1).value, j);
    } else {
      EmptyWithout(fields, j);
    }
  }

  lemma EmptyWithout(fields: Fields, j: nat)
    ensures Without(fields, [], j)
  {
  }

  /** Merging a message into another one updates only what the new message sends. */
  lemma NotSentIsKept(fields: Fields, m: Message, base: Message, s: nat)
    requires DistinctTags(fields) && (forall i :: 0 <= i < |fields| ==> Encodable(fields[i]))
    requires Short(Encoded(fields, m))
    requires DecodeMessage(fields, base, Encoded(fields, m).value).Some?
    requires forall k :: 0 <= k < |fields| && SlotOf(fields, k) == s ==> !Sent(fields[k], SlotAt(m, s))
    ensures SlotAt(DecodeMessage(fields, base, Encoded(fields, m).value).value, s) == SlotAt(base, s)
  {
    hide DecodeLoop, EncodeFrom, Sent, DistinctTags, SlotOf, Arrives, AllSeen, SlotAt;
    forall k | 0 <= k < |fields| && SlotOf(fields, k) == s
      ensures !Arrives(fields, Beginning(base), Encoded(fields, m).value, k)
    {
      EncodingWithout(fields, m, 0, k);
      assert InRange(fields, Beginning(base));
    }
    OnlyArrivalsChange(fields, Beginning(base), Encoded(fields, m).value, s);
  }

  // ----- The last value wins

  lemma Releases(fields: Fields, p: nat, q: nat, old_: nat)
    requires DistinctTags(fields) && p < |fields| && q < |fields| && UnionReleases(fields, p, old_)
    ensures UnionReleases(fields, q, old_) && UnionReleases(fields, q, fields[p].tag)
  {
    SameField(fields, p, q, old_);
    FindIsUnique(fields, p, p);
    FindIsUnique(fields, q, p);
  }

  // What field q holds afterwards does not depend on a value that arrived in the same place before.
  lemma SingleOverwrites(f: Field, g: Field, slot: Slot, e: Bytes, b: Bytes)
    requires !IsArray(f.htype) && !IsArray(g.htype)
    requires !g.ltype.Text? && (g.ltype.Submessage? ==> g.htype.Oneof?)
    requires f == g || (f.htype.Oneof? && g.htype.Oneof?)
    requires DecodeSingle(f, slot, e).Some?
    ensures DecodeSingle(g, DecodeSingle(f, slot, e).value.value, b) == DecodeSingle(g, slot, b)
  {
    hide DecodeNumber, DecodeBytes, DecodeText, DecodeFixedLength, DecodeMessage, TakeString, Defaults, ZeroMessage;
    var slot' := DecodeSingle(f, slot, e).value.value;
    var old_, old_' := ItemAt(slot.items, 0), ItemAt(slot'.items, 0);
    ItemStartsOver(g, old_, old_', b);
    var r := DecodeItem(g, if g.htype.Oneof? then UnionItem(g, old_) else old_, b);
    if r.Some? {
      assert WithItem(slot'.items, 0, r.value.value) == WithItem(slot.items, 0, r.value.value);
    }
  }

  lemma ItemStartsOver(g: Field, old_: Item, old_': Item, b: Bytes)
    requires !IsArray(g.htype) && !g.ltype.Text? && (g.ltype.Submessage? ==> g.htype.Oneof?)
    ensures DecodeItem(g, if g.htype.Oneof? then UnionItem(g, old_) else old_, b)
         == DecodeItem(g, if g.htype.Oneof? then UnionItem(g, old_') else old_', b)
  {
    hide DecodeNumber, DecodeBytes, DecodeText, DecodeFixedLength, DecodeMessage, TakeString, Defaults, ZeroMessage;
  }

  lemma AtOverwrites(fields: Fields, st: Progress, p: nat, q: nat, wire: nat, e: Bytes, wire': nat, b: Bytes)
    requires InRange(fields, st) && DistinctTags(fields) && p < |fields| && q < |fields|
    requires SlotOf(fields, p) == SlotOf(fields, q) && !IsArray(fields[p].htype) && !IsArray(fields[q].htype)
    requires !fields[q].ltype.Text? && (fields[q].ltype.Submessage? ==> fields[q].htype.Oneof?)
    requires SlotOf(fields, p) < |st.m| && DecodeAt(fields, st, p, wire, e).Some?
    ensures DecodeAt(fields, DecodeAt(fields, st, p, wire, e).value.value, q, wire', b)
         == DecodeAt(fields, st, q, wire', b)
  {
    hide DecodeSingle, SlotOf, RequiredBefore, UnionReleases, DistinctTags;
    var s := SlotOf(fields, p);
    var slot, st' := st.m[s], DecodeAt(fields, st, p, wire, e).value.value;
    if p != q {
      OnlyUnionsShare(fields, p, q);
    }
    if fields[p].htype.Oneof? {
      Releases(fields, p, q, slot.count);
      CountIsTag(fields[p], slot, e);
    }
    SingleOverwrites(fields[p], fields[q], slot, e, b);
    assert SeenWith(fields, q, st'.seen) == SeenWith(fields, q, st.seen);
    var r := DecodeSingle(fields[q], slot, b);
    if r.Some? {
      assert WithSlot(st'.m, s, r.value.value) == WithSlot(st.m, s, r.value.value);
    }
  }

  lemma CountIsTag(f: Field, slot: Slot, b: Bytes)
    requires f.htype.Oneof? && DecodeSingle(f, slot, b).Some?
    ensures DecodeSingle(f, slot, b).value.value.count == f.tag
  {
    hide DecodeItem;
  }

  /**
   * Of two values of a field, or of two members of a union, the last one wins as if the first had never been sent. (Of
   * a string, the buffer behind the terminator is not cleared; submessages outside of unions are merged.)
   */
  lemma LastValueWins(fields: Fields, st: Progress, p: nat, q: nat, a: Item, b: Item, rest: Bytes)
    requires InRange(fields, st) && DistinctTags(fields) && p < |fields| && q < |fields|
    requires Encodable(fields[p]) && Encodable(fields[q])
    requires SlotOf(fields, p) == SlotOf(fields, q) && !IsArray(fields[p].htype) && !IsArray(fields[q].htype)
    requires !fields[q].ltype.Text? && (fields[q].ltype.Submessage? ==> fields[q].htype.Oneof?)
    requires Short(EncodeOne(fields[p], a)) && Short(EncodeOne(fields[q], b))
    requires SlotOf(fields, p) < |st.m| && DecodeLoop(fields, st, EncodeOne(fields[p], a).value).Some?
    ensures DecodeLoop(fields, st, EncodeOne(fields[p], a).value + EncodeOne(fields[q], b).value + rest)
         == DecodeLoop(fields, st, EncodeOne(fields[q], b).value + rest)
  {
    hide DecodeLoop, DecodeAt, EncodeItem, TagBytes, DistinctTags, SlotOf;
    var f, g := fields[p], fields[q];
    var e, e' := EncodeItem(f, a).value, EncodeItem(g, b).value;
    var w, w' := WireType(f.ltype), WireType(g.ltype);
    var x := TagBytes(g, w') + (e' + rest);
    assert EncodeOne(f, a).value + EncodeOne(g, b).value + rest == TagBytes(f, w) + (e + x);
    assert EncodeOne(g, b).value + rest == x;
    assert EncodeItem(f, a) == Some(e) && Body(f, w, e);
    LoopAt(fields, st, p, w, e);
    LoopAt(fields, st, p, w, e + x);
    assert e + [] == e;
    AtCarries(fields, st, p, f, w, e, [], x);
    var st' := DecodeAt(fields, st, p, w, e).value.value;
    LoopAt(fields, st', q, w', e' + rest);
    LoopAt(fields, st, q, w', e' + rest);
    AtOverwrites(fields, st, p, q, w, e, w', e' + rest);
  }

  // ----- Submessages

  // A field that holds a submessage in place.
  ghost predicate HoldsMessage(fields: Fields, m: Message, p: nat) {
    && p < |fields| && fields[p].ltype.Submessage? && !IsArray(fields[p].htype) && !fields[p].htype.Oneof?
    && SlotOf(fields, p) < |m| && m[SlotOf(fields, p)].items != []
  }

  function MessageAt(fields: Fields, m: Message, p: nat): Message
    requires HoldsMessage(fields, m, p)
  {
    SlotsOf(m[SlotOf(fields, p)].items[0])
  }

  // The submessage field p, received as `sub`.
  function Receive(fields: Fields, st: Progress, p: nat, sub: Message): Progress
    requires HoldsMessage(fields, st.m, p)
  {
    var s := SlotOf(fields, p);
    var slot := Slot(if fields[p].htype.Optional? then 1 else st.m[s].count, st.m[s].items[0 := Struct(sub)]);
    st.(m := st.m[s := slot], pos := p, seen := SeenWith(fields, p, st.seen))
  }

  lemma SingleSubmessage(f: Field, slot: Slot, x: Bytes, rest: Bytes)
    requires f.ltype.Submessage? && !IsArray(f.htype) && !f.htype.Oneof? && |x| < TWO32
    ensures DecodeSingle(f, slot, LengthPrefixed(x) + rest)
         == (var sub := DecodeMessage(f.ltype.fields, SlotsOf(ItemAt(slot.items, 0)), x);
             if sub.None? then None
             else
               var count := if f.htype.Optional? then 1 else slot.count;
               Some(Parsed(Slot(count, WithItem(slot.items, 0, Struct(sub.value))), rest)))
  {
    hide DecodeMessage, TakeString, LengthPrefixed;
    TakeStringRoundTrip(x, rest);
    var sub := DecodeMessage(f.ltype.fields, SlotsOf(ItemAt(slot.items, 0)), x);
    assert DecodeItem(f, ItemAt(slot.items, 0), LengthPrefixed(x) + rest)
        == if sub.None? then None else Some(Parsed(Struct(sub.value), rest));
  }

  lemma AtSubmessage(fields: Fields, st: Progress, p: nat, x: Bytes, rest: Bytes)
    requires InRange(fields, st) && HoldsMessage(fields, st.m, p) && |x| < TWO32
    ensures DecodeAt(fields, st, p, 2, LengthPrefixed(x) + rest)
         == (var sub := DecodeMessage(fields[p].ltype.fields, MessageAt(fields, st.m, p), x);
             if sub.None? then None else Some(Parsed(Receive(fields, st, p, sub.value), rest)))
  {
    hide DecodeMessage, DecodeSingle, SlotOf, SeenWith, LengthPrefixed;
    SingleSubmessage(fields[p], st.m[SlotOf(fields, p)], x, rest);
  }

  lemma ReceivedTwice(fields: Fields, st: Progress, p: nat, sub: Message, sub': Message)
    requires HoldsMessage(fields, st.m, p)
    ensures var st' := Receive(fields, st, p, sub);
            && HoldsMessage(fields, st'.m, p) && MessageAt(fields, st'.m, p) == sub
            && Receive(fields, st', p, sub') == Receive(fields, st, p, sub')
  {
    hide SlotOf, RequiredBefore;
    var s, st' := SlotOf(fields, p), Receive(fields, st, p, sub);
    var one, both := Receive(fields, st, p, sub'), Receive(fields, st', p, sub');
    assert one.m[s].items == both.m[s].items;
    assert one.m == both.m && one.seen == both.seen;
  }

  /** A submessage that arrives in two parts is merged as if both parts had come in one. */
  lemma SubmessagesMerge(fields: Fields, st: Progress, p: nat, x: Bytes, y: Bytes, rest: Bytes)
    requires InRange(fields, st) && DistinctTags(fields) && HoldsMessage(fields, st.m, p) && Encodable(fields[p])
    requires var sub, base := fields[p].ltype.fields, MessageAt(fields, st.m, p);
             && DistinctTags(sub) && ReadsAll(sub, Beginning(base), x) && |x| + |y| < TWO32
             && DecodeMessage(sub, base, x).Some? && DecodeMessage(sub, DecodeMessage(sub, base, x).value, y).Some?
             && !ArrayBeginsAgain(sub, base, x, y)
    ensures var t := TagBytes(fields[p], 2);
            && DecodeLoop(fields, st, t + LengthPrefixed(x) + (t + LengthPrefixed(y) + rest))
            == DecodeLoop(fields, st, t + LengthPrefixed(x + y) + rest)
  {
    hide DecodeLoop, DecodeAt, DecodeMessage, LengthPrefixed, TagBytes, DistinctTags, ReadsAll, ArrayBeginsAgain,
         MessageAt, Receive, SlotOf;
    var t, sub, base := TagBytes(fields[p], 2), fields[p].ltype.fields, MessageAt(fields, st.m, p);
    var more := t + LengthPrefixed(y) + rest;
    assert t + LengthPrefixed(x) + more == t + (LengthPrefixed(x) + more);
    assert more == t + (LengthPrefixed(y) + rest);
    assert t + LengthPrefixed(x + y) + rest == t + (LengthPrefixed(x + y) + rest);
    MergesInOneGo(sub, base, x, y);
    var m := DecodeMessage(sub, base, x).value;
    var m' := DecodeMessage(sub, m, y).value;
    var st' := Receive(fields, st, p, m);
    ReceivedTwice(fields, st, p, m, m');
    LoopAt(fields, st, p, 2, LengthPrefixed(x) + more);
    AtSubmessage(fields, st, p, x, more);
    LoopAt(fields, st', p, 2, LengthPrefixed(y) + rest);
    AtSubmessage(fields, st', p, y, rest);
    LoopAt(fields, st, p, 2, LengthPrefixed(x + y) + rest);
    AtSubmessage(fields, st, p, x + y, rest);
  }

  // ----- Arrays of numbers, packed or not

  lemma {:induction false} PackedOn(f: Field, a: Entries, x: Bytes, y: Bytes)
    requires DecodePacked(f, a, x).Some?
    ensures DecodePacked(f, a, x + y) == DecodePacked(f, DecodePacked(f, a, x).value, y)
    decreases |x|
  {
    hide DecodeItem;
    if x == [] {
      assert x + y == y;
    } else {
      ItemExtends(f, ItemAt(a.items, a.size), x, y);
      var r := DecodeItem(f, ItemAt(a.items, a.size), x);
      PackedOn(f, Entries(WithItem(a.items, a.size, r.value.value), a.size + 1), r.value.rest, y);
    }
  }

  lemma ArrayInChunks(f: Field, a: Entries, x: Bytes, y: Bytes, rest: Bytes, rest': Bytes)
    requires Packable(f.ltype) && |x| + |y| < TWO32 && DecodeArray(f, 2, a, LengthPrefixed(x) + rest).Some?
    ensures var r := DecodeArray(f, 2, a, LengthPrefixed(x) + rest).value;
            && r.rest == rest
            && DecodeArray(f, 2, r.value, LengthPrefixed(y) + rest')
            == DecodeArray(f, 2, a, LengthPrefixed(x + y) + rest')
  {
    hide TakeString, DecodePacked, LengthPrefixed;
    TakeStringRoundTrip(x, rest);
    TakeStringRoundTrip(y, rest');
    TakeStringRoundTrip(x + y, rest');
    PackedOn(f, a, x, y);
  }

  // A field that holds an array of numbers.
  ghost predicate HoldsNumbers(fields: Fields, m: Message, p: nat) {
    && p < |fields| && IsArray(fields[p].htype) && Packable(fields[p].ltype) && Encodable(fields[p])
    && SlotOf(fields, p) < |m|
  }

  lemma AtInChunks(fields: Fields, st: Progress, p: nat, x: Bytes, y: Bytes, rest: Bytes, rest': Bytes)
    requires InRange(fields, st) && HoldsNumbers(fields, st.m, p) && |x| + |y| < TWO32
    requires DecodeAt(fields, st, p, 2, LengthPrefixed(x) + rest).Some?
    ensures var r := DecodeAt(fields, st, p, 2, LengthPrefixed(x) + rest).value;
            && r.rest == rest && HoldsNumbers(fields, r.value.m, p)
            && DecodeAt(fields, r.value, p, 2, LengthPrefixed(y) + rest')
            == DecodeAt(fields, st, p, 2, LengthPrefixed(x + y) + rest')
  {
    hide DecodeArray, SlotOf, RequiredBefore, LengthPrefixed;
    var f, s := fields[p], SlotOf(fields, p);
    var received := if st.fixedField == Some(p) then st.fixedSize else 0;
    var a := Entries(st.m[s].items, if f.htype.FixedCount? then received else st.m[s].count);
    ArrayInChunks(f, a, x, y, rest, rest');
    var st' := DecodeAt(fields, st, p, 2, LengthPrefixed(x) + rest).value.value;
    var all := DecodeArray(f, 2, a, LengthPrefixed(x + y) + rest');
    if all.Some? {
      var slot := Slot(if f.htype.FixedCount? then st.m[s].count else all.value.value.size, all.value.value.items);
      assert st'.m[s := slot] == st.m[s := slot];
    }
  }

  /** The entries of an array may come packed in two parts. */
  lemma ChunksMerge(fields: Fields, st: Progress, p: nat, x: Bytes, y: Bytes, rest: Bytes)
    requires InRange(fields, st) && DistinctTags(fields) && HoldsNumbers(fields, st.m, p) && |x| + |y| < TWO32
    requires DecodeLoop(fields, st, TagBytes(fields[p], 2) + LengthPrefixed(x)).Some?
    ensures var t := TagBytes(fields[p], 2);
            && DecodeLoop(fields, st, t + LengthPrefixed(x) + (t + LengthPrefixed(y) + rest))
            == DecodeLoop(fields, st, t + LengthPrefixed(x + y) + rest)
  {
    hide DecodeLoop, DecodeAt, LengthPrefixed, TagBytes, DistinctTags, SlotOf;
    var t := TagBytes(fields[p], 2);
    var more := t + LengthPrefixed(y) + rest;
    assert t + LengthPrefixed(x) + more == t + (LengthPrefixed(x) + more);
    assert more == t + (LengthPrefixed(y) + rest);
    assert t + LengthPrefixed(x + y) + rest == t + (LengthPrefixed(x + y) + rest);
    LoopAt(fields, st, p, 2, LengthPrefixed(x));
    AtExtends(fields, st, p, 2, LengthPrefixed(x), more);
    LoopAt(fields, st, p, 2, LengthPrefixed(x) + more);
    AtInChunks(fields, st, p, x, y, more, rest);
    var st' := DecodeAt(fields, st, p, 2, LengthPrefixed(x) + more).value.value;
    LoopAt(fields, st', p, 2, LengthPrefixed(y) + rest);
    LoopAt(fields, st, p, 2, LengthPrefixed(x + y) + rest);
  }

  // One entry behind its own tag, and one entry packed.
  lemma ArrayOfOne(f: Field, a: Entries, item: Item, rest: Bytes, more: Bytes, rest': Bytes)
    requires Packable(f.ltype) && EncodeItem(f, item).Some? && |EncodeItem(f, item).value| + |more| < TWO32
    ensures var e := EncodeItem(f, item).value;
            var r := DecodeArray(f, WireType(f.ltype), a, e + rest);
            && r == DecodeArray(f, 2, a, LengthPrefixed(e) + rest)
            && (r.None? ==> DecodeArray(f, 2, a, LengthPrefixed(e + more) + rest') == None)
  {
    hide DecodeItem, EncodeItem, TakeString, LengthPrefixed;
    var e := EncodeItem(f, item).value;
    NumberTakesBytes(f, item);
    ItemOfOne(f, ItemAt(a.items, a.size), item, rest, more);
    assert e + [] == e;
    TakeStringRoundTrip(e, rest);
    TakeStringRoundTrip(e + more, rest');
    var r := DecodeItem(f, ItemAt(a.items, a.size), e);
    if r.Some? {
      assert DecodePacked(f, Entries(WithItem(a.items, a.size, r.value.value), a.size + 1), []).Some?;
    }
  }

  lemma ItemOfOne(f: Field, old_: Item, item: Item, rest: Bytes, more: Bytes)
    requires Packable(f.ltype) && EncodeItem(f, item).Some?
    ensures var e := EncodeItem(f, item).value;
            && Carries(DecodeItem(f, old_, e), DecodeItem(f, old_, e + rest), [], rest)
            && Carries(DecodeItem(f, old_, e), DecodeItem(f, old_, e + more), [], more)
  {
    hide EncodeItem, DecodeNumber;
    var e := EncodeItem(f, item).value;
    assert e + [] == e;
    NumberCarries(f, f, item, [], rest);
    NumberCarries(f, f, item, [], more);
  }

  lemma AtOne(fields: Fields, st: Progress, p: nat, item: Item, rest: Bytes, more: Bytes, rest': Bytes)
    requires InRange(fields, st) && HoldsNumbers(fields, st.m, p) && EncodeItem(fields[p], item).Some?
    requires |EncodeItem(fields[p], item).value| + |more| < TWO32
    ensures var e := EncodeItem(fields[p], item).value;
            var r := DecodeAt(fields, st, p, WireType(fields[p].ltype), e + rest);
            && r == DecodeAt(fields, st, p, 2, LengthPrefixed(e) + rest)
            && (r.None? ==> DecodeAt(fields, st, p, 2, LengthPrefixed(e + more) + rest') == None)
  {
    hide DecodeArray, EncodeItem, SlotOf, RequiredBefore, LengthPrefixed, WireType;
    var f, s := fields[p], SlotOf(fields, p);
    var received := if st.fixedField == Some(p) then st.fixedSize else 0;
    var a := Entries(st.m[s].items, if f.htype.FixedCount? then received else st.m[s].count);
    ArrayOfOne(f, a, item, rest, more, rest');
  }

  lemma {:induction false} ItemsThenTagged(f: Field, items: seq<Item>, i: nat, count: nat)
    requires EncodeItems(f, items, i, count).Some?
    ensures EncodeTagged(f, items, i, count).Some?
    decreases count - i
  {
    hide EncodeItem;
    if i < count {
      ItemsThenTagged(f, items, i + 1, count);
    }
  }

  /** The entries of an array are taken in the same whether they come packed or one by one behind their tags. */
  lemma {:induction false} PackedOrNot(fields: Fields, st: Progress, p: nat, items: seq<Item>, i: nat, count: nat,
                                       rest: Bytes)
    requires InRange(fields, st) && DistinctTags(fields) && HoldsNumbers(fields, st.m, p) && i < count
    requires Short(EncodeItems(fields[p], items, i, count))
    ensures EncodeTagged(fields[p], items, i, count).Some?
    ensures DecodeLoop(fields, st, EncodeTagged(fields[p], items, i, count).value + rest)
         == var body := EncodeItems(fields[p], items, i, count).value;
            DecodeLoop(fields, st, TagBytes(fields[p], 2) + LengthPrefixed(body) + rest)
    decreases count - i
  {
    hide DecodeLoop, DecodeAt, EncodeItem, LengthPrefixed, TagBytes, DistinctTags, HoldsNumbers, WireType;
    OneWire(fields, st.m, p);
    ItemsThenTagged(fields[p], items, i, count);
    var f, item := fields[p], ItemAt(items, i);
    var w, t, e := WireType(f.ltype), TagBytes(f, 2), EncodeItem(f, item).value;
    var others, more := EncodeTagged(f, items, i + 1, count).value, EncodeItems(f, items, i + 1, count).value;
    assert TagBytes(f, w) + e + others + rest == TagBytes(f, w) + (e + (others + rest));
    assert t + LengthPrefixed(e + more) + rest == t + (LengthPrefixed(e + more) + rest);
    AtOne(fields, st, p, item, others + rest, more, rest);
    LoopAt(fields, st, p, w, e + (others + rest));
    LoopAt(fields, st, p, 2, LengthPrefixed(e + more) + rest);
    var r := DecodeAt(fields, st, p, 2, LengthPrefixed(e) + (others + rest));
    if r.Some? {
      AtInChunks(fields, st, p, e, more, others + rest, rest);
      if i + 1 == count {
        assert others + rest == rest && e + more == e;
      } else {
        PackedOrNot(fields, r.value.value, p, items, i + 1, count, rest);
        assert t + LengthPrefixed(more) + rest == t + (LengthPrefixed(more) + rest);
        LoopAt(fields, r.value.value, p, 2, LengthPrefixed(more) + rest);
      }
    }
  }

  lemma OneWire(fields: Fields, m: Message, p: nat)
    requires HoldsNumbers(fields, m, p)
    ensures p < |fields| && Encodable(fields[p]) && WireType(fields[p].ltype) < 8
  {
    hide SlotOf;
  }
}
