/**
 * What the decoder refuses (nanopb's pb_decode.c): numbers that do not fit their field, arrays with
 * too many entries, and messages without their required fields.
 */
module PbRefusals {
  import opened Wrappers
  import opened DbFormat
  import opened Coding
  import opened PbFormat
  import opened PbEncode
  import opened PbDecode
  import opened PbRoundTrip

  // ----- Numbers from a sender with a wider field

  lemma SignedInRange(v: nat, width: nat)
    requires IntSize(width)
    ensures InSigned(Signed(v, width), width)
  {
    hide Pow;
    Powers();
  }

  /** An unsigned field takes exactly the numbers that fit. */
  lemma UnsignedAccepts(g: Field, v: nat, rest: Bytes)
    requires g.ltype.UVarInt? && IntSize(g.dataSize) && v < TWO64
    ensures DecodeInteger(g, Varint(v) + rest)
         == if v < Pow(256, g.dataSize) then Some(Parsed(Int(v), rest)) else None
  {
    hide Pow, Varint, GetVarint64;
    Powers();
    VarintRoundTrip(v, rest);
  }

  /** So does a zigzag field. */
  lemma ZigZagAccepts(g: Field, v: int, rest: Bytes)
    requires g.ltype.SVarInt? && IntSize(g.dataSize) && InSigned(v, 8)
    ensures DecodeInteger(g, Varint(ZigZag(v)) + rest)
         == if InSigned(v, g.dataSize) then Some(Parsed(Int(v), rest)) else None
  {
    hide Pow, Varint, GetVarint64, Signed, InSigned, ZigZag, UnZigZag;
    SignedRoundTrip(v, 8);
    ZigZagRoundTrip(v);
    VarintRoundTrip(ZigZag(v), rest);
    SignedInRange(v % TWO64, g.dataSize);
    if InSigned(v, g.dataSize) {
      SignedRoundTrip(v, g.dataSize);
    }
  }

  // The low 32 bits of a number as a signed number.
  ghost predicate IsLow32(v: int, w: int) {
    -0x8000_0000 <= w < 0x8000_0000 && (v - w) % 0x1_0000_0000 == 0
  }

  /** A plain signed field of eight bytes takes every number; a narrower one first cuts it to 32 bits, and takes exactly
      what then fits, so one of four bytes refuses nothing. */
  lemma SignedAccepts(g: Field, v: int, w: int, rest: Bytes)
    requires g.ltype.VarInt? && IntSize(g.dataSize) && InSigned(v, 8)
    requires if g.dataSize == 8 then w == v else IsLow32(v, w)
    ensures DecodeInteger(g, Varint(v % TWO64) + rest)
         == if InSigned(w, g.dataSize) then Some(Parsed(Int(w), rest)) else None
    ensures g.dataSize == 4 || g.dataSize == 8 ==> InSigned(w, g.dataSize)
  {
    hide Pow, Varint, GetVarint64, Signed, InSigned;
    VarintRoundTrip(v % TWO64, rest);
    ValueIsLow(v, w, g.dataSize);
    SignedInRange(w % TWO64, g.dataSize);
    if InSigned(w, g.dataSize) {
      SignedRoundTrip(w, g.dataSize);
    }
  }

  lemma ValueIsLow(v: int, w: int, dataSize: nat)
    requires IntSize(dataSize) && InSigned(v, 8) && if dataSize == 8 then w == v else IsLow32(v, w)
    ensures VarIntValue(v % TWO64, dataSize) == w
    ensures dataSize == 4 || dataSize == 8 ==> InSigned(w, dataSize)
  {
    hide Pow;
    Powers();
    if dataSize == 8 {
      SignedRoundTrip(v, 8);
    } else {
      Cut64(v);
      CutTwice(v, w);
    }
  }

  lemma CutTwice(v: int, w: int)
    requires IsLow32(v, w)
    ensures v % TWO64 % TWO32 == if w < 0 then w + TWO32 else w
  {
    var q := (v - w) / TWO32;
    var r := if w < 0 then w + TWO32 else w;
    assert v == q * TWO32 + w;
    var k := v / TWO64;
    assert v % TWO64 == v - k * TWO64;
    assert v % TWO64 == (q - k * TWO32 - (if w < 0 then 1 else 0)) * TWO32 + r;
    Modulo(v % TWO64, q - k * TWO32 - (if w < 0 then 1 else 0), TWO32, r);
  }

  // ----- 32-bit varints that are longer than they need to be

  // The groups of seven bits from bit 35 on: none set or all set, up to bit 63, which is the last.
  predicate SignGroups(u: nat, bitpos: nat)
    decreases u
  {
    if bitpos >= 63 then u == 1
    else u >= 128 && (u % 128 == 0 || u % 128 == 127) && SignGroups(u / 128, bitpos + 7)
  }

  predicate TailPosition(bitpos: nat) {
    bitpos in {35, 42, 49, 56, 63}
  }

  lemma {:induction false} TailExactly(u: nat, result: nat, bitpos: nat, rest: Bytes)
    requires TailPosition(bitpos) && 0 < u && (bitpos == 63 ==> u == 1) && result < TWO32
    requires u < PowerLeft(bitpos)
    ensures More32(Varint(u) + rest, result, bitpos)
         == if result / 0x8000_0000 == 1 && SignGroups(u, bitpos) then Some(Parsed(result, rest)) else None
    decreases u
  {
    var b := Varint(u) + rest;
    if u < 128 {
      assert b[0] == u && b[1..] == rest;
    } else {
      assert b[0] == u % 128 + 128 && b[1..] == Varint(u / 128) + rest;
      TailExactly(u / 128, result, bitpos + 7, rest);
    }
  }

  // What the bits from this position on must be below.
  function PowerLeft(bitpos: nat): nat {
    if bitpos == 35 then 0x2000_0000 else if bitpos == 42 then 0x40_0000 else if bitpos == 49 then 0x8000
    else if bitpos == 56 then 0x100 else 2
  }

  // The shift by 28 keeps four of the seven bits.
  lemma FourBitsLeft(d: nat)
    requires d < 128
    ensures 0x1000_0000 * d % TWO32 == 0x1000_0000 * (d % 16)
  {
  }

  lemma TopDigit(low: nat, b: byte)
    requires low < 0x1000_0000
    ensures PbDecode.Extended(low, b, 28) == low + b % 16 * 0x1000_0000
  {
    hide BitOr, ShiftLeft;
    Shifts(b % 128);
    Shifts(b % 16);
    Shifts(1);
    FourBitsLeft(b % 128);
    LowFour(b);
    BitOrAdds(low, b % 16, 28);
  }

  lemma LowFour(v: nat)
    ensures v % 128 % 16 == v % 16 && (v % 128 + 128) % 16 == v % 16
  {
  }

  // What bits 35 and up of a number whose lower bits have been read are multiplied with.
  function Above(bitpos: nat): nat {
    if bitpos == 28 then 0x80 else if bitpos == 21 then 0x4000 else if bitpos == 14 then 0x20_0000 else 0x1000_0000
  }

  lemma AboveStep(v: nat, bitpos: nat)
    requires bitpos in {7, 14, 21}
    ensures v / 128 / Above(bitpos + 7) == v / Above(bitpos)
  {
  }

  lemma LowBits(v: nat, low: nat)
    requires low < 0x1000_0000
    ensures (low + v * 0x1000_0000) % TWO32 == low + v % 16 * 0x1000_0000
  {
    Modulo(low + v * 0x1000_0000, v / 16, TWO32, low + v % 16 * 0x1000_0000);
  }

  // A digit that another one follows.
  lemma DigitRead(v: nat, low: nat, bitpos: nat, scale: nat, rest: Bytes)
    requires DigitPosition(bitpos, scale) && bitpos < 28 && low < scale && v >= 128
    ensures More32(Varint(v) + rest, low, bitpos) == More32(Varint(v / 128) + rest, low + v % 128 * scale, bitpos + 7)
    ensures low + v % 128 * scale < 128 * scale && DigitPosition(bitpos + 7, 128 * scale)
  {
    hide PbDecode.Extended, More32, Varint;
    var b := Varint(v) + rest;
    VarintLeads(v, rest);
    More32Step(b, low, bitpos);
    SmallDigit(v % 128, low, scale, bitpos);
    DigitIsAdded(low, b[0], bitpos, scale);
  }

  lemma SmallDigit(d: nat, low: nat, scale: nat, bitpos: nat)
    requires d < 128 && low < scale && DigitPosition(bitpos, scale) && bitpos < 28
    ensures d * scale < TWO32 && low + d * scale < 128 * scale
  {
  }

  lemma FifthDigitRead(v: nat, low: nat, rest: Bytes)
    requires low < 0x1000_0000 && v >= 128
    ensures More32(Varint(v) + rest, low, 28) == More32(Varint(v / 128) + rest, (low + v * 0x1000_0000) % TWO32, 35)
  {
    hide PbDecode.Extended, More32, Varint;
    var b := Varint(v) + rest;
    VarintLeads(v, rest);
    More32Step(b, low, 28);
    TopDigit(low, b[0]);
    LowBits(v, low);
    LowFour(v);
  }

  lemma VarintLeads(v: nat, rest: Bytes)
    requires v >= 128
    ensures var b := Varint(v) + rest; b != [] && b[0] == v % 128 + 128 && b[1..] == Varint(v / 128) + rest
  {
  }

  lemma More32Step(b: Bytes, result: nat, bitpos: nat)
    requires b != [] && b[0] >= 128 && bitpos < 32
    ensures More32(b, result, bitpos) == More32(b[1..], PbDecode.Extended(result, b[0], bitpos), bitpos + 7)
  {
    hide PbDecode.Extended;
  }

  // The first five digits of a number of more than 35 bits.
  lemma {:induction false} HeadExactly(v: nat, low: nat, bitpos: nat, scale: nat, rest: Bytes)
    requires DigitPosition(bitpos, scale) && low < scale && v / Above(bitpos) > 0
    ensures More32(Varint(v) + rest, low, bitpos)
         == More32(Varint(v / Above(bitpos)) + rest, (low + v * scale) % TWO32, 35)
    decreases 28 - bitpos
  {
    hide More32, Varint;
    assert v >= 128;
    if bitpos == 28 {
      FifthDigitRead(v, low, rest);
    } else {
      DigitRead(v, low, bitpos, scale, rest);
      AboveStep(v, bitpos);
      Distribute(scale, v % 128, v / 128);
      HeadExactly(v / 128, low + v % 128 * scale, bitpos + 7, 128 * scale, rest);
    }
  }

  // A fifth digit with bits above the 32nd.
  lemma {:induction false} TooHigh(v: nat, low: nat, bitpos: nat, scale: nat, rest: Bytes)
    requires DigitPosition(bitpos, scale) && low < scale && v < Above(bitpos) && v * scale >= TWO32
    ensures More32(Varint(v) + rest, low, bitpos) == None
    decreases 28 - bitpos
  {
    if bitpos == 28 {
      var b := Varint(v) + rest;
      assert v < 128 && b[0] == v && v >= 16;
    } else {
      HighStaysHigh(v, bitpos, scale);
      DigitRead(v, low, bitpos, scale, rest);
      TooHigh(v / 128, low + v % 128 * scale, bitpos + 7, 128 * scale, rest);
    }
  }

  lemma HighStaysHigh(v: nat, bitpos: nat, scale: nat)
    requires DigitPosition(bitpos, scale) && bitpos < 28 && v < Above(bitpos) && v * scale >= TWO32
    ensures v >= 128 && v / 128 < Above(bitpos + 7) && v / 128 * (128 * scale) >= TWO32
  {
  }

  lemma LongVarint(v: nat, rest: Bytes)
    requires v >= 128
    ensures Decode32(Varint(v) + rest) == More32(Varint(v / 128) + rest, v % 128, 7)
  {
    hide More32;
    assert (Varint(v) + rest)[1..] == Varint(v / 128) + rest;
  }

  lemma FirstDigit(v: nat)
    ensures v % 128 + v / 128 * 0x80 == v && v / 128 / 0x1000_0000 == v / 0x8_0000_0000
  {
  }

  /** Every 64-bit number read as a 32-bit varint: one of 32 bits comes back, one of up to 35 is refused, and a longer one
      is accepted exactly when bits 31 and 63 are set and the groups of seven in between from bit 35 on are all zeros or
      all ones, whatever bits 32 to 34 are. */
  lemma Decode32Exactly(v: nat, rest: Bytes)
    requires v < TWO64
    ensures Decode32(Varint(v) + rest)
         == if v < TWO32 then Some(Parsed(v, rest))
            else if v >= 0x8_0000_0000 && v % TWO32 / 0x8000_0000 == 1 && SignGroups(v / 0x8_0000_0000, 35)
            then Some(Parsed(v % TWO32, rest)) else None
  {
    hide More32, SignGroups, Varint, Decode32;
    if v < TWO32 {
      Decode32RoundTrip(v, rest);
    } else {
      LongVarint(v, rest);
      FirstDigit(v);
      if v < 0x8_0000_0000 {
        TooHigh(v / 128, v % 128, 7, 0x80, rest);
      } else {
        HeadExactly(v / 128, v % 128, 7, 0x80, rest);
        TailExactly(v / 0x8_0000_0000, v % TWO32, 35, rest);
      }
    }
  }

  // ----- Strings and bytes

  /** Data is taken exactly when it fits: bytes behind their size, a string in front of its terminator, data of fixed
      length when it has that length, or none, which stands for zeros. */
  lemma DataAccepts(g: Field, s: Bytes, old_: Item, rest: Bytes)
    requires |s| < TWO32
    ensures var b := LengthPrefixed(s) + rest;
            && DecodeBytes(g, b) == (if |s| + 4 <= g.dataSize then Some(Parsed(Data(s), rest)) else None)
            && (if |s| + 1 <= g.dataSize
                then exists tail :: DecodeText(g, old_, b) == Some(Parsed(Chars(s + [0] + tail), rest))
                                    && |s + [0] + tail| == g.dataSize
                else DecodeText(g, old_, b) == None)
            && DecodeFixedLength(g, b) == (if s == [] then Some(Parsed(Data(seq(g.dataSize, _ => 0)), rest))
                                           else if |s| == g.dataSize then Some(Parsed(Data(s), rest)) else None)
  {
    hide Varint, Decode32;
    assert LengthPrefixed(s) + rest == Varint(|s|) + (s + rest);
    Decode32RoundTrip(|s|, s + rest);
    assert (s + rest)[..|s|] == s && (s + rest)[|s|..] == rest;
    if |s| + 1 <= g.dataSize {
      assert |s + [0] + Tail(g, old_, |s|)| == g.dataSize;
    }
    AllZeros(g.dataSize);
    if s == [] {
      assert s + rest == rest;
    }
  }

  lemma {:induction false} AllZeros(n: nat)
    ensures Zeros(n) == seq(n, _ => 0)
  {
    if n > 0 {
      AllZeros(n - 1);
    }
  }

  // ----- Arrays with too many entries

  /** A packed array that has more entries than the field has room for is refused. */
  lemma {:induction false} TooManyPacked(g: Field, a: Entries, src: seq<Item>, i: nat, count: nat)
    requires Packable(g.ltype) && i <= count && EncodeItems(g, src, i, count).Some?
    requires a.size + (count - i) > g.arraySize && a.size <= g.arraySize
    ensures DecodePacked(g, a, EncodeItems(g, src, i, count).value) == None
    decreases count - i
  {
    hide EncodeItem, DecodeItem;
    var e, others := EncodeItem(g, ItemAt(src, i)).value, EncodeItems(g, src, i + 1, count).value;
    NumberTakesBytes(g, ItemAt(src, i));
    if a.size < g.arraySize {
      ItemEnds(g, ItemAt(src, i), ItemAt(a.items, a.size), others);
      var r := DecodeItem(g, ItemAt(a.items, a.size), e + others);
      if r.Some? {
        TooManyPacked(g, Entries(WithItem(a.items, a.size, r.value.value), a.size + 1), src, i + 1, count);
      }
    }
  }

  lemma NumberTakesBytes(g: Field, item: Item)
    requires Packable(g.ltype) && EncodeItem(g, item).Some?
    ensures EncodeItem(g, item).value != []
  {
  }

  lemma ItemEnds(g: Field, item: Item, old_: Item, rest: Bytes)
    requires Packable(g.ltype) && EncodeItem(g, item).Some?
    ensures var r := DecodeItem(g, old_, EncodeItem(g, item).value + rest); r.Some? ==> r.value.rest == rest
  {
    hide Varint, Decode32, GetVarint64, Fixed, FromFixed, Pow, Signed, UnZigZag, VarIntValue;
    var e := EncodeItem(g, item).value;
    match g.ltype
    case Bool => Decode32RoundTrip(if IntOf(item) != 0 then 1 else 0, rest);
    case Word32 => assert (e + rest)[|e|..] == rest;
    case Word64 => assert (e + rest)[|e|..] == rest;
    case VarInt => VarintRoundTrip(IntOf(item) % TWO64, rest);
    case UVarInt => VarintRoundTrip(IntOf(item) % TWO64, rest);
    case SVarInt => VarintRoundTrip(ZigZag(IntOf(item)), rest);
  }

  // ----- Messages without a required field

  // A value for field k arrives while the input is decoded.
  ghost predicate Arrives(fields: Fields, st: Progress, b: Bytes, k: nat)
    requires InRange(fields, st)
    decreases |b|
  {
    if b == [] then false
    else
      match ReadTag(b)
      case Bad => false
      case Stop => false
      case Tag(tag, wire, rest) =>
        FieldWithTag(fields, st.pos, tag) == Some(k)
        || var r := DecodeStep(fields, st, tag, wire, rest);
           r.Some? && Arrives(fields, r.value.value, r.value.rest, k)
  }

  lemma {:induction false} RequiredIndexIsUnique(fields: Fields, i: nat, j: nat)
    requires i < j < |fields| && fields[i].htype.Required? && fields[j].htype.Required?
    ensures RequiredBefore(fields, i) < RequiredBefore(fields, j)
  {
    RequiredGrows(fields, i + 1, j);
  }

  // A required field of the first 64.
  ghost predicate MustArrive(fields: Fields, k: nat) {
    k < |fields| && fields[k].htype.Required? && RequiredBefore(fields, k) < MAX_REQUIRED_FIELDS
  }

  lemma StepSees(fields: Fields, st: Progress, tag: nat, wire: nat, b: Bytes, k: nat)
    requires InRange(fields, st) && MustArrive(fields, k) && DecodeStep(fields, st, tag, wire, b).Some?
    ensures var st' := DecodeStep(fields, st, tag, wire, b).value.value;
            RequiredBefore(fields, k) in st'.seen
            <==> RequiredBefore(fields, k) in st.seen || FieldWithTag(fields, st.pos, tag) == Some(k)
  {
    hide DecodeArray, DecodeSingle, SkipField, RequiredBefore, SlotOf, Decode32;
    var p := FieldWithTag(fields, st.pos, tag);
    if p.Some? {
      if p.value < k && fields[p.value].htype.Required? {
        RequiredIndexIsUnique(fields, p.value, k);
      }
      if k < p.value && fields[p.value].htype.Required? {
        RequiredIndexIsUnique(fields, k, p.value);
      }
    }
  }

  lemma {:induction false} SeenIsArrived(fields: Fields, st: Progress, b: Bytes, k: nat)
    requires InRange(fields, st) && MustArrive(fields, k) && DecodeLoop(fields, st, b).Some?
    ensures RequiredBefore(fields, k) in DecodeLoop(fields, st, b).value.seen
       <==> RequiredBefore(fields, k) in st.seen || Arrives(fields, st, b, k)
    decreases |b|
  {
    hide DecodeStep, RequiredBefore, Decode32;
    if b != [] && ReadTag(b).Tag? {
      var t := ReadTag(b);
      StepSees(fields, st, t.tag, t.wire, t.rest, k);
      var r := DecodeStep(fields, st, t.tag, t.wire, t.rest);
      SeenIsArrived(fields, r.value.value, r.value.rest, k);
    }
  }

  // What the bitmap may hold: the numbers of required fields, or the number a terminator gives an empty message.
  ghost predicate SeenFits(fields: Fields, seen: set<nat>) {
    fields != [] ==> forall x: nat :: x in seen ==> x < RequiredBefore(fields, |fields|)
  }

  lemma StepFits(fields: Fields, st: Progress, tag: nat, wire: nat, b: Bytes)
    requires InRange(fields, st) && SeenFits(fields, st.seen) && DecodeStep(fields, st, tag, wire, b).Some?
    ensures SeenFits(fields, DecodeStep(fields, st, tag, wire, b).value.value.seen)
  {
    hide DecodeArray, DecodeSingle, SkipField, SlotOf, Decode32;
    var p := FieldWithTag(fields, st.pos, tag);
    if p.Some? && fields[p.value].htype.Required? {
      RequiredGrows(fields, p.value + 1, |fields|);
    }
  }

  lemma {:induction false} LoopFits(fields: Fields, st: Progress, b: Bytes)
    requires InRange(fields, st) && SeenFits(fields, st.seen) && DecodeLoop(fields, st, b).Some?
    ensures SeenFits(fields, DecodeLoop(fields, st, b).value.seen)
    decreases |b|
  {
    hide DecodeStep, Decode32, SeenFits;
    if b != [] && ReadTag(b).Tag? {
      var t := ReadTag(b);
      StepFits(fields, st, t.tag, t.wire, t.rest);
      var r := DecodeStep(fields, st, t.tag, t.wire, t.rest);
      LoopFits(fields, r.value.value, r.value.rest);
    }
  }

  lemma {:induction false} NumberedField(fields: Fields, n: nat, x: nat) returns (k: nat)
    requires n <= |fields| && x < RequiredBefore(fields, n)
    ensures k < n && fields[k].htype.Required? && RequiredBefore(fields, k) == x
    decreases n
  {
    if x < RequiredBefore(fields, n - 1) {
      k := NumberedField(fields, n - 1, x);
    } else {
      k := n - 1;
    }
  }

  /** A message is accepted exactly when it can be read to its end, leaves no array without a counter half filled, and
      holds every required field; only the first 64 of those are looked for. */
  lemma AcceptedExactlyWhen(fields: Fields, base: Message, b: Bytes)
    ensures var st := Progress(base, 0, {}, None, 0);
            var r := DecodeLoop(fields, st, b);
            DecodeMessage(fields, base, b).Some?
            <==> && r.Some?
                 && (r.value.fixedField.Some? ==> r.value.fixedSize == fields[r.value.fixedField.value].arraySize)
                 && forall k :: MustArrive(fields, k) ==> Arrives(fields, st, b, k)
  {
    hide DecodeLoop, RequiredBefore, Arrives, SeenFits;
    var st := Progress(base, 0, {}, None, 0);
    var r := DecodeLoop(fields, st, b);
    if r.Some? {
      NothingSeen(fields);
      LoopFits(fields, st, b);
      forall k | MustArrive(fields, k)
        ensures RequiredBefore(fields, k) in r.value.seen <==> Arrives(fields, st, b, k)
      {
        SeenIsArrived(fields, st, b, k);
      }
      AllSeenIs(fields, r.value.seen);
    }
  }

  lemma NothingSeen(fields: Fields)
    ensures SeenFits(fields, {})
  {
  }

  lemma AllSeenIs(fields: Fields, seen: set<nat>)
    requires SeenFits(fields, seen)
    ensures AllSeen(seen, Tracked(RequiredBefore(fields, |fields|)))
       <==> forall k :: MustArrive(fields, k) ==> RequiredBefore(fields, k) in seen
  {
    hide RequiredBefore;
    var n := RequiredBefore(fields, |fields|);
    forall k | MustArrive(fields, k)
      ensures RequiredBefore(fields, k) < Tracked(n)
    {
      NumberBelow(fields, k);
    }
    if forall k :: MustArrive(fields, k) ==> RequiredBefore(fields, k) in seen {
      forall x: nat | x < Tracked(n)
        ensures x in seen
      {
        var k := NumberedField(fields, |fields|, x);
        assert MustArrive(fields, k);
      }
      NoneRequired(fields);
    }
  }

  lemma NumberBelow(fields: Fields, k: nat)
    requires MustArrive(fields, k)
    ensures RequiredBefore(fields, k) < RequiredBefore(fields, |fields|)
  {
    RequiredGrows(fields, k + 1, |fields|);
  }

  lemma NoneRequired(fields: Fields)
    ensures fields == [] ==> RequiredBefore(fields, |fields|) == 0
  {
  }
}
