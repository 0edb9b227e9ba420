/** The strided CRC32C of util/crc32c.cc against its definition, one bit at a time; CRC32C is named in section 12.1 of
    RFC 3720. */
module Crc32c {
  const POLYNOMIAL: bv32 := 0x82f63b78
  const CRC32_XOR: bv32 := 0xffffffff
  const MASK_DELTA: bv32 := 0xa282ead8

  // ----- The definition

  function Xor(a: bv32, b: bv32): bv32 {
    a ^ b
  }

  // One bit of the division by the reflected polynomial.
  function Bit(l: bv32): bv32 {
    if Odd(l) then Xor(Half(l), POLYNOMIAL) else Half(l)
  }

  predicate Odd(l: bv32) {
    l & 1 == 1
  }

  function Half(l: bv32): bv32 {
    l >> 1
  }

  function Bits(l: bv32, n: nat): bv32
    decreases n
  {
    if n == 0 then l else Bits(Bit(l), n - 1)
  }

  // What n zero bytes make of the remainder.
  function Zeros(l: bv32, n: nat): bv32
    decreases n
  {
    if n == 0 then l else Zeros(Bits(l, 8), n - 1)
  }

  function Fold(l: bv32, data: seq<bv8>): bv32
    decreases |data|
  {
    if data == [] then l else Fold(Bits(Xor(l, data[0] as bv32), 8), data[1..])
  }

  // crc32c::Extend as its documentation defines it.
  function Extended(crc: bv32, data: seq<bv8>): bv32 {
    Xor(Fold(Xor(crc, CRC32_XOR), data), CRC32_XOR)
  }

  // ----- Exclusive or

  lemma XorAssociates(a: bv32, b: bv32, c: bv32)
    ensures Xor(a, Xor(b, c)) == Xor(Xor(a, b), c) == Xor(Xor(a, c), b)
    ensures Xor(a, b) == Xor(b, a)
  {
  }

  lemma XorCancels(a: bv32, b: bv32)
    ensures Xor(Xor(a, b), b) == a
    ensures Xor(a, 0) == a
  {
  }

  lemma BitIsLinear(a: bv32, b: bv32)
    ensures Bit(Xor(a, b)) == Xor(Bit(a), Bit(b))
  {
    HalfXor(a, b);
    OddXor(a, b);
    XorBoth(Half(a), Half(b));
    XorLeft(Half(a), Half(b));
    XorRight(Half(a), Half(b));
    hide Xor, Half, Odd;
  }

  lemma HalfXor(a: bv32, b: bv32)
    ensures Half(Xor(a, b)) == Xor(Half(a), Half(b))
  {
  }

  lemma OddXor(a: bv32, b: bv32)
    ensures Odd(Xor(a, b)) <==> Odd(a) != Odd(b)
  {
  }

  lemma XorBoth(x: bv32, y: bv32)
    ensures Xor(Xor(x, POLYNOMIAL), Xor(y, POLYNOMIAL)) == Xor(x, y)
  {
  }

  lemma XorLeft(x: bv32, y: bv32)
    ensures Xor(Xor(x, POLYNOMIAL), y) == Xor(Xor(x, y), POLYNOMIAL)
  {
  }

  lemma XorRight(x: bv32, y: bv32)
    ensures Xor(x, Xor(y, POLYNOMIAL)) == Xor(Xor(x, y), POLYNOMIAL)
  {
  }

  // ----- Linearity

  lemma {:induction false} BitsAreLinear(a: bv32, b: bv32, n: nat)
    ensures Bits(Xor(a, b), n) == Xor(Bits(a, n), Bits(b, n))
    decreases n
  {
    hide Bit, Xor;
    if n > 0 {
      BitIsLinear(a, b);
      BitsAreLinear(Bit(a), Bit(b), n - 1);
    }
  }

  lemma {:induction false} ZerosAreLinear(a: bv32, b: bv32, n: nat)
    ensures Zeros(Xor(a, b), n) == Xor(Zeros(a, n), Zeros(b, n))
    decreases n
  {
    hide Bits, Xor;
    if n > 0 {
      BitsAreLinear(a, b, 8);
      ZerosAreLinear(Bits(a, 8), Bits(b, 8), n - 1);
    }
  }

  lemma {:induction false} ZerosAdd(l: bv32, m: nat, n: nat)
    ensures Zeros(Zeros(l, m), n) == Zeros(l, m + n)
    decreases m
  {
    hide Bits, Xor;
    if m > 0 {
      ZerosAdd(Bits(l, 8), m - 1, n);
    }
  }

  lemma EightBits(l: bv32)
    ensures Bits(l, 8) == Bit(Bit(Bit(Bit(Bit(Bit(Bit(Bit(l))))))))
  {
    hide Bit, Xor;
    assert Bits(l, 8) == Bits(Bit(l), 7) == Bits(Bit(Bit(l)), 6);
    assert Bits(Bit(Bit(l)), 6) == Bits(Bit(Bit(Bit(l))), 5) == Bits(Bit(Bit(Bit(Bit(l)))), 4);
    assert Bits(Bit(Bit(Bit(Bit(l)))), 4) == Bits(Bit(Bit(Bit(Bit(Bit(Bit(l)))))), 2);
  }

  function Low(l: bv32): bv32 {
    l & 0xff
  }

  function High(l: bv32): bv32 {
    l & 0xffffff00
  }

  function Down8(l: bv32): bv32 {
    l >> 8
  }

  // Bits above the lowest byte only move down.
  lemma HighBitsShift(l: bv32)
    ensures Bits(High(l), 8) == Down8(l)
  {
    EightBits(High(l));
  }

  lemma SplitLow(l: bv32)
    ensures l == Xor(Low(l), High(l))
  {
  }

  // The table step of the source: the low byte through the table, the rest moves down.
  lemma ByteStep(l: bv32)
    ensures Bits(l, 8) == Xor(Bits(Low(l), 8), Down8(l))
  {
    SplitLow(l);
    HighBitsShift(l);
    hide Bits, Xor, Low, High, Down8;
    BitsAreLinear(Low(l), High(l), 8);
  }

  // ----- Words

  function Shl8(l: bv32): bv32 {
    l << 8
  }

  function Wide(b: bv8): bv32 {
    b as bv32
  }

  // ReadUint32LE of four bytes, least significant first.
  function Word(b0: bv8, b1: bv8, b2: bv8, b3: bv8): bv32 {
    Xor(Wide(b0), Shl8(Xor(Wide(b1), Shl8(Xor(Wide(b2), Shl8(Wide(b3)))))))
  }

  lemma ShiftedOut(b1: bv8, b2: bv8, b3: bv8)
    ensures Down8(Shl8(Wide(b3))) == Wide(b3)
    ensures Down8(Shl8(Xor(Wide(b2), Shl8(Wide(b3))))) == Xor(Wide(b2), Shl8(Wide(b3)))
    ensures var r := Xor(Wide(b1), Shl8(Xor(Wide(b2), Shl8(Wide(b3)))));
            Down8(Shl8(r)) == r
  {
    WideIsSmall(b3);
    WideIsSmall(b2);
    WideIsSmall(b1);
    hide Xor, Shl8, Wide, Down8, Fits;
    FitsGrows(Wide(b2), Wide(b3), 0xff);
    FitsGrows(Wide(b1), Xor(Wide(b2), Shl8(Wide(b3))), 0xffff);
    ShiftBack(Wide(b3), 0xff);
    ShiftBack(Xor(Wide(b2), Shl8(Wide(b3))), 0xffff);
    ShiftBack(Xor(Wide(b1), Shl8(Xor(Wide(b2), Shl8(Wide(b3))))), 0xffffff);
  }

  // The word has bits only where the mask does.
  predicate Fits(r: bv32, mask: bv32) {
    r & mask == r
  }

  lemma WideIsSmall(b: bv8)
    ensures Fits(Wide(b), 0xff)
  {
  }

  lemma FitsGrows(low: bv32, r: bv32, mask: bv32)
    requires Fits(low, 0xff) && Fits(r, mask) && (mask == 0xff || mask == 0xffff)
    ensures Fits(Xor(low, Shl8(r)), if mask == 0xff then 0xffff else 0xffffff)
  {
  }

  lemma ShiftBack(r: bv32, mask: bv32)
    requires Fits(r, mask) && (mask == 0xff || mask == 0xffff || mask == 0xffffff)
    ensures Down8(Shl8(r)) == r
  {
  }

  lemma ShiftHasNoLow(r: bv32)
    ensures High(Shl8(r)) == Shl8(r)
  {
  }

  // Folding one byte of a word leaves the rest of the word to be folded.
  lemma FoldLowByte(l: bv32, b: bv8, r: bv32)
    requires Down8(Shl8(r)) == r
    ensures Bits(Xor(l, Xor(Wide(b), Shl8(r))), 8) == Xor(Bits(Xor(l, Wide(b)), 8), r)
  {
    ShiftHasNoLow(r);
    HighBitsShift(Shl8(r));
    XorAssociates(l, Wide(b), Shl8(r));
    hide Bits, Xor, High, Down8, Shl8, Wide;
    BitsAreLinear(Xor(l, Wide(b)), Shl8(r), 8);
  }

  lemma FoldOne(l: bv32, data: seq<bv8>, p: nat)
    requires p < |data|
    ensures Fold(l, data[p..]) == Fold(Bits(Xor(l, Wide(data[p])), 8), data[p + 1..])
  {
    assert data[p..][1..] == data[p + 1..];
    hide Bits, Xor;
  }

  lemma FoldWord(l: bv32, data: seq<bv8>, p: nat)
    requires p + 4 <= |data|
    ensures Fold(l, data[p..])
         == Fold(Zeros(Xor(l, Word(data[p], data[p + 1], data[p + 2], data[p + 3])), 4), data[p + 4..])
  {
    var (b0, b1, b2, b3) := (data[p], data[p + 1], data[p + 2], data[p + 3]);
    ShiftedOut(b1, b2, b3);
    hide Bits, Xor, Shl8, Wide, Down8, Fold;
    FoldOne(l, data, p);
    var l1 := Bits(Xor(l, Wide(b0)), 8);
    FoldOne(l1, data, p + 1);
    var l2 := Bits(Xor(l1, Wide(b1)), 8);
    FoldOne(l2, data, p + 2);
    var l3 := Bits(Xor(l2, Wide(b2)), 8);
    FoldOne(l3, data, p + 3);
    var r1 := Xor(Wide(b2), Shl8(Wide(b3)));
    var r0 := Xor(Wide(b1), Shl8(r1));
    FoldLowByte(l, b0, r0);
    FoldLowByte(l1, b1, r1);
    FoldLowByte(l2, b2, Wide(b3));
    FourZeros(Xor(l, Word(b0, b1, b2, b3)));
  }

  lemma FourZeros(l: bv32)
    ensures Zeros(l, 4) == Bits(Bits(Bits(Bits(l, 8), 8), 8), 8)
  {
    hide Bits;
    assert Zeros(l, 4) == Zeros(Bits(l, 8), 3) == Zeros(Bits(Bits(l, 8), 8), 2);
  }

  // ----- Four lanes, each one word out of every sixteen bytes

  // What the four lanes stand for (STEP4W of the source, four times).
  function Combined(c0: bv32, c1: bv32, c2: bv32, c3: bv32): bv32 {
    Zeros(Xor(c3, Zeros(Xor(c2, Zeros(Xor(c1, Zeros(c0, 4)), 4)), 4)), 4)
  }

  /** Advancing the first lane by a stride and one word is folding that word after all four. */
  lemma LaneStep(c0: bv32, c1: bv32, c2: bv32, c3: bv32, w: bv32)
    ensures Combined(c1, c2, c3, Xor(w, Zeros(c0, 16))) == Zeros(Xor(Combined(c0, c1, c2, c3), w), 4)
  {
    hide Xor, Zeros;
    var a1, a2, a3 := Zeros(c1, 4), Zeros(Xor(c2, Zeros(c1, 4)), 4), Zeros(Xor(c3, Zeros(Xor(c2, Zeros(c1, 4)), 4)), 4);
    var z1 := Zeros(c0, 4);
    ZerosAreLinear(c1, z1, 4);
    var z2 := Zeros(z1, 4);
    XorAssociates(c2, a1, z2);
    ZerosAreLinear(Xor(c2, a1), z2, 4);
    var z3 := Zeros(z2, 4);
    XorAssociates(c3, a2, z3);
    ZerosAreLinear(Xor(c3, a2), z3, 4);
    var z4 := Zeros(z3, 4);
    ZerosAdd(c0, 4, 4);
    ZerosAdd(c0, 8, 4);
    ZerosAdd(c0, 12, 4);
    XorAssociates(w, z4, a3);
    XorAssociates(z4, w, a3);
    XorAssociates(a3, z4, w);
    XorAssociates(w, a3, z4);
  }

  // ----- Tables

  // kByteExtensionTable and kStrideExtensionTable0 to 3, read by their byte index.
  datatype Tables = Tables(byte: bv8 -> bv32, stride0: bv8 -> bv32, stride1: bv8 -> bv32, stride2: bv8 -> bv32,
                           stride3: bv8 -> bv32)

  // What the entries must be: the byte at each place of the word, moved on by eight or by 128 zero bits.
  ghost predicate TablesOk(t: Tables) {
    && (forall c :: t.byte(c) == Bits(Wide(c), 8))
    && (forall c :: t.stride3(c) == Zeros(Wide(c), 16))
    && (forall c :: t.stride2(c) == Zeros(Shl8(Wide(c)), 16))
    && (forall c :: t.stride1(c) == Zeros(Shl8(Shl8(Wide(c))), 16))
    && forall c :: t.stride0(c) == Zeros(Shl8(Shl8(Shl8(Wide(c)))), 16)
  }

  function Byte(l: bv32, i: nat): bv8
    requires i < 4
  {
    if i == 0 then (l & 0xff) as bv8
    else if i == 1 then ((l >> 8) & 0xff) as bv8
    else if i == 2 then ((l >> 16) & 0xff) as bv8
    else (l >> 24) as bv8
  }

  lemma LowByte(l: bv32)
    ensures Wide(Byte(l, 0)) == Low(l)
  {
  }

  lemma FourBytes(l: bv32)
    ensures l == Xor(Xor(Xor(Wide(Byte(l, 0)), Shl8(Wide(Byte(l, 1)))), Shl8(Shl8(Wide(Byte(l, 2))))),
                     Shl8(Shl8(Shl8(Wide(Byte(l, 3))))))
  {
  }

  // STEP1 after the data byte has gone in.
  function TableStep(t: Tables, l: bv32): bv32 {
    Xor(t.byte(Byte(l, 0)), Down8(l))
  }

  lemma TableStepIsByte(t: Tables, l: bv32)
    requires TablesOk(t)
    ensures TableStep(t, l) == Bits(l, 8)
  {
    LowByte(l);
    ByteStep(l);
    hide Bits, Xor, Wide, Low, Down8, Byte, Zeros, Shl8;
  }

  // The table look-ups of STEP4.
  function StrideStep(t: Tables, l: bv32): bv32 {
    Xor(Xor(Xor(t.stride3(Byte(l, 0)), t.stride2(Byte(l, 1))), t.stride1(Byte(l, 2))), t.stride0(Byte(l, 3)))
  }

  lemma StrideStepIsZeros(t: Tables, l: bv32)
    requires TablesOk(t)
    ensures StrideStep(t, l) == Zeros(l, 16)
  {
    FourBytes(l);
    var x0, x1 := Wide(Byte(l, 0)), Shl8(Wide(Byte(l, 1)));
    var x2, x3 := Shl8(Shl8(Wide(Byte(l, 2)))), Shl8(Shl8(Shl8(Wide(Byte(l, 3)))));
    hide Xor, Zeros, Byte, Wide, Shl8, Bits;
    ZerosAreLinear(Xor(Xor(x0, x1), x2), x3, 16);
    ZerosAreLinear(Xor(x0, x1), x2, 16);
    ZerosAreLinear(x0, x1, 16);
  }

  // The entries kByteExtensionTable holds for single bits; linearity gives the other entries.
  lemma ByteTableBasis()
    ensures Bits(0x01, 8) == 0xf26b8303 && Bits(0x02, 8) == 0xe13b70f7
    ensures Bits(0x04, 8) == 0xc79a971f && Bits(0x08, 8) == 0x8ad958cf
    ensures Bits(0x10, 8) == 0x105ec76f && Bits(0x20, 8) == 0x20bd8ede
    ensures Bits(0x40, 8) == 0x417b1dbc && Bits(0x80, 8) == 0x82f63b78
  {
    EightBits(0x01);
    EightBits(0x02);
    EightBits(0x04);
    EightBits(0x08);
    EightBits(0x10);
    EightBits(0x20);
    EightBits(0x40);
    EightBits(0x80);
  }

  // The equations can be met, so what follows from them is not empty.
  lemma TablesExist()
    ensures TablesOk(Tables(c => Bits(Wide(c), 8), c => Zeros(Shl8(Shl8(Shl8(Wide(c)))), 16),
                            c => Zeros(Shl8(Shl8(Wide(c))), 16), c => Zeros(Shl8(Wide(c)), 16), c => Zeros(Wide(c), 16)))
  {
    hide Bits, Zeros, Wide, Shl8;
  }

  // ----- Extend

  function WordAt(data: seq<bv8>, p: nat): bv32
    requires p + 4 <= |data|
  {
    Word(data[p], data[p + 1], data[p + 2], data[p + 3])
  }

  /** crc32c::Extend without hardware help; `align` bytes come before the first word-aligned address. */
  method Extend(t: Tables, crc: bv32, data: seq<bv8>, align: nat) returns (r: bv32)
    requires TablesOk(t) && align < 4
    ensures r == Extended(crc, data)
  {
    hide Bits, Xor, Zeros, TablesOk, StrideStep, TableStep, Wide, WordAt, Combined, Fold;
    var n := |data|;
    var p: nat := 0;
    var l := Xor(crc, CRC32_XOR);
    ghost var all := Fold(l, data);
    assert data[0..] == data;
    if align <= n {
      while p != align
        invariant p <= align && Fold(l, data[p..]) == all
        decreases align - p
      {
        FoldOne(l, data, p);
        TableStepIsByte(t, Xor(l, Wide(data[p])));
        l := TableStep(t, Xor(l, Wide(data[p])));
        p := p + 1;
      }
    }
    if n - p >= 16 {
      SwathStart(l, data, p);
      var crc0 := Xor(WordAt(data, p), l);
      var crc1, crc2, crc3 := WordAt(data, p + 4), WordAt(data, p + 8), WordAt(data, p + 12);
      p := p + 16;
      while n - p >= 16
        invariant p <= n && Fold(Combined(crc0, crc1, crc2, crc3), data[p..]) == all
        decreases n - p
      {
        Swath(t, crc0, crc1, crc2, crc3, data, p);
        crc0 := Xor(WordAt(data, p), StrideStep(t, crc0));
        crc1 := Xor(WordAt(data, p + 4), StrideStep(t, crc1));
        crc2 := Xor(WordAt(data, p + 8), StrideStep(t, crc2));
        crc3 := Xor(WordAt(data, p + 12), StrideStep(t, crc3));
        p := p + 16;
      }
      while n - p >= 4
        invariant p <= n && Fold(Combined(crc0, crc1, crc2, crc3), data[p..]) == all
        decreases n - p
      {
        OneWord(t, crc0, crc1, crc2, crc3, data, p);
        crc0 := Xor(WordAt(data, p), StrideStep(t, crc0));
        crc0, crc1, crc2, crc3 := crc1, crc2, crc3, crc0;
        p := p + 4;
      }
      l := CombineLanes(t, crc0, crc1, crc2, crc3);
    }
    while p != n
      invariant p <= n && Fold(l, data[p..]) == all
      decreases n - p
    {
      FoldOne(l, data, p);
      TableStepIsByte(t, Xor(l, Wide(data[p])));
      l := TableStep(t, Xor(l, Wide(data[p])));
      p := p + 1;
    }
    FoldNothing(l, data[p..]);
    return Xor(l, CRC32_XOR);
  }

  lemma FoldNothing(l: bv32, data: seq<bv8>)
    requires data == []
    ensures Fold(l, data) == l
  {
  }

  // Four STEP4W of the source.
  method CombineLanes(t: Tables, crc0: bv32, crc1: bv32, crc2: bv32, crc3: bv32) returns (l: bv32)
    requires TablesOk(t)
    ensures l == Combined(crc0, crc1, crc2, crc3)
  {
    hide Xor, Zeros, TablesOk;
    XorCancels(crc0, 0);
    l := StepWord(t, crc0, 0);
    l := StepWord(t, crc1, l);
    l := StepWord(t, crc2, l);
    l := StepWord(t, crc3, l);
  }

  method StepWord(t: Tables, word: bv32, l: bv32) returns (w: bv32)
    requires TablesOk(t)
    ensures w == Zeros(Xor(word, l), 4)
  {
    hide Bits, Xor, TablesOk, TableStep;
    w := Xor(word, l);
    for i := 0 to 4
      invariant Zeros(w, 4 - i) == Zeros(Xor(word, l), 4)
    {
      TableStepIsByte(t, w);
      w := TableStep(t, w);
    }
  }

  // The first sixteen bytes go into the lanes as they are.
  lemma SwathStart(l: bv32, data: seq<bv8>, p: nat)
    requires p + 16 <= |data|
    ensures Fold(Combined(Xor(WordAt(data, p), l), WordAt(data, p + 4), WordAt(data, p + 8), WordAt(data, p + 12)),
                 data[p + 16..]) == Fold(l, data[p..])
  {
    hide Xor, Zeros, Word, Fold;
    FoldWord(l, data, p);
    XorAssociates(l, WordAt(data, p), 0);
    var l1 := Zeros(Xor(l, WordAt(data, p)), 4);
    FoldWord(l1, data, p + 4);
    XorAssociates(l1, WordAt(data, p + 4), 0);
    var l2 := Zeros(Xor(l1, WordAt(data, p + 4)), 4);
    FoldWord(l2, data, p + 8);
    XorAssociates(l2, WordAt(data, p + 8), 0);
    var l3 := Zeros(Xor(l2, WordAt(data, p + 8)), 4);
    FoldWord(l3, data, p + 12);
    XorAssociates(l3, WordAt(data, p + 12), 0);
  }

  // A word into the first lane, which then comes last.
  lemma OneWord(t: Tables, c0: bv32, c1: bv32, c2: bv32, c3: bv32, data: seq<bv8>, p: nat)
    requires TablesOk(t) && p + 4 <= |data|
    ensures Fold(Combined(c1, c2, c3, Xor(WordAt(data, p), StrideStep(t, c0))), data[p + 4..])
         == Fold(Combined(c0, c1, c2, c3), data[p..])
  {
    StrideStepIsZeros(t, c0);
    hide Xor, Zeros, Word, Fold, StrideStep, Combined;
    FoldWord(Combined(c0, c1, c2, c3), data, p);
    LaneStep(c0, c1, c2, c3, WordAt(data, p));
  }

  // Four words into the four lanes in place are four single words with the lanes turned round once.
  lemma Swath(t: Tables, c0: bv32, c1: bv32, c2: bv32, c3: bv32, data: seq<bv8>, p: nat)
    requires TablesOk(t) && p + 16 <= |data|
    ensures Fold(Combined(Xor(WordAt(data, p), StrideStep(t, c0)), Xor(WordAt(data, p + 4), StrideStep(t, c1)),
                          Xor(WordAt(data, p + 8), StrideStep(t, c2)), Xor(WordAt(data, p + 12), StrideStep(t, c3))),
                 data[p + 16..])
         == Fold(Combined(c0, c1, c2, c3), data[p..])
  {
    hide Xor, Zeros, WordAt, Fold, StrideStep, Combined, TablesOk;
    var d0 := Xor(WordAt(data, p), StrideStep(t, c0));
    OneWord(t, c0, c1, c2, c3, data, p);
    var d1 := Xor(WordAt(data, p + 4), StrideStep(t, c1));
    OneWord(t, c1, c2, c3, d0, data, p + 4);
    var d2 := Xor(WordAt(data, p + 8), StrideStep(t, c2));
    OneWord(t, c2, c3, d0, d1, data, p + 8);
    OneWord(t, c3, d0, d1, d2, data, p + 12);
  }

  /** Extending over two pieces is extending over their concatenation. */
  lemma ExtendComposes(crc: bv32, a: seq<bv8>, b: seq<bv8>)
    ensures Extended(Extended(crc, a), b) == Extended(crc, a + b)
  {
    hide Fold, Xor;
    FoldConcat(Xor(crc, CRC32_XOR), a, b);
    XorCancels(Fold(Xor(crc, CRC32_XOR), a), CRC32_XOR);
  }

  lemma {:induction false} FoldConcat(l: bv32, a: seq<bv8>, b: seq<bv8>)
    ensures Fold(l, a + b) == Fold(Fold(l, a), b)
    decreases |a|
  {
    hide Bits, Xor;
    if a == [] {
      assert a + b == b;
    } else {
      assert (a + b)[1..] == a[1..] + b;
      FoldConcat(Bits(Xor(l, a[0] as bv32), 8), a[1..], b);
    }
  }

  lemma NextByte(l: bv32, data: seq<bv8>, p: nat, next: bv32)
    requires p < |data| && Bits(Xor(l, Wide(data[p])), 8) == next
    ensures Fold(l, data[p..]) == Fold(next, data[p + 1..])
  {
    hide Bits, Xor, Wide;
    FoldOne(l, data, p);
  }

  // The digits 1 to 9 in ASCII.
  const DIGITS: seq<bv8> := [0x31, 0x32, 0x33, 0x34, 0x35, 0x36, 0x37, 0x38, 0x39]

  // The remainder after each digit.
  lemma DigitSteps()
    ensures Xor(0, CRC32_XOR) == 0xffffffff && Xor(0x1cf96d7c, CRC32_XOR) == 0xe3069283
    ensures Bits(Xor(0xffffffff, Wide(0x31)), 8) == 0x6f0a661c
    ensures Bits(Xor(0x6f0a661c, Wide(0x32)), 8) == 0x8caa3b9f
    ensures Bits(Xor(0x8caa3b9f, Wide(0x33)), 8) == 0xef84d04d
    ensures Bits(Xor(0xef84d04d, Wide(0x34)), 8) == 0x09c50b11
    ensures Bits(Xor(0x09c50b11, Wide(0x35)), 8) == 0xe72edcca
    ensures Bits(Xor(0xe72edcca, Wide(0x36)), 8) == 0xbeca8e79
    ensures Bits(Xor(0xbeca8e79, Wide(0x37)), 8) == 0xedbd6815
    ensures Bits(Xor(0xedbd6815, Wide(0x38)), 8) == 0x9f787f65
    ensures Bits(Xor(0x9f787f65, Wide(0x39)), 8) == 0x1cf96d7c
  {
    EightBits(0xffffffce);
    EightBits(0x6f0a662e);
    EightBits(0x8caa3bac);
    EightBits(0xef84d079);
    EightBits(0x09c50b24);
    EightBits(0xe72edcfc);
    EightBits(0xbeca8e4e);
    EightBits(0xedbd682d);
    EightBits(0x9f787f5c);
  }

  lemma FirstDigits()
    ensures Fold(0xffffffff, DIGITS[0..]) == Fold(0x09c50b11, DIGITS[4..])
  {
    hide Bits, Xor, Wide, Fold;
    DigitSteps();
    NextByte(0xffffffff, DIGITS, 0, 0x6f0a661c);
    NextByte(0x6f0a661c, DIGITS, 1, 0x8caa3b9f);
    NextByte(0x8caa3b9f, DIGITS, 2, 0xef84d04d);
    NextByte(0xef84d04d, DIGITS, 3, 0x09c50b11);
  }

  lemma LastDigits()
    ensures Fold(0x09c50b11, DIGITS[4..]) == 0x1cf96d7c
  {
    hide Bits, Xor, Wide, Fold;
    DigitSteps();
    NextByte(0x09c50b11, DIGITS, 4, 0xe72edcca);
    NextByte(0xe72edcca, DIGITS, 5, 0xbeca8e79);
    NextByte(0xbeca8e79, DIGITS, 6, 0xedbd6815);
    NextByte(0xedbd6815, DIGITS, 7, 0x9f787f65);
    NextByte(0x9f787f65, DIGITS, 8, 0x1cf96d7c);
    FoldNothing(0x1cf96d7c, DIGITS[9..]);
  }

  /** The checksum of the nine digits, which is how the polynomial, the bit order and both inversions are checked. */
  lemma CheckValue()
    ensures Extended(0, DIGITS) == 0xe3069283
  {
    hide Bits, Xor, Wide, Fold;
    DigitSteps();
    FirstDigits();
    LastDigits();
    assert DIGITS[0..] == DIGITS;
  }

  // ----- Masked checksums

  function RotateRight15(x: bv32): bv32 {
    (x >> 15) | (x << 17)
  }

  function RotateRight17(x: bv32): bv32 {
    (x >> 17) | (x << 15)
  }

  function Mask(crc: bv32): bv32 {
    RotateRight15(crc) + MASK_DELTA
  }

  function Unmask(masked: bv32): bv32 {
    RotateRight17(masked - MASK_DELTA)
  }

  lemma UnmaskInvertsMask(crc: bv32)
    ensures Unmask(Mask(crc)) == crc && Mask(Unmask(crc)) == crc
  {
    Rotations(crc);
    Rotations(crc - MASK_DELTA);
    AddSubtract(RotateRight15(crc));
    AddSubtract(crc);
    hide RotateRight15, RotateRight17;
  }

  // The low 15 bits go to the top, the others down, and the constant is added.
  lemma MaskedBits()
    ensures Mask(0) == 0xa282ead8 && Mask(1) == 0xa284ead8 && Mask(0x8000) == 0xa282ead9
  {
  }

  lemma Rotations(x: bv32)
    ensures RotateRight17(RotateRight15(x)) == x && RotateRight15(RotateRight17(x)) == x
  {
  }

  lemma AddSubtract(x: bv32)
    ensures x + MASK_DELTA - MASK_DELTA == x && x - MASK_DELTA + MASK_DELTA == x
  {
  }
}
