/** Block handles, the footer and stored blocks of a table file (table/format.h, table/format.cc). */
module TableFormat {
  import opened Wrappers
  import opened DbFormat
  import opened Coding
  import opened Checksum

  const BLOCK_TRAILER_SIZE: nat := 5
  const MAX_ENCODED_LENGTH: nat := 20
  const FOOTER_LENGTH: nat := 48
  const TABLE_MAGIC_NUMBER: nat := 0xdb4775248b80fb57
  const NO_COMPRESSION: byte := 0

  datatype BlockHandle = BlockHandle(offset: nat, size: nat) {
    predicate Fits() {
      offset < TWO64 && size < TWO64
    }

    function Encode(): (b: Bytes)
      ensures |b| <= MAX_ENCODED_LENGTH
    {
      VarintRoundTrip(offset % TWO64, []);
      VarintRoundTrip(size % TWO64, []);
      Varint(offset % TWO64) + Varint(size % TWO64)
    }
  }

  function DecodeHandle(input: Bytes): Option<Parsed<BlockHandle>> {
    var r := GetVarint64(input);
    if r.None? then None
    else
      var s := GetVarint64(r.value.rest);
      if s.None? then None else Some(Parsed(BlockHandle(r.value.value, s.value.value), s.value.rest))
  }

  lemma HandleRoundTrip(h: BlockHandle, rest: Bytes)
    requires h.Fits()
    ensures DecodeHandle(h.Encode() + rest) == Some(Parsed(h, rest))
  {
    hide Varint, GetVarint64;
    assert h.Encode() + rest == Varint(h.offset) + (Varint(h.size) + rest);
    VarintRoundTrip(h.offset, Varint(h.size) + rest);
    VarintRoundTrip(h.size, rest);
  }

  // ----- The footer

  datatype Footer = Footer(metaindex: BlockHandle, index: BlockHandle)

  function Padding(n: nat): (b: Bytes)
    ensures |b| == n
  {
    seq(n, _ => 0)
  }

  function EncodeFooter(f: Footer): (b: Bytes)
    ensures |b| == FOOTER_LENGTH
  {
    var handles := f.metaindex.Encode() + f.index.Encode();
    handles + Padding(2 * MAX_ENCODED_LENGTH - |handles|)
      + Fixed32(TABLE_MAGIC_NUMBER % TWO32) + Fixed32(TABLE_MAGIC_NUMBER / TWO32)
  }

  function DecodeFooter(b: Bytes): Option<Footer>
    requires |b| == FOOTER_LENGTH
  {
    var magic := DecodeFixed32(b[40..44]) + TWO32 * DecodeFixed32(b[44..48]);
    if magic != TABLE_MAGIC_NUMBER then None
    else
      var r := DecodeHandle(b);
      if r.None? then None
      else
        var s := DecodeHandle(r.value.rest);
        if s.None? then None else Some(Footer(r.value.value, s.value.value))
  }

  lemma FooterRoundTrip(f: Footer)
    requires f.metaindex.Fits() && f.index.Fits()
    ensures DecodeFooter(EncodeFooter(f)) == Some(f)
  {
    hide DecodeHandle, FromFixed, Fixed;
    var (m, i) := (f.metaindex.Encode(), f.index.Encode());
    var padding := Padding(2 * MAX_ENCODED_LENGTH - |m + i|);
    var magic := Fixed32(TABLE_MAGIC_NUMBER % TWO32) + Fixed32(TABLE_MAGIC_NUMBER / TWO32);
    var rest := padding + magic;
    var b := EncodeFooter(f);
    assert b == m + (i + rest);
    assert b[40..44] == Fixed32(TABLE_MAGIC_NUMBER % TWO32) && b[44..48] == Fixed32(TABLE_MAGIC_NUMBER / TWO32);
    HandleRoundTrip(f.metaindex, i + rest);
    HandleRoundTrip(f.index, rest);
  }

  /** The last eight bytes of a footer tell a table file. */
  lemma MagicBytes(f: Footer)
    ensures EncodeFooter(f)[40..] == [0x57, 0xfb, 0x80, 0x8b, 0x24, 0x75, 0x47, 0xdb]
  {
    var low, high := Fixed32(TABLE_MAGIC_NUMBER % TWO32), Fixed32(TABLE_MAGIC_NUMBER / TWO32);
    LowMagic();
    HighMagic();
    hide Fixed;
    assert EncodeFooter(f)[40..] == low + high;
  }

  lemma LowMagic()
    ensures Fixed(0x8b80fb57, 4) == [0x57, 0xfb, 0x80, 0x8b]
  {
    assert Fixed(0x8b80, 2) == [0x80, 0x8b] && Fixed(0x8b80fb, 3) == [0xfb, 0x80, 0x8b];
  }

  lemma HighMagic()
    ensures Fixed(0xdb477524, 4) == [0x24, 0x75, 0x47, 0xdb]
  {
    assert Fixed(0xdb47, 2) == [0x47, 0xdb] && Fixed(0xdb4775, 3) == [0x75, 0x47, 0xdb];
  }

  /** A file without them is not read as a table. */
  lemma OtherMagic(b: Bytes)
    requires |b| == FOOTER_LENGTH && DecodeFooter(b).Some?
    ensures b[40..] == [0x57, 0xfb, 0x80, 0x8b, 0x24, 0x75, 0x47, 0xdb]
  {
    hide Fixed, FromFixed, DecodeHandle;
    LowMagic();
    HighMagic();
    SplitMagic(DecodeFixed32(b[40..44]), DecodeFixed32(b[44..48]));
    assert b[40..] == b[40..44] + b[44..48];
  }

  lemma SplitMagic(low: nat, high: nat)
    requires low < TWO32 && low + TWO32 * high == TABLE_MAGIC_NUMBER
    ensures low == 0x8b80fb57 && high == 0xdb477524
  {
  }

  // ----- Stored blocks

  // What WriteRawBlock puts behind the contents: the compression type and a checksum that covers it.
  function Trailer(raw: Bytes): (b: Bytes)
    ensures |b| == BLOCK_TRAILER_SIZE
  {
    [NO_COMPRESSION] + Fixed32(Stored(Extend(Value(raw), [NO_COMPRESSION])))
  }

  // ReadBlock for uncompressed blocks.
  function ReadBlock(file: Bytes, h: BlockHandle, verify: bool): Option<Bytes> {
    if h.offset + h.size + BLOCK_TRAILER_SIZE > |file| then None
    else
      var data := file[h.offset..h.offset + h.size + BLOCK_TRAILER_SIZE];
      if verify && !Matches(DecodeFixed32(data[h.size + 1..]), data[..h.size + 1]) then None
      else if data[h.size] != NO_COMPRESSION then None
      else Some(data[..h.size])
  }

  ghost predicate InFile(file: Bytes, h: BlockHandle, raw: Bytes) {
    var end := h.offset + h.size + BLOCK_TRAILER_SIZE;
    h.size == |raw| && end <= |file| && file[h.offset..end] == raw + Trailer(raw)
  }

  /** A stored block reads back as its contents, with or without checking the checksum. */
  lemma ReadStored(file: Bytes, h: BlockHandle, raw: Bytes, verify: bool)
    requires InFile(file, h, raw)
    ensures ReadBlock(file, h, verify) == Some(raw)
  {
    hide Matches, Value, Stored, Extend, FromFixed;
    ExtendValue(raw, [NO_COMPRESSION]);
    StoredMatches(raw + [NO_COMPRESSION]);
    var data := file[h.offset..h.offset + h.size + BLOCK_TRAILER_SIZE];
    assert data == raw + [NO_COMPRESSION] + Fixed32(Stored(Extend(Value(raw), [NO_COMPRESSION])));
    assert data[..h.size + 1] == raw + [NO_COMPRESSION];
    assert data[h.size + 1..] == Fixed32(Stored(Extend(Value(raw), [NO_COMPRESSION])));
  }

  /** With the checksum checked, a block is read exactly where it and its trailer stand. */
  lemma ReadOnlyStored(file: Bytes, h: BlockHandle, raw: Bytes)
    ensures ReadBlock(file, h, true) == Some(raw) <==> InFile(file, h, raw)
  {
    hide Matches, Value, Stored, Extend, FromFixed;
    if InFile(file, h, raw) {
      ReadStored(file, h, raw, true);
    }
    if ReadBlock(file, h, true) == Some(raw) {
      var data := file[h.offset..h.offset + h.size + BLOCK_TRAILER_SIZE];
      ExtendValue(raw, [NO_COMPRESSION]);
      assert data[..h.size + 1] == raw + [NO_COMPRESSION];
      MatchesOnlyStored(DecodeFixed32(data[h.size + 1..]), raw + [NO_COMPRESSION]);
      assert data == data[..h.size] + [data[h.size]] + data[h.size + 1..];
    }
  }

  /** Without, it is read wherever a type byte for uncompressed data follows. */
  lemma ReadUnchecked(file: Bytes, h: BlockHandle, raw: Bytes)
    ensures ReadBlock(file, h, false) == Some(raw) <==>
              && h.offset + h.size + BLOCK_TRAILER_SIZE <= |file| && h.size == |raw|
              && file[h.offset..h.offset + h.size + 1] == raw + [NO_COMPRESSION]
  {
    if h.offset + h.size + BLOCK_TRAILER_SIZE <= |file| {
      var data := file[h.offset..h.offset + h.size + BLOCK_TRAILER_SIZE];
      var piece := file[h.offset..h.offset + h.size + 1];
      assert piece == data[..h.size] + [data[h.size]];
      if h.size == |raw| && piece == raw + [NO_COMPRESSION] {
        assert piece[..h.size] == raw && piece[h.size] == NO_COMPRESSION;
      }
    }
  }

  lemma StillInFile(file: Bytes, longer: Bytes, h: BlockHandle, raw: Bytes)
    requires InFile(file, h, raw) && file <= longer
    ensures InFile(longer, h, raw)
  {
    hide Trailer;
    var end := h.offset + h.size + BLOCK_TRAILER_SIZE;
    assert longer[h.offset..end] == file[h.offset..end];
  }

  lemma OffsetInFile(file: Bytes, h: BlockHandle, raw: Bytes)
    requires InFile(file, h, raw)
    ensures h.offset < |file|
  {
  }

  lemma JustWritten(file: Bytes, raw: Bytes)
    ensures InFile(file + raw + Trailer(raw), BlockHandle(|file|, |raw|), raw)
  {
    hide Trailer;
    var whole := file + raw + Trailer(raw);
    assert whole[|file|..] == raw + Trailer(raw);
  }
}
