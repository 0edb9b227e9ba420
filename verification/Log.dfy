/** The write-ahead log (db/log_format.h, db/log_writer.cc, db/log_reader.cc): records cut into fragments that never
    cross a 32 kB block, read back from any prefix of the file. */
module Log {
  import opened Wrappers
  import opened DbFormat
  import opened Coding
  import opened Checksum
  import Crc32c

  const BLOCK_SIZE: nat := 32768
  const HEADER_SIZE: nat := 7

  const ZERO_TYPE: byte := 0
  const FULL_TYPE: byte := 1
  const FIRST_TYPE: byte := 2
  const MIDDLE_TYPE: byte := 3
  const LAST_TYPE: byte := 4

  datatype Fragment = Fragment(kind: byte, payload: Bytes)

  predicate FragmentOk(f: Fragment) {
    |f.payload| <= BLOCK_SIZE - HEADER_SIZE && ZERO_TYPE < f.kind <= LAST_TYPE
  }

  // ----- The format

  function LowByte(n: nat): byte {
    n % 256
  }

  function HighByte(n: nat): byte {
    n / 256 % 256
  }

  function Header(f: Fragment): (h: Bytes)
    ensures |h| == HEADER_SIZE
  {
    Fixed32(Stored(Value([f.kind] + f.payload))) + [LowByte(|f.payload|), HighByte(|f.payload|), f.kind]
  }

  function Physical(f: Fragment): (b: Bytes)
    ensures |b| == HEADER_SIZE + |f.payload|
  {
    Header(f) + f.payload
  }

  // What is left of the block at this position of the file.
  function Leftover(pos: nat): (n: nat)
    ensures 1 <= n <= BLOCK_SIZE
  {
    BLOCK_SIZE - pos % BLOCK_SIZE
  }

  function Zeros(n: nat): (z: Bytes)
    ensures |z| == n
  {
    if n == 0 then [] else Zeros(n - 1) + [0]
  }

  // A block with no room for a header is filled up.
  function Trailer(pos: nat): Bytes {
    if Leftover(pos) < HEADER_SIZE then Zeros(Leftover(pos)) else []
  }

  ghost function Encoded(frags: seq<Fragment>): Bytes {
    if frags == [] then []
    else
      var before := Encoded(frags[..|frags| - 1]);
      before + Trailer(|before|) + Physical(frags[|frags| - 1])
  }

  // Where fragment i starts and where the fragments before it end.
  ghost function EndOf(frags: seq<Fragment>, i: nat): nat
    requires i <= |frags|
  {
    |Encoded(frags[..i])|
  }

  ghost function StartOf(frags: seq<Fragment>, i: nat): nat
    requires i <= |frags|
  {
    EndOf(frags, i) + |Trailer(EndOf(frags, i))|
  }

  // No fragment crosses a block.
  ghost predicate Fit(frags: seq<Fragment>) {
    forall i :: 0 <= i < |frags| ==>
      FragmentOk(frags[i]) && HEADER_SIZE + |frags[i].payload| <= Leftover(StartOf(frags, i))
  }

  lemma {:induction false} EncodedPrefix(frags: seq<Fragment>, i: nat)
    requires i <= |frags|
    ensures Encoded(frags[..i]) <= Encoded(frags)
  {
    if i == |frags| {
      assert frags[..i] == frags;
    } else {
      var n := |frags| - 1;
      assert frags[..n][..i] == frags[..i];
      EncodedPrefix(frags[..n], i);
    }
  }

  lemma FragmentAt(frags: seq<Fragment>, i: nat)
    requires i < |frags|
    ensures EndOf(frags, i + 1) == StartOf(frags, i) + HEADER_SIZE + |frags[i].payload|
    ensures EndOf(frags, i + 1) <= |Encoded(frags)|
    ensures Encoded(frags)[StartOf(frags, i)..EndOf(frags, i + 1)] == Physical(frags[i])
  {
    hide Physical, Trailer, Leftover;
    assert frags[..i + 1][..i] == frags[..i];
    var before := Encoded(frags[..i]);
    assert Encoded(frags[..i + 1]) == before + Trailer(|before|) + Physical(frags[i]);
    EncodedPrefix(frags, i + 1);
    PieceOfPrefix(before + Trailer(|before|), Physical(frags[i]), Encoded(frags));
  }

  lemma PieceOfPrefix(a: Bytes, b: Bytes, whole: Bytes)
    requires a + b <= whole
    ensures whole[|a|..|a| + |b|] == b
  {
    assert whole[..|a| + |b|] == a + b;
  }

  lemma {:induction false} EndsAscend(frags: seq<Fragment>, i: nat, j: nat)
    requires i <= j <= |frags|
    ensures i < j ==> EndOf(frags, i) + HEADER_SIZE <= EndOf(frags, j)
    decreases j - i
  {
    hide Encoded, Physical, Trailer, EndOf, Leftover;
    if i < j {
      FragmentAt(frags, j - 1);
      EndsAscend(frags, i, j - 1);
    }
  }

  // ----- Records

  function Joined(frags: seq<Fragment>): Bytes {
    if frags == [] then [] else Joined(frags[..|frags| - 1]) + frags[|frags| - 1].payload
  }

  // The first fragments of a record whose last one is still missing.
  predicate Open(group: seq<Fragment>) {
    && (group != [] ==> group[0].kind == FIRST_TYPE)
    && forall i :: 1 <= i < |group| ==> group[i].kind == MIDDLE_TYPE
  }

  predicate Spells(group: seq<Fragment>, record: Bytes) {
    && group != [] && Joined(group) == record
    && Open(group[..|group| - 1])
    && group[|group| - 1].kind == if |group| == 1 then FULL_TYPE else LAST_TYPE
  }

  function Flat(groups: seq<seq<Fragment>>): seq<Fragment> {
    if groups == [] then [] else Flat(groups[..|groups| - 1]) + groups[|groups| - 1]
  }

  ghost predicate Spelled(groups: seq<seq<Fragment>>, records: seq<Bytes>) {
    |groups| == |records| && forall r :: 0 <= r < |records| ==> Spells(groups[r], records[r])
  }

  // ----- The writer

  // The file holds these records, spelled by these groups of fragments.
  ghost predicate Holds(file: Bytes, frags: seq<Fragment>, groups: seq<seq<Fragment>>,
                        records: seq<Bytes>) {
    && file == Encoded(frags) && Fit(frags)
    && frags == Flat(groups) && Spelled(groups, records)
  }

  // InitTypeCrc.
  function TypeCrcs(): seq<bv32> {
    [Value([ZERO_TYPE]), Value([FULL_TYPE]), Value([FIRST_TYPE]), Value([MIDDLE_TYPE]), Value([LAST_TYPE])]
  }

  class Writer {
    // The checksums of the type bytes, extended by each payload.
    const typeCrc: seq<bv32>
    var file: Bytes
    var blockOffset: nat
    ghost var frags: seq<Fragment>
    ghost var groups: seq<seq<Fragment>>
    ghost var records: seq<Bytes>

    ghost predicate AtOffset()
      reads this
    {
      typeCrc == TypeCrcs() && blockOffset <= BLOCK_SIZE && blockOffset % BLOCK_SIZE == |file| % BLOCK_SIZE
    }

    ghost predicate Ok()
      reads this
    {
      AtOffset() && Holds(file, frags, groups, records)
    }

    constructor ()
      ensures Ok() && records == [] && file == []
    {
      assert Holds([], [], [], []);
      hide Holds, Fit, Encoded, Flat, Spelled, TypeCrcs;
      typeCrc, file, blockOffset := TypeCrcs(), [], 0;
      frags, groups, records := [], [], [];
    }

    /** Goes on at the end of a file that is already there, be it a log or a log whose end was cut off. */
    constructor Reopen(contents: Bytes, ghost frags: seq<Fragment>, ghost groups: seq<seq<Fragment>>,
                       ghost records: seq<Bytes>)
      ensures AtOffset() && file == contents
      ensures Holds(contents, frags, groups, records) ==> Ok() && this.records == records
    {
      hide Holds, Fit, Encoded, Flat, Spelled, TypeCrcs;
      typeCrc, file, blockOffset := TypeCrcs(), contents, |contents| % BLOCK_SIZE;
      this.frags, this.groups, this.records := frags, groups, records;
    }

    method EmitPhysicalRecord(kind: byte, payload: Bytes)
      requires AtOffset() && blockOffset + HEADER_SIZE + |payload| <= BLOCK_SIZE && ZERO_TYPE < kind <= LAST_TYPE
      modifies `file, `blockOffset
      ensures AtOffset() && blockOffset == old(blockOffset) + HEADER_SIZE + |payload|
      ensures file == old(file) + Physical(Fragment(kind, payload))
    {
      hide Value, Extend, Stored;
      var length := |payload|;
      ExtendValue([kind], payload);
      var buf := Fixed32(Stored(Extend(typeCrc[kind], payload))) + [LowByte(length), HighByte(length), kind];
      file := file + buf;
      file := file + payload;
      blockOffset := blockOffset + HEADER_SIZE + length;
      assert old(file) + buf + payload == old(file) + (buf + payload);
    }

    // One turn of the loop of AddRecord: fills up a block with no room for a header, and emits what fits.
    method EmitFragment(record: Bytes, ptr: nat, begin: bool) returns (length: nat, ghost f: Fragment)
      requires AtOffset() && ptr <= |record|
      modifies `file, `blockOffset
      ensures AtOffset() && blockOffset <= BLOCK_SIZE && ptr + length <= |record|
      ensures length == 0 && ptr < |record| ==> blockOffset == BLOCK_SIZE == old(blockOffset) + HEADER_SIZE
      ensures IsNext(f, record, ptr, length, begin)
      ensures Appends(old(file), f, file)
    {
      hide Physical, TypeCrcs;
      var leftover := BLOCK_SIZE - blockOffset;
      TrailerWritten(file, leftover);
      if leftover < HEADER_SIZE {
        if leftover > 0 {
          file := file + Zeros(leftover);
        }
        blockOffset := 0;
      }
      assert file == old(file) + Trailer(old(|file|));
      var avail: nat := BLOCK_SIZE - blockOffset - HEADER_SIZE;
      var left: nat := |record| - ptr;
      length := if left < avail then left else avail;
      var end := left == length;
      var kind := if begin && end then FULL_TYPE else if begin then FIRST_TYPE else if end then LAST_TYPE else MIDDLE_TYPE;
      f := Fragment(kind, record[ptr..ptr + length]);
      EmitPhysicalRecord(kind, record[ptr..ptr + length]);
    }

    /** Appends one record, cut at block boundaries. */
    method AddRecord(record: Bytes)
      requires AtOffset()
      modifies this
      ensures AtOffset() && old(file) <= file
      ensures old(Ok()) ==> Ok() && records == old(records) + [record]
    {
      hide Fit, Encoded, Midway, Spelled, Flat, TypeCrcs, Holds;
      ghost var whole := Ok();
      if whole {
        MidwayStarts(file, frags, groups, records, record);
      }
      ghost var group := EmitFragments(record, frags, whole);
      if whole {
        HoldsAgain(file, frags, groups, records, group, record, old(file));
      }
      frags, groups, records := frags + group, groups + [group], records + [record];
    }

    // The loop of AddRecord.
    method EmitFragments(record: Bytes, ghost frags: seq<Fragment>, ghost whole: bool) returns (ghost group: seq<Fragment>)
      requires AtOffset() && (whole ==> Midway(file, frags, [], 0, false, record))
      modifies `file, `blockOffset
      ensures AtOffset() && old(file) <= file && (whole ==> Midway(file, frags, group, |record|, true, record))
    {
      hide Fit, Encoded, Midway, IsNext, Appends, TypeCrcs;
      var begin, end := true, false;
      var ptr: nat := 0;
      group := [];
      while !end
        invariant AtOffset() && blockOffset <= BLOCK_SIZE && begin == (group == []) && ptr <= |record|
        invariant end == (ptr == |record| && !begin)
        invariant old(file) <= file && (whole ==> Midway(file, frags, group, ptr, end, record))
        decreases !end, |record| - ptr, 2 * BLOCK_SIZE - blockOffset
      {
        ghost var before := file;
        var length, f := EmitFragment(record, ptr, begin);
        AppendsBehind(before, f, file);
        if whole {
          MidwayGoesOn(before, file, frags, group, ptr, record, f, length);
        }
        group := group + [f];
        ptr := ptr + length;
        begin, end := false, ptr == |record|;
      }
    }
  }

  // The fragment AddRecord cuts off next.
  ghost predicate IsNext(f: Fragment, record: Bytes, ptr: nat, length: nat, begin: bool)
    requires ptr + length <= |record|
  {
    var end := ptr + length == |record|;
    && FragmentOk(f) && f.payload == record[ptr..ptr + length]
    && f.kind == if begin && end then FULL_TYPE else if begin then FIRST_TYPE else if end then LAST_TYPE else MIDDLE_TYPE
  }

  ghost predicate Appends(before: Bytes, f: Fragment, after: Bytes) {
    && HEADER_SIZE + |f.payload| <= Leftover(|before| + |Trailer(|before|)|)
    && after == before + Trailer(|before|) + Physical(f)
  }

  lemma AppendsBehind(before: Bytes, f: Fragment, after: Bytes)
    requires Appends(before, f, after)
    ensures before <= after
  {
    hide Physical, Trailer;
  }

  // Part of a record has been written after whole ones.
  ghost predicate Midway(file: Bytes, frags: seq<Fragment>, group: seq<Fragment>, ptr: nat, end: bool, record: Bytes)
    requires ptr <= |record|
  {
    && file == Encoded(frags + group) && Fit(frags + group)
    && if end then Spells(group, record) else Open(group) && Joined(group) == record[..ptr]
  }

  lemma MidwayStarts(file: Bytes, frags: seq<Fragment>, groups: seq<seq<Fragment>>, records: seq<Bytes>, record: Bytes)
    requires Holds(file, frags, groups, records)
    ensures Midway(file, frags, [], 0, false, record)
  {
    assert frags + [] == frags;
  }

  lemma MidwayGoesOn(before: Bytes, file: Bytes, frags: seq<Fragment>, group: seq<Fragment>, ptr: nat, record: Bytes,
                     f: Fragment, length: nat)
    requires ptr + length <= |record| && Midway(before, frags, group, ptr, false, record)
    requires IsNext(f, record, ptr, length, group == []) && Appends(before, f, file)
    ensures Midway(file, frags, group + [f], ptr + length, ptr + length == |record|, record)
  {
    hide Encoded, Fit, Trailer, Physical, FragmentOk, Spells, Open, Joined, Leftover;
    Appended(frags + group, f);
    assert frags + group + [f] == frags + (group + [f]);
    GroupGrows(group, f, record, ptr, length);
  }

  lemma HoldsAgain(file: Bytes, frags: seq<Fragment>, groups: seq<seq<Fragment>>, records: seq<Bytes>,
                   group: seq<Fragment>, record: Bytes, before: Bytes)
    requires Holds(before, frags, groups, records) && Midway(file, frags, group, |record|, true, record)
    ensures Holds(file, frags + group, groups + [group], records + [record])
  {
    HoldsMore(file, frags, groups, records, group, record);
  }

  lemma HoldsMore(file: Bytes, frags: seq<Fragment>, groups: seq<seq<Fragment>>, records: seq<Bytes>,
                  group: seq<Fragment>, record: Bytes)
    requires frags == Flat(groups) && Spelled(groups, records) && Spells(group, record)
    requires file == Encoded(frags + group) && Fit(frags + group)
    ensures Holds(file, frags + group, groups + [group], records + [record])
  {
    RecordAdded(groups, records, group, record);
  }

  lemma TrailerWritten(file: Bytes, leftover: nat)
    requires leftover <= BLOCK_SIZE && (BLOCK_SIZE - leftover) % BLOCK_SIZE == |file| % BLOCK_SIZE
    ensures Trailer(|file|) == if 0 < leftover < HEADER_SIZE then Zeros(leftover) else []
    ensures var start := |file| + |Trailer(|file|)|;
            start % BLOCK_SIZE == (if leftover < HEADER_SIZE then 0 else BLOCK_SIZE - leftover) % BLOCK_SIZE
  {
    var n := |file|;
    assert n == n / BLOCK_SIZE * BLOCK_SIZE + n % BLOCK_SIZE;
    if 0 < leftover < HEADER_SIZE {
      assert n % BLOCK_SIZE == BLOCK_SIZE - leftover;
      assert n + leftover == (n / BLOCK_SIZE + 1) * BLOCK_SIZE;
    } else if leftover == 0 {
      assert n % BLOCK_SIZE == 0;
    }
  }

  lemma Appended(frags: seq<Fragment>, f: Fragment)
    requires Fit(frags) && FragmentOk(f)
    requires var end := |Encoded(frags)|; HEADER_SIZE + |f.payload| <= Leftover(end + |Trailer(end)|)
    ensures var before := Encoded(frags);
            Encoded(frags + [f]) == before + Trailer(|before|) + Physical(f)
    ensures Fit(frags + [f])
  {
    EncodedSnoc(frags, f);
    hide Physical, Trailer, FragmentOk, Leftover, Encoded;
    forall i | 0 <= i <= |frags|
      ensures StartOf(frags + [f], i) == StartOf(frags, i)
    {
      assert (frags + [f])[..i] == frags[..i];
    }
    assert frags[..|frags|] == frags;
  }

  lemma EncodedSnoc(frags: seq<Fragment>, f: Fragment)
    ensures var before := Encoded(frags);
            Encoded(frags + [f]) == before + Trailer(|before|) + Physical(f)
  {
    hide Physical, Trailer;
    assert (frags + [f])[..|frags|] == frags;
  }

  lemma GroupGrows(group: seq<Fragment>, f: Fragment, record: Bytes, ptr: nat, length: nat)
    requires ptr + length <= |record| && Open(group) && Joined(group) == record[..ptr]
    requires IsNext(f, record, ptr, length, group == [])
    ensures Joined(group + [f]) == record[..ptr + length]
    ensures if ptr + length == |record| then Spells(group + [f], record) else Open(group + [f])
  {
    assert (group + [f])[..|group|] == group;
    assert record[..ptr + length] == record[..ptr] + record[ptr..ptr + length];
  }

  lemma RecordAdded(groups: seq<seq<Fragment>>, records: seq<Bytes>, group: seq<Fragment>, record: Bytes)
    requires Spelled(groups, records) && Spells(group, record)
    ensures Flat(groups + [group]) == Flat(groups) + group && Spelled(groups + [group], records + [record])
  {
    assert (groups + [group])[..|groups|] == groups;
  }

  // ----- The reader

  // What the reader keeps: how far it has read the file, the unread rest of its block, whether the file ended, and how
  // many corruptions it has reported.
  datatype State = State(filePos: nat, buffer: Bytes, eof: bool, reports: nat)

  const FRESH: State := State(0, [], false, 0)

  datatype Outcome = Eof | Bad | Record(kind: byte, payload: Bytes)

  function Length(header: Bytes): nat
    requires |header| >= HEADER_SIZE
  {
    header[4] as int + 256 * header[5] as int
  }

  predicate StateOk(file: Bytes, st: State) {
    st.filePos <= |file|
  }

  // The part of Reader::ReadPhysicalRecord behind the refill.
  function ParseBuffer(checksum: bool, st: State): (r: (Outcome, State))
    requires |st.buffer| >= HEADER_SIZE
    ensures r.1.filePos == st.filePos && r.1.eof == st.eof && |r.1.buffer| < |st.buffer|
  {
    var b := st.buffer;
    if HEADER_SIZE + Length(b) > |b| then
      if st.eof then (Eof, st.(buffer := [])) else (Bad, st.(buffer := [], reports := st.reports + 1))
    else if b[6] == ZERO_TYPE && Length(b) == 0 then
      (Bad, st.(buffer := []))
    else if checksum && !Matches(DecodeFixed32(b[..4]), b[6..HEADER_SIZE + Length(b)]) then
      (Bad, st.(buffer := [], reports := st.reports + 1))
    else
      (Record(b[6], b[HEADER_SIZE..HEADER_SIZE + Length(b)]), st.(buffer := b[HEADER_SIZE + Length(b)..]))
  }

  // Reader::ReadPhysicalRecord.
  function ReadPhysical(file: Bytes, checksum: bool, st: State): (r: (Outcome, State))
    requires StateOk(file, st)
    ensures StateOk(file, r.1)
    ensures !r.0.Eof? ==> Unread(file, r.1) < Unread(file, st)
    decreases !st.eof, |file| - st.filePos
  {
    if |st.buffer| >= HEADER_SIZE then ParseBuffer(checksum, st)
    else if !st.eof then ReadPhysical(file, checksum, NextBlock(file, st))
    else (Eof, st.(buffer := []))
  }

  function NextBlock(file: Bytes, st: State): (r: State)
    requires StateOk(file, st)
    ensures StateOk(file, r) && Unread(file, r) <= Unread(file, st)
    ensures !r.eof ==> r.filePos > st.filePos
  {
    var n := if |file| - st.filePos < BLOCK_SIZE then |file| - st.filePos else BLOCK_SIZE;
    State(st.filePos + n, file[st.filePos..st.filePos + n], n < BLOCK_SIZE, st.reports)
  }

  function Unread(file: Bytes, st: State): nat
    requires StateOk(file, st)
  {
    |file| - st.filePos + |st.buffer|
  }

  // Reader::ReadRecord in the middle of its loop.
  function ReadLogical(file: Bytes, checksum: bool, st: State, scratch: Bytes, fragmented: bool)
    : (r: (Option<Bytes>, State))
    requires StateOk(file, st)
    ensures StateOk(file, r.1)
    ensures r.0.Some? ==> Unread(file, r.1) < Unread(file, st)
    decreases Unread(file, st)
  {
    var (outcome, next) := ReadPhysical(file, checksum, st);
    match outcome
    case Eof => (None, next)
    case Bad =>
      if fragmented then ReadLogical(file, checksum, Report(next), [], false)
      else ReadLogical(file, checksum, next, scratch, false)
    case Record(kind, payload) =>
      if kind == FULL_TYPE then
        (Some(payload), if fragmented && scratch != [] then Report(next) else next)
      else if kind == FIRST_TYPE then
        ReadLogical(file, checksum, if fragmented && scratch != [] then Report(next) else next, payload, true)
      else if kind == MIDDLE_TYPE then
        if !fragmented then ReadLogical(file, checksum, Report(next), scratch, false)
        else ReadLogical(file, checksum, next, scratch + payload, true)
      else if kind == LAST_TYPE then
        if !fragmented then ReadLogical(file, checksum, Report(next), scratch, false)
        else (Some(scratch + payload), next)
      else
        ReadLogical(file, checksum, Report(next), [], false)
  }

  function Report(st: State): State {
    st.(reports := st.reports + 1)
  }

  /** A reader of the whole file, from its start. */
  class Reader {
    const file: Bytes
    const checksum: bool
    var filePos: nat
    var buffer: Bytes
    var eof: bool
    var reports: nat

    ghost predicate Ok()
      reads this
    {
      filePos <= |file|
    }

    ghost function Current(): State
      reads this
    {
      State(filePos, buffer, eof, reports)
    }

    constructor (file: Bytes, checksum: bool)
      ensures Ok() && this.file == file && this.checksum == checksum && Current() == FRESH
    {
      this.file, this.checksum := file, checksum;
      filePos, buffer, eof, reports := 0, [], false, 0;
    }

    method ReadPhysicalRecord() returns (outcome: Outcome)
      requires Ok()
      modifies this
      ensures Ok() && (outcome, Current()) == ReadPhysical(file, checksum, old(Current()))
    {
      hide Matches, DecodeFixed32, Length, NextBlock;
      while true
        invariant Ok()
        invariant ReadPhysical(file, checksum, Current()) == ReadPhysical(file, checksum, old(Current()))
        decreases !eof, |file| - filePos
      {
        if |buffer| < HEADER_SIZE {
          if !eof {
            ReadShort(file, checksum, Current());
            FillBuffer();
            continue;
          }
          buffer := [];
          return Eof;
        }
        var length := Length(buffer);
        if HEADER_SIZE + length > |buffer| {
          buffer := [];
          if !eof {
            reports := reports + 1;
            return Bad;
          }
          return Eof;
        }
        var kind := buffer[6];
        if kind == ZERO_TYPE && length == 0 {
          buffer := [];
          return Bad;
        }
        if checksum && !Matches(DecodeFixed32(buffer[..4]), buffer[6..HEADER_SIZE + length]) {
          buffer := [];
          reports := reports + 1;
          return Bad;
        }
        outcome := Record(kind, buffer[HEADER_SIZE..HEADER_SIZE + length]);
        buffer := buffer[HEADER_SIZE + length..];
        return;
      }
    }

    // Reads the next block, or what the file still has.
    method FillBuffer()
      requires Ok() && !eof
      modifies this
      ensures Ok() && Current() == NextBlock(file, old(Current()))
      ensures !eof ==> filePos > old(filePos)
    {
      var n := if |file| - filePos < BLOCK_SIZE then |file| - filePos else BLOCK_SIZE;
      buffer := file[filePos..filePos + n];
      filePos := filePos + n;
      if n < BLOCK_SIZE {
        eof := true;
      }
    }

    /** Assembles the next record; none when the file ends first. */
    method ReadRecord() returns (record: Option<Bytes>)
      requires Ok()
      modifies this
      ensures Ok() && (record, Current()) == ReadLogical(file, checksum, old(Current()), [], false)
    {
      hide ReadPhysical;
      var scratch: Bytes := [];
      var fragmented := false;
      while true
        invariant Ok()
        invariant ReadLogical(file, checksum, Current(), scratch, fragmented)
               == ReadLogical(file, checksum, old(Current()), [], false)
        decreases Unread(file, Current())
      {
        var outcome := ReadPhysicalRecord();
        match outcome {
          case Eof =>
            return None;
          case Bad =>
            if fragmented {
              reports := reports + 1;
              fragmented, scratch := false, [];
            }
          case Record(kind, payload) =>
            if kind == FULL_TYPE {
              if fragmented && scratch != [] {
                reports := reports + 1;
              }
              return Some(payload);
            } else if kind == FIRST_TYPE {
              if fragmented && scratch != [] {
                reports := reports + 1;
              }
              scratch, fragmented := payload, true;
            } else if kind == MIDDLE_TYPE {
              if !fragmented {
                reports := reports + 1;
              } else {
                scratch := scratch + payload;
              }
            } else if kind == LAST_TYPE {
              if !fragmented {
                reports := reports + 1;
              } else {
                return Some(scratch + payload);
              }
            } else {
              reports := reports + 1;
              fragmented, scratch := false, [];
            }
        }
      }
    }
  }

  // ----- Reading a prefix of a log

  // The reader has the rest of the block that position p is in, as far as the file goes.
  ghost predicate Buffered(file: Bytes, st: State, p: nat) {
    && p + |st.buffer| == st.filePos <= |file| && st.buffer == file[p..st.filePos]
    && |st.buffer| <= Leftover(p)
    && if st.eof then st.filePos == |file| else st.filePos % BLOCK_SIZE == 0
  }

  lemma HeaderFields(f: Fragment)
    requires |f.payload| < 0x1_0000
    ensures var b := Physical(f);
            && b[..4] == Fixed32(Stored(Value([f.kind] + f.payload))) && Length(b) == |f.payload|
            && b[6] == f.kind && b[6..] == [f.kind] + f.payload && b[7..] == f.payload
  {
    hide Stored, Value;
  }

  /** The bytes of a fragment: four of masked checksum over type and data and two of length, low byte first, one of
      type, and the data. */
  lemma FragmentBytes(f: Fragment)
    requires |f.payload| < 0x1_0000
    ensures var b := Physical(f);
            && |b| == 7 + |f.payload| && b[7..] == f.payload && b[6] == f.kind
            && b[4] as int + 256 * b[5] as int == |f.payload|
            && b[0] as int + 0x100 * b[1] as int + 0x1_0000 * b[2] as int + 0x100_0000 * b[3] as int
               == Crc32c.Mask(Crc32c.Extended(0, Words([f.kind] + f.payload))) as int
  {
    hide Crc32c.Mask, Crc32c.Extended, Fixed, Physical;
    HeaderFields(f);
    WordBytes(Stored(Value([f.kind] + f.payload)));
    var b := Physical(f);
    assert b[0] == b[..4][0] && b[1] == b[..4][1] && b[2] == b[..4][2] && b[3] == b[..4][3];
  }

  lemma WordBytes(n: nat)
    requires n < TWO32
    ensures var b := Fixed32(n);
            b[0] as int + 0x100 * b[1] as int + 0x1_0000 * b[2] as int + 0x100_0000 * b[3] as int == n
  {
    hide Fixed, FromFixed;
    FourDigits(Fixed32(n));
  }

  lemma FourDigits(b: Bytes)
    requires |b| == 4
    ensures FromFixed(b) == b[0] as int + 0x100 * b[1] as int + 0x1_0000 * b[2] as int + 0x100_0000 * b[3] as int
  {
    assert b[1..][1..] == b[2..] && b[2..][1..] == b[3..] && b[3..][1..] == [];
    assert FromFixed(b[3..]) == b[3] as int;
    assert FromFixed(b[2..]) == b[2] as int + 256 * FromFixed(b[3..]);
    assert FromFixed(b[1..]) == b[1] as int + 256 * FromFixed(b[2..]);
  }

  // A buffer that starts with a whole fragment yields it.
  lemma ParseWhole(file: Bytes, checksum: bool, st: State, f: Fragment)
    requires StateOk(file, st) && FragmentOk(f) && Physical(f) <= st.buffer
    ensures ReadPhysical(file, checksum, st)
         == (Record(f.kind, f.payload), st.(buffer := st.buffer[HEADER_SIZE + |f.payload|..]))
  {
    hide Stored, Value, Matches, Physical, FromFixed, Fixed, NextBlock;
    var b := st.buffer;
    var n: nat := HEADER_SIZE + |f.payload|;
    HeaderFields(f);
    StoredMatches([f.kind] + f.payload);
    assert b[..n] == Physical(f);
    assert b[..4] == b[..n][..4] && b[6..n] == b[..n][6..] && b[7..n] == b[..n][7..];
    assert b[4] == b[..n][4] && b[5] == b[..n][5] && b[6] == b[..n][6];
    assert DecodeFixed32(b[..4]) == Stored(Value([f.kind] + f.payload));
  }

  // A buffer at the end of the file that holds less than the fragment yields the end.
  lemma ParseCut(file: Bytes, checksum: bool, st: State, f: Fragment)
    requires StateOk(file, st) && FragmentOk(f) && st.eof && st.buffer <= Physical(f)
    requires |st.buffer| < HEADER_SIZE + |f.payload|
    ensures ReadPhysical(file, checksum, st) == (Eof, st.(buffer := []))
  {
    hide Stored, Value, Matches, Physical, FromFixed, Fixed, NextBlock;
    HeaderFields(f);
    assert |st.buffer| >= HEADER_SIZE ==> st.buffer[4] == Physical(f)[4] && st.buffer[5] == Physical(f)[5];
  }

  // The state after fragments 0 to i - 1.
  ghost predicate At(file: Bytes, frags: seq<Fragment>, st: State, i: nat)
    requires i <= |frags|
  {
    EndOf(frags, i) <= |file| && Buffered(file, st, EndOf(frags, i))
  }

  ghost predicate IsPrefixOf(file: Bytes, frags: seq<Fragment>) {
    Fit(frags) && file <= Encoded(frags)
  }

  // In front of fragment i, all of which is there, with its header in sight or the file at its end.
  lemma ReadWhole(file: Bytes, checksum: bool, frags: seq<Fragment>, st: State, i: nat)
    requires Fit(frags) && i < |frags| && StartOf(frags, i) <= EndOf(frags, i + 1) <= |file|
    requires file[StartOf(frags, i)..EndOf(frags, i + 1)] == Physical(frags[i])
    requires Buffered(file, st, StartOf(frags, i)) && (|st.buffer| >= HEADER_SIZE || st.eof)
    ensures StateOk(file, st)
    ensures var (r, st') := ReadPhysical(file, checksum, st);
            r == Record(frags[i].kind, frags[i].payload) && At(file, frags, st', i + 1) && st'.reports == st.reports
  {
    hide Encoded, Fit, Physical, ReadPhysical, EndOf, FragmentOk, StartOf, Leftover;
    var s, e := StartOf(frags, i), EndOf(frags, i + 1);
    FragmentAt(frags, i);
    FragmentFits(frags, i);
    BufferHasWhole(file, st, s, e);
    WholeInBuffer(file, st, s, e, frags[i]);
    ParseWhole(file, checksum, st, frags[i]);
    BufferAfter(file, st, s, e);
  }

  // In front of fragment i, with its header in sight or the file at its end.
  lemma ReadAtStart(file: Bytes, checksum: bool, frags: seq<Fragment>, st: State, i: nat)
    requires IsPrefixOf(file, frags) && i < |frags| && StartOf(frags, i) <= |file|
    requires Buffered(file, st, StartOf(frags, i)) && (|st.buffer| >= HEADER_SIZE || st.eof)
    ensures StateOk(file, st)
    ensures if EndOf(frags, i + 1) <= |file|
            then var (r, st') := ReadPhysical(file, checksum, st);
                 r == Record(frags[i].kind, frags[i].payload) && At(file, frags, st', i + 1)
                 && st'.reports == st.reports
            else ReadPhysical(file, checksum, st) == (Eof, st.(buffer := []))
  {
    hide Encoded, Fit, Physical, ReadPhysical, EndOf, FragmentOk, StartOf, Leftover;
    var s, e := StartOf(frags, i), EndOf(frags, i + 1);
    var f := frags[i];
    FragmentAt(frags, i);
    FragmentFits(frags, i);
    if e <= |file| {
      SamePiece(file, Encoded(frags), s, e);
      ReadWhole(file, checksum, frags, st, i);
    } else {
      BufferIsCut(file, st, s, e);
      CutInBuffer(file, Encoded(frags), st, s, e, f);
      ParseCut(file, checksum, st, f);
    }
  }

  lemma FragmentFits(frags: seq<Fragment>, i: nat)
    requires Fit(frags) && i < |frags|
    ensures FragmentOk(frags[i]) && HEADER_SIZE + |frags[i].payload| <= Leftover(StartOf(frags, i))
  {
    hide FragmentOk, Leftover, StartOf;
  }

  lemma BufferHasWhole(file: Bytes, st: State, s: nat, e: nat)
    requires Buffered(file, st, s) && (|st.buffer| >= HEADER_SIZE || st.eof)
    requires s <= e <= |file| && e - s <= Leftover(s)
    ensures e - s <= |st.buffer|
  {
  }

  lemma BufferAfter(file: Bytes, st: State, s: nat, e: nat)
    requires Buffered(file, st, s) && s <= e && e - s <= |st.buffer|
    ensures Buffered(file, st.(buffer := st.buffer[e - s..]), e)
  {
  }

  lemma BufferIsCut(file: Bytes, st: State, s: nat, e: nat)
    requires Buffered(file, st, s) && (|st.buffer| >= HEADER_SIZE || st.eof)
    requires s <= |file| < e && e - s <= Leftover(s)
    ensures st.eof && |st.buffer| < e - s
  {
  }

  lemma SamePiece(file: Bytes, log: Bytes, s: nat, e: nat)
    requires (file <= log || log <= file) && s <= e <= |file| && e <= |log|
    ensures file[s..e] == log[s..e]
  {
  }

  lemma WholeInBuffer(file: Bytes, st: State, s: nat, e: nat, f: Fragment)
    requires s <= e <= |file| && file[s..e] == Physical(f)
    requires s + |st.buffer| == st.filePos <= |file| && st.buffer == file[s..st.filePos] && e - s <= |st.buffer|
    ensures Physical(f) <= st.buffer && |Physical(f)| == e - s
  {
    hide Physical;
    assert st.buffer[..e - s] == file[s..e];
  }

  lemma CutInBuffer(file: Bytes, log: Bytes, st: State, s: nat, e: nat, f: Fragment)
    requires file <= log && s <= |file| < e <= |log| && log[s..e] == Physical(f)
    requires s + |st.buffer| == st.filePos <= |file| && st.buffer == file[s..st.filePos] && |st.buffer| < e - s
    ensures st.buffer <= Physical(f)
  {
    hide Physical;
    assert st.buffer == log[s..st.filePos] == log[s..e][..|st.buffer|];
  }

  // The next physical record is the next fragment if the file reaches its end, and otherwise there is none.
  lemma ReadNext(file: Bytes, checksum: bool, frags: seq<Fragment>, st: State, i: nat)
    requires IsPrefixOf(file, frags) && i <= |frags| && At(file, frags, st, i)
    ensures StateOk(file, st)
    ensures var (r, st') := ReadPhysical(file, checksum, st);
            && st'.reports == st.reports
            && if i < |frags| && EndOf(frags, i + 1) <= |file|
               then r == Record(frags[i].kind, frags[i].payload) && At(file, frags, st', i + 1)
               else r == Eof
  {
    if i == |frags| {
      assert frags[..i] == frags;
      NothingLeft(file, checksum, st);
    } else {
      hide ReadPhysical, Fit, Encoded;
      ReadFragment(file, checksum, frags, st, i);
    }
  }

  lemma ReadFragment(file: Bytes, checksum: bool, frags: seq<Fragment>, st: State, i: nat)
    requires IsPrefixOf(file, frags) && i < |frags| && At(file, frags, st, i)
    ensures StateOk(file, st)
    ensures var (r, st') := ReadPhysical(file, checksum, st);
            && st'.reports == st.reports
            && if EndOf(frags, i + 1) <= |file|
               then r == Record(frags[i].kind, frags[i].payload) && At(file, frags, st', i + 1)
               else r == Eof
  {
    hide Encoded, Fit, FragmentOk, Physical, EndOf, ReadPhysical, Matches, NextBlock;
    FragmentAt(frags, i);
    if |st.buffer| >= HEADER_SIZE {
      ReadAtStart(file, checksum, frags, st, i);
    } else {
      ReadShort(file, checksum, st);
      if !st.eof {
        BlockFollows(file, st, EndOf(frags, i));
        ReadAtStart(file, checksum, frags, NextBlock(file, st), i);
      }
    }
  }

  lemma ReadShort(file: Bytes, checksum: bool, st: State)
    requires StateOk(file, st) && |st.buffer| < HEADER_SIZE
    ensures ReadPhysical(file, checksum, st)
         == if st.eof then (Eof, st.(buffer := [])) else ReadPhysical(file, checksum, NextBlock(file, st))
    ensures !st.eof ==> NextBlock(file, st).reports == st.reports
  {
  }

  lemma NothingLeft(file: Bytes, checksum: bool, st: State)
    requires Buffered(file, st, |file|)
    ensures var (r, st') := ReadPhysical(file, checksum, st);
            r == Eof && st'.reports == st.reports
  {
    hide Matches;
    var next := NextBlock(file, st);
    assert |next.buffer| == 0;
  }

  // Where less than a header is left of the block, the next fragment starts with the next one.
  lemma BlockFollows(file: Bytes, st: State, p: nat)
    requires Buffered(file, st, p) && !st.eof && |st.buffer| < HEADER_SIZE
    ensures p + |Trailer(p)| == st.filePos
    ensures var next := NextBlock(file, st);
            Buffered(file, next, st.filePos) && (|next.buffer| >= HEADER_SIZE || next.eof)
  {
  }

  // Reading on from fragment k of a record.
  lemma {:induction false} ReadRest(file: Bytes, checksum: bool, frags: seq<Fragment>, st: State, start: nat,
                                    group: seq<Fragment>, k: nat, record: Bytes)
    requires IsPrefixOf(file, frags) && start + |group| <= |frags| && frags[start..start + |group|] == group
    requires Spells(group, record) && k < |group| && At(file, frags, st, start + k)
    ensures StateOk(file, st)
    ensures var (r, st') := ReadLogical(file, checksum, st, Joined(group[..k]), k > 0);
            && st'.reports == st.reports
            && if EndOf(frags, start + |group|) <= |file|
               then r == Some(record) && At(file, frags, st', start + |group|)
               else r == None
    decreases |group| - k
  {
    hide ReadPhysical, Encoded, Fit, EndOf, At, Buffered;
    ReadNext(file, checksum, frags, st, start + k);
    EndsAscend(frags, start + k + 1, start + |group|);
    var (r, st') := ReadPhysical(file, checksum, st);
    assert frags[start + k] == group[k];
    assert group[..k + 1][..k] == group[..k];
    assert Joined(group[..k + 1]) == Joined(group[..k]) + group[k].payload;
    if k == 0 {
      assert group[..0] == [];
      assert Joined(group[..1]) == group[0].payload;
    }
    if k + 1 == |group| {
      assert group[..k + 1] == group;
      assert k > 0 ==> group[..k] == group[..|group| - 1];
    } else {
      assert group[..|group| - 1][k] == group[k];
      if r.Record? {
        ReadRest(file, checksum, frags, st', start, group, k + 1, record);
      }
    }
  }

  // The records that calling ReadRecord until it fails yields, and how many corruptions were reported.
  function ReadAll(file: Bytes, checksum: bool, st: State): (seq<Bytes>, nat)
    requires StateOk(file, st)
    decreases Unread(file, st)
  {
    var (r, next) := ReadLogical(file, checksum, st, [], false);
    if r.None? then ([], next.reports)
    else
      var (rest, reports) := ReadAll(file, checksum, next);
      ([r.value] + rest, reports)
  }

  // The number of fragments of the first r records.
  function FragmentsBefore(groups: seq<seq<Fragment>>, r: nat): nat
    requires r <= |groups|
  {
    |Flat(groups[..r])|
  }

  // The last fragment of record r lies inside the file.
  ghost predicate Complete(file: Bytes, frags: seq<Fragment>, groups: seq<seq<Fragment>>, r: nat)
    requires r < |groups| && frags == Flat(groups)
  {
    FlatParts(groups, r + 1);
    EndOf(frags, FragmentsBefore(groups, r + 1)) <= |file|
  }

  lemma {:induction false} FlatParts(groups: seq<seq<Fragment>>, r: nat)
    requires r <= |groups|
    ensures Flat(groups[..r]) <= Flat(groups)
    ensures 0 < r ==> Flat(groups[..r]) == Flat(groups[..r - 1]) + groups[r - 1]
  {
    if 0 < r {
      assert groups[..r][..r - 1] == groups[..r - 1];
    }
    if r < |groups| {
      var n := |groups| - 1;
      assert groups[..n][..r] == groups[..r];
      FlatParts(groups[..n], r);
    } else {
      assert groups[..r] == groups;
    }
  }

  lemma GroupInLog(groups: seq<seq<Fragment>>, r: nat)
    requires r < |groups|
    ensures var start := FragmentsBefore(groups, r);
            && start + |groups[r]| == FragmentsBefore(groups, r + 1) <= |Flat(groups)|
            && Flat(groups)[start..start + |groups[r]|] == groups[r]
  {
    FlatParts(groups, r + 1);
    assert Flat(groups)[..FragmentsBefore(groups, r + 1)] == Flat(groups[..r]) + groups[r];
  }

  // How many records from r on are complete without a gap.
  ghost function Readable(file: Bytes, frags: seq<Fragment>, groups: seq<seq<Fragment>>, r: nat): (k: nat)
    requires r <= |groups| && frags == Flat(groups)
    ensures r <= k <= |groups|
    decreases |groups| - r
  {
    if r < |groups| && Complete(file, frags, groups, r) then Readable(file, frags, groups, r + 1) else r
  }

  lemma {:induction false} CompleteUpTo(file: Bytes, frags: seq<Fragment>, groups: seq<seq<Fragment>>, r: nat)
    requires r <= |groups| && frags == Flat(groups)
    ensures var k := Readable(file, frags, groups, r);
            forall j :: r <= j < |groups| ==> (Complete(file, frags, groups, j) <==> j < k)
    decreases |groups| - r
  {
    hide Complete, Encoded, Flat;
    if r < |groups| && Complete(file, frags, groups, r) {
      CompleteUpTo(file, frags, groups, r + 1);
    } else {
      forall j | r <= j < |groups|
        ensures !Complete(file, frags, groups, j)
      {
        CompleteAscends(file, frags, groups, r, j);
      }
    }
  }

  lemma {:induction false} CompleteAscends(file: Bytes, frags: seq<Fragment>, groups: seq<seq<Fragment>>, i: nat, j: nat)
    requires i <= j < |groups| && frags == Flat(groups)
    ensures Complete(file, frags, groups, j) ==> Complete(file, frags, groups, i)
    decreases j
  {
    hide Encoded;
    if i < j {
      GroupInLog(groups, j);
      EndsAscend(frags, FragmentsBefore(groups, j), FragmentsBefore(groups, j + 1));
      CompleteAscends(file, frags, groups, i, j - 1);
    }
  }

  lemma {:induction false} ReadsRecords(file: Bytes, checksum: bool, frags: seq<Fragment>, groups: seq<seq<Fragment>>,
                                        records: seq<Bytes>, st: State, r: nat)
    requires IsPrefixOf(file, frags) && frags == Flat(groups) && Spelled(groups, records) && r <= |groups|
    requires FragmentsBefore(groups, r) <= |frags| && At(file, frags, st, FragmentsBefore(groups, r))
    ensures StateOk(file, st)
    ensures ReadAll(file, checksum, st) == (records[r..Readable(file, frags, groups, r)], st.reports)
    decreases |groups| - r
  {
    hide Encoded, Fit, EndOf, ReadLogical, ReadPhysical, Spells, Flat, Buffered, FragmentsBefore;
    AtIsOk(file, frags, st, FragmentsBefore(groups, r));
    assert records[r..r] == [];
    if r == |groups| {
      AllBefore(groups);
      ReadNothing(file, checksum, frags, st);
    } else {
      GroupInLog(groups, r);
      var start := FragmentsBefore(groups, r);
      SpellsNonempty(groups[r], records[r]);
      ReadRest(file, checksum, frags, st, start, groups[r], 0, records[r]);
      NothingJoined(groups[r]);
      var (got, next) := ReadLogical(file, checksum, st, [], false);
      if got.Some? {
        ReadsRecords(file, checksum, frags, groups, records, next, r + 1);
        FirstOfSlice(records, r, Readable(file, frags, groups, r + 1));
      }
    }
  }

  lemma FirstOfSlice(records: seq<Bytes>, r: nat, k: nat)
    requires r < k <= |records|
    ensures records[r..k] == [records[r]] + records[r + 1..k]
  {
  }

  lemma AtIsOk(file: Bytes, frags: seq<Fragment>, st: State, i: nat)
    requires i <= |frags| && At(file, frags, st, i)
    ensures StateOk(file, st)
  {
  }

  lemma AllBefore(groups: seq<seq<Fragment>>)
    ensures FragmentsBefore(groups, |groups|) == |Flat(groups)|
  {
    assert groups[..|groups|] == groups;
  }

  lemma SpellsNonempty(group: seq<Fragment>, record: Bytes)
    requires Spells(group, record)
    ensures group != []
  {
  }

  lemma NothingJoined(group: seq<Fragment>)
    ensures Joined(group[..0]) == []
  {
  }

  lemma ReadNothing(file: Bytes, checksum: bool, frags: seq<Fragment>, st: State)
    requires IsPrefixOf(file, frags) && At(file, frags, st, |frags|)
    ensures StateOk(file, st)
    ensures var (r, st') := ReadLogical(file, checksum, st, [], false);
            r == None && st'.reports == st.reports
  {
    hide ReadPhysical, Encoded, Fit, Buffered;
    ReadNext(file, checksum, frags, st, |frags|);
  }

  /** Reading any prefix of a log gives back exactly the records whose last fragment lies inside it, in order, and
      reports no corruption. */
  lemma PrefixRoundTrip(log: Bytes, frags: seq<Fragment>, groups: seq<seq<Fragment>>, records: seq<Bytes>, m: nat,
                        checksum: bool)
    requires Holds(log, frags, groups, records) && m <= |log|
    ensures var k := Readable(log[..m], frags, groups, 0);
            && ReadAll(log[..m], checksum, FRESH) == (records[..k], 0)
            && (forall r :: 0 <= r < |records| ==> (r < k <==> Complete(log[..m], frags, groups, r)))
            && (m == |log| ==> k == |records|)
  {
    assert |groups| == |records|;
    hide Encoded, Fit, ReadAll, Buffered, At, Flat, Complete, EndOf, Spelled, StateOk;
    var file := log[..m];
    FreshReader(file, frags, groups);
    ReadsRecords(file, checksum, frags, groups, records, FRESH, 0);
    CompleteUpTo(file, frags, groups, 0);
    var k := Readable(file, frags, groups, 0);
    assert records[0..k] == records[..k];
    if m == |log| && records != [] {
      WholeLogIsComplete(file, frags, groups);
    }
  }

  lemma FreshReader(file: Bytes, frags: seq<Fragment>, groups: seq<seq<Fragment>>)
    ensures StateOk(file, FRESH) && At(file, frags, FRESH, 0) && FragmentsBefore(groups, 0) == 0
  {
    assert Encoded([]) == [] && Flat([]) == [];
    hide Encoded, Flat;
    assert frags[..0] == [];
    assert groups[..0] == [];
    assert file[0..0] == [];
  }

  lemma WholeLogIsComplete(file: Bytes, frags: seq<Fragment>, groups: seq<seq<Fragment>>)
    requires frags == Flat(groups) && groups != [] && |file| == |Encoded(frags)|
    ensures Complete(file, frags, groups, |groups| - 1)
  {
    AllBefore(groups);
    assert frags[..|frags|] == frags;
  }

  // ----- A log that something else follows

  // The file starts with these fragments, and anything may come behind them.
  ghost predicate StartsWith(file: Bytes, frags: seq<Fragment>) {
    Fit(frags) && Encoded(frags) <= file
  }

  lemma ReadFollowed(file: Bytes, checksum: bool, frags: seq<Fragment>, st: State, i: nat)
    requires StartsWith(file, frags) && i < |frags| && At(file, frags, st, i)
    ensures StateOk(file, st)
    ensures var (r, st') := ReadPhysical(file, checksum, st);
            r == Record(frags[i].kind, frags[i].payload) && At(file, frags, st', i + 1) && st'.reports == st.reports
  {
    hide Encoded, Fit, FragmentOk, Physical, EndOf, ReadPhysical, Matches, NextBlock;
    FragmentAt(frags, i);
    SamePiece(file, Encoded(frags), StartOf(frags, i), EndOf(frags, i + 1));
    if |st.buffer| >= HEADER_SIZE {
      ReadWhole(file, checksum, frags, st, i);
    } else {
      ReadShort(file, checksum, st);
      MoreFollows(file, st, EndOf(frags, i), EndOf(frags, i + 1));
      BlockFollows(file, st, EndOf(frags, i));
      ReadWhole(file, checksum, frags, NextBlock(file, st), i);
    }
  }

  lemma MoreFollows(file: Bytes, st: State, p: nat, e: nat)
    requires Buffered(file, st, p) && |st.buffer| < HEADER_SIZE && p + HEADER_SIZE <= e <= |file|
    ensures !st.eof
  {
  }

  lemma {:induction false} ReadRestFollowed(file: Bytes, checksum: bool, frags: seq<Fragment>, st: State, start: nat,
                                            group: seq<Fragment>, k: nat, record: Bytes)
    requires StartsWith(file, frags) && start + |group| <= |frags| && frags[start..start + |group|] == group
    requires Spells(group, record) && k < |group| && At(file, frags, st, start + k)
    ensures StateOk(file, st)
    ensures var (r, st') := ReadLogical(file, checksum, st, Joined(group[..k]), k > 0);
            r == Some(record) && At(file, frags, st', start + |group|) && st'.reports == st.reports
    decreases |group| - k
  {
    hide ReadPhysical, Encoded, Fit, EndOf, At, Buffered, StartsWith;
    ReadFollowed(file, checksum, frags, st, start + k);
    var (r, st') := ReadPhysical(file, checksum, st);
    assert frags[start + k] == group[k];
    assert group[..k + 1][..k] == group[..k];
    assert Joined(group[..k + 1]) == Joined(group[..k]) + group[k].payload;
    if k == 0 {
      assert group[..0] == [];
      assert Joined(group[..1]) == group[0].payload;
    }
    if k + 1 == |group| {
      assert group[..k + 1] == group;
      assert k > 0 ==> group[..k] == group[..|group| - 1];
    } else {
      assert group[..|group| - 1][k] == group[k];
      ReadRestFollowed(file, checksum, frags, st', start, group, k + 1, record);
    }
  }

  lemma {:induction false} ReadsFollowed(file: Bytes, checksum: bool, frags: seq<Fragment>, groups: seq<seq<Fragment>>,
                                         records: seq<Bytes>, st: State, r: nat)
    requires StartsWith(file, frags) && frags == Flat(groups) && Spelled(groups, records) && r <= |groups|
    requires FragmentsBefore(groups, r) <= |frags| && At(file, frags, st, FragmentsBefore(groups, r))
    ensures StateOk(file, st)
    ensures records[r..] <= ReadAll(file, checksum, st).0
    decreases |groups| - r
  {
    hide Encoded, Fit, EndOf, ReadLogical, ReadPhysical, Spells, Flat, Buffered, FragmentsBefore;
    AtIsOk(file, frags, st, FragmentsBefore(groups, r));
    if r < |groups| {
      GroupInLog(groups, r);
      var start := FragmentsBefore(groups, r);
      SpellsNonempty(groups[r], records[r]);
      ReadRestFollowed(file, checksum, frags, st, start, groups[r], 0, records[r]);
      NothingJoined(groups[r]);
      var (got, next) := ReadLogical(file, checksum, st, [], false);
      ReadsFollowed(file, checksum, frags, groups, records, next, r + 1);
      assert records[r..] == [records[r]] + records[r + 1..];
    }
  }

  /** Whatever follows a log, be it a record that was cut off and what was appended behind it, or bytes that were
      damaged: the records of the log are read back first, in order. */
  lemma FollowedReadsBack(log: Bytes, frags: seq<Fragment>, groups: seq<seq<Fragment>>, records: seq<Bytes>, file: Bytes,
                          checksum: bool)
    requires Holds(log, frags, groups, records) && log <= file
    ensures records <= ReadAll(file, checksum, FRESH).0
  {
    assert |groups| == |records|;
    hide Encoded, Fit, ReadAll, Buffered, At, Flat, Spelled, StateOk;
    FreshReader(file, frags, groups);
    ReadsFollowed(file, checksum, frags, groups, records, FRESH, 0);
    assert records[0..] == records;
  }

  /** The first r records of a log are a log, so they survive whatever happens to the others. */
  lemma FirstRecordsAreALog(log: Bytes, frags: seq<Fragment>, groups: seq<seq<Fragment>>, records: seq<Bytes>, r: nat)
    requires Holds(log, frags, groups, records) && r <= |records|
    ensures Holds(Encoded(Flat(groups[..r])), Flat(groups[..r]), groups[..r], records[..r])
    ensures Encoded(Flat(groups[..r])) <= log
  {
    hide Encoded, Flat, Spells;
    FlatParts(groups, r);
    var n := |Flat(groups[..r])|;
    assert frags[..n] == Flat(groups[..r]);
    EncodedPrefix(frags, n);
    FitPrefix(frags, n);
  }

  /** What is left of a log in front of a damage or a cut reads back, whatever has been appended since. */
  lemma IntactRecordsReadBack(log: Bytes, frags: seq<Fragment>, groups: seq<seq<Fragment>>, records: seq<Bytes>, r: nat,
                              file: Bytes, checksum: bool)
    requires Holds(log, frags, groups, records) && r <= |records| && Encoded(Flat(groups[..r])) <= file
    ensures records[..r] <= ReadAll(file, checksum, FRESH).0
  {
    hide Encoded, Flat;
    FirstRecordsAreALog(log, frags, groups, records, r);
    FollowedReadsBack(Encoded(Flat(groups[..r])), Flat(groups[..r]), groups[..r], records[..r], file, checksum);
  }

  lemma FitPrefix(frags: seq<Fragment>, n: nat)
    requires Fit(frags) && n <= |frags|
    ensures Fit(frags[..n])
  {
    hide FragmentOk, Leftover, Encoded;
    forall i | 0 <= i < n
      ensures StartOf(frags[..n], i) == StartOf(frags, i)
    {
      assert frags[..n][..i] == frags[..i];
    }
  }

  // ----- Only what was written is read

  // A fragment with its header, and so with its checksum, stands at this place of the file.
  ghost predicate StandsAt(file: Bytes, f: Fragment, p: nat) {
    p + |Physical(f)| <= |file| && file[p..p + |Physical(f)|] == Physical(f)
  }

  ghost predicate Stands(file: Bytes, f: Fragment) {
    exists p :: StandsAt(file, f, p)
  }

  // The buffer is the piece of the file in front of the reader.
  ghost predicate FromFile(file: Bytes, st: State) {
    |st.buffer| <= st.filePos <= |file| && st.buffer == file[st.filePos - |st.buffer|..st.filePos]
  }

  lemma HeaderParsed(b: Bytes, f: Fragment)
    requires |b| == HEADER_SIZE + |f.payload| && Length(b) == |f.payload| && b[6] == f.kind && b[7..] == f.payload
    requires DecodeFixed32(b[..4]) == Stored(Value(b[6..]))
    ensures b == Physical(f)
  {
    hide Stored, Value, FromFixed, Fixed;
    assert b[6..] == [f.kind] + f.payload;
    assert b[..4] == Fixed32(Stored(Value([f.kind] + f.payload)));
    assert b == b[..4] + [b[4], b[5], b[6]] + b[7..];
  }

  lemma MatchedStands(file: Bytes, st: State)
    requires FromFile(file, st) && |st.buffer| >= HEADER_SIZE && HEADER_SIZE + Length(st.buffer) <= |st.buffer|
    requires var b := st.buffer; Matches(DecodeFixed32(b[..4]), b[6..HEADER_SIZE + Length(b)])
    ensures var b := st.buffer; Stands(file, Fragment(b[6], b[HEADER_SIZE..HEADER_SIZE + Length(b)]))
  {
    hide Matches, Stored, Value, Physical, FromFixed, Fixed;
    var b := st.buffer;
    var n: nat := HEADER_SIZE + Length(b);
    var f := Fragment(b[6], b[HEADER_SIZE..n]);
    MatchesOnlyStored(DecodeFixed32(b[..4]), b[6..n]);
    assert b[..n][..4] == b[..4] && b[..n][6..] == b[6..n] && b[..n][7..] == b[7..n];
    HeaderParsed(b[..n], f);
    var p: nat := st.filePos - |b|;
    assert file[p..p + n] == b[..n];
    assert StandsAt(file, f, p);
  }

  lemma ParsedStands(file: Bytes, st: State)
    requires FromFile(file, st) && |st.buffer| >= HEADER_SIZE
    ensures var (r, st') := ParseBuffer(true, st);
            FromFile(file, st') && (r.Record? ==> Stands(file, Fragment(r.kind, r.payload)))
  {
    hide Matches, Stands, FromFixed, Fixed;
    if ParseBuffer(true, st).0.Record? {
      MatchedStands(file, st);
    }
  }

  lemma {:induction false} RecordStands(file: Bytes, st: State)
    requires FromFile(file, st)
    ensures var (r, st') := ReadPhysical(file, true, st);
            FromFile(file, st') && (r.Record? ==> Stands(file, Fragment(r.kind, r.payload)))
    decreases !st.eof, |file| - st.filePos
  {
    hide ParseBuffer, Stands;
    if |st.buffer| >= HEADER_SIZE {
      ParsedStands(file, st);
    } else if !st.eof {
      RecordStands(file, NextBlock(file, st));
    }
  }

  // The fragments that spell the record stand in the file, each with its checksum.
  ghost predicate SpelledInFile(file: Bytes, record: Bytes) {
    exists group: seq<Fragment> :: Spells(group, record) && forall f :: f in group ==> Stands(file, f)
  }

  ghost predicate BegunInFile(file: Bytes, scratch: Bytes) {
    exists group: seq<Fragment> ::
      group != [] && Open(group) && Joined(group) == scratch && forall f :: f in group ==> Stands(file, f)
  }

  lemma Begins(file: Bytes, payload: Bytes)
    requires Stands(file, Fragment(FIRST_TYPE, payload))
    ensures BegunInFile(file, payload)
  {
    var group := [Fragment(FIRST_TYPE, payload)];
    assert Joined(group[..0]) == [];
    assert Joined(group) == payload && Open(group);
  }

  lemma GoesOn(file: Bytes, scratch: Bytes, payload: Bytes)
    requires BegunInFile(file, scratch) && Stands(file, Fragment(MIDDLE_TYPE, payload))
    ensures BegunInFile(file, scratch + payload)
  {
    var group: seq<Fragment> :| group != [] && Open(group) && Joined(group) == scratch
                                && forall f :: f in group ==> Stands(file, f);
    var more := group + [Fragment(MIDDLE_TYPE, payload)];
    assert more[..|group|] == group;
    assert Open(more) && Joined(more) == scratch + payload;
  }

  lemma Ends(file: Bytes, scratch: Bytes, payload: Bytes)
    requires BegunInFile(file, scratch) && Stands(file, Fragment(LAST_TYPE, payload))
    ensures SpelledInFile(file, scratch + payload)
  {
    var group: seq<Fragment> :| group != [] && Open(group) && Joined(group) == scratch
                                && forall f :: f in group ==> Stands(file, f);
    var more := group + [Fragment(LAST_TYPE, payload)];
    assert more[..|group|] == group;
    assert Spells(more, scratch + payload);
  }

  lemma Whole(file: Bytes, payload: Bytes)
    requires Stands(file, Fragment(FULL_TYPE, payload))
    ensures SpelledInFile(file, payload)
  {
    var group := [Fragment(FULL_TYPE, payload)];
    assert group[..0] == [] && Joined(group[..0]) == [];
    assert Spells(group, payload);
  }

  lemma {:induction false} LogicalStands(file: Bytes, st: State, scratch: Bytes, fragmented: bool)
    requires FromFile(file, st) && (fragmented ==> BegunInFile(file, scratch))
    ensures var (r, st') := ReadLogical(file, true, st, scratch, fragmented);
            FromFile(file, st') && (r.Some? ==> SpelledInFile(file, r.value))
    decreases Unread(file, st)
  {
    hide ReadPhysical, Stands, BegunInFile, SpelledInFile;
    RecordStands(file, st);
    var (r, next) := ReadPhysical(file, true, st);
    match r
    case Eof =>
    case Bad => if fragmented { LogicalStands(file, Report(next), [], false); } else { LogicalStands(file, next, scratch, false); }
    case Record(kind, payload) =>
      if kind == FULL_TYPE {
        Whole(file, payload);
      } else if kind == FIRST_TYPE {
        Begins(file, payload);
        LogicalStands(file, if fragmented && scratch != [] then Report(next) else next, payload, true);
      } else if kind == MIDDLE_TYPE && fragmented {
        GoesOn(file, scratch, payload);
        LogicalStands(file, next, scratch + payload, true);
      } else if kind == LAST_TYPE && fragmented {
        Ends(file, scratch, payload);
      } else if kind == MIDDLE_TYPE || kind == LAST_TYPE {
        LogicalStands(file, Report(next), scratch, false);
      } else {
        LogicalStands(file, Report(next), [], false);
      }
  }

  lemma {:induction false} AllStand(file: Bytes, st: State)
    requires FromFile(file, st)
    ensures forall record :: record in ReadAll(file, true, st).0 ==> SpelledInFile(file, record)
    decreases Unread(file, st)
  {
    hide ReadLogical, SpelledInFile;
    LogicalStands(file, st, [], false);
    var (r, next) := ReadLogical(file, true, st, [], false);
    if r.Some? {
      AllStand(file, next);
    }
  }

  /** Whatever the file holds, a reader that checks checksums returns only records spelled by fragments that stand in
      the file with their checksums: a damaged fragment never becomes part of a record. */
  lemma OnlyWrittenIsRead(file: Bytes)
    ensures forall record :: record in ReadAll(file, true, FRESH).0 ==> SpelledInFile(file, record)
  {
    hide ReadAll, SpelledInFile;
    assert file[0..0] == [];
    AllStand(file, FRESH);
  }

  // ----- Damage is reported

  lemma {:induction false} ReportsGrow(file: Bytes, checksum: bool, st: State)
    requires StateOk(file, st)
    ensures ReadPhysical(file, checksum, st).1.reports >= st.reports
    decreases !st.eof, |file| - st.filePos
  {
    hide Matches;
    if |st.buffer| < HEADER_SIZE && !st.eof {
      ReportsGrow(file, checksum, NextBlock(file, st));
    }
  }

  lemma {:induction false} LogicalReportsGrow(file: Bytes, checksum: bool, st: State, scratch: Bytes, fragmented: bool)
    requires StateOk(file, st)
    ensures ReadLogical(file, checksum, st, scratch, fragmented).1.reports >= st.reports
    decreases Unread(file, st)
  {
    hide ReadPhysical;
    ReportsGrow(file, checksum, st);
    var (r, next) := ReadPhysical(file, checksum, st);
    match r
    case Eof =>
    case Bad =>
      if fragmented {
        LogicalReportsGrow(file, checksum, Report(next), [], false);
      } else {
        LogicalReportsGrow(file, checksum, next, scratch, false);
      }
    case Record(kind, payload) =>
      if kind == FIRST_TYPE {
        LogicalReportsGrow(file, checksum, if fragmented && scratch != [] then Report(next) else next, payload, true);
      } else if kind == MIDDLE_TYPE && fragmented {
        LogicalReportsGrow(file, checksum, next, scratch + payload, true);
      } else if kind != FULL_TYPE && !(kind == LAST_TYPE && fragmented) {
        LogicalReportsGrow(file, checksum, Report(next), if kind == MIDDLE_TYPE || kind == LAST_TYPE then scratch else [],
                           false);
      }
  }

  lemma {:induction false} AllReportsGrow(file: Bytes, checksum: bool, st: State)
    requires StateOk(file, st)
    ensures ReadAll(file, checksum, st).1 >= st.reports
    decreases Unread(file, st)
  {
    hide ReadLogical;
    LogicalReportsGrow(file, checksum, st, [], false);
    var (r, next) := ReadLogical(file, checksum, st, [], false);
    if r.Some? {
      AllReportsGrow(file, checksum, next);
    }
  }

  // Behind these fragments stands one whose header says how long it is, but whose checksum does not match.
  ghost predicate DamagedBehind(file: Bytes, frags: seq<Fragment>, bad: Bytes) {
    && StartsWith(file, frags)
    && var end := |Encoded(frags)|;
       var start := end + |Trailer(end)|;
       && HEADER_SIZE <= |bad| <= Leftover(start) && start + |bad| <= |file| && file[start..start + |bad|] == bad
       && HEADER_SIZE + Length(bad) == |bad| && !(bad[6] == ZERO_TYPE && Length(bad) == 0)
       && !Matches(DecodeFixed32(bad[..4]), bad[6..])
  }

  // A buffer that starts with the damaged fragment is dropped, and the reader says so.
  lemma ParseDamaged(file: Bytes, st: State, bad: Bytes)
    requires StateOk(file, st) && HEADER_SIZE <= |bad| && bad <= st.buffer && HEADER_SIZE + Length(bad) == |bad|
    requires !(bad[6] == ZERO_TYPE && Length(bad) == 0) && !Matches(DecodeFixed32(bad[..4]), bad[6..])
    ensures ReadPhysical(file, true, st) == (Bad, st.(buffer := [], reports := st.reports + 1))
  {
    hide Matches, FromFixed;
    var b := st.buffer;
    assert b[..|bad|] == bad;
    assert b[..4] == bad[..4] && b[6..|bad|] == bad[6..] && b[4] == bad[4] && b[5] == bad[5] && b[6] == bad[6];
  }

  lemma ReadDamaged(file: Bytes, frags: seq<Fragment>, bad: Bytes, st: State)
    requires DamagedBehind(file, frags, bad) && At(file, frags, st, |frags|)
    ensures StateOk(file, st)
    ensures var (r, st') := ReadPhysical(file, true, st); r == Bad && st'.reports > st.reports
  {
    hide Encoded, Fit, ReadPhysical, Matches, NextBlock;
    assert frags[..|frags|] == frags;
    var end := |Encoded(frags)|;
    var start := end + |Trailer(end)|;
    if |st.buffer| >= HEADER_SIZE {
      NoTrailer(file, st, end);
      DamagedInBuffer(file, st, start, bad);
      ParseDamaged(file, st, bad);
    } else {
      MoreFollows(file, st, end, start + |bad|);
      ReadShort(file, true, st);
      BlockFollows(file, st, end);
      DamagedInBuffer(file, NextBlock(file, st), start, bad);
      ParseDamaged(file, NextBlock(file, st), bad);
    }
  }

  lemma NoTrailer(file: Bytes, st: State, p: nat)
    requires Buffered(file, st, p) && |st.buffer| >= HEADER_SIZE
    ensures Trailer(p) == []
  {
  }

  lemma DamagedInBuffer(file: Bytes, st: State, start: nat, bad: Bytes)
    requires Buffered(file, st, start) && (|st.buffer| >= HEADER_SIZE || st.eof)
    requires |bad| <= Leftover(start) && start + |bad| <= |file| && file[start..start + |bad|] == bad
    ensures bad <= st.buffer
  {
    BufferHasWhole(file, st, start, start + |bad|);
    assert st.buffer[..|bad|] == file[start..start + |bad|];
  }

  lemma {:induction false} LogicalReports(file: Bytes, frags: seq<Fragment>, bad: Bytes, st: State, i: nat, scratch: Bytes,
                                          fragmented: bool) returns (j: nat)
    requires DamagedBehind(file, frags, bad) && i <= |frags| && At(file, frags, st, i)
    ensures StateOk(file, st)
    ensures var (r, st') := ReadLogical(file, true, st, scratch, fragmented);
            st'.reports > st.reports
            || (r.Some? && st'.reports >= st.reports && i < j <= |frags| && At(file, frags, st', j))
    decreases |frags| - i
  {
    hide ReadPhysical, At, DamagedBehind, StartsWith, Encoded, Fit;
    AtIsOk(file, frags, st, i);
    StartsBehind(file, frags, bad);
    j := i + 1;
    LogicalReportsGrow(file, true, st, scratch, fragmented);
    if i == |frags| {
      ReadDamaged(file, frags, bad, st);
      var next := ReadPhysical(file, true, st).1;
      LogicalReportsGrow(file, true, Report(next), [], false);
      LogicalReportsGrow(file, true, next, scratch, false);
    } else {
      ReadFollowed(file, true, frags, st, i);
      var (r, next) := ReadPhysical(file, true, st);
      var kind, payload := frags[i].kind, frags[i].payload;
      if kind == FIRST_TYPE && !(fragmented && scratch != []) {
        j := LogicalReports(file, frags, bad, next, i + 1, payload, true);
      } else if kind == MIDDLE_TYPE && fragmented {
        j := LogicalReports(file, frags, bad, next, i + 1, scratch + payload, true);
      } else if kind != FULL_TYPE && !(kind == LAST_TYPE && fragmented) {
        LogicalReportsGrow(file, true, Report(next), payload, true);
        LogicalReportsGrow(file, true, Report(next), scratch, false);
        LogicalReportsGrow(file, true, Report(next), [], false);
      }
    }
  }

  lemma StartsBehind(file: Bytes, frags: seq<Fragment>, bad: Bytes)
    requires DamagedBehind(file, frags, bad)
    ensures StartsWith(file, frags)
  {
  }

  lemma {:induction false} AllReports(file: Bytes, frags: seq<Fragment>, bad: Bytes, st: State, i: nat)
    requires DamagedBehind(file, frags, bad) && i <= |frags| && At(file, frags, st, i)
    ensures StateOk(file, st) && ReadAll(file, true, st).1 > st.reports
    decreases |frags| - i
  {
    hide ReadLogical, At, DamagedBehind;
    AtIsOk(file, frags, st, i);
    var j := LogicalReports(file, frags, bad, st, i, [], false);
    var (r, next) := ReadLogical(file, true, st, [], false);
    if r.Some? {
      if next.reports > st.reports {
        AllReportsGrow(file, true, next);
      } else {
        AllReports(file, frags, bad, next, j);
      }
    }
  }

  /** A fragment whose checksum does not match, behind any number of good ones, never goes unnoticed. */
  lemma DamageIsReported(file: Bytes, frags: seq<Fragment>, bad: Bytes)
    requires DamagedBehind(file, frags, bad)
    ensures ReadAll(file, true, FRESH).1 > 0
  {
    hide ReadAll, At, DamagedBehind, StateOk;
    FreshReader(file, frags, []);
    AllReports(file, frags, bad, FRESH, 0);
  }
}
