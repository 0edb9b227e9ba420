/** Version edits as manifest records (db/version_edit.cc). */
module VersionEditCodec {
  import opened Wrappers
  import opened DbFormat
  import opened Coding

  datatype NewFile = NewFile(level: nat, number: nat, size: nat, smallest: Bytes, largest: Bytes)

  // The deleted files stand in the order of the source's std::set.
  datatype EditRecord = EditRecord(
    comparator: Option<Bytes>,
    logNumber: Option<nat>,
    prevLogNumber: Option<nat>,
    nextFileNumber: Option<nat>,
    lastSequence: Option<nat>,
    compactPointers: seq<(nat, Bytes)>,
    deletedFiles: seq<(nat, nat)>,
    newFiles: seq<NewFile>)

  const EMPTY: EditRecord := EditRecord(None, None, None, None, None, [], [], [])

  const COMPARATOR: nat := 1
  const LOG_NUMBER: nat := 2
  const NEXT_FILE_NUMBER: nat := 3
  const LAST_SEQUENCE: nat := 4
  const COMPACT_POINTER: nat := 5
  const DELETED_FILE: nat := 6
  const NEW_FILE: nat := 7
  const PREV_LOG_NUMBER: nat := 9

  predicate PairLess(a: (nat, nat), b: (nat, nat)) {
    a.0 < b.0 || (a.0 == b.0 && a.1 < b.1)
  }

  function InsertPair(ps: seq<(nat, nat)>, p: (nat, nat)): seq<(nat, nat)> {
    if ps == [] then [p]
    else if PairLess(ps[0], p) then [ps[0]] + InsertPair(ps[1..], p)
    else if PairLess(p, ps[0]) then [p] + ps
    else ps
  }

  // ----- One field of a record

  datatype Field =
    | Comparator(name: Bytes)
    | LogNumber(number: nat)
    | PrevLogNumber(number: nat)
    | NextFileNumber(number: nat)
    | LastSequence(number: nat)
    | CompactPointer(level: nat, key: Bytes)
    | DeletedFile(level: nat, number: nat)
    | AddedFile(file: NewFile)

  predicate FieldFits(f: Field) {
    match f
    case Comparator(name) => |name| < TWO32
    case LogNumber(n) => n < TWO64
    case PrevLogNumber(n) => n < TWO64
    case NextFileNumber(n) => n < TWO64
    case LastSequence(n) => n < TWO64
    case CompactPointer(level, key) => level < NUM_LEVELS && |key| < TWO32
    case DeletedFile(level, n) => level < NUM_LEVELS && n < TWO64
    case AddedFile(f) => f.level < NUM_LEVELS && f.number < TWO64 && f.size < TWO64 && |f.smallest| < TWO32 && |f.largest| < TWO32
  }

  function EncodeField(f: Field): Bytes {
    match f
    case Comparator(name) => Varint(COMPARATOR) + LengthPrefixed(name)
    case LogNumber(n) => Varint(LOG_NUMBER) + Varint(n)
    case PrevLogNumber(n) => Varint(PREV_LOG_NUMBER) + Varint(n)
    case NextFileNumber(n) => Varint(NEXT_FILE_NUMBER) + Varint(n)
    case LastSequence(n) => Varint(LAST_SEQUENCE) + Varint(n)
    case CompactPointer(level, key) => Varint(COMPACT_POINTER) + (Varint(level) + LengthPrefixed(key))
    case DeletedFile(level, n) => Varint(DELETED_FILE) + (Varint(level) + Varint(n))
    case AddedFile(f) =>
      Varint(NEW_FILE) + (Varint(f.level) + (Varint(f.number) + (Varint(f.size)
        + (LengthPrefixed(f.smallest) + LengthPrefixed(f.largest)))))
  }

  /** The bytes of every kind of field: its tag, and what stands behind it. */
  lemma KnownFields(a: byte, b: byte)
    ensures EncodeField(Comparator([a])) == [1, 1, a]
    ensures EncodeField(LogNumber(10)) == [2, 10]
    ensures EncodeField(NextFileNumber(10)) == [3, 10]
    ensures EncodeField(LastSequence(10)) == [4, 10]
    ensures EncodeField(CompactPointer(3, [a])) == [5, 3, 1, a]
    ensures EncodeField(DeletedFile(3, 10)) == [6, 3, 10]
    ensures EncodeField(AddedFile(NewFile(3, 10, 20, [a], [b]))) == [7, 3, 10, 20, 1, a, 1, b]
    ensures EncodeField(PrevLogNumber(10)) == [9, 10]
  {
    assert LengthPrefixed([a]) == [1, a] && LengthPrefixed([b]) == [1, b];
  }

  function GetLevel(input: Bytes): Option<Parsed<nat>> {
    var r := GetVarint32(input);
    if r.None? || r.value.value >= NUM_LEVELS then None else r
  }

  // What stands behind a tag; an unknown tag has nothing.
  function ReadField(tag: nat, input: Bytes): Option<Parsed<Field>> {
    if tag == COMPARATOR then
      var r := GetLengthPrefixed(input);
      if r.None? then None else Some(Parsed(Comparator(r.value.value), r.value.rest))
    else if tag == LOG_NUMBER || tag == PREV_LOG_NUMBER || tag == NEXT_FILE_NUMBER || tag == LAST_SEQUENCE then
      var r := GetVarint64(input);
      if r.None? then None else Some(Parsed(NumberField(tag, r.value.value), r.value.rest))
    else if tag == COMPACT_POINTER || tag == DELETED_FILE || tag == NEW_FILE then
      var l := GetLevel(input);
      if l.None? then None else ReadLevelField(tag, l.value.value, l.value.rest)
    else None
  }

  function NumberField(tag: nat, n: nat): Field {
    if tag == LOG_NUMBER then LogNumber(n)
    else if tag == PREV_LOG_NUMBER then PrevLogNumber(n)
    else if tag == NEXT_FILE_NUMBER then NextFileNumber(n)
    else LastSequence(n)
  }

  function ReadLevelField(tag: nat, level: nat, input: Bytes): Option<Parsed<Field>> {
    if tag == COMPACT_POINTER then
      var key := GetLengthPrefixed(input);
      if key.None? then None else Some(Parsed(CompactPointer(level, key.value.value), key.value.rest))
    else
      var number := GetVarint64(input);
      if number.None? then None
      else if tag == DELETED_FILE then Some(Parsed(DeletedFile(level, number.value.value), number.value.rest))
      else ReadFileField(level, number.value.value, number.value.rest)
  }

  function ReadFileField(level: nat, number: nat, input: Bytes): Option<Parsed<Field>> {
    var size := GetVarint64(input);
    if size.None? then None
    else
      var smallest := GetLengthPrefixed(size.value.rest);
      if smallest.None? then None
      else
        var largest := GetLengthPrefixed(smallest.value.rest);
        if largest.None? then None
        else Some(Parsed(AddedFile(NewFile(level, number, size.value.value, smallest.value.value, largest.value.value)),
                         largest.value.rest))
  }

  /** A field reads back as itself, whatever follows. */
  lemma FieldRoundTrip(f: Field, rest: Bytes)
    requires FieldFits(f)
    ensures exists tag, body :: IsTagged(f, rest, tag, body)
  {
    hide Varint, GetVarint32, GetVarint64, LengthPrefixed, GetLengthPrefixed;
    match f
    case Comparator(name) =>
      LengthPrefixedRoundTrip(name, rest);
      Tagged(f, rest, COMPARATOR, LengthPrefixed(name) + rest);
    case LogNumber(n) =>
      VarintRoundTrip(n, rest);
      Tagged(f, rest, LOG_NUMBER, Varint(n) + rest);
    case PrevLogNumber(n) =>
      VarintRoundTrip(n, rest);
      Tagged(f, rest, PREV_LOG_NUMBER, Varint(n) + rest);
    case NextFileNumber(n) =>
      VarintRoundTrip(n, rest);
      Tagged(f, rest, NEXT_FILE_NUMBER, Varint(n) + rest);
    case LastSequence(n) =>
      VarintRoundTrip(n, rest);
      Tagged(f, rest, LAST_SEQUENCE, Varint(n) + rest);
    case CompactPointer(level, key) =>
      VarintRoundTrip(level, LengthPrefixed(key) + rest);
      LengthPrefixedRoundTrip(key, rest);
      Tagged(f, rest, COMPACT_POINTER, Varint(level) + (LengthPrefixed(key) + rest));
    case DeletedFile(level, n) =>
      VarintRoundTrip(level, Varint(n) + rest);
      VarintRoundTrip(n, rest);
      Tagged(f, rest, DELETED_FILE, Varint(level) + (Varint(n) + rest));
    case AddedFile(file) =>
      FileRoundTrip(file, rest);
  }

  ghost predicate IsTagged(f: Field, rest: Bytes, tag: nat, body: Bytes) {
    && EncodeField(f) + rest == Varint(tag) + body && tag < TWO32
    && ReadField(tag, body) == Some(Parsed(f, rest))
  }

  lemma Tagged(f: Field, rest: Bytes, tag: nat, body: Bytes)
    requires EncodeField(f) + rest == Varint(tag) + body && tag < TWO32
    requires ReadField(tag, body) == Some(Parsed(f, rest))
    ensures exists tag, body :: IsTagged(f, rest, tag, body)
  {
    assert IsTagged(f, rest, tag, body);
  }

  lemma FileRoundTrip(file: NewFile, rest: Bytes)
    requires FieldFits(AddedFile(file))
    ensures exists tag, body :: IsTagged(AddedFile(file), rest, tag, body)
  {
    hide Varint, GetVarint32, GetVarint64, LengthPrefixed, GetLengthPrefixed;
    var keys := LengthPrefixed(file.smallest) + (LengthPrefixed(file.largest) + rest);
    var body := Varint(file.level) + (Varint(file.number) + (Varint(file.size) + keys));
    VarintRoundTrip(file.level, Varint(file.number) + (Varint(file.size) + keys));
    VarintRoundTrip(file.number, Varint(file.size) + keys);
    VarintRoundTrip(file.size, keys);
    LengthPrefixedRoundTrip(file.smallest, LengthPrefixed(file.largest) + rest);
    LengthPrefixedRoundTrip(file.largest, rest);
    assert EncodeField(AddedFile(file)) + rest == Varint(NEW_FILE) + body;
    Tagged(AddedFile(file), rest, NEW_FILE, body);
  }

  // ----- Whole records

  function EncodeFields(fs: seq<Field>): Bytes {
    if fs == [] then [] else EncodeFields(fs[..|fs| - 1]) + EncodeField(fs[|fs| - 1])
  }

  function Apply(e: EditRecord, f: Field): EditRecord {
    match f
    case Comparator(name) => e.(comparator := Some(name))
    case LogNumber(n) => e.(logNumber := Some(n))
    case PrevLogNumber(n) => e.(prevLogNumber := Some(n))
    case NextFileNumber(n) => e.(nextFileNumber := Some(n))
    case LastSequence(n) => e.(lastSequence := Some(n))
    case CompactPointer(level, key) => e.(compactPointers := e.compactPointers + [(level, key)])
    case DeletedFile(level, n) => e.(deletedFiles := InsertPair(e.deletedFiles, (level, n)))
    case AddedFile(file) => e.(newFiles := e.newFiles + [file])
  }

  function ApplyAll(e: EditRecord, fs: seq<Field>): EditRecord {
    if fs == [] then e else Apply(ApplyAll(e, fs[..|fs| - 1]), fs[|fs| - 1])
  }

  datatype Result = Ok(edit: EditRecord) | Corruption(what: string)

  function WhatIsBad(tag: nat): string {
    if tag == COMPARATOR then "comparator name"
    else if tag == LOG_NUMBER then "log number"
    else if tag == PREV_LOG_NUMBER then "previous log number"
    else if tag == NEXT_FILE_NUMBER then "next file number"
    else if tag == LAST_SEQUENCE then "last sequence number"
    else if tag == COMPACT_POINTER then "compaction pointer"
    else if tag == DELETED_FILE then "deleted file"
    else if tag == NEW_FILE then "new-file entry"
    else "unknown tag"
  }

  // VersionEdit::DecodeFrom in the middle of its loop.
  function Decode(input: Bytes, e: EditRecord): Result
    decreases |input|
  {
    var tag := GetVarint32(input);
    Shrinks(input);
    if tag.None? then (if input == [] then Ok(e) else Corruption("invalid tag"))
    else
      var f := ReadField(tag.value.value, tag.value.rest);
      FieldShrinks(tag.value.value, tag.value.rest);
      if f.None? then Corruption(WhatIsBad(tag.value.value)) else Decode(f.value.rest, Apply(e, f.value.value))
  }

  lemma Shrinks(b: Bytes)
    ensures GetVarint32(b).Some? ==> |GetVarint32(b).value.rest| < |b|
    ensures GetVarint64(b).Some? ==> |GetVarint64(b).value.rest| < |b|
    ensures GetLengthPrefixed(b).Some? ==> |GetLengthPrefixed(b).value.rest| < |b|
  {
    hide ReadVarint;
    VarintShrinks(b, 5);
    VarintShrinks(b, 10);
  }

  lemma FieldShrinks(tag: nat, b: Bytes)
    ensures ReadField(tag, b).Some? ==> |ReadField(tag, b).value.rest| < |b|
  {
    hide GetVarint32, GetVarint64, GetLengthPrefixed;
    forall s: Bytes
      ensures GetVarint32(s).Some? ==> |GetVarint32(s).value.rest| < |s|
      ensures GetVarint64(s).Some? ==> |GetVarint64(s).value.rest| < |s|
      ensures GetLengthPrefixed(s).Some? ==> |GetLengthPrefixed(s).value.rest| < |s|
    {
      Shrinks(s);
    }
  }

  /** A record with a tag that no field has is refused, wherever the tag stands. */
  lemma UnknownTagIsRefused(tag: nat, rest: Bytes, e: EditRecord)
    requires tag < TWO32 && !(1 <= tag <= 7) && tag != 9
    ensures Decode(Varint(tag) + rest, e) == Corruption("unknown tag")
  {
    VarintRoundTrip(tag, rest);
    hide Varint, GetVarint32;
  }

  /** So is a level that the version does not have. */
  lemma HighLevelIsRefused(tag: nat, level: nat, rest: Bytes, e: EditRecord)
    requires 5 <= tag <= 7 && 7 <= level < TWO32
    ensures Decode(Varint(tag) + (Varint(level) + rest), e).Corruption?
  {
    VarintRoundTrip(tag, Varint(level) + rest);
    VarintRoundTrip(level, rest);
    hide Varint, GetVarint32;
  }

  method DecodeFrom(src: Bytes) returns (r: Result)
    ensures r == Decode(src, EMPTY)
  {
    hide ReadField, Apply;
    var input := src;
    var edit := EMPTY;
    while true
      invariant Decode(input, edit) == Decode(src, EMPTY)
      decreases |input|
    {
      var tag := GetVarint32(input);
      Shrinks(input);
      if tag.None? {
        break;
      }
      var f := ReadField(tag.value.value, tag.value.rest);
      FieldShrinks(tag.value.value, tag.value.rest);
      if f.None? {
        return Corruption(WhatIsBad(tag.value.value));
      }
      edit := Apply(edit, f.value.value);
      input := f.value.rest;
    }
    if input != [] {
      return Corruption("invalid tag");
    }
    return Ok(edit);
  }

  // ----- Encoding a record

  function Scalars(e: EditRecord): seq<Field> {
    (if e.comparator.Some? then [Comparator(e.comparator.value)] else [])
      + (if e.logNumber.Some? then [LogNumber(e.logNumber.value)] else [])
      + (if e.prevLogNumber.Some? then [PrevLogNumber(e.prevLogNumber.value)] else [])
      + (if e.nextFileNumber.Some? then [NextFileNumber(e.nextFileNumber.value)] else [])
      + if e.lastSequence.Some? then [LastSequence(e.lastSequence.value)] else []
  }

  function Pointers(ps: seq<(nat, Bytes)>): seq<Field> {
    seq(|ps|, i requires 0 <= i < |ps| => CompactPointer(ps[i].0, ps[i].1))
  }

  function Deleted(ps: seq<(nat, nat)>): seq<Field> {
    seq(|ps|, i requires 0 <= i < |ps| => DeletedFile(ps[i].0, ps[i].1))
  }

  function Added(fs: seq<NewFile>): seq<Field> {
    seq(|fs|, i requires 0 <= i < |fs| => AddedFile(fs[i]))
  }

  function FieldsOf(e: EditRecord): seq<Field> {
    Scalars(e) + Pointers(e.compactPointers) + Deleted(e.deletedFiles) + Added(e.newFiles)
  }

  // Everything fits its width, levels are in range, and the deleted files are in the order of a set.
  ghost predicate RecordOk(e: EditRecord) {
    && (forall f :: f in FieldsOf(e) ==> FieldFits(f))
    && forall i, j :: 0 <= i < j < |e.deletedFiles| ==> PairLess(e.deletedFiles[i], e.deletedFiles[j])
  }

  lemma EncodeSnoc(fs: seq<Field>, f: Field)
    ensures EncodeFields(fs + [f]) == EncodeFields(fs) + EncodeField(f)
  {
    hide EncodeField;
    assert (fs + [f])[..|fs|] == fs;
  }

  method EncodeTo(e: EditRecord) returns (dst: Bytes)
    ensures dst == EncodeFields(FieldsOf(e))
  {
    hide EncodeField, EncodeFields, Pointers, Deleted, Added;
    dst := PutScalars(e);
    ghost var fs := Scalars(e);
    PointerAt(e, 0);
    assert fs + Pointers(e.compactPointers)[..0] == fs;
    for i: nat := 0 to |e.compactPointers|
      invariant dst == EncodeFields(fs + Pointers(e.compactPointers)[..i])
    {
      PointerAt(e, i);
      TakeSnoc(fs, Pointers(e.compactPointers), i);
      dst := dst + EncodeField(CompactPointer(e.compactPointers[i].0, e.compactPointers[i].1));
    }
    assert Pointers(e.compactPointers)[..|e.compactPointers|] == Pointers(e.compactPointers);
    fs := fs + Pointers(e.compactPointers);
    assert fs + Deleted(e.deletedFiles)[..0] == fs;
    for i: nat := 0 to |e.deletedFiles|
      invariant dst == EncodeFields(fs + Deleted(e.deletedFiles)[..i])
    {
      PointerAt(e, i);
      TakeSnoc(fs, Deleted(e.deletedFiles), i);
      dst := dst + EncodeField(DeletedFile(e.deletedFiles[i].0, e.deletedFiles[i].1));
    }
    assert Deleted(e.deletedFiles)[..|e.deletedFiles|] == Deleted(e.deletedFiles);
    fs := fs + Deleted(e.deletedFiles);
    assert fs + Added(e.newFiles)[..0] == fs;
    for i: nat := 0 to |e.newFiles|
      invariant dst == EncodeFields(fs + Added(e.newFiles)[..i])
    {
      PointerAt(e, i);
      TakeSnoc(fs, Added(e.newFiles), i);
      dst := dst + EncodeField(AddedFile(e.newFiles[i]));
    }
    assert Added(e.newFiles)[..|e.newFiles|] == Added(e.newFiles);
  }

  lemma PointerAt(e: EditRecord, i: nat)
    ensures |Pointers(e.compactPointers)| == |e.compactPointers|
    ensures |Deleted(e.deletedFiles)| == |e.deletedFiles| && |Added(e.newFiles)| == |e.newFiles|
    ensures i < |e.compactPointers| ==>
              Pointers(e.compactPointers)[i] == CompactPointer(e.compactPointers[i].0, e.compactPointers[i].1)
    ensures i < |e.deletedFiles| ==> Deleted(e.deletedFiles)[i] == DeletedFile(e.deletedFiles[i].0, e.deletedFiles[i].1)
    ensures i < |e.newFiles| ==> Added(e.newFiles)[i] == AddedFile(e.newFiles[i])
  {
  }

  lemma TakeSnoc(fs: seq<Field>, more: seq<Field>, i: nat)
    requires i < |more|
    ensures EncodeFields(fs + more[..i + 1]) == EncodeFields(fs + more[..i]) + EncodeField(more[i])
  {
    hide EncodeField, EncodeFields;
    assert fs + more[..i + 1] == fs + more[..i] + [more[i]];
    EncodeSnoc(fs + more[..i], more[i]);
  }

  method PutScalars(e: EditRecord) returns (dst: Bytes)
    ensures dst == EncodeFields(Scalars(e))
  {
    hide EncodeField, EncodeFields;
    NothingEncoded();
    dst := [];
    ghost var fs: seq<Field> := [];
    if e.comparator.Some? {
      dst, fs := PutField(dst, fs, Comparator(e.comparator.value));
    }
    if e.logNumber.Some? {
      dst, fs := PutField(dst, fs, LogNumber(e.logNumber.value));
    }
    if e.prevLogNumber.Some? {
      dst, fs := PutField(dst, fs, PrevLogNumber(e.prevLogNumber.value));
    }
    if e.nextFileNumber.Some? {
      dst, fs := PutField(dst, fs, NextFileNumber(e.nextFileNumber.value));
    }
    if e.lastSequence.Some? {
      dst, fs := PutField(dst, fs, LastSequence(e.lastSequence.value));
    }
    assert fs == Scalars(e);
  }

  lemma NothingEncoded()
    ensures EncodeFields([]) == []
  {
  }

  method PutField(dst: Bytes, ghost fs: seq<Field>, f: Field) returns (longer: Bytes, ghost more: seq<Field>)
    requires dst == EncodeFields(fs)
    ensures longer == EncodeFields(more) && more == fs + [f]
    ensures longer == dst + EncodeField(f)
  {
    hide EncodeField, EncodeFields;
    EncodeSnoc(fs, f);
    longer, more := dst + EncodeField(f), fs + [f];
  }

  lemma {:induction false} ApplyAllConcat(e: EditRecord, xs: seq<Field>, ys: seq<Field>)
    ensures ApplyAll(e, xs + ys) == ApplyAll(ApplyAll(e, xs), ys)
  {
    hide Apply;
    if ys == [] {
      assert xs + ys == xs;
    } else {
      var n := |ys| - 1;
      assert (xs + ys)[..|xs| + n] == xs + ys[..n];
      ApplyAllConcat(e, xs, ys[..n]);
    }
  }

  lemma {:induction false} DecodeEncoded(fs: seq<Field>, rest: Bytes, e: EditRecord)
    requires forall f :: f in fs ==> FieldFits(f)
    ensures Decode(EncodeFields(fs) + rest, e) == Decode(rest, ApplyAll(e, fs))
    decreases |fs|
  {
    hide EncodeField, ReadField, Apply, FieldFits, IsTagged;
    if fs == [] {
      assert EncodeFields(fs) + rest == rest;
    } else {
      var n := |fs| - 1;
      var last := EncodeField(fs[n]) + rest;
      assert EncodeFields(fs) + rest == EncodeFields(fs[..n]) + last;
      DecodeEncoded(fs[..n], last, e);
      DecodeOne(fs[n], rest, ApplyAll(e, fs[..n]));
    }
  }

  lemma DecodeOne(f: Field, rest: Bytes, e: EditRecord)
    requires FieldFits(f)
    ensures Decode(EncodeField(f) + rest, e) == Decode(rest, Apply(e, f))
  {
    hide EncodeField, ReadField, Apply, FieldFits, Varint, GetVarint32;
    FieldRoundTrip(f, rest);
    var tag, body :| IsTagged(f, rest, tag, body);
    VarintRoundTrip(tag, body);
  }

  /** Decoding an encoded record into a fresh edit gives the record back. */
  lemma EditRoundTrip(e: EditRecord)
    requires RecordOk(e)
    ensures Decode(EncodeFields(FieldsOf(e)), EMPTY) == Ok(e)
  {
    hide FieldFits, EncodeFields, ApplyAll, FieldsOf;
    DecodeEncoded(FieldsOf(e), [], EMPTY);
    assert EncodeFields(FieldsOf(e)) + [] == EncodeFields(FieldsOf(e));
    FieldsRebuild(e);
    DecodeNothing(e);
  }

  lemma DecodeNothing(e: EditRecord)
    ensures Decode([], e) == Ok(e)
  {
  }

  lemma FieldsRebuild(e: EditRecord)
    requires forall i, j :: 0 <= i < j < |e.deletedFiles| ==> PairLess(e.deletedFiles[i], e.deletedFiles[j])
    ensures ApplyAll(EMPTY, FieldsOf(e)) == e
  {
    hide ApplyAll, PairLess;
    var (s, p, d, a) := (Scalars(e), Pointers(e.compactPointers), Deleted(e.deletedFiles), Added(e.newFiles));
    ApplyAllConcat(EMPTY, s + p + d, a);
    ApplyAllConcat(EMPTY, s + p, d);
    ApplyAllConcat(EMPTY, s, p);
    ScalarsRebuild(e);
    var e1 := EMPTY.(comparator := e.comparator, logNumber := e.logNumber, prevLogNumber := e.prevLogNumber,
                     nextFileNumber := e.nextFileNumber, lastSequence := e.lastSequence);
    PointersRebuild(e1, e.compactPointers);
    assert e1.compactPointers + e.compactPointers == e.compactPointers;
    assert e1.newFiles + e.newFiles == e.newFiles;
    var e2 := e1.(compactPointers := e.compactPointers);
    DeletedRebuild(e2, e.deletedFiles);
    AddedRebuild(e2.(deletedFiles := e.deletedFiles), e.newFiles);
  }

  lemma ScalarsRebuild(e: EditRecord)
    ensures ApplyAll(EMPTY, Scalars(e))
         == EMPTY.(comparator := e.comparator, logNumber := e.logNumber, prevLogNumber := e.prevLogNumber,
                   nextFileNumber := e.nextFileNumber, lastSequence := e.lastSequence)
  {
    hide ApplyAll;
    var c := if e.comparator.Some? then [Comparator(e.comparator.value)] else [];
    var l := if e.logNumber.Some? then [LogNumber(e.logNumber.value)] else [];
    var p := if e.prevLogNumber.Some? then [PrevLogNumber(e.prevLogNumber.value)] else [];
    var n := if e.nextFileNumber.Some? then [NextFileNumber(e.nextFileNumber.value)] else [];
    var s := if e.lastSequence.Some? then [LastSequence(e.lastSequence.value)] else [];
    assert Scalars(e) == c + l + p + n + s;
    ApplyAllConcat(EMPTY, c + l + p + n, s);
    ApplyAllConcat(EMPTY, c + l + p, n);
    ApplyAllConcat(EMPTY, c + l, p);
    ApplyAllConcat(EMPTY, c, l);
    ApplyOne(EMPTY, c);
    ApplyOne(ApplyAll(EMPTY, c), l);
    ApplyOne(ApplyAll(EMPTY, c + l), p);
    ApplyOne(ApplyAll(EMPTY, c + l + p), n);
    ApplyOne(ApplyAll(EMPTY, c + l + p + n), s);
  }

  lemma ApplyOne(e: EditRecord, fs: seq<Field>)
    requires |fs| <= 1
    ensures ApplyAll(e, fs) == if fs == [] then e else Apply(e, fs[0])
  {
    if fs != [] {
      assert fs[..0] == [];
    }
  }

  lemma {:induction false} PointersRebuild(e: EditRecord, ps: seq<(nat, Bytes)>)
    ensures ApplyAll(e, Pointers(ps)) == e.(compactPointers := e.compactPointers + ps)
  {
    if ps == [] {
      assert e.compactPointers + ps == e.compactPointers;
    } else {
      var n := |ps| - 1;
      assert Pointers(ps)[..n] == Pointers(ps[..n]);
      PointersRebuild(e, ps[..n]);
      assert e.compactPointers + ps == e.compactPointers + ps[..n] + [ps[n]];
    }
  }

  lemma {:induction false} AddedRebuild(e: EditRecord, fs: seq<NewFile>)
    ensures ApplyAll(e, Added(fs)) == e.(newFiles := e.newFiles + fs)
  {
    if fs == [] {
      assert e.newFiles + fs == e.newFiles;
    } else {
      var n := |fs| - 1;
      assert Added(fs)[..n] == Added(fs[..n]);
      AddedRebuild(e, fs[..n]);
      assert e.newFiles + fs == e.newFiles + fs[..n] + [fs[n]];
    }
  }

  lemma {:induction false} DeletedRebuild(e: EditRecord, ps: seq<(nat, nat)>)
    requires e.deletedFiles == []
    requires forall i, j :: 0 <= i < j < |ps| ==> PairLess(ps[i], ps[j])
    ensures ApplyAll(e, Deleted(ps)) == e.(deletedFiles := ps)
  {
    if ps != [] {
      var n := |ps| - 1;
      assert Deleted(ps)[..n] == Deleted(ps[..n]);
      DeletedRebuild(e, ps[..n]);
      InsertLast(ps[..n], ps[n]);
      assert ps == ps[..n] + [ps[n]];
    }
  }

  lemma {:induction false} InsertLast(ps: seq<(nat, nat)>, p: (nat, nat))
    requires forall i :: 0 <= i < |ps| ==> PairLess(ps[i], p)
    ensures InsertPair(ps, p) == ps + [p]
  {
    if ps != [] {
      InsertLast(ps[1..], p);
    }
  }
}
