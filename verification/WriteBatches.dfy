/** Batches of updates and the memtable entries they become (db/write_batch.cc, db/memtable.cc). */
module WriteBatches {
  import opened Wrappers
  import opened DbFormat
  import opened Coding
  import opened Comparator

  const HEADER: nat := 12

  datatype Update = Put(key: Bytes, value: Bytes) | Delete(key: Bytes)

  predicate UpdateFits(u: Update) {
    |u.key| < TWO32 && (u.Put? ==> |u.value| < TWO32)
  }

  ghost predicate Fit(us: seq<Update>) {
    forall i :: 0 <= i < |us| ==> UpdateFits(us[i])
  }

  // ----- The encoding of the updates, behind the header

  function EncodeUpdate(u: Update): Bytes {
    match u
    case Put(key, value) => [1 as byte] + LengthPrefixed(key) + LengthPrefixed(value)
    case Delete(key) => [0 as byte] + LengthPrefixed(key)
  }

  function EncodeUpdates(us: seq<Update>): Bytes {
    if us == [] then [] else EncodeUpdates(us[..|us| - 1]) + EncodeUpdate(us[|us| - 1])
  }

  datatype Status = Ok | Corruption(what: string)

  // One turn of the loop of WriteBatch::Iterate.
  function ReadUpdate(input: Bytes): (r: Option<Parsed<Update>>)
    requires input != []
    ensures r.Some? ==> |r.value.rest| < |input|
  {
    var rest := input[1..];
    var key := GetLengthPrefixed(rest);
    PrefixedShrinks(rest);
    if key.None? || input[0] > 1 then None
    else if input[0] == 0 then Some(Parsed(Delete(key.value.value), key.value.rest))
    else
      var value := GetLengthPrefixed(key.value.rest);
      PrefixedShrinks(key.value.rest);
      if value.None? then None else Some(Parsed(Put(key.value.value, value.value.value), value.value.rest))
  }

  lemma PrefixedShrinks(b: Bytes)
    ensures GetLengthPrefixed(b).Some? ==> |GetLengthPrefixed(b).value.rest| < |b|
  {
    VarintShrinks(b, 5);
  }

  function WhatIsBad(input: Bytes): string
    requires input != []
  {
    if input[0] == 1 then "bad WriteBatch Put"
    else if input[0] == 0 then "bad WriteBatch Delete"
    else "unknown WriteBatch tag"
  }

  // The updates a handler is given, and how the iteration over them ends.
  function ReadUpdates(input: Bytes): (seq<Update>, Status)
    decreases |input|
  {
    if input == [] then ([], Ok)
    else
      var r := ReadUpdate(input);
      if r.None? then ([], Corruption(WhatIsBad(input)))
      else
        var (more, status) := ReadUpdates(r.value.rest);
        ([r.value.value] + more, status)
  }

  // WriteBatch::Iterate over a whole representation.
  function Iterated(rep: Bytes): (seq<Update>, Status) {
    if |rep| < HEADER then ([], Corruption("malformed WriteBatch (too small)"))
    else
      var (us, status) := ReadUpdates(rep[HEADER..]);
      (us, if status.Ok? && |us| % TWO32 != DecodeFixed32(rep[8..12]) then Corruption("WriteBatch has wrong count")
           else status)
  }

  lemma ReadEncoded(u: Update, rest: Bytes)
    requires UpdateFits(u)
    ensures var input := EncodeUpdate(u) + rest;
            input != [] && ReadUpdate(input) == Some(Parsed(u, rest))
  {
    hide LengthPrefixed, GetLengthPrefixed;
    var input := EncodeUpdate(u) + rest;
    match u
    case Put(key, value) =>
      assert input[1..] == LengthPrefixed(key) + (LengthPrefixed(value) + rest);
      LengthPrefixedRoundTrip(key, LengthPrefixed(value) + rest);
      LengthPrefixedRoundTrip(value, rest);
    case Delete(key) =>
      assert input[1..] == LengthPrefixed(key) + rest;
      LengthPrefixedRoundTrip(key, rest);
  }

  /** Iterating over encoded updates hands out exactly those updates, in order. */
  lemma {:induction false} ReadsWhatWasWritten(us: seq<Update>, rest: Bytes)
    requires Fit(us)
    ensures var (more, status) := ReadUpdates(rest);
            ReadUpdates(EncodeUpdates(us) + rest) == (us + more, status)
  {
    hide EncodeUpdate, ReadUpdate, UpdateFits;
    if us == [] {
      assert EncodeUpdates(us) + rest == rest;
      assert us + ReadUpdates(rest).0 == ReadUpdates(rest).0;
    } else {
      var n := |us| - 1;
      var last := EncodeUpdate(us[n]) + rest;
      assert EncodeUpdates(us) + rest == EncodeUpdates(us[..n]) + last;
      assert UpdateFits(us[n]);
      ReadEncoded(us[n], rest);
      ReadsWhatWasWritten(us[..n], last);
      assert us[..n] + ([us[n]] + ReadUpdates(rest).0) == us + ReadUpdates(rest).0;
    }
  }

  lemma CutUpdate(u: Update, m: nat)
    requires UpdateFits(u) && 0 < m < |EncodeUpdate(u)|
    ensures EncodeUpdate(u)[..m] != [] && ReadUpdate(EncodeUpdate(u)[..m]) == None
  {
    hide LengthPrefixed, GetLengthPrefixed;
    var input := EncodeUpdate(u)[..m];
    var k := LengthPrefixed(u.key);
    if m - 1 < |k| {
      assert input[1..] == k[..m - 1];
      LengthPrefixedCut(u.key, m - 1);
    } else {
      var v := LengthPrefixed(u.value);
      assert input[1..] == k + v[..m - 1 - |k|];
      LengthPrefixedRoundTrip(u.key, v[..m - 1 - |k|]);
      LengthPrefixedCut(u.value, m - 1 - |k|);
    }
  }

  /** A batch that is cut off hands out exactly the updates that are complete, and is reported as corrupt unless the cut
      is between two updates. */
  lemma CutBatch(us: seq<Update>, k: nat, m: nat)
    requires Fit(us) && k <= |us| && |EncodeUpdates(us[..k])| <= m <= |EncodeUpdates(us)|
    requires k < |us| ==> m < |EncodeUpdates(us[..k + 1])|
    ensures var (got, status) := ReadUpdates(EncodeUpdates(us)[..m]);
            got == us[..k] && (status.Ok? <==> m == |EncodeUpdates(us[..k])|)
  {
    hide EncodeUpdate, ReadUpdate, UpdateFits;
    var done := EncodeUpdates(us[..k]);
    var rest := EncodeUpdates(us)[..m][|done|..];
    EncodedPrefix(us, k);
    assert EncodeUpdates(us)[..m] == done + rest;
    ReadsWhatWasWritten(us[..k], rest);
    if m > |done| {
      assert us[..|us|] == us;
      EncodedPrefix(us, k + 1);
      assert us[..k + 1][..k] == us[..k];
      assert rest == EncodeUpdate(us[k])[..m - |done|];
      CutUpdate(us[k], m - |done|);
      assert us[..k] + [] == us[..k];
    } else {
      assert rest == [] && us[..k] + [] == us[..k];
    }
  }

  lemma {:induction false} EncodedPrefix(us: seq<Update>, k: nat)
    requires k <= |us|
    ensures EncodeUpdates(us[..k]) <= EncodeUpdates(us)
  {
    hide EncodeUpdate;
    if k < |us| {
      var n := |us| - 1;
      assert us[..n][..k] == us[..k];
      EncodedPrefix(us[..n], k);
    } else {
      assert us[..k] == us;
    }
  }

  /** An update of any other type than 0 and 1 is not one. */
  lemma OtherTypesAreBad(input: Bytes)
    requires input != [] && input[0] > 1
    ensures ReadUpdates(input) == ([], Corruption("unknown WriteBatch tag"))
  {
  }

  lemma EncodedSnoc(us: seq<Update>, u: Update)
    ensures EncodeUpdates(us + [u]) == EncodeUpdates(us) + EncodeUpdate(u)
  {
    hide EncodeUpdate;
    assert (us + [u])[..|us|] == us;
  }

  lemma {:induction false} EncodedConcat(us: seq<Update>, more: seq<Update>)
    ensures EncodeUpdates(us + more) == EncodeUpdates(us) + EncodeUpdates(more)
  {
    hide EncodeUpdate;
    if more == [] {
      assert us + more == us;
    } else {
      var n := |more| - 1;
      assert (us + more)[..|us| + n] == us + more[..n];
      EncodedConcat(us, more[..n]);
    }
  }

  // The parts of a representation.
  lemma HeaderParts(rep: Bytes, sn: nat, us: seq<Update>)
    requires sn < TWO64 && rep == Fixed64(sn) + Fixed32(|us| % TWO32) + EncodeUpdates(us)
    ensures |rep| >= HEADER && rep[..8] == Fixed64(sn) && rep[8..12] == Fixed32(|us| % TWO32)
    ensures DecodeFixed32(rep[8..12]) == |us| % TWO32 && rep[12..] == EncodeUpdates(us)
    ensures rep[8..] == Fixed32(|us| % TWO32) + EncodeUpdates(us)
  {
    hide EncodeUpdates, Fixed64, Fixed32, FromFixed;
    ThreeParts(Fixed64(sn), Fixed32(|us| % TWO32), EncodeUpdates(us));
  }

  lemma ThreeParts(a: Bytes, b: Bytes, c: Bytes)
    requires |a| == 8 && |b| == 4
    ensures (a + b + c)[..8] == a && (a + b + c)[8..12] == b && (a + b + c)[12..] == c && (a + b + c)[8..] == b + c
  {
  }

  lemma CountsAdd(m: nat, n: nat)
    ensures (m % TWO32 + n % TWO32) % TWO32 == (m + n) % TWO32
    ensures (m % TWO32 + 1) % TWO32 == (m + 1) % TWO32
  {
  }

  lemma EightZeros()
    ensures Fixed64(0) == [0, 0, 0, 0, 0, 0, 0, 0] && Fixed32(0) == [0, 0, 0, 0]
  {
    assert Fixed(0, 2) == [0] + Fixed(0, 1) == [0, 0];
    assert Fixed(0, 4) == [0] + ([0] + Fixed(0, 2));
    assert Fixed(0, 6) == [0] + ([0] + Fixed(0, 4));
    assert Fixed(0, 8) == [0] + ([0] + Fixed(0, 6));
  }

  /** A well-formed batch iterates as its updates. */
  lemma IterateGivesUpdates(rep: Bytes, sn: nat, us: seq<Update>)
    requires sn < TWO64 && Fit(us) && rep == Fixed64(sn) + Fixed32(|us| % TWO32) + EncodeUpdates(us)
    ensures Iterated(rep) == (us, Ok)
  {
    hide EncodeUpdates, Fixed64, Fixed32, FromFixed, Fit;
    HeaderParts(rep, sn, us);
    ReadsWhatWasWritten(us, []);
    assert EncodeUpdates(us) + [] == EncodeUpdates(us);
    assert us + [] == us;
  }

  /** A whole representation: sequence number, count, and the two kinds of update. */
  lemma KnownBatch(k: byte, v: byte, d: byte)
    ensures Fixed64(5) + Fixed32(2) + EncodeUpdates([Put([k], [v]), Delete([d])])
         == [5, 0, 0, 0, 0, 0, 0, 0] + [2, 0, 0, 0] + [1, 1, k, 1, v, 0, 1, d]
  {
    hide Fixed, EncodeUpdates, LengthPrefixed;
    KnownHeader();
    KnownUpdates(k, v, d);
  }

  lemma KnownHeader()
    ensures Fixed64(5) == [5, 0, 0, 0, 0, 0, 0, 0] && Fixed32(2) == [2, 0, 0, 0]
  {
    EightZeros();
    assert Fixed(0, 7) == Fixed(0, 8)[1..] == [0, 0, 0, 0, 0, 0, 0];
    assert Fixed(0, 3) == Fixed(0, 4)[1..] == [0, 0, 0];
  }

  lemma KnownUpdates(k: byte, v: byte, d: byte)
    ensures EncodeUpdates([Put([k], [v]), Delete([d])]) == [1, 1, k, 1, v, 0, 1, d]
  {
    assert LengthPrefixed([k]) == [1, k] && LengthPrefixed([v]) == [1, v] && LengthPrefixed([d]) == [1, d];
    var us := [Put([k], [v]), Delete([d])];
    assert us[..1] == [us[0]] && us[..1][..0] == [];
    assert EncodeUpdates(us) == EncodeUpdates(us[..1]) + EncodeUpdate(us[1]);
    assert EncodeUpdates(us[..1]) == EncodeUpdates([]) + EncodeUpdate(us[0]) == [1, 1, k, 1, v];
  }

  // ----- The batch

  class WriteBatch {
    var rep: Bytes
    ghost var sn: nat
    ghost var updates: seq<Update>

    ghost predicate Ok()
      reads this
    {
      && sn < TWO64 && Fit(updates)
      && rep == Fixed64(sn) + Fixed32(|updates| % TWO32) + EncodeUpdates(updates)
    }

    constructor ()
      ensures Ok() && updates == [] && sn == 0
    {
      EightZeros();
      rep := seq(HEADER, _ => 0);
      sn, updates := 0, [];
    }

    function Count(): nat
      reads this
      requires |rep| >= HEADER
    {
      DecodeFixed32(rep[8..12])
    }

    method SetCount(n: nat)
      requires |rep| >= HEADER
      modifies `rep
      ensures rep == old(rep)[..8] + Fixed32(n % TWO32) + old(rep)[12..]
    {
      rep := rep[..8] + Fixed32(n % TWO32) + rep[12..];
    }

    method SetSequence(sn: nat)
      requires Ok() && sn < TWO64
      modifies this
      ensures Ok() && this.sn == sn && updates == old(updates)
    {
      hide EncodeUpdates, Fixed64, Fixed32;
      HeaderParts(rep, this.sn, updates);
      rep := Fixed64(sn) + rep[8..];
      assert rep == Fixed64(sn) + Fixed32(|updates| % TWO32) + EncodeUpdates(updates);
      this.sn := sn;
    }

    method Put(key: Bytes, value: Bytes)
      requires Ok() && |key| < TWO32 && |value| < TWO32
      modifies this
      ensures Ok() && updates == old(updates) + [Update.Put(key, value)] && sn == old(sn)
    {
      hide EncodeUpdates, Fixed64, Fixed32, LengthPrefixed;
      HeaderParts(rep, sn, updates);
      SetCount(Count() + 1);
      rep := rep + [1];
      rep := rep + LengthPrefixed(key);
      rep := rep + LengthPrefixed(value);
      ghost var u := Update.Put(key, value);
      EncodedSnoc(updates, u);
      CountsAdd(|updates|, 1);
      assert rep == Fixed64(sn) + Fixed32((|updates| + 1) % TWO32) + (EncodeUpdates(updates) + EncodeUpdate(u));
      updates := updates + [u];
    }

    method Delete(key: Bytes)
      requires Ok() && |key| < TWO32
      modifies this
      ensures Ok() && updates == old(updates) + [Update.Delete(key)] && sn == old(sn)
    {
      hide EncodeUpdates, Fixed64, Fixed32, LengthPrefixed;
      HeaderParts(rep, sn, updates);
      SetCount(Count() + 1);
      rep := rep + [0];
      rep := rep + LengthPrefixed(key);
      ghost var u := Update.Delete(key);
      EncodedSnoc(updates, u);
      CountsAdd(|updates|, 1);
      assert rep == Fixed64(sn) + Fixed32((|updates| + 1) % TWO32) + (EncodeUpdates(updates) + EncodeUpdate(u));
      updates := updates + [u];
    }

    /** Appending a batch is replaying its updates after those already there. */
    method Append(source: WriteBatch)
      requires Ok() && source.Ok()
      modifies this
      ensures Ok() && updates == old(updates) + old(source.updates) && sn == old(sn)
    {
      hide EncodeUpdates, Fixed64, Fixed32;
      HeaderParts(rep, sn, updates);
      HeaderParts(source.rep, source.sn, source.updates);
      ghost var more := source.updates;
      var body := source.rep[HEADER..];
      SetCount(Count() + source.Count());
      rep := rep + body;
      EncodedConcat(updates, more);
      CountsAdd(|updates|, |more|);
      assert rep == Fixed64(sn) + Fixed32((|updates| + |more|) % TWO32) + (EncodeUpdates(updates) + EncodeUpdates(more));
      updates := updates + more;
    }

    /** Hands the updates to a handler, in the order they were made; the calls it gets are returned. */
    method Iterate() returns (calls: seq<Update>, status: Status)
      ensures (calls, status) == Iterated(rep)
      ensures Ok() ==> calls == updates && status.Ok?
    {
      hide ReadUpdate, EncodeUpdates, Ok, ReadUpdates, Remaining;
      if Ok() {
        IteratesAsUpdates();
      }
      if |rep| < HEADER {
        return [], Corruption("malformed WriteBatch (too small)");
      }
      var input := rep[HEADER..];
      calls := [];
      var found := 0;
      RemainingAtStart(input);
      while input != []
        invariant |calls| == found && Remaining(rep[HEADER..], calls, input)
        decreases |input|
      {
        var r := ReadUpdate(input);
        RemainingStep(rep[HEADER..], calls, input);
        if r.None? {
          return calls, Corruption(WhatIsBad(input));
        }
        found := found + 1;
        calls := calls + [r.value.value];
        input := r.value.rest;
      }
      RemainingAtEnd(rep[HEADER..], calls);
      if found % TWO32 != Count() {
        return calls, Corruption("WriteBatch has wrong count");
      }
      return calls, Status.Ok;
    }

    lemma IteratesAsUpdates()
      requires Ok()
      ensures Iterated(rep) == (updates, Status.Ok)
    {
      IterateGivesUpdates(rep, sn, updates);
    }
  }

  // These updates have been handed out, and the rest of the input decides how it goes on.
  ghost predicate Remaining(all: Bytes, calls: seq<Update>, input: Bytes) {
    ReadUpdates(all) == (calls + ReadUpdates(input).0, ReadUpdates(input).1)
  }

  lemma RemainingAtStart(all: Bytes)
    ensures Remaining(all, [], all)
  {
    hide ReadUpdates;
    assert [] + ReadUpdates(all).0 == ReadUpdates(all).0;
  }

  lemma RemainingStep(all: Bytes, calls: seq<Update>, input: Bytes)
    requires Remaining(all, calls, input) && input != []
    ensures var r := ReadUpdate(input);
            if r.None? then ReadUpdates(all) == (calls, Corruption(WhatIsBad(input)))
            else Remaining(all, calls + [r.value.value], r.value.rest)
  {
    hide ReadUpdate;
    var r := ReadUpdate(input);
    if r.None? {
      assert calls + [] == calls;
    } else {
      var more := ReadUpdates(r.value.rest).0;
      assert calls + ([r.value.value] + more) == calls + [r.value.value] + more;
    }
  }

  lemma RemainingAtEnd(all: Bytes, calls: seq<Update>)
    requires Remaining(all, calls, [])
    ensures ReadUpdates(all) == (calls, Ok)
  {
    assert calls + [] == calls;
  }

  // ----- Insertion into a memtable

  // What MemTable::Add is given.
  datatype MemEntry = MemEntry(user: Bytes, sn: nat, kind: nat, value: Bytes)

  // MemTableInserter: each update takes the next sequence number.
  function Inserted(sn: nat, us: seq<Update>): seq<MemEntry> {
    if us == [] then []
    else
      var u := us[|us| - 1];
      Inserted(sn, us[..|us| - 1])
        + [MemEntry(u.key, sn + |us| - 1, if u.Put? then TYPE_VALUE else TYPE_DELETION, if u.Put? then u.value else [])]
  }

  /** Inserting a batch stores exactly its updates, with consecutive sequence numbers. */
  method InsertInto(batch: WriteBatch) returns (entries: seq<MemEntry>, status: Status)
    requires |batch.rep| >= HEADER
    ensures entries == Inserted(DecodeFixed64(batch.rep[..8]), Iterated(batch.rep).0)
    ensures status == Iterated(batch.rep).1
    ensures batch.Ok() ==> entries == Inserted(batch.sn, batch.updates) && status.Ok?
  {
    hide EncodeUpdates, ReadUpdates, Inserted, Fixed64;
    var first := DecodeFixed64(batch.rep[..8]);
    if batch.Ok() {
      HeaderParts(batch.rep, batch.sn, batch.updates);
    }
    var calls, result := batch.Iterate();
    status := result;
    var sequence := first;
    entries := [];
    NothingInserted(first);
    for i: nat := 0 to |calls|
      invariant sequence == first + i && entries == Inserted(first, calls[..i])
    {
      InsertedStep(first, calls, i);
      var u := calls[i];
      entries := entries + [if u.Put? then MemEntry(u.key, sequence, TYPE_VALUE, u.value)
                            else MemEntry(u.key, sequence, TYPE_DELETION, [])];
      sequence := sequence + 1;
    }
    assert calls[..|calls|] == calls;
  }

  lemma NothingInserted(sn: nat)
    ensures forall us: seq<Update> :: Inserted(sn, us[..0]) == []
  {
  }

  lemma InsertedStep(sn: nat, us: seq<Update>, i: nat)
    requires i < |us|
    ensures Inserted(sn, us[..i + 1])
         == Inserted(sn, us[..i]) + [if us[i].Put? then MemEntry(us[i].key, sn + i, TYPE_VALUE, us[i].value)
                                     else MemEntry(us[i].key, sn + i, TYPE_DELETION, [])]
  {
    assert us[..i + 1][..i] == us[..i];
  }

  /** Update i gets sequence number sn + i, type 1 if it is a Put and 0 if it is a Delete. */
  lemma {:induction false} InsertedAt(sn: nat, us: seq<Update>, i: nat)
    requires i < |us|
    ensures |Inserted(sn, us)| == |us|
    ensures Inserted(sn, us)[i] == match us[i]
                                   case Put(key, value) => MemEntry(key, sn + i, 1, value)
                                   case Delete(key) => MemEntry(key, sn + i, 0, [])
  {
    var n := |us| - 1;
    if i < n {
      InsertedAt(sn, us[..n], i);
    } else if n > 0 {
      InsertedAt(sn, us[..n], 0);
    }
  }

  /** Inserting an appended batch is inserting one batch and then the other, with the sequence numbers going on. */
  lemma {:induction false} InsertedConcat(sn: nat, us: seq<Update>, more: seq<Update>)
    ensures Inserted(sn, us + more) == Inserted(sn, us) + Inserted(sn + |us|, more)
  {
    if more == [] {
      assert us + more == us;
    } else {
      var n := |more| - 1;
      assert (us + more)[..|us| + n] == us + more[..n];
      InsertedConcat(sn, us, more[..n]);
    }
  }

  // ----- Entries of the memtable

  function InternalKeyOf(e: MemEntry): Bytes
    requires e.sn <= MAX_SEQUENCE && e.kind < 256
  {
    AppendInternalKey(e.user, e.sn, e.kind)
  }

  // The bytes MemTable::Add puts into the skip list.
  function EncodeEntry(e: MemEntry): Bytes
    requires e.sn <= MAX_SEQUENCE && e.kind < 256
  {
    LengthPrefixed(InternalKeyOf(e)) + LengthPrefixed(e.value)
  }

  datatype Lookup = NotHere | Value(value: Bytes) | Deleted

  // MemTable::Get on the entry that the search ended at.
  function ReadEntry(entry: Bytes, user: Bytes): Lookup {
    var k := GetLengthPrefixed(entry);
    if k.None? || |k.value.value| < 8 || ExtractUserKey(k.value.value) != user then NotHere
    else if TagOf(k.value.value) % 256 == TYPE_VALUE then
      var v := GetLengthPrefixed(k.value.rest);
      if v.None? then NotHere else Value(v.value.value)
    else if TagOf(k.value.value) % 256 == TYPE_DELETION then Deleted
    else NotHere
  }

  /** A lookup that ends at an entry of its user key gives what was added, and ignores any other entry. */
  lemma ReadsAddedEntry(e: MemEntry, user: Bytes)
    requires e.sn <= MAX_SEQUENCE && e.kind <= TYPE_VALUE && |e.user| + 8 < TWO32 && |e.value| < TWO32
    ensures ReadEntry(EncodeEntry(e), user)
         == if e.user != user then NotHere else if e.kind == TYPE_VALUE then Value(e.value) else Deleted
  {
    hide LengthPrefixed, GetLengthPrefixed, ExtractUserKey, TagOf;
    var k := InternalKeyOf(e);
    InternalKeyRoundTrip(e.user, e.sn, e.kind);
    LengthPrefixedRoundTrip(k, LengthPrefixed(e.value));
    LengthPrefixedRoundTrip(e.value, []);
    assert LengthPrefixed(e.value) + [] == LengthPrefixed(e.value);
  }
}
