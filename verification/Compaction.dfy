/** What compaction drops, and why no reader can tell (db_impl.cc DoCompactionWork, version_set.cc IsBaseLevelForKey). */
module Compaction {
  import opened Wrappers
  import opened DbFormat
  import opened VersionFiles

  // No file two or more levels below the compacted one covers `user`.
  ghost predicate BaseLevel(files: seq<seq<FileMeta>>, level: nat, user: UserKey) {
    forall lvl, i :: level + 2 <= lvl < |files| && 0 <= i < |files[lvl]| ==> !InUserRange(files[lvl][i], user)
  }

  // The sequence number that decides whether input[i] is hidden: that of the entry just before it when both
  // belong to one user key, and the maximum at the first entry of a user key and after an unparsable key.
  function LastSequence(input: seq<Entry>, i: nat): nat
    requires i < |input|
  {
    if i > 0 && input[i - 1].key.Parses() && input[i - 1].key.user == input[i].key.user
    then input[i - 1].key.sn
    else MAX_SEQUENCE
  }

  ghost predicate Dropped(files: seq<seq<FileMeta>>, level: nat, smallest: nat, input: seq<Entry>, i: nat)
    requires i < |input|
  {
    var k := input[i].key;
    k.Parses() && (LastSequence(input, i) <= smallest
                   || (k.kind == TYPE_DELETION && k.sn <= smallest && BaseLevel(files, level, k.user)))
  }

  ghost function Kept(files: seq<seq<FileMeta>>, level: nat, smallest: nat, input: seq<Entry>, n: nat): seq<Entry>
    requires n <= |input|
  {
    if n == 0 then []
    else
      Kept(files, level, smallest, input, n - 1)
      + if Dropped(files, level, smallest, input, n - 1) then [] else [input[n - 1]]
  }

  datatype Output = Output(smallest: InternalKey, largest: InternalKey, entries: seq<Entry>)

  function Contents(outputs: seq<Output>): seq<Entry> {
    if outputs == [] then [] else Contents(outputs[..|outputs| - 1]) + outputs[|outputs| - 1].entries
  }

  ghost predicate OutputOk(out: Output) {
    && |out.entries| > 0
    && out.smallest == out.entries[0].key
    && out.largest == out.entries[|out.entries| - 1].key
  }

  class Compaction {
    const level: nat
    const files: seq<seq<FileMeta>>
    const smallestSnapshot: nat
    var levelPtrs: array<nat>
    // The last key IsBaseLevelForKey was asked about.
    ghost var asked: Option<UserKey>

    ghost predicate Valid()
      reads this, levelPtrs
    {
      && level + 1 < NUM_LEVELS && |files| == NUM_LEVELS && levelPtrs.Length == NUM_LEVELS
      && (forall lvl :: level + 2 <= lvl < NUM_LEVELS ==> LevelOk(files[lvl]))
      && (forall lvl :: level + 2 <= lvl < NUM_LEVELS ==> levelPtrs[lvl] <= |files[lvl]|)
      && (forall lvl, i :: level + 2 <= lvl < NUM_LEVELS && 0 <= i < levelPtrs[lvl] ==>
            asked.Some? && files[lvl][i].largest.user < asked.value)
    }

    constructor (level: nat, files: seq<seq<FileMeta>>, smallestSnapshot: nat)
      requires level + 1 < NUM_LEVELS && |files| == NUM_LEVELS
      requires forall lvl :: level + 2 <= lvl < NUM_LEVELS ==> LevelOk(files[lvl])
      ensures Valid() && fresh(levelPtrs) && asked == None
      ensures this.level == level && this.files == files && this.smallestSnapshot == smallestSnapshot
    {
      this.level, this.files, this.smallestSnapshot := level, files, smallestSnapshot;
      levelPtrs := new nat[NUM_LEVELS](_ => 0);
      asked := None;
    }

    // The cursors only move forward, so keys must be asked about in ascending order; the answer is then that of
    // a scan over all files.
    method IsBaseLevelForKey(user: UserKey) returns (base: bool)
      requires Valid()
      requires asked.Some? ==> asked.value <= user
      modifies this`asked, levelPtrs
      ensures Valid() && asked == Some(user)
      ensures base <==> BaseLevel(files, level, user)
    {
      asked := Some(user);
      var lvl := level + 2;
      while lvl < NUM_LEVELS
        invariant level + 2 <= lvl <= NUM_LEVELS
        invariant Valid() && asked == Some(user)
        invariant forall l, i :: level + 2 <= l < lvl && 0 <= i < |files[l]| ==> !InUserRange(files[l][i], user)
      {
        var level' := files[lvl];
        while levelPtrs[lvl] < |level'|
          invariant Valid() && asked == Some(user)
          decreases |level'| - levelPtrs[lvl]
        {
          var f := level'[levelPtrs[lvl]];
          if user <= f.largest.user {
            if user >= f.smallest.user {
              return false;
            }
            break;
          }
          levelPtrs[lvl] := levelPtrs[lvl] + 1;
        }
        forall i | 0 <= i < |level'|
          ensures !InUserRange(level'[i], user)
        {
          var p := levelPtrs[lvl];
          if p < i {
            assert Less(level'[p].largest, level'[i].smallest);
            FileBounds(level'[p]);
          }
        }
        lvl := lvl + 1;
      }
      return true;
    }

    // `stopBefore` and `full` stand for the two size heuristics that close an output file.
    method DoCompactionWork(input: seq<Entry>, stopBefore: nat -> bool, full: nat -> bool)
      returns (outputs: seq<Output>)
      requires Valid() && Sorted(input) && asked == None
      modifies this`asked, levelPtrs
      ensures Valid()
      ensures Contents(outputs) == Kept(files, level, smallestSnapshot, input, |input|)
      ensures forall k :: 0 <= k < |outputs| ==> OutputOk(outputs[k])
    {
      hide OutputOk, LevelOk, BaseLevel;
      outputs := [];
      var building := false;
      var currentUserKey: Option<UserKey> := None;
      var lastSequenceForKey := MAX_SEQUENCE;
      var i := 0;
      while i < |input|
        invariant 0 <= i <= |input|
        invariant Valid()
        invariant asked.Some? ==> exists j :: 0 <= j < i && input[j].key.user == asked.value
        invariant building ==> outputs != []
        invariant Contents(outputs) == Kept(files, level, smallestSnapshot, input, i)
        invariant forall k :: 0 <= k < |outputs| ==> OutputOk(outputs[k])
        invariant currentUserKey
               == if i > 0 && input[i - 1].key.Parses() then Some(input[i - 1].key.user) else None
        invariant currentUserKey.Some? ==> lastSequenceForKey == input[i - 1].key.sn
      {
        var key := input[i].key;
        if stopBefore(i) && building {
          building := false;
        }
        var drop := false;
        if !key.Parses() {
          currentUserKey, lastSequenceForKey := None, MAX_SEQUENCE;
        } else {
          if currentUserKey.None? || key.user != currentUserKey.value {
            currentUserKey, lastSequenceForKey := Some(key.user), MAX_SEQUENCE;
          }
          assert lastSequenceForKey == LastSequence(input, i);
          if lastSequenceForKey <= smallestSnapshot {
            drop := true;
          } else if key.kind == TYPE_DELETION && key.sn <= smallestSnapshot {
            if asked.Some? {
              ghost var j :| 0 <= j < i && input[j].key.user == asked.value;
              assert Less(input[j].key, key);
            }
            drop := IsBaseLevelForKey(key.user);
          }
          lastSequenceForKey := key.sn;
        }
        assert drop <==> Dropped(files, level, smallestSnapshot, input, i);
        if !drop {
          outputs := AddToOutput(outputs, building, input[i]);
          building := true;
          if full(i) {
            building := false;
          }
        }
        i := i + 1;
      }
    }

    // Opens an output file if none is open, then appends the entry and moves the file's bounds.
    static method AddToOutput(outputs: seq<Output>, building: bool, e: Entry) returns (more: seq<Output>)
      requires building ==> outputs != []
      requires forall k :: 0 <= k < |outputs| ==> OutputOk(outputs[k])
      ensures more != [] && Contents(more) == Contents(outputs) + [e]
      ensures forall k :: 0 <= k < |more| ==> OutputOk(more[k])
    {
      if building {
        var last := |outputs| - 1;
        var out := outputs[last];
        more := outputs[last := Output(out.smallest, e.key, out.entries + [e])];
        assert more[..last] == outputs[..last];
        assert Contents(more) == Contents(outputs[..last]) + (out.entries + [e]);
      } else {
        more := outputs + [Output(e.key, e.key, [e])];
        assert more[..|outputs|] == outputs;
      }
    }
  }

  lemma FileBounds(f: FileMeta)
    requires FileOk(f)
    ensures f.smallest.user <= f.largest.user
  {
    EntriesInRange(f, f.entries[0]);
  }

  ghost predicate AllBelow(run: seq<Entry>, k: InternalKey) {
    forall i :: 0 <= i < |run| ==> Less(run[i].key, k)
  }

  // The outputs stay in order, so they can be installed as non-overlapping files of the next level.
  lemma {:induction false} KeptSorted(files: seq<seq<FileMeta>>, level: nat, smallest: nat, input: seq<Entry>, n: nat)
    requires Sorted(input) && n <= |input|
    ensures Sorted(Kept(files, level, smallest, input, n))
    ensures forall e :: e in Kept(files, level, smallest, input, n) ==> e in input[..n]
    ensures n > 0 ==> AllBelow(Kept(files, level, smallest, input, n - 1), input[n - 1].key)
  {
    if n > 0 {
      KeptSorted(files, level, smallest, input, n - 1);
      var before := Kept(files, level, smallest, input, n - 1);
      forall i | 0 <= i < |before|
        ensures Less(before[i].key, input[n - 1].key) && before[i] in input[..n]
      {
        assert before[i] in input[..n - 1];
        var j :| 0 <= j < n - 1 && input[j] == before[i];
        assert input[..n][j] == before[i];
      }
    }
  }

  // Some file two or more levels below the compacted one covers the user key.
  ghost predicate Deeper(files: seq<seq<FileMeta>>, level: nat, user: UserKey) {
    exists lvl, i :: level + 2 <= lvl < |files| && 0 <= i < |files[lvl]|
                     && files[lvl][i].smallest.user <= user <= files[lvl][i].largest.user
  }

  // An entry of the same user key, before this one with every entry in between parsing, answers all snapshots that
  // are still held.
  ghost predicate Shadowed(input: seq<Entry>, i: nat, smallest: nat)
    requires i < |input|
  {
    exists j :: 0 <= j < i && input[j].key.user == input[i].key.user && input[j].key.sn <= smallest
                && forall k :: j <= k < i ==> input[k].key.Parses()
  }

  // An old deletion with nothing below it to delete.
  ghost predicate ObsoleteDeletion(files: seq<seq<FileMeta>>, level: nat, smallest: nat, e: Entry) {
    e.key.kind == TYPE_DELETION && e.key.sn <= smallest && !Deeper(files, level, e.key.user)
  }

  lemma DroppedExactlyWhen(files: seq<seq<FileMeta>>, level: nat, smallest: nat, input: seq<Entry>, i: nat)
    requires Sorted(input) && i < |input| && smallest < MAX_SEQUENCE
    ensures Dropped(files, level, smallest, input, i)
       <==> input[i].key.Parses() && (Shadowed(input, i, smallest) || ObsoleteDeletion(files, level, smallest, input[i]))
  {
    var e := input[i];
    if j :| 0 <= j < i && input[j].key.user == e.key.user && input[j].key.sn <= smallest
            && forall k :: j <= k < i ==> input[k].key.Parses() {
      assert j < i - 1 ==> Less(input[j].key, input[i - 1].key);
      assert Less(input[i - 1].key, e.key);
      assert input[i - 1].key.Parses();
    }
    if !BaseLevel(files, level, e.key.user) {
      var lvl, f :| level + 2 <= lvl < |files| && 0 <= f < |files[lvl]| && InUserRange(files[lvl][f], e.key.user);
      assert files[lvl][f].smallest.user <= e.key.user <= files[lvl][f].largest.user;
    }
  }

  /** Exactly which entries the outputs hold: all but those that a newer entry of their user key hides from every
      snapshot still held, and old deletions with nothing below them to delete. */
  lemma {:induction false} KeptExactlyWhen(files: seq<seq<FileMeta>>, level: nat, smallest: nat, input: seq<Entry>,
                                           n: nat, e: Entry)
    requires Sorted(input) && n <= |input| && smallest < MAX_SEQUENCE
    ensures e in Kept(files, level, smallest, input, n) <==>
              exists i :: 0 <= i < n && input[i] == e
                          && (e.key.Parses() ==> !Shadowed(input, i, smallest) && !ObsoleteDeletion(files, level, smallest, e))
  {
    if n > 0 {
      KeptExactlyWhen(files, level, smallest, input, n - 1, e);
      DroppedExactlyWhen(files, level, smallest, input, n - 1);
    }
  }

  /** So of every user key at most one entry stays that all snapshots still held can see. */
  lemma OneOldEntry(files: seq<seq<FileMeta>>, level: nat, smallest: nat, input: seq<Entry>, a: Entry, b: Entry)
    requires Sorted(input) && AllParse(input) && smallest < MAX_SEQUENCE
    requires a in Kept(files, level, smallest, input, |input|) && b in Kept(files, level, smallest, input, |input|)
    requires a.key.user == b.key.user && a.key.sn <= smallest && b.key.sn <= smallest
    ensures a == b
  {
    KeptExactlyWhen(files, level, smallest, input, |input|, a);
    KeptExactlyWhen(files, level, smallest, input, |input|, b);
    var i :| 0 <= i < |input| && input[i] == a && !Shadowed(input, i, smallest);
    var j :| 0 <= j < |input| && input[j] == b && !Shadowed(input, j, smallest);
  }

  // What readers see of the inputs and of the kept entries: the same newest entry, or nothing instead of an
  // obsolete deletion marker.
  predicate Agrees(all: Option<Entry>, kept: Option<Entry>, smallest: nat, base: bool) {
    || kept == all
    || (kept.None? && all.Some? && all.value.key.kind == TYPE_DELETION && all.value.key.sn <= smallest && base)
  }

  // After n steps, a reader at a snapshot compaction must respect sees either the same newest entry, or nothing
  // where the newest entry was an obsolete deletion marker of a base-level key.
  lemma {:induction false} KeptNewest(files: seq<seq<FileMeta>>, level: nat, smallest: nat, input: seq<Entry>,
                                      n: nat, user: UserKey, snapshot: nat)
    requires Sorted(input) && AllParse(input) && n <= |input|
    requires smallest < MAX_SEQUENCE && smallest <= snapshot
    ensures Agrees(Newest(input[..n], user, snapshot), Newest(Kept(files, level, smallest, input, n), user, snapshot),
                   smallest, BaseLevel(files, level, user))
  {
    if n > 0 {
      var e := input[n - 1];
      var before := Kept(files, level, smallest, input, n - 1);
      var all, kept := Newest(input[..n - 1], user, snapshot), Newest(before, user, snapshot);
      var visible := if Visible(e.key, user, snapshot) then Some(e) else None;
      KeptNewest(files, level, smallest, input, n - 1, user, snapshot);
      assert Newest(input[..n], user, snapshot) == if all.Some? then all else visible by {
        assert input[..n] == input[..n - 1] + [e];
        NewestSnoc(input[..n - 1], e, user, snapshot);
      }
      assert Newest(Kept(files, level, smallest, input, n), user, snapshot)
          == if Dropped(files, level, smallest, input, n - 1) || kept.Some? then kept else visible by {
        KeptSnoc(files, level, smallest, input, n, user, snapshot);
      }
      if e.key.user == user {
        PrecedingEntry(input, n - 1, smallest, snapshot);
        AgreesStep(all, kept, e, user, snapshot, LastSequence(input, n - 1), smallest, BaseLevel(files, level, user));
      }
    }
  }

  lemma KeptSnoc(files: seq<seq<FileMeta>>, level: nat, smallest: nat, input: seq<Entry>, n: nat, user: UserKey,
                 snapshot: nat)
    requires Sorted(input) && 0 < n <= |input|
    ensures var e := input[n - 1];
            var before := Newest(Kept(files, level, smallest, input, n - 1), user, snapshot);
            Newest(Kept(files, level, smallest, input, n), user, snapshot)
            == if Dropped(files, level, smallest, input, n - 1) || before.Some? then before
               else if Visible(e.key, user, snapshot) then Some(e) else None
  {
    var before := Kept(files, level, smallest, input, n - 1);
    if Dropped(files, level, smallest, input, n - 1) {
      assert Kept(files, level, smallest, input, n) == before;
    } else {
      KeptSorted(files, level, smallest, input, n);
      NewestSnoc(before, input[n - 1], user, snapshot);
    }
  }

  lemma AgreesStep(all: Option<Entry>, kept: Option<Entry>, e: Entry, user: UserKey, snapshot: nat, last: nat,
                   smallest: nat, base: bool)
    requires Agrees(all, kept, smallest, base)
    requires e.key.user == user && all.Some? && all.value.key.sn <= smallest ==> last <= smallest
    requires e.key.user == user && all.None? ==> last > smallest
    requires e.key.Parses()
    ensures var visible := if Visible(e.key, user, snapshot) then Some(e) else None;
            var dropped := last <= smallest || (e.key.kind == TYPE_DELETION && e.key.sn <= smallest && base);
            var all' := if all.Some? then all else visible;
            var kept' := if dropped || kept.Some? then kept else visible;
            e.key.user == user ==> Agrees(all', kept', smallest, base)
  {
  }

  lemma NewestSnoc(run: seq<Entry>, e: Entry, user: UserKey, snapshot: nat)
    requires AllBelow(run, e.key)
    ensures var r := Newest(run, user, snapshot);
            Newest(run + [e], user, snapshot)
            == if r.Some? then r else if Visible(e.key, user, snapshot) then Some(e) else None
  {
    NewestIsMaximal(run, user, snapshot);
    NewestOfConcat(run, [e], user, snapshot);
  }

  // What the entry just before input[i] tells about the reads that the entries before input[i] answer.
  lemma PrecedingEntry(input: seq<Entry>, i: nat, smallest: nat, snapshot: nat)
    requires Sorted(input) && AllParse(input) && i < |input|
    requires smallest < MAX_SEQUENCE && smallest <= snapshot
    ensures var r := Newest(input[..i], input[i].key.user, snapshot);
            && (r.Some? && r.value.key.sn <= smallest ==> LastSequence(input, i) <= smallest)
            && (r.None? ==> LastSequence(input, i) > smallest)
  {
    var user := input[i].key.user;
    NewestIsMaximal(input[..i], user, snapshot);
    var r := Newest(input[..i], user, snapshot);
    if r.Some? {
      var a :| 0 <= a < i && input[..i][a] == r.value;
      assert Less(input[a].key, input[i].key);
      assert a < i - 1 ==> Less(input[a].key, input[i - 1].key);
      assert Less(input[i - 1].key, input[i].key);
    } else if i > 0 {
      assert input[i - 1] == input[..i][i - 1];
    }
  }

  function FileSources(files: seq<FileMeta>): seq<seq<Entry>> {
    seq(|files|, i requires 0 <= i < |files| => files[i].entries)
  }

  // The files at `lvl` and every level below it, in the order a lookup visits them.
  function DeeperSources(files: seq<seq<FileMeta>>, lvl: nat): seq<seq<Entry>>
    decreases |files| - lvl
  {
    if lvl >= |files| then [] else FileSources(files[lvl]) + DeeperSources(files, lvl + 1)
  }

  ghost predicate HoldsNoKey(sources: seq<seq<Entry>>, user: UserKey) {
    forall i, e :: 0 <= i < |sources| && e in sources[i] ==> e.key.user != user
  }

  lemma {:induction false} SearchFindsNothing(sources: seq<seq<Entry>>, user: UserKey, snapshot: nat)
    requires HoldsNoKey(sources, user)
    ensures SearchInOrder(sources, user, snapshot) == None
  {
    if sources != [] {
      assert forall i :: 0 <= i < |sources| - 1 ==> sources[1..][i] == sources[i + 1];
      NewestIsMaximal(sources[0], user, snapshot);
      SearchFindsNothing(sources[1..], user, snapshot);
    }
  }

  lemma {:induction false} BaseLevelHoldsNoKey(files: seq<seq<FileMeta>>, lvl: nat, user: UserKey)
    requires forall l :: lvl <= l < |files| ==> LevelOk(files[l])
    requires forall l, i :: lvl <= l < |files| && 0 <= i < |files[l]| ==> !InUserRange(files[l][i], user)
    ensures HoldsNoKey(DeeperSources(files, lvl), user)
    decreases |files| - lvl
  {
    if lvl < |files| {
      BaseLevelHoldsNoKey(files, lvl + 1, user);
      var here := FileSources(files[lvl]);
      forall i, e: Entry | 0 <= i < |here| && e in here[i]
        ensures e.key.user != user
      {
        assert LevelOk(files[lvl]);
        EntriesInRange(files[lvl][i], e);
      }
    }
  }

  /** Replacing the compaction inputs by what compaction keeps changes no read at any snapshot that is still held.
      `newer` is everything searched before the inputs, `others` the remaining files of the two compacted levels. */
  lemma CompactionPreservesReads(files: seq<seq<FileMeta>>, level: nat, smallest: nat, input: seq<Entry>,
                                 newer: seq<seq<Entry>>, others: seq<seq<Entry>>, user: UserKey, snapshot: nat)
    requires Sorted(input) && AllParse(input)
    requires smallest < MAX_SEQUENCE && smallest <= snapshot
    requires forall lvl :: level + 2 <= lvl < |files| ==> LevelOk(files[lvl])
    requires forall e :: e in input ==> HoldsNoKey(others, e.key.user)
    ensures var deeper := DeeperSources(files, level + 2);
            var kept := Kept(files, level, smallest, input, |input|);
            ValueOf(SearchInOrder(newer + [kept] + others + deeper, user, snapshot))
            == ValueOf(SearchInOrder(newer + [input] + others + deeper, user, snapshot))
  {
    var deeper := DeeperSources(files, level + 2);
    var kept := Kept(files, level, smallest, input, |input|);
    var rest := others + deeper;
    SearchThroughRun(newer, kept, others, deeper, user, snapshot);
    SearchThroughRun(newer, input, others, deeper, user, snapshot);
    assert input[..|input|] == input;
    KeptNewest(files, level, smallest, input, |input|, user, snapshot);
    var all := Newest(input, user, snapshot);
    if Newest(kept, user, snapshot) != all {
      NewestIsMaximal(input, user, snapshot);
      assert all.value in input && all.value.key.user == user;
      SearchFindsNothing(others, user, snapshot);
      BaseLevelHoldsNoKey(files, level + 2, user);
      SearchFindsNothing(deeper, user, snapshot);
      SearchConcat(others, deeper, user, snapshot);
    }
  }

  lemma SearchThroughRun(newer: seq<seq<Entry>>, run: seq<Entry>, others: seq<seq<Entry>>,
                         deeper: seq<seq<Entry>>, user: UserKey, snapshot: nat)
    ensures SearchInOrder(newer + [run] + others + deeper, user, snapshot)
         == var r := SearchInOrder(newer, user, snapshot);
            var m := Newest(run, user, snapshot);
            if r.Some? then r else if m.Some? then m else SearchInOrder(others + deeper, user, snapshot)
  {
    assert newer + [run] + others + deeper == newer + ([run] + (others + deeper));
    SearchConcat(newer, [run] + (others + deeper), user, snapshot);
    assert ([run] + (others + deeper))[1..] == others + deeper;
  }

  // ----- When a read does change

  // Whether the read at one snapshot differs before and after.
  ghost predicate ReadChanges(files: seq<seq<FileMeta>>, level: nat, smallest: nat, input: seq<Entry>,
                              newer: seq<seq<Entry>>, others: seq<seq<Entry>>, user: UserKey, snapshot: nat) {
    var deeper := DeeperSources(files, level + 2);
    var kept := Kept(files, level, smallest, input, |input|);
    ValueOf(SearchInOrder(newer + [kept] + others + deeper, user, snapshot))
    != ValueOf(SearchInOrder(newer + [input] + others + deeper, user, snapshot))
  }

  // The deletion that hides an older value of the user key in `others` goes away, and nothing newer hides the value.
  ghost predicate Resurrects(files: seq<seq<FileMeta>>, level: nat, smallest: nat, input: seq<Entry>,
                             newer: seq<seq<Entry>>, others: seq<seq<Entry>>, user: UserKey) {
    var m := Newest(input, user, smallest);
    && SearchInOrder(newer, user, smallest).None?
    && m.Some? && m.value.key.kind == TYPE_DELETION
    && BaseLevel(files, level, user)
    && ValueOf(SearchInOrder(others, user, smallest)).Some?
  }

  lemma {:induction false} KeptMembers(files: seq<seq<FileMeta>>, level: nat, smallest: nat, input: seq<Entry>, n: nat,
                                       e: Entry)
    requires n <= |input|
    ensures e in Kept(files, level, smallest, input, n) <==>
            exists i :: 0 <= i < n && input[i] == e && !Dropped(files, level, smallest, input, i)
  {
    if n > 0 {
      KeptMembers(files, level, smallest, input, n - 1, e);
    }
  }

  // The newest deletion of a base-level key at or below smallest_snapshot is dropped with everything it hides.
  lemma ObsoleteDeletionGoes(files: seq<seq<FileMeta>>, level: nat, smallest: nat, input: seq<Entry>, user: UserKey)
    requires Sorted(input) && AllParse(input) && smallest < MAX_SEQUENCE && BaseLevel(files, level, user)
    requires var m := Newest(input, user, smallest); m.Some? && m.value.key.kind == TYPE_DELETION
    ensures Newest(Kept(files, level, smallest, input, |input|), user, smallest).None?
  {
    var m := Newest(input, user, smallest).value;
    var kept := Kept(files, level, smallest, input, |input|);
    NewestIsMaximal(input, user, smallest);
    NewestIsMaximal(kept, user, smallest);
    assert input[..|input|] == input;
    KeptNewest(files, level, smallest, input, |input|, user, smallest);
    KeptMembers(files, level, smallest, input, |input|, m);
  }

  // Which entries a later snapshot sees in addition does not matter if there are none.
  lemma {:induction false} NewestSettles(es: seq<Entry>, user: UserKey, early: nat, late: nat)
    requires early <= late && forall e :: e in es && e.key.user == user ==> e.key.sn <= early
    ensures Newest(es, user, early) == Newest(es, user, late)
  {
    if es != [] {
      NewestSettles(es[1..], user, early, late);
    }
  }

  lemma {:induction false} SearchSettles(sources: seq<seq<Entry>>, user: UserKey, early: nat, late: nat)
    requires early <= late && forall e :: e in Union(sources) && e.key.user == user ==> e.key.sn <= early
    ensures SearchInOrder(sources, user, early) == SearchInOrder(sources, user, late)
  {
    if sources != [] {
      NewestSettles(sources[0], user, early, late);
      SearchSettles(sources[1..], user, early, late);
    }
  }

  lemma {:induction false} NothingEarlier(sources: seq<seq<Entry>>, user: UserKey, early: nat, late: nat)
    requires early <= late && SearchInOrder(sources, user, late).None?
    ensures SearchInOrder(sources, user, early).None?
  {
    if sources != [] {
      NewestIsMaximal(sources[0], user, early);
      NewestIsMaximal(sources[0], user, late);
      NothingEarlier(sources[1..], user, early, late);
    }
  }

  // An answer that an earlier snapshot may already see is its answer too.
  lemma NewestEarlier(es: seq<Entry>, user: UserKey, early: nat, late: nat)
    requires Sorted(es) && early <= late
    requires var r := Newest(es, user, late); r.Some? && r.value.key.sn <= early
    ensures Newest(es, user, early) == Newest(es, user, late)
  {
    NewestIsMaximal(es, user, late);
    var r := Newest(es, user, late).value;
    var i :| 0 <= i < |es| && es[i] == r;
    forall j | 0 <= j < i
      ensures !Visible(es[j].key, user, early)
    {
      assert Less(es[j].key, es[i].key);
      if Visible(es[j].key, user, early) {
        assert es[j].key.sn <= r.key.sn;
        FirstWins(es, user, late, j, i);
      }
    }
    NewestIsFirst(es, user, early, i);
  }

  // Of two visible entries of a sorted run the later one is not the answer.
  lemma {:induction false} FirstWins(es: seq<Entry>, user: UserKey, snapshot: nat, j: nat, i: nat)
    requires Sorted(es) && j < i < |es| && Visible(es[j].key, user, snapshot) && Visible(es[i].key, user, snapshot)
    ensures Newest(es, user, snapshot) != Some(es[i])
  {
    var k := 0;
    while !Visible(es[k].key, user, snapshot)
      invariant k <= j && forall l :: 0 <= l < k ==> !Visible(es[l].key, user, snapshot)
      decreases j - k
    {
      k := k + 1;
    }
    NewestIsFirst(es, user, snapshot, k);
    assert Less(es[k].key, es[i].key);
  }

  /** What a resurrected read gives: nothing before, and the old value after. */
  lemma ResurrectedRead(files: seq<seq<FileMeta>>, level: nat, smallest: nat, input: seq<Entry>,
                        newer: seq<seq<Entry>>, others: seq<seq<Entry>>, user: UserKey)
    requires Sorted(input) && AllParse(input) && smallest < MAX_SEQUENCE
    requires Resurrects(files, level, smallest, input, newer, others, user)
    ensures var deeper := DeeperSources(files, level + 2);
            var kept := Kept(files, level, smallest, input, |input|);
            && ValueOf(SearchInOrder(newer + [input] + others + deeper, user, smallest)) == None
            && ValueOf(SearchInOrder(newer + [kept] + others + deeper, user, smallest))
               == ValueOf(SearchInOrder(others, user, smallest))
  {
    var deeper := DeeperSources(files, level + 2);
    var kept := Kept(files, level, smallest, input, |input|);
    ObsoleteDeletionGoes(files, level, smallest, input, user);
    SearchThroughRun(newer, kept, others, deeper, user, smallest);
    SearchThroughRun(newer, input, others, deeper, user, smallest);
    SearchConcat(others, deeper, user, smallest);
  }

  lemma ChangeMeansResurrection(files: seq<seq<FileMeta>>, level: nat, smallest: nat, input: seq<Entry>,
                                newer: seq<seq<Entry>>, others: seq<seq<Entry>>, user: UserKey, snapshot: nat)
    requires Sorted(input) && AllParse(input) && smallest < MAX_SEQUENCE && smallest <= snapshot
    requires forall lvl :: level + 2 <= lvl < |files| ==> LevelOk(files[lvl])
    requires Newer(input, Union(others))
    requires ReadChanges(files, level, smallest, input, newer, others, user, snapshot)
    ensures Resurrects(files, level, smallest, input, newer, others, user)
  {
    var deeper := DeeperSources(files, level + 2);
    var kept := Kept(files, level, smallest, input, |input|);
    assert input[..|input|] == input;
    KeptNewest(files, level, smallest, input, |input|, user, snapshot);
    SearchThroughRun(newer, kept, others, deeper, user, snapshot);
    SearchThroughRun(newer, input, others, deeper, user, snapshot);
    SearchConcat(others, deeper, user, snapshot);
    NothingEarlier(newer, user, smallest, snapshot);
    var all := Newest(input, user, snapshot);
    assert all.Some? && all.value.key.sn <= smallest && BaseLevel(files, level, user);
    NewestEarlier(input, user, smallest, snapshot);
    NewestIsMaximal(input, user, snapshot);
    BaseLevelHoldsNoKey(files, level + 2, user);
    SearchFindsNothing(deeper, user, snapshot);
    forall e | e in Union(others) && e.key.user == user
      ensures e.key.sn <= smallest
    {
      assert all.value in input && all.value.key.user == user;
    }
    SearchSettles(others, user, smallest, snapshot);
  }

  /** Exactly when some read at a snapshot still held changes: the entries of the user key in the other files of the
      two levels are older than the inputs, and the condition can be evaluated before the compaction runs. */
  lemma ReadsChangeExactlyWhen(files: seq<seq<FileMeta>>, level: nat, smallest: nat, input: seq<Entry>,
                               newer: seq<seq<Entry>>, others: seq<seq<Entry>>, user: UserKey)
    requires Sorted(input) && AllParse(input) && smallest < MAX_SEQUENCE
    requires forall lvl :: level + 2 <= lvl < |files| ==> LevelOk(files[lvl])
    requires Newer(input, Union(others))
    ensures (exists s: nat :: smallest <= s && ReadChanges(files, level, smallest, input, newer, others, user, s))
            <==> Resurrects(files, level, smallest, input, newer, others, user)
  {
    if s: nat :| smallest <= s && ReadChanges(files, level, smallest, input, newer, others, user, s) {
      ChangeMeansResurrection(files, level, smallest, input, newer, others, user, s);
    }
    if Resurrects(files, level, smallest, input, newer, others, user) {
      ResurrectedRead(files, level, smallest, input, newer, others, user);
      assert ReadChanges(files, level, smallest, input, newer, others, user, smallest);
    }
  }
}
