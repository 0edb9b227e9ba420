/** Point lookups (version_set.cc FindFile, SomeFileOverlapsRange, Version::Get; db_impl.cc Get): one file per level
    and early exits give the newest visible entry of the whole database. */
module PointLookup {
  import opened Wrappers
  import opened DbFormat
  import opened VersionFiles
  import opened InternalIterator

  method FindFile(files: seq<FileMeta>, key: InternalKey) returns (index: nat)
    requires LevelOk(files)
    ensures index <= |files|
    ensures forall i :: 0 <= i < index ==> Less(files[i].largest, key)
    ensures forall i :: index <= i < |files| ==> !Less(files[i].largest, key)
  {
    var left, right := 0, |files|;
    while left < right
      invariant 0 <= left <= right <= |files|
      invariant forall i :: 0 <= i < left ==> Less(files[i].largest, key)
      invariant forall i :: right <= i < |files| ==> !Less(files[i].largest, key)
    {
      var mid := (left + right) / 2;
      LargestAscending(files, mid);
      if Less(files[mid].largest, key) {
        left := mid + 1;
      } else {
        right := mid;
      }
    }
    return right;
  }

  lemma LargestAscending(files: seq<FileMeta>, mid: nat)
    requires LevelOk(files) && mid < |files|
    ensures forall i :: 0 <= i < mid ==> Less(files[i].largest, files[mid].largest)
    ensures forall i :: mid < i < |files| ==> Less(files[mid].largest, files[i].largest)
  {
    forall i, j | 0 <= i < j < |files|
      ensures Less(files[i].largest, files[j].largest)
    {
      EntriesInRange(files[j], files[j].entries[0]);
      assert Less(files[i].largest, files[j].smallest);
    }
  }

  predicate AfterFile(smallest: Option<UserKey>, f: FileMeta) {
    smallest.Some? && smallest.value > f.largest.user
  }

  predicate BeforeFile(largest: Option<UserKey>, f: FileMeta) {
    largest.Some? && largest.value < f.smallest.user
  }

  // The binary search used for sorted, disjoint files answers like a scan.
  method SomeFileOverlapsRange(disjointSorted: bool, files: seq<FileMeta>, smallest: Option<UserKey>,
                               largest: Option<UserKey>) returns (overlap: bool)
    requires disjointSorted ==> LevelOk(files)
    requires forall i :: 0 <= i < |files| ==> Packed(files[i].largest) && files[i].largest.Parses()
    ensures overlap <==> exists i :: 0 <= i < |files| && Overlaps(Range(smallest, largest), files[i])
  {
    if !disjointSorted {
      for i := 0 to |files|
        invariant forall j :: 0 <= j < i ==> !Overlaps(Range(smallest, largest), files[j])
      {
        if AfterFile(smallest, files[i]) || BeforeFile(largest, files[i]) {
        } else {
          return true;
        }
      }
      return false;
    }
    var index: nat := 0;
    if smallest.Some? {
      index := FindFile(files, InternalKey(smallest.value, MAX_SEQUENCE, TYPE_FOR_SEEK));
      forall i | 0 <= i < |files|
        ensures i < index <==> AfterFile(smallest, files[i])
      {
        assert Less(files[i].largest, InternalKey(smallest.value, MAX_SEQUENCE, TYPE_FOR_SEEK))
            <==> files[i].largest.user < smallest.value;
      }
    }
    if index >= |files| {
      return false;
    }
    forall i | index < i < |files|
      ensures BeforeFile(largest, files[index]) ==> BeforeFile(largest, files[i])
    {
      assert Less(files[index].largest, files[i].smallest);
      EntriesInRange(files[index], files[index].entries[0]);
    }
    overlap := !BeforeFile(largest, files[index]);
    assert overlap ==> Overlaps(Range(smallest, largest), files[index]);
  }

  // ----- Reading one sorted run

  datatype SaverState = NotSeen | Seen(value: Bytes) | Deleted | Corrupt

  // What the entry a table lookup lands on means for a read of `user`.
  function SaveValue(user: UserKey, e: Entry): SaverState {
    if !e.key.Parses() then Corrupt
    else if e.key.user != user then NotSeen
    else if e.key.kind == TYPE_VALUE then Seen(e.value)
    else Deleted
  }

  function SaverOf(r: Option<Entry>): SaverState {
    if r.None? then NotSeen
    else if r.value.key.kind == TYPE_VALUE then Seen(r.value.value)
    else Deleted
  }

  // Seek and look at one entry, as in Table::InternalGet with SaveValue and in MemTable::Get.
  method GetFromRun(run: seq<Entry>, user: UserKey, snapshot: nat) returns (state: SaverState)
    requires Sorted(run) && AllParse(run)
    ensures state == SaverOf(Newest(run, user, snapshot))
  {
    var iter := new Cursor(run);
    iter.Seek(LookupKey(user, snapshot));
    SeekFindsNewest(run, user, snapshot, iter.pos);
    if iter.Valid() {
      state := SaveValue(user, run[iter.pos]);
    } else {
      state := NotSeen;
    }
  }

  // ----- One level above zero

  function LevelEntries(files: seq<FileMeta>): seq<Entry> {
    if files == [] then [] else files[0].entries + LevelEntries(files[1..])
  }

  lemma {:induction false} LevelMembers(files: seq<FileMeta>, e: Entry)
    ensures e in LevelEntries(files) <==> exists i :: 0 <= i < |files| && e in files[i].entries
  {
    if files != [] {
      LevelMembers(files[1..], e);
      if i :| 0 <= i < |files| && e in files[i].entries {
        assert i > 0 ==> files[1..][i - 1] == files[i];
      }
      if e in LevelEntries(files[1..]) {
        var i :| 0 <= i < |files[1..]| && e in files[1..][i].entries;
        assert files[i + 1] == files[1..][i];
      }
    }
  }

  // Only the file that FindFile selects can hold an entry visible to the lookup.
  lemma OneFilePerLevel(files: seq<FileMeta>, user: UserKey, snapshot: nat, index: nat)
    requires LevelOk(files) && index <= |files|
    requires forall i :: 0 <= i < index ==> Less(files[i].largest, LookupKey(user, snapshot))
    requires index < |files| ==> !Less(files[index].largest, LookupKey(user, snapshot))
    ensures forall i, e :: 0 <= i < |files| && i != index && e in files[i].entries && Visible(e.key, user, snapshot) ==>
              index < i && files[index].largest.user == user
    ensures index < |files| && user < files[index].smallest.user ==>
              forall i, e :: 0 <= i < |files| && e in files[i].entries ==> !Visible(e.key, user, snapshot)
    ensures index < |files| && files[index].largest.user == user && files[index].smallest.user <= user ==>
              Newest(files[index].entries, user, snapshot).Some?
  {
    var target := LookupKey(user, snapshot);
    forall i, e | 0 <= i < |files| && e in files[i].entries && Visible(e.key, user, snapshot)
      ensures i >= index
      ensures index < i ==> files[index].largest.user == user
      ensures index < |files| ==> files[index].smallest.user <= user
    {
      EntriesInRange(files[i], e);
      assert !Less(e.key, target);
      if index < i {
        assert Less(files[index].largest, files[i].smallest);
        EntriesInRange(files[index], files[index].entries[0]);
      }
    }
    if index < |files| && files[index].largest.user == user {
      var es := files[index].entries;
      NewestIsMaximal(es, user, snapshot);
      assert Visible(es[|es| - 1].key, user, snapshot);
    }
  }

  // The newest entry of a level is that of the selected file.
  lemma LevelNewest(files: seq<FileMeta>, user: UserKey, snapshot: nat, index: nat)
    requires LevelOk(files) && index <= |files|
    requires forall i :: 0 <= i < index ==> Less(files[i].largest, LookupKey(user, snapshot))
    requires index < |files| ==> !Less(files[index].largest, LookupKey(user, snapshot))
    ensures Newest(LevelEntries(files), user, snapshot)
         == if index < |files| && files[index].smallest.user <= user then Newest(files[index].entries, user, snapshot)
            else None
  {
    OneFilePerLevel(files, user, snapshot, index);
    LevelNewestFrom(files, user, snapshot, index);
  }

  lemma {:induction false} LevelNewestFrom(files: seq<FileMeta>, user: UserKey, snapshot: nat, index: nat)
    requires LevelOk(files) && index <= |files|
    requires forall i, e :: 0 <= i < index && e in files[i].entries ==> !Visible(e.key, user, snapshot)
    requires index == |files| || user < files[index].smallest.user || Newest(files[index].entries, user, snapshot).Some?
             || forall i, e :: index < i < |files| && e in files[i].entries ==> !Visible(e.key, user, snapshot)
    requires index < |files| && user < files[index].smallest.user ==>
               forall i, e :: index <= i < |files| && e in files[i].entries ==> !Visible(e.key, user, snapshot)
    ensures Newest(LevelEntries(files), user, snapshot)
         == if index < |files| && files[index].smallest.user <= user then Newest(files[index].entries, user, snapshot)
            else None
  {
    if files != [] {
      var tail := files[1..];
      assert forall i :: 0 <= i < |tail| ==> tail[i] == files[i + 1];
      NewestOfConcat(files[0].entries, LevelEntries(tail), user, snapshot);
      if index > 0 {
        assert forall e :: e in files[0].entries ==> !Visible(e.key, user, snapshot);
        NewestNone(files[0].entries, user, snapshot);
        LevelNewestFrom(tail, user, snapshot, index - 1);
      } else {
        FirstFileNewest(files, user, snapshot);
      }
    }
  }

  // An entry of the first file is newer than any entry of its user key in the files behind it.
  lemma FirstFileNewest(files: seq<FileMeta>, user: UserKey, snapshot: nat)
    requires LevelOk(files) && files != []
    ensures var a := Newest(files[0].entries, user, snapshot);
            var b := Newest(LevelEntries(files[1..]), user, snapshot);
            && (a.Some? && b.Some? ==> b.value.key.sn <= a.value.key.sn)
            && (a.Some? ==> files[0].smallest.user <= user)
            && (b.Some? ==> exists i :: 0 < i < |files| && b.value in files[i].entries && Visible(b.value.key, user, snapshot))
  {
    var a := Newest(files[0].entries, user, snapshot);
    var b := Newest(LevelEntries(files[1..]), user, snapshot);
    NewestIsMaximal(files[0].entries, user, snapshot);
    NewestIsMaximal(LevelEntries(files[1..]), user, snapshot);
    if a.Some? {
      EntriesInRange(files[0], a.value);
    }
    if b.Some? {
      LevelMembers(files[1..], b.value);
      var i :| 0 <= i < |files[1..]| && b.value in files[1..][i].entries;
      assert files[i + 1] == files[1..][i];
      EntriesInRange(files[i + 1], b.value);
      assert Less(files[0].largest, files[i + 1].smallest);
    }
  }

  // ----- Level zero: files may overlap and are searched newest first

  predicate NewestFirst(files: seq<FileMeta>) {
    forall i, j :: 0 <= i < j < |files| ==> files[i].number >= files[j].number
  }

  function InsertByNumber(f: FileMeta, files: seq<FileMeta>): seq<FileMeta> {
    if files == [] || f.number > files[0].number then [f] + files
    else [files[0]] + InsertByNumber(f, files[1..])
  }

  function SortNewestFirst(files: seq<FileMeta>): seq<FileMeta> {
    if files == [] then [] else InsertByNumber(files[0], SortNewestFirst(files[1..]))
  }

  lemma {:induction false} InsertMembers(f: FileMeta, files: seq<FileMeta>)
    ensures multiset(InsertByNumber(f, files)) == multiset(files) + multiset{f}
  {
    if files != [] {
      assert files == [files[0]] + files[1..];
      if f.number <= files[0].number {
        InsertMembers(f, files[1..]);
      }
    }
  }

  lemma {:induction false} InsertKeepsOrder(f: FileMeta, files: seq<FileMeta>)
    requires NewestFirst(files)
    ensures NewestFirst(InsertByNumber(f, files))
  {
    if files != [] && f.number <= files[0].number {
      InsertKeepsOrder(f, files[1..]);
      InsertMembers(f, files[1..]);
      var rest := InsertByNumber(f, files[1..]);
      forall j | 0 <= j < |rest|
        ensures files[0].number >= rest[j].number
      {
        assert rest[j] in multiset(rest);
        assert rest[j] == f || rest[j] in files[1..];
      }
    }
  }

  lemma {:induction false} SortIsSorted(files: seq<FileMeta>)
    ensures NewestFirst(SortNewestFirst(files)) && multiset(SortNewestFirst(files)) == multiset(files)
    ensures forall g :: g in SortNewestFirst(files) <==> g in files
  {
    if files != [] {
      assert files == [files[0]] + files[1..];
      SortIsSorted(files[1..]);
      InsertKeepsOrder(files[0], SortNewestFirst(files[1..]));
      InsertMembers(files[0], SortNewestFirst(files[1..]));
      assert forall g :: g in SortNewestFirst(files) <==> g in multiset(SortNewestFirst(files));
    }
  }

  function InRange(files: seq<FileMeta>, user: UserKey): seq<FileMeta> {
    if files == [] then []
    else if InUserRange(files[0], user) then [files[0]] + InRange(files[1..], user)
    else InRange(files[1..], user)
  }

  // Sorting the files that cover a key leaves them in the order they have among all files.
  lemma {:induction false} InsertInRange(f: FileMeta, files: seq<FileMeta>, user: UserKey)
    requires NewestFirst(files)
    ensures InRange(InsertByNumber(f, files), user)
         == if InUserRange(f, user) then InsertByNumber(f, InRange(files, user)) else InRange(files, user)
  {
    if files == [] {
      assert [f][1..] == [];
    } else if f.number > files[0].number {
      assert ([f] + files)[1..] == files;
      HeadInRange(files, user);
    } else {
      var rest := InsertByNumber(f, files[1..]);
      assert ([files[0]] + rest)[1..] == rest;
      assert ([files[0]] + InRange(files[1..], user))[1..] == InRange(files[1..], user);
      InsertInRange(f, files[1..], user);
    }
  }

  lemma {:induction false} HeadInRange(files: seq<FileMeta>, user: UserKey)
    requires NewestFirst(files)
    ensures InRange(files, user) != [] ==> InRange(files, user)[0] in files && InRange(files, user)[0].number <= files[0].number
  {
    if files != [] && !InUserRange(files[0], user) {
      HeadInRange(files[1..], user);
    }
  }

  lemma {:induction false} SortInRange(files: seq<FileMeta>, user: UserKey)
    ensures InRange(SortNewestFirst(files), user) == SortNewestFirst(InRange(files, user))
  {
    if files != [] {
      assert ([files[0]] + InRange(files[1..], user))[1..] == InRange(files[1..], user);
      SortInRange(files[1..], user);
      SortIsSorted(files[1..]);
      InsertInRange(files[0], SortNewestFirst(files[1..]), user);
    }
  }

  function RunsOf(files: seq<FileMeta>): seq<seq<Entry>> {
    if files == [] then [] else [files[0].entries] + RunsOf(files[1..])
  }

  // Files that do not cover the key cannot answer.
  lemma {:induction false} SearchInRange(files: seq<FileMeta>, user: UserKey, snapshot: nat)
    requires forall i :: 0 <= i < |files| ==> FileOk(files[i])
    ensures SearchInOrder(RunsOf(InRange(files, user)), user, snapshot)
         == SearchInOrder(RunsOf(files), user, snapshot)
  {
    if files != [] {
      SearchInRange(files[1..], user, snapshot);
      assert ([files[0].entries] + RunsOf(files[1..]))[1..] == RunsOf(files[1..]);
      if InUserRange(files[0], user) {
        var rest := InRange(files[1..], user);
        assert ([files[0]] + rest)[1..] == rest;
        assert ([files[0].entries] + RunsOf(rest))[1..] == RunsOf(rest);
      } else {
        NewestIsMaximal(files[0].entries, user, snapshot);
        if Newest(files[0].entries, user, snapshot).Some? {
          EntriesInRange(files[0], Newest(files[0].entries, user, snapshot).value);
        }
      }
    }
  }

  // ----- The whole database

  datatype GetResult = Found(value: Bytes) | NotFound

  function Answer(r: Option<Entry>): GetResult {
    if r.Some? && r.value.key.kind == TYPE_VALUE then Found(r.value.value) else NotFound
  }

  // The lookup gives the value that a read gives, and says that there is none exactly when a read gives none.
  ghost predicate Answers(r: GetResult, value: Option<Bytes>) {
    && (forall v :: r == Found(v) <==> value == Some(v))
    && (r == NotFound <==> value == None)
  }

  // The levels from `lvl` down, one source each.
  function LowerSources(files: seq<seq<FileMeta>>, lvl: nat): seq<seq<Entry>>
    decreases |files| - lvl
  {
    if lvl >= |files| then [] else [LevelEntries(files[lvl])] + LowerSources(files, lvl + 1)
  }

  function VersionSources(files: seq<seq<FileMeta>>): seq<seq<Entry>>
    requires files != []
  {
    RunsOf(SortNewestFirst(files[0])) + LowerSources(files, 1)
  }

  ghost predicate FilesOk(files: seq<seq<FileMeta>>) {
    && |files| == NUM_LEVELS
    && (forall i :: 0 <= i < |files[0]| ==> FileOk(files[0][i]))
    && (forall l :: 1 <= l < NUM_LEVELS ==> LevelOk(files[l]))
  }

  class Version {
    const files: seq<seq<FileMeta>>

    constructor (files: seq<seq<FileMeta>>)
      ensures this.files == files
    {
      this.files := files;
    }

    method Get(user: UserKey, snapshot: nat) returns (r: GetResult)
      requires FilesOk(files)
      ensures r == Answer(SearchInOrder(VersionSources(files), user, snapshot))
    {
      SearchConcat(RunsOf(SortNewestFirst(files[0])), LowerSources(files, 1), user, snapshot);
      var state := SearchLevelZero(user, snapshot);
      if state.Seen? {
        return Found(state.value);
      } else if state.Deleted? {
        return NotFound;
      }
      var level := 1;
      while level < NUM_LEVELS
        invariant 1 <= level <= NUM_LEVELS
        invariant SearchInOrder(VersionSources(files), user, snapshot)
               == SearchInOrder(LowerSources(files, level), user, snapshot)
      {
        var here := files[level];
        if here != [] {
          // Find the earliest file whose largest key is not below the lookup key.
          var index := FindFile(here, LookupKey(user, snapshot));
          LevelNewest(here, user, snapshot, index);
          if index < |here| && user >= here[index].smallest.user {
            state := GetFromRun(here[index].entries, user, snapshot);
            if state.Seen? {
              return Found(state.value);
            } else if state.Deleted? {
              return NotFound;
            }
          }
        }
        level := level + 1;
      }
      return NotFound;
    }

    // Collects the level-zero files covering the key, sorts them newest first and reads one after the other.
    method SearchLevelZero(user: UserKey, snapshot: nat) returns (state: SaverState)
      requires FilesOk(files)
      ensures state == SaverOf(SearchInOrder(RunsOf(SortNewestFirst(files[0])), user, snapshot))
    {
      var tmp: seq<FileMeta> := [];
      var i := 0;
      while i < |files[0]|
        invariant 0 <= i <= |files[0]|
        invariant tmp == InRange(files[0][..i], user)
      {
        var f := files[0][i];
        assert files[0][..i + 1] == files[0][..i] + [f];
        InRangeSnoc(files[0][..i], f, user);
        if f.smallest.user <= user && user <= f.largest.user {
          tmp := tmp + [f];
        }
        i := i + 1;
      }
      assert files[0][..i] == files[0];
      tmp := SortNewestFirst(tmp);
      SortInRange(files[0], user);
      SortIsSorted(files[0]);
      forall k | 0 <= k < |SortNewestFirst(files[0])|
        ensures FileOk(SortNewestFirst(files[0])[k])
      {
        assert SortNewestFirst(files[0])[k] in files[0];
      }
      SearchInRange(SortNewestFirst(files[0]), user, snapshot);
      InRangeOk(SortNewestFirst(files[0]), user);
      i := 0;
      while i < |tmp|
        invariant 0 <= i <= |tmp|
        invariant SearchInOrder(RunsOf(tmp), user, snapshot) == SearchInOrder(RunsOf(tmp[i..]), user, snapshot)
      {
        assert tmp[i..][1..] == tmp[i + 1..];
        state := GetFromRun(tmp[i].entries, user, snapshot);
        if !state.NotSeen? {
          return;
        }
        i := i + 1;
      }
      state := NotSeen;
    }
  }

  lemma {:induction false} InRangeSnoc(files: seq<FileMeta>, f: FileMeta, user: UserKey)
    ensures InRange(files + [f], user) == InRange(files, user) + if InUserRange(f, user) then [f] else []
  {
    if files == [] {
      assert [f][1..] == [] && files + [f] == [f];
    } else {
      assert (files + [f])[1..] == files[1..] + [f];
      InRangeSnoc(files[1..], f, user);
    }
  }

  lemma {:induction false} InRangeOk(files: seq<FileMeta>, user: UserKey)
    requires forall i :: 0 <= i < |files| ==> FileOk(files[i])
    ensures forall i :: 0 <= i < |InRange(files, user)| ==> FileOk(InRange(files, user)[i])
  {
    if files != [] {
      InRangeOk(files[1..], user);
    }
  }

  function Memtables(mem: seq<Entry>, imm: Option<seq<Entry>>): seq<seq<Entry>> {
    [mem] + if imm.Some? then [imm.value] else []
  }

  // DBImpl::Get: the memtable, the immutable memtable if there is one, then the files.
  method Get(mem: seq<Entry>, imm: Option<seq<Entry>>, current: Version, user: UserKey, snapshot: nat)
    returns (r: GetResult)
    requires Sorted(mem) && AllParse(mem) && (imm.Some? ==> Sorted(imm.value) && AllParse(imm.value))
    requires FilesOk(current.files)
    ensures r == Answer(SearchInOrder(Memtables(mem, imm) + VersionSources(current.files), user, snapshot))
    ensures Layered(mem, imm, current.files) ==>
              Answers(r, Read(Union(Memtables(mem, imm) + VersionSources(current.files)), user, snapshot))
  {
    hide Layered, Answers, Newest, Read;
    if Layered(mem, imm, current.files) {
      AnswerIsRead(mem, imm, current.files, user, snapshot);
    }
    SearchConcat(Memtables(mem, imm), VersionSources(current.files), user, snapshot);
    assert Memtables(mem, imm)[1..] == if imm.Some? then [imm.value] else [];
    var state := GetFromRun(mem, user, snapshot);
    if state.NotSeen? && imm.Some? {
      state := GetFromRun(imm.value, user, snapshot);
    }
    if state.Seen? {
      r := Found(state.value);
    } else if state.Deleted? {
      r := NotFound;
    } else {
      r := current.Get(user, snapshot);
    }
  }

  // ----- Searching in order finds the newest entry of all

  // Newer data sits in the sources searched first.
  ghost predicate Layered(mem: seq<Entry>, imm: Option<seq<Entry>>, files: seq<seq<FileMeta>>)
    requires files != []
  {
    && (imm.Some? ==> Newer(mem, imm.value))
    && (forall l, i :: 0 <= l < |files| && 0 <= i < |files[l]| ==>
          Newer(mem, files[l][i].entries) && (imm.Some? ==> Newer(imm.value, files[l][i].entries)))
    && (forall f, g :: f in files[0] && g in files[0] && f.number > g.number ==> Newer(f.entries, g.entries))
    && (forall i, j :: 0 <= i < j < |files[0]| ==> files[0][i].number != files[0][j].number)
    && (forall l, m, i, j :: 0 <= l < m < |files| && 0 <= i < |files[l]| && 0 <= j < |files[m]| ==>
          Newer(files[l][i].entries, files[m][j].entries))
  }

  lemma {:induction false} LowerSourcesAt(files: seq<seq<FileMeta>>, lvl: nat, k: nat)
    requires lvl + k < |files|
    ensures |LowerSources(files, lvl)| == |files| - lvl && LowerSources(files, lvl)[k] == LevelEntries(files[lvl + k])
    decreases |files| - lvl
  {
    if k > 0 {
      LowerSourcesAt(files, lvl + 1, k - 1);
    } else if lvl + 1 < |files| {
      LowerSourcesAt(files, lvl + 1, 0);
    }
  }

  lemma {:induction false} RunsOfAt(files: seq<FileMeta>, k: nat)
    requires k < |files|
    ensures |RunsOf(files)| == |files| && RunsOf(files)[k] == files[k].entries
  {
    if k > 0 {
      RunsOfAt(files[1..], k - 1);
    } else if |files| > 1 {
      RunsOfAt(files[1..], 0);
    }
  }

  lemma {:induction false} LevelNewer(xs: seq<Entry>, files: seq<FileMeta>)
    requires forall i :: 0 <= i < |files| ==> Newer(xs, files[i].entries)
    ensures Newer(xs, LevelEntries(files))
  {
    forall a, b | a in xs && b in LevelEntries(files) && a.key.user == b.key.user
      ensures a.key.sn > b.key.sn
    {
      LevelMembers(files, b);
      var i :| 0 <= i < |files| && b in files[i].entries;
      assert Newer(xs, files[i].entries);
    }
  }

  lemma {:induction false} LevelsNewer(xs: seq<FileMeta>, ys: seq<FileMeta>)
    requires forall i, j :: 0 <= i < |xs| && 0 <= j < |ys| ==> Newer(xs[i].entries, ys[j].entries)
    ensures Newer(LevelEntries(xs), LevelEntries(ys))
  {
    forall a, b | a in LevelEntries(xs) && b in LevelEntries(ys) && a.key.user == b.key.user
      ensures a.key.sn > b.key.sn
    {
      LevelMembers(xs, a);
      LevelMembers(ys, b);
      var i :| 0 <= i < |xs| && a in xs[i].entries;
      var j :| 0 <= j < |ys| && b in ys[j].entries;
      assert Newer(xs[i].entries, ys[j].entries);
    }
  }

  lemma {:induction false} SortIsStrict(files: seq<FileMeta>)
    requires DistinctNumbers(files)
    ensures DistinctNumbers(SortNewestFirst(files))
  {
    if files != [] {
      SortIsStrict(files[1..]);
      SortIsSorted(files[1..]);
      forall g | g in SortNewestFirst(files[1..])
        ensures g.number != files[0].number
      {
        assert g in files[1..];
      }
      InsertIsStrict(files[0], SortNewestFirst(files[1..]));
    }
  }

  lemma {:induction false} InsertIsStrict(f: FileMeta, files: seq<FileMeta>)
    requires NewestFirst(files) && DistinctNumbers(files) && forall g :: g in files ==> g.number != f.number
    ensures DistinctNumbers(InsertByNumber(f, files))
  {
    if files != [] && f.number < files[0].number {
      InsertIsStrict(f, files[1..]);
      InsertMembers(f, files[1..]);
      var rest := InsertByNumber(f, files[1..]);
      forall j | 0 <= j < |rest|
        ensures rest[j].number != files[0].number
      {
        assert rest[j] in multiset(rest);
        assert rest[j] == f || rest[j] in files[1..];
      }
    }
  }

  lemma LevelZeroNewerFirst(files: seq<FileMeta>)
    requires DistinctNumbers(files)
    requires forall f, g :: f in files && g in files && f.number > g.number ==> Newer(f.entries, g.entries)
    ensures NewerFirst(RunsOf(SortNewestFirst(files)))
  {
    var sorted := SortNewestFirst(files);
    SortIsSorted(files);
    SortIsStrict(files);
    var runs := RunsOf(sorted);
    forall i, j | 0 <= i < j < |runs|
      ensures Newer(runs[i], runs[j])
    {
      RunsLength(sorted);
      RunsOfAt(sorted, i);
      RunsOfAt(sorted, j);
      assert sorted[i] in files && sorted[j] in files;
    }
  }

  lemma {:induction false} RunsLength(files: seq<FileMeta>)
    ensures |RunsOf(files)| == |files|
  {
    if files != [] {
      RunsOfAt(files, 0);
    }
  }

  lemma {:induction false} LowerLength(files: seq<seq<FileMeta>>)
    requires |files| > 1
    ensures |LowerSources(files, 1)| == |files| - 1
  {
    LowerSourcesAt(files, 1, 0);
  }

  lemma LowerNewerFirst(files: seq<seq<FileMeta>>)
    requires |files| > 1
    requires forall l, m, i, j :: 0 <= l < m < |files| && 0 <= i < |files[l]| && 0 <= j < |files[m]| ==>
               Newer(files[l][i].entries, files[m][j].entries)
    ensures NewerFirst(LowerSources(files, 1))
  {
    LowerLength(files);
    forall i, j | 0 <= i < j < |LowerSources(files, 1)|
      ensures Newer(LowerSources(files, 1)[i], LowerSources(files, 1)[j])
    {
      LowerSourcesAt(files, 1, i);
      LowerSourcesAt(files, 1, j);
      LevelsNewer(files[1 + i], files[1 + j]);
    }
  }

  // A run that is newer than every file it is compared with is newer than every source of the version.
  lemma NewerThanVersion(xs: seq<Entry>, files: seq<seq<FileMeta>>, k: nat)
    requires |files| > 1 && k < |VersionSources(files)|
    requires forall l, i :: 0 <= l < |files| && 0 <= i < |files[l]| ==> Newer(xs, files[l][i].entries)
    ensures Newer(xs, VersionSources(files)[k])
  {
    var sorted := SortNewestFirst(files[0]);
    SortIsSorted(files[0]);
    RunsLength(sorted);
    LowerLength(files);
    if k < |sorted| {
      RunsOfAt(sorted, k);
      assert sorted[k] in files[0];
      var i :| 0 <= i < |files[0]| && files[0][i] == sorted[k];
    } else {
      LowerSourcesAt(files, 1, k - |sorted|);
      LevelNewer(xs, files[1 + (k - |sorted|)]);
    }
  }

  lemma LevelZeroAboveLower(files: seq<seq<FileMeta>>, i: nat, j: nat)
    requires |files| > 1
    requires forall l, m, i, j :: 0 <= l < m < |files| && 0 <= i < |files[l]| && 0 <= j < |files[m]| ==>
               Newer(files[l][i].entries, files[m][j].entries)
    requires i < |RunsOf(SortNewestFirst(files[0]))| && j < |LowerSources(files, 1)|
    ensures Newer(RunsOf(SortNewestFirst(files[0]))[i], LowerSources(files, 1)[j])
  {
    var sorted := SortNewestFirst(files[0]);
    SortIsSorted(files[0]);
    RunsLength(sorted);
    LowerLength(files);
    RunsOfAt(sorted, i);
    LowerSourcesAt(files, 1, j);
    assert sorted[i] in files[0];
    var k :| 0 <= k < |files[0]| && files[0][k] == sorted[i];
    LevelNewer(sorted[i].entries, files[1 + j]);
  }

  lemma VersionNewerFirst(mem: seq<Entry>, imm: Option<seq<Entry>>, files: seq<seq<FileMeta>>)
    requires FilesOk(files) && Layered(mem, imm, files)
    ensures NewerFirst(VersionSources(files))
  {
    var runs := RunsOf(SortNewestFirst(files[0]));
    LevelZeroNewerFirst(files[0]);
    LowerNewerFirst(files);
    forall i, j | 0 <= i < |runs| && 0 <= j < |LowerSources(files, 1)|
      ensures Newer(runs[i], LowerSources(files, 1)[j])
    {
      LevelZeroAboveLower(files, i, j);
    }
    PairwiseNewer(runs, LowerSources(files, 1));
    NewerFirstJoin(runs, LowerSources(files, 1));
  }

  /** With layered data, what DBImpl::Get computes with its early exits and its one file per level is the answer of
      the newest visible entry over all sources together. */
  lemma LookupFindsNewest(mem: seq<Entry>, imm: Option<seq<Entry>>, files: seq<seq<FileMeta>>, user: UserKey,
                          snapshot: nat)
    requires FilesOk(files) && Layered(mem, imm, files)
    ensures var sources := Memtables(mem, imm) + VersionSources(files);
            SearchInOrder(sources, user, snapshot) == Newest(Union(sources), user, snapshot)
  {
    var tables := Memtables(mem, imm);
    VersionNewerFirst(mem, imm, files);
    forall i, k | 0 <= i < |tables| && 0 <= k < |VersionSources(files)|
      ensures Newer(tables[i], VersionSources(files)[k])
    {
      NewerThanVersion(tables[i], files, k);
    }
    PairwiseNewer(tables, VersionSources(files));
    NewerFirstJoin(tables, VersionSources(files));
    SearchInOrderIsNewest(tables + VersionSources(files), user, snapshot);
  }

  /** What DBImpl::Get answers is what a read of all the entries there are gives. */
  lemma AnswerIsRead(mem: seq<Entry>, imm: Option<seq<Entry>>, files: seq<seq<FileMeta>>, user: UserKey, snapshot: nat)
    requires FilesOk(files) && Layered(mem, imm, files)
    ensures var sources := Memtables(mem, imm) + VersionSources(files);
            Answers(Answer(SearchInOrder(sources, user, snapshot)), Read(Union(sources), user, snapshot))
  {
    LookupFindsNewest(mem, imm, files, user, snapshot);
  }

  /** What Version::Get answers is what a read of the entries of its files gives. */
  lemma VersionAnswerIsRead(files: seq<seq<FileMeta>>, user: UserKey, snapshot: nat)
    requires FilesOk(files) && Layered([], None, files)
    ensures Answers(Answer(SearchInOrder(VersionSources(files), user, snapshot)),
                    Read(Union(VersionSources(files)), user, snapshot))
  {
    VersionNewerFirst([], None, files);
    SearchInOrderIsNewest(VersionSources(files), user, snapshot);
  }

  /** What a lookup answers, in terms of the entries alone: the value of the entry of greatest sequence number at or
      below the snapshot, unless that is a deletion or there is none. */
  lemma GetIsRead(r: GetResult, es: seq<Entry>, user: UserKey, snapshot: nat)
    requires Answers(r, Read(es, user, snapshot))
    ensures r.Found? ==> exists e :: e in es && e.key.user == user && e.key.sn <= snapshot && e.key.kind == TYPE_VALUE
                                     && r.value == e.value && NothingNewer(es, e, snapshot)
    ensures r.NotFound? ==> forall e :: e in es && e.key.user == user && e.key.sn <= snapshot && e.key.kind == TYPE_VALUE ==>
                              exists d :: d in es && d.key.user == user && d.key.sn <= snapshot && d.key.Parses()
                                          && d.key.sn >= e.key.sn && (d.key.kind == TYPE_DELETION || d.key.sn > e.key.sn)
  {
    NewestIsMaximal(es, user, snapshot);
    var n := Newest(es, user, snapshot);
    if n.Some? && r.Found? {
      assert n.value in es && NothingNewer(es, n.value, snapshot);
    }
  }

  ghost predicate NothingNewer(es: seq<Entry>, e: Entry, snapshot: nat) {
    forall d :: d in es && d.key.user == e.key.user && d.key.sn <= snapshot && d.key.Parses() ==> d.key.sn <= e.key.sn
  }

  lemma {:induction false} RunsMembers(files: seq<FileMeta>, e: Entry)
    ensures e in Union(RunsOf(files)) <==> exists f :: f in files && e in f.entries
  {
    if files != [] {
      assert RunsOf(files)[1..] == RunsOf(files[1..]);
      RunsMembers(files[1..], e);
      if f :| f in files && e in f.entries {
        assert f == files[0] || f in files[1..];
      }
    }
  }

  lemma {:induction false} LowerMembers(files: seq<seq<FileMeta>>, lvl: nat, e: Entry)
    ensures e in Union(LowerSources(files, lvl))
       <==> exists l, i :: lvl <= l < |files| && 0 <= i < |files[l]| && e in files[l][i].entries
    decreases |files| - lvl
  {
    if lvl < |files| {
      assert LowerSources(files, lvl)[1..] == LowerSources(files, lvl + 1);
      LowerMembers(files, lvl + 1, e);
      LevelMembers(files[lvl], e);
    }
  }

  /** The sources together hold exactly the entries of the memtables and of all files. */
  lemma SourcesHoldEverything(mem: seq<Entry>, imm: Option<seq<Entry>>, files: seq<seq<FileMeta>>, e: Entry)
    requires FilesOk(files)
    ensures e in Union(Memtables(mem, imm) + VersionSources(files))
       <==> e in mem || (imm.Some? && e in imm.value)
            || exists l, i :: 0 <= l < |files| && 0 <= i < |files[l]| && e in files[l][i].entries
  {
    var sorted := SortNewestFirst(files[0]);
    UnionConcat(Memtables(mem, imm), VersionSources(files));
    UnionConcat([mem], if imm.Some? then [imm.value] else []);
    UnionConcat(RunsOf(sorted), LowerSources(files, 1));
    UnionMembers([mem], e);
    UnionMembers(if imm.Some? then [imm.value] else [], e);
    SortIsSorted(files[0]);
    RunsMembers(sorted, e);
    LowerMembers(files, 1, e);
    if l, i :| 0 <= l < |files| && 0 <= i < |files[l]| && e in files[l][i].entries {
      assert l == 0 ==> files[0][i] in sorted;
    }
  }
}
