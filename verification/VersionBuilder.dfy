/** Version edits and the builder that replays them (version_set.cc VersionSet::Builder, LogAndApply, Recover). */
module VersionBuilder {
  import opened Wrappers
  import opened DbFormat
  import opened VersionFiles

  type Version = levels: seq<seq<FileMeta>> | |levels| == NUM_LEVELS witness seq(NUM_LEVELS, _ => [])

  const EMPTY_VERSION: Version := seq(NUM_LEVELS, _ => [])

  datatype VersionEdit = VersionEdit(
    comparator: Option<string>,
    logNumber: Option<nat>,
    prevLogNumber: Option<nat>,
    nextFileNumber: Option<nat>,
    lastSequence: Option<nat>,
    compactPointers: seq<(nat, InternalKey)>,
    deletedFiles: set<(nat, nat)>,
    newFiles: seq<(nat, FileMeta)>)

  predicate LevelsInRange(e: VersionEdit) {
    && (forall i :: 0 <= i < |e.compactPointers| ==> e.compactPointers[i].0 < NUM_LEVELS)
    && (forall d :: d in e.deletedFiles ==> d.0 < NUM_LEVELS)
    && forall i :: 0 <= i < |e.newFiles| ==> e.newFiles[i].0 < NUM_LEVELS
  }

  // BySmallestKey: smallest key first, ties broken by file number.
  predicate FileLess(f: FileMeta, g: FileMeta) {
    Less(f.smallest, g.smallest) || (!Less(g.smallest, f.smallest) && f.number < g.number)
  }

  ghost predicate SortedFiles(files: seq<FileMeta>) {
    forall i, j :: 0 <= i < j < |files| ==> FileLess(files[i], files[j])
  }

  // ----- One level

  // What the builder has gathered for one level.
  datatype LevelState = LevelState(deleted: set<nat>, added: seq<FileMeta>)

  const NO_CHANGE := LevelState({}, [])

  // What one edit does to one level.
  datatype LevelEdit = LevelEdit(deleted: set<nat>, added: seq<FileMeta>)

  // std::set::insert under BySmallestKey: an equivalent element stays.
  function InsertFile(files: seq<FileMeta>, f: FileMeta): seq<FileMeta> {
    if files == [] then [f]
    else if FileLess(files[0], f) then [files[0]] + InsertFile(files[1..], f)
    else if FileLess(f, files[0]) then [f] + files
    else files
  }

  function AddFiles(st: LevelState, added: seq<FileMeta>): LevelState {
    if added == [] then st
    else
      var before := AddFiles(st, added[..|added| - 1]);
      var f := added[|added| - 1];
      LevelState(before.deleted - {f.number}, InsertFile(before.added, f))
  }

  function ApplyLevel(st: LevelState, e: LevelEdit): LevelState {
    AddFiles(LevelState(st.deleted + e.deleted, st.added), e.added)
  }

  function ApplyAll(st: LevelState, es: seq<LevelEdit>): LevelState {
    if es == [] then st else ApplyLevel(ApplyAll(st, es[..|es| - 1]), es[|es| - 1])
  }

  function Unless(deleted: set<nat>, f: FileMeta): seq<FileMeta> {
    if f.number in deleted then [] else [f]
  }

  // The walk of SaveTo: base files not above the next added file come first.
  function Merge(base: seq<FileMeta>, added: seq<FileMeta>, deleted: set<nat>): seq<FileMeta>
    decreases |base| + |added|
  {
    if added == [] then (if base == [] then [] else Unless(deleted, base[0]) + Merge(base[1..], [], deleted))
    else if base != [] && !FileLess(added[0], base[0])
      then Unless(deleted, base[0]) + Merge(base[1..], added, deleted)
    else Unless(deleted, added[0]) + Merge(base, added[1..], deleted)
  }

  function SaveLevel(base: seq<FileMeta>, st: LevelState): seq<FileMeta> {
    Merge(base, st.added, st.deleted)
  }

  // A new version after every edit.
  function SaveEach(base: seq<FileMeta>, es: seq<LevelEdit>): seq<FileMeta> {
    if es == [] then base
    else SaveLevel(SaveEach(base, es[..|es| - 1]), ApplyLevel(NO_CHANGE, es[|es| - 1]))
  }

  function AllAdded(es: seq<LevelEdit>): seq<FileMeta> {
    if es == [] then [] else AllAdded(es[..|es| - 1]) + es[|es| - 1].added
  }

  lemma {:induction false} InsertFileMembers(files: seq<FileMeta>, f: FileMeta)
    requires SortedFiles(files) && forall g :: g in files && g.number == f.number ==> g == f
    ensures SortedFiles(InsertFile(files, f))
    ensures forall g :: g in InsertFile(files, f) <==> g in files || g == f
  {
    if files != [] {
      var tail := files[1..];
      assert files == [files[0]] + tail;
      InsertFileMembers(tail, f);
      assert forall g :: g in tail ==> FileLess(files[0], g);
      if FileLess(files[0], f) {
        var rest := InsertFile(tail, f);
        assert forall i :: 0 <= i < |rest| ==> rest[i] in rest && FileLess(files[0], rest[i]);
      } else if FileLess(f, files[0]) {
        assert forall g :: g in files ==> FileLess(f, g);
      } else {
        assert files[0] in files && files[0] == f;
      }
    }
  }

  lemma {:induction false} AddFilesMembers(st: LevelState, added: seq<FileMeta>)
    requires SortedFiles(st.added)
    requires forall f, g :: (f in st.added || f in added) && g in added && f.number == g.number ==> f == g
    ensures var r := AddFiles(st, added);
            && SortedFiles(r.added)
            && (forall g :: g in r.added <==> g in st.added || g in added)
            && forall n :: n in r.deleted <==> n in st.deleted && forall g :: g in added ==> g.number != n
  {
    if added != [] {
      var n := |added| - 1;
      assert added == added[..n] + [added[n]];
      AddFilesMembers(st, added[..n]);
      InsertFileMembers(AddFiles(st, added[..n]).added, added[n]);
    }
  }

  lemma {:induction false} MergeMembers(base: seq<FileMeta>, added: seq<FileMeta>, deleted: set<nat>, f: FileMeta)
    ensures f in Merge(base, added, deleted) <==> (f in base || f in added) && f.number !in deleted
    decreases |base| + |added|
  {
    if base != [] && (added == [] || !FileLess(added[0], base[0])) {
      assert base == [base[0]] + base[1..];
      MergeMembers(base[1..], added, deleted, f);
    } else if added != [] {
      assert added == [added[0]] + added[1..];
      MergeMembers(base, added[1..], deleted, f);
    }
  }

  ghost predicate Disjoint(xs: seq<FileMeta>, ys: seq<FileMeta>) {
    forall f, g :: f in xs && g in ys ==> f.number != g.number
  }

  lemma {:induction false} MergeSorted(base: seq<FileMeta>, added: seq<FileMeta>, deleted: set<nat>)
    requires SortedFiles(base) && SortedFiles(added) && Disjoint(base, added)
    ensures SortedFiles(Merge(base, added, deleted))
    decreases |base| + |added|
  {
    if base != [] && (added == [] || !FileLess(added[0], base[0])) {
      MergeSorted(base[1..], added, deleted);
      SortedCons(base[0], base[1..], added, deleted);
    } else if added != [] {
      assert base != [] ==> base[0] in base && FileLess(added[0], base[0]);
      MergeSorted(base, added[1..], deleted);
      SortedCons(added[0], base, added[1..], deleted);
    }
  }

  lemma SortedCons(f: FileMeta, base: seq<FileMeta>, added: seq<FileMeta>, deleted: set<nat>)
    requires SortedFiles(Merge(base, added, deleted))
    requires forall g :: g in base || g in added ==> FileLess(f, g)
    ensures SortedFiles(Unless(deleted, f) + Merge(base, added, deleted))
  {
    var rest := Merge(base, added, deleted);
    forall i | 0 <= i < |rest|
      ensures FileLess(f, rest[i])
    {
      MergeMembers(base, added, deleted, rest[i]);
    }
  }

  // A sorted list of files is determined by its members.
  lemma {:induction false} SortedUnique(xs: seq<FileMeta>, ys: seq<FileMeta>)
    requires SortedFiles(xs) && SortedFiles(ys) && forall f :: f in xs <==> f in ys
    ensures xs == ys
  {
    assert forall i :: 0 <= i < |xs| ==> xs[i] in ys;
    assert forall i :: 0 <= i < |ys| ==> ys[i] in xs;
    if xs != [] && ys != [] {
      assert xs[0] in ys && ys[0] in xs;
      assert xs[0] == ys[0];
      forall f
        ensures f in xs[1..] <==> f in ys[1..]
      {
        assert xs == [xs[0]] + xs[1..] && ys == [ys[0]] + ys[1..];
        assert f in xs[1..] ==> FileLess(xs[0], f);
        assert f in ys[1..] ==> FileLess(ys[0], f);
        assert f in xs <==> f in ys;
      }
      SortedUnique(xs[1..], ys[1..]);
    }
  }

  lemma {:induction false} AllAddedPrefix(base: seq<FileMeta>, es: seq<LevelEdit>)
    requires es != [] && DistinctNumbers(base + AllAdded(es))
    ensures var n := |es| - 1;
            && DistinctNumbers(base + AllAdded(es[..n]))
            && DistinctNumbers(es[n].added)
            && Disjoint(base, es[n].added) && Disjoint(AllAdded(es[..n]), es[n].added)
            && Disjoint(base, AllAdded(es))
  {
    var n := |es| - 1;
    assert base + AllAdded(es) == base + AllAdded(es[..n]) + es[n].added;
    DistinctSplit(base + AllAdded(es[..n]), es[n].added);
    DistinctSplit(base, AllAdded(es));
  }

  lemma DistinctSplit(xs: seq<FileMeta>, ys: seq<FileMeta>)
    requires DistinctNumbers(xs + ys)
    ensures DistinctNumbers(xs) && DistinctNumbers(ys) && Disjoint(xs, ys)
  {
    var all := xs + ys;
    assert forall i :: 0 <= i < |xs| ==> xs[i] == all[i];
    assert forall j :: 0 <= j < |ys| ==> ys[j] == all[|xs| + j];
    forall f, g | f in xs && g in ys
      ensures f.number != g.number
    {
      var i :| 0 <= i < |xs| && xs[i] == f;
      var j :| 0 <= j < |ys| && ys[j] == g;
      assert all[i].number != all[|xs| + j].number;
    }
  }

  /** Feeding all edits to one builder and saving once gives the level that saving after every edit gives, as long as
      no file number is added to the level twice. */
  lemma {:induction false} OnceIsEach(base: seq<FileMeta>, es: seq<LevelEdit>)
    requires SortedFiles(base) && DistinctNumbers(base + AllAdded(es))
    ensures SaveLevel(base, ApplyAll(NO_CHANGE, es)) == SaveEach(base, es)
    ensures SortedFiles(SaveEach(base, es))
    ensures forall f :: f in SaveEach(base, es) ==> f in base || f in AllAdded(es)
    ensures SortedFiles(ApplyAll(NO_CHANGE, es).added)
    ensures forall f :: f in ApplyAll(NO_CHANGE, es).added <==> f in AllAdded(es)
  {
    if es == [] {
      MergeNothing(base);
    } else {
      var n := |es| - 1;
      var e := es[n];
      AllAddedPrefix(base, es);
      OnceIsEach(base, es[..n]);
      var st' := ApplyAll(NO_CHANGE, es[..n]);
      var saved := SaveEach(base, es[..n]);
      var st, single := ApplyLevel(st', e), ApplyLevel(NO_CHANGE, e);
      AddFilesMembers(LevelState(st'.deleted + e.deleted, st'.added), e.added);
      AddFilesMembers(LevelState({} + e.deleted, []), e.added);
      MergeSorted(base, st.added, st.deleted);
      MergeSorted(saved, single.added, single.deleted);
      forall f
        ensures f in SaveLevel(base, st) <==> f in SaveLevel(saved, single)
        ensures f in SaveLevel(saved, single) ==> f in base || f in AllAdded(es)
      {
        MergeMembers(base, st.added, st.deleted, f);
        MergeMembers(saved, single.added, single.deleted, f);
        MergeMembers(base, st'.added, st'.deleted, f);
      }
      SortedUnique(SaveLevel(base, st), SaveLevel(saved, single));
    }
  }

  lemma {:induction false} MergeNothing(base: seq<FileMeta>)
    ensures Merge(base, [], {}) == base
  {
    if base != [] {
      MergeNothing(base[1..]);
    }
  }

  /** Each level is the base minus the deleted files plus the added ones, in order. */
  lemma SavedLevel(base: seq<FileMeta>, e: LevelEdit)
    requires SortedFiles(base) && DistinctNumbers(base + e.added)
    ensures var saved := SaveLevel(base, ApplyLevel(NO_CHANGE, e));
            && SortedFiles(saved)
            && forall f :: f in saved <==> (f in base && f.number !in e.deleted) || f in e.added
  {
    var es := [e];
    assert AllAdded(es) == AllAdded(es[..0]) + e.added == e.added;
    OnceIsEach(base, es);
    AllAddedPrefix(base, es);
    AddFilesMembers(LevelState({} + e.deleted, []), e.added);
    var st := ApplyLevel(NO_CHANGE, e);
    assert es[..0] == [];
    assert ApplyAll(NO_CHANGE, es) == st;
    forall f
      ensures f in SaveLevel(base, st) <==> (f in base && f.number !in e.deleted) || f in e.added
    {
      MergeMembers(base, st.added, st.deleted, f);
    }
  }

  // ----- Exactly when one save is as good as many

  // A number stands for one file.
  ghost predicate Named(files: seq<FileMeta>) {
    forall f, g :: f in files && g in files && f.number == g.number ==> f == g
  }

  ghost predicate Adds(e: LevelEdit, n: nat) {
    exists f :: f in e.added && f.number == n
  }

  // How many edits add the file since the last one that only deletes it.
  ghost function AddsSince(es: seq<LevelEdit>, n: nat): nat {
    if es == [] then 0
    else
      var e := es[|es| - 1];
      var before := AddsSince(es[..|es| - 1], n);
      if Adds(e, n) then before + 1 else if n in e.deleted then 0 else before
  }

  function Times(files: seq<FileMeta>, n: nat): nat {
    if files == [] then 0 else (if files[0].number == n then 1 else 0) + Times(files[1..], n)
  }

  // In order, but a file may stand there more than once.
  ghost predicate WeaklySorted(files: seq<FileMeta>) {
    forall i, j :: 0 <= i < j < |files| ==> !FileLess(files[j], files[i])
  }

  lemma {:induction false} TimesPositive(files: seq<FileMeta>, n: nat)
    ensures Times(files, n) > 0 <==> exists f :: f in files && f.number == n
  {
    if files != [] {
      TimesPositive(files[1..], n);
      assert files == [files[0]] + files[1..];
      if files[0].number == n {
        assert files[0] in files;
      }
      if f :| f in files[1..] && f.number == n {
        assert f in files;
      }
    }
  }

  lemma {:induction false} TimesMerge(base: seq<FileMeta>, added: seq<FileMeta>, deleted: set<nat>, n: nat)
    ensures Times(Merge(base, added, deleted), n) == if n in deleted then 0 else Times(base, n) + Times(added, n)
    decreases |base| + |added|
  {
    if base != [] && (added == [] || !FileLess(added[0], base[0])) {
      TimesMerge(base[1..], added, deleted, n);
      TimesCons(deleted, base[0], Merge(base[1..], added, deleted), n);
    } else if added != [] {
      TimesMerge(base, added[1..], deleted, n);
      TimesCons(deleted, added[0], Merge(base, added[1..], deleted), n);
    }
  }

  lemma TimesCons(deleted: set<nat>, f: FileMeta, rest: seq<FileMeta>, n: nat)
    ensures Times(Unless(deleted, f) + rest, n)
         == (if f.number == n && n !in deleted then 1 else 0) + Times(rest, n)
  {
    assert ([f] + rest)[1..] == rest;
    assert [] + rest == rest;
  }

  // A strictly sorted list holds a named file once.
  lemma {:induction false} TimesSorted(files: seq<FileMeta>, n: nat)
    requires SortedFiles(files) && Named(files)
    ensures Times(files, n) <= 1
  {
    if files != [] {
      var tail := files[1..];
      assert files == [files[0]] + tail;
      TimesSorted(tail, n);
      TimesPositive(tail, n);
      forall f | f in tail
        ensures f.number != files[0].number
      {
        var i :| 0 <= i < |tail| && tail[i] == f;
        assert FileLess(files[0], files[i + 1]) && files[0] in files && f in files;
      }
    }
  }

  // Without repetition, in order is strictly in order.
  lemma {:induction false} SortedOnce(files: seq<FileMeta>)
    requires WeaklySorted(files) && Named(files) && forall n :: Times(files, n) <= 1
    ensures SortedFiles(files)
  {
    if files != [] {
      var tail := files[1..];
      assert files == [files[0]] + tail;
      forall n
        ensures Times(tail, n) <= 1
      {
        assert Times(files, n) <= 1;
      }
      SortedOnce(tail);
      forall j | 0 < j < |files|
        ensures FileLess(files[0], files[j])
      {
        assert files[j] == tail[j - 1] && files[j] in tail;
        TimesPositive(tail, files[j].number);
        assert Times(files, files[j].number) <= 1;
        assert files[0].number != files[j].number;
        assert !FileLess(files[j], files[0]);
      }
    }
  }

  lemma {:induction false} MergeWeaklySorted(base: seq<FileMeta>, added: seq<FileMeta>, deleted: set<nat>)
    requires WeaklySorted(base) && SortedFiles(added)
    ensures WeaklySorted(Merge(base, added, deleted))
    decreases |base| + |added|
  {
    if base != [] && (added == [] || !FileLess(added[0], base[0])) {
      MergeWeaklySorted(base[1..], added, deleted);
      WeaklyCons(base[0], base[1..], added, deleted);
    } else if added != [] {
      MergeWeaklySorted(base, added[1..], deleted);
      WeaklyCons(added[0], base, added[1..], deleted);
    }
  }

  lemma WeaklyCons(f: FileMeta, base: seq<FileMeta>, added: seq<FileMeta>, deleted: set<nat>)
    requires WeaklySorted(Merge(base, added, deleted))
    requires forall g :: g in base || g in added ==> !FileLess(g, f)
    ensures WeaklySorted(Unless(deleted, f) + Merge(base, added, deleted))
  {
    var rest := Merge(base, added, deleted);
    forall i | 0 <= i < |rest|
      ensures !FileLess(rest[i], f)
    {
      MergeMembers(base, added, deleted, rest[i]);
    }
  }

  // What the builder has gathered, edit by edit.
  ghost predicate Gathered(es: seq<LevelEdit>, st: LevelState) {
    && SortedFiles(st.added)
    && (forall f :: f in st.added <==> f in AllAdded(es))
    && (forall n :: n in st.deleted ==> AddsSince(es, n) == 0)
    && (forall f :: f in st.added && f.number !in st.deleted ==> AddsSince(es, f.number) > 0)
  }

  // What saving after every edit leads to: a file as often as it was added since it was last deleted for good.
  ghost predicate Repeats(es: seq<LevelEdit>, files: seq<FileMeta>) {
    && WeaklySorted(files)
    && (forall f :: f in files ==> f in AllAdded(es))
    && forall n :: Times(files, n) == AddsSince(es, n)
  }

  lemma NamedPrefix(es: seq<LevelEdit>)
    requires es != [] && Named(AllAdded(es))
    ensures Named(AllAdded(es[..|es| - 1])) && Named(es[|es| - 1].added)
    ensures forall f :: f in AllAdded(es) <==> f in AllAdded(es[..|es| - 1]) || f in es[|es| - 1].added
  {
  }

  lemma {:induction false} AllGathered(es: seq<LevelEdit>)
    requires Named(AllAdded(es))
    ensures Gathered(es, ApplyAll(NO_CHANGE, es))
  {
    if es != [] {
      var n := |es| - 1;
      var e := es[n];
      NamedPrefix(es);
      AllGathered(es[..n]);
      var before := ApplyAll(NO_CHANGE, es[..n]);
      AddFilesMembers(LevelState(before.deleted + e.deleted, before.added), e.added);
      GatheredStep(es, before, ApplyAll(NO_CHANGE, es));
    }
  }

  lemma GatheredStep(es: seq<LevelEdit>, before: LevelState, st: LevelState)
    requires es != [] && Named(AllAdded(es)) && Gathered(es[..|es| - 1], before)
    requires SortedFiles(st.added) && forall g :: g in st.added <==> g in before.added || g in es[|es| - 1].added
    requires forall n :: n in st.deleted <==> (n in before.deleted || n in es[|es| - 1].deleted)
                                              && forall g :: g in es[|es| - 1].added ==> g.number != n
    ensures Gathered(es, st)
  {
    var e := es[|es| - 1];
    NamedPrefix(es);
    forall n | n in st.deleted
      ensures AddsSince(es, n) == 0
    {
      assert !Adds(e, n);
    }
    forall f | f in st.added && f.number !in st.deleted
      ensures AddsSince(es, f.number) > 0
    {
      if !Adds(e, f.number) {
        assert f in before.added;
      }
    }
  }

  lemma {:induction false} AllRepeat(es: seq<LevelEdit>)
    requires Named(AllAdded(es))
    ensures Repeats(es, SaveEach([], es))
  {
    if es != [] {
      var n := |es| - 1;
      NamedPrefix(es);
      AllRepeat(es[..n]);
      RepeatsStep(es, SaveEach([], es[..n]));
    }
  }

  lemma RepeatsStep(es: seq<LevelEdit>, before: seq<FileMeta>)
    requires es != [] && Named(AllAdded(es)) && Repeats(es[..|es| - 1], before)
    ensures Repeats(es, SaveLevel(before, ApplyLevel(NO_CHANGE, es[|es| - 1])))
  {
    hide Times, AddsSince, SortedFiles, Merge, AddFiles, Named;
    var e := es[|es| - 1];
    var st := ApplyLevel(NO_CHANGE, e);
    NamedPrefix(es);
    OneEdit(e);
    MergeWeaklySorted(before, st.added, st.deleted);
    forall f | f in SaveLevel(before, st)
      ensures f in AllAdded(es)
    {
      MergeMembers(before, st.added, st.deleted, f);
    }
    forall n
      ensures Times(SaveLevel(before, st), n) == AddsSince(es, n)
    {
      AddsSinceStep(es, n);
      TimesAdded(before, e, n);
    }
  }

  // What the builder gathers from one edit.
  lemma OneEdit(e: LevelEdit)
    requires Named(e.added)
    ensures var st := ApplyLevel(NO_CHANGE, e);
            && SortedFiles(st.added) && (forall f :: f in st.added <==> f in e.added)
            && forall n :: n in st.deleted <==> n in e.deleted && !Adds(e, n)
  {
    hide SortedFiles;
    NothingSorted();
    AddFilesMembers(LevelState({} + e.deleted, []), e.added);
  }

  lemma NothingSorted()
    ensures SortedFiles([])
  {
  }

  lemma TimesAdded(before: seq<FileMeta>, e: LevelEdit, n: nat)
    requires Named(e.added)
    ensures Times(SaveLevel(before, ApplyLevel(NO_CHANGE, e)), n)
         == if Adds(e, n) then Times(before, n) + 1 else if n in e.deleted then 0 else Times(before, n)
  {
    hide Times, SortedFiles, Merge, AddFiles;
    var st := ApplyLevel(NO_CHANGE, e);
    OneEdit(e);
    TimesMerge(before, st.added, st.deleted, n);
    TimesPositive(st.added, n);
    TimesSorted(st.added, n);
  }

  lemma AddsSinceStep(es: seq<LevelEdit>, n: nat)
    requires es != []
    ensures var e := es[|es| - 1];
            var before := AddsSince(es[..|es| - 1], n);
            AddsSince(es, n) == if Adds(e, n) then before + 1 else if n in e.deleted then 0 else before
  {
  }

  // No file is added by two edits without being deleted for good in between.
  ghost predicate AddedOnce(es: seq<LevelEdit>) {
    forall n :: AddsSince(es, n) <= 1
  }

  // What one save of the gathered changes holds.
  lemma OnceHolds(es: seq<LevelEdit>, st: LevelState)
    requires Named(AllAdded(es)) && Gathered(es, st)
    ensures var once := SaveLevel([], st);
            && SortedFiles(once) && Named(once)
            && forall f :: f in once <==> f in AllAdded(es) && f.number !in st.deleted
  {
    MergeSorted([], st.added, st.deleted);
    forall f
      ensures f in SaveLevel([], st) <==> f in AllAdded(es) && f.number !in st.deleted
    {
      MergeMembers([], st.added, st.deleted, f);
    }
  }

  lemma EqualMeansAddedOnce(es: seq<LevelEdit>, once: seq<FileMeta>, each: seq<FileMeta>)
    requires SortedFiles(once) && Named(once) && Repeats(es, each) && once == each
    ensures AddedOnce(es)
  {
    forall n
      ensures AddsSince(es, n) <= 1
    {
      TimesSorted(once, n);
    }
  }

  lemma AddedOnceMeansEqual(es: seq<LevelEdit>, st: LevelState, once: seq<FileMeta>, each: seq<FileMeta>)
    requires Named(AllAdded(es)) && Gathered(es, st) && Repeats(es, each) && AddedOnce(es) && SortedFiles(once)
    requires forall f :: f in once <==> f in AllAdded(es) && f.number !in st.deleted
    ensures once == each
  {
    hide SortedFiles, WeaklySorted, Merge, AddsSince, AllAdded;
    forall n
      ensures Times(each, n) <= 1
    {
      assert AddsSince(es, n) <= 1;
    }
    SortedOnce(each);
    forall f
      ensures f in once <==> f in each
    {
      TimesPositive(each, f.number);
    }
    SortedUnique(once, each);
  }

  /** Recovery starts from the empty version.  There, saving once gives what saving after every edit gives if and only
      if no file was added by two edits without being deleted for good in between. */
  lemma OnceIsEachExactlyWhen(es: seq<LevelEdit>)
    requires Named(AllAdded(es))
    ensures SaveLevel([], ApplyAll(NO_CHANGE, es)) == SaveEach([], es) <==> AddedOnce(es)
  {
    hide SaveLevel, SaveEach, ApplyAll, AddedOnce, Gathered, Repeats, SortedFiles, Named, AllAdded;
    var (st, each) := (ApplyAll(NO_CHANGE, es), SaveEach([], es));
    AllGathered(es);
    AllRepeat(es);
    OnceHolds(es, st);
    if SaveLevel([], st) == each {
      EqualMeansAddedOnce(es, SaveLevel([], st), each);
    }
    if AddedOnce(es) {
      AddedOnceMeansEqual(es, st, SaveLevel([], st), each);
    }
  }

  /** The case does occur for a file that two edits add: recovery lists it once, the version it replays twice. */
  lemma FileAddedTwice(f: FileMeta)
    ensures var es := [LevelEdit({}, [f]), LevelEdit({}, [f])];
            && SaveLevel([], ApplyAll(NO_CHANGE, es)) == [f]
            && SaveEach([], es) == [f, f]
  {
    var e := LevelEdit({}, [f]);
    assert [e, e][..1] == [e] && [e][..0] == [] && [f][..0] == [] && [f][1..] == [];
    forall st: LevelState | st.deleted == {} && (st.added == [] || st.added == [f])
      ensures ApplyLevel(st, e) == LevelState({}, [f])
    {
      assert AddFiles(LevelState(st.deleted + {}, st.added), []) == LevelState({}, st.added);
      assert [] + [f] == [f];
    }
    assert ApplyAll(NO_CHANGE, [e]) == LevelState({}, [f]);
    assert Merge([], [f], {}) == [f];
    assert SaveEach([], [e]) == [f];
    assert Merge([f], [], {}) == [f] && Merge([], [], {}) == [];
    assert Merge([f], [f], {}) == [f, f];
  }

  // ----- All levels

  function DeletedAt(deleted: set<(nat, nat)>, level: nat): set<nat> {
    set d | d in deleted && d.0 == level :: d.1
  }

  function AddedAt(files: seq<(nat, FileMeta)>, level: nat): seq<FileMeta> {
    if files == [] then []
    else
      var last := files[|files| - 1];
      AddedAt(files[..|files| - 1], level) + if last.0 == level then [last.1] else []
  }

  function EditAt(e: VersionEdit, level: nat): LevelEdit {
    LevelEdit(DeletedAt(e.deletedFiles, level), AddedAt(e.newFiles, level))
  }

  function EditsAt(es: seq<VersionEdit>, level: nat): seq<LevelEdit> {
    if es == [] then [] else EditsAt(es[..|es| - 1], level) + [EditAt(es[|es| - 1], level)]
  }

  lemma EditsAtSnoc(es: seq<VersionEdit>, e: VersionEdit, level: nat)
    ensures EditsAt(es + [e], level) == EditsAt(es, level) + [EditAt(e, level)]
  {
    assert (es + [e])[..|es|] == es;
  }

  // ----- Compaction pointers: where the next compaction of a level starts

  ghost predicate Names(ptrs: seq<(nat, InternalKey)>, level: nat) {
    exists i :: 0 <= i < |ptrs| && ptrs[i].0 == level
  }

  // No later pointer is for the same level.
  ghost predicate Final(ptrs: seq<(nat, InternalKey)>, i: nat)
    requires i < |ptrs|
  {
    forall j :: i < j < |ptrs| ==> ptrs[j].0 != ptrs[i].0
  }

  // Each level named in ptrs gets the last pointer given for it, the others keep theirs.
  ghost predicate Pointed(m: map<nat, InternalKey>, m': map<nat, InternalKey>, ptrs: seq<(nat, InternalKey)>) {
    && (forall i :: 0 <= i < |ptrs| && Final(ptrs, i) ==> ptrs[i].0 in m' && m'[ptrs[i].0] == ptrs[i].1)
    && forall level :: !Names(ptrs, level) ==> (level in m' <==> level in m) && (level in m ==> m'[level] == m[level])
  }

  // All pointers the records give, in order.
  function PointersOf(records: seq<VersionEdit>): seq<(nat, InternalKey)> {
    if records == [] then [] else PointersOf(records[..|records| - 1]) + records[|records| - 1].compactPointers
  }

  lemma NamesConcat(ps: seq<(nat, InternalKey)>, qs: seq<(nat, InternalKey)>, level: nat)
    ensures Names(ps + qs, level) <==> Names(ps, level) || Names(qs, level)
  {
    var all := ps + qs;
    assert forall j :: 0 <= j < |ps| ==> all[j] == ps[j];
    assert forall j :: 0 <= j < |qs| ==> all[|ps| + j] == qs[j];
  }

  lemma FinalConcat(ps: seq<(nat, InternalKey)>, qs: seq<(nat, InternalKey)>, i: nat)
    requires i < |ps| + |qs| && Final(ps + qs, i)
    ensures i < |ps| ==> Final(ps, i) && !Names(qs, ps[i].0)
    ensures i >= |ps| ==> Final(qs, i - |ps|)
  {
    var all := ps + qs;
    assert forall j :: 0 <= j < |ps| ==> all[j] == ps[j];
    assert forall j :: 0 <= j < |qs| ==> all[|ps| + j] == qs[j];
  }

  lemma PointedConcat(a: map<nat, InternalKey>, b: map<nat, InternalKey>, c: map<nat, InternalKey>,
                      ps: seq<(nat, InternalKey)>, qs: seq<(nat, InternalKey)>)
    requires Pointed(a, b, ps) && Pointed(b, c, qs)
    ensures Pointed(a, c, ps + qs)
  {
    hide Names, Final;
    var all := ps + qs;
    forall i | 0 <= i < |all| && Final(all, i)
      ensures all[i].0 in c && c[all[i].0] == all[i].1
    {
      FinalConcat(ps, qs, i);
    }
    forall level | !Names(all, level)
      ensures !Names(ps, level) && !Names(qs, level)
    {
      NamesConcat(ps, qs, level);
    }
  }

  lemma PointedOne(m: map<nat, InternalKey>, p: (nat, InternalKey))
    ensures Pointed(m, m[p.0 := p.1], [p])
  {
    assert [p][0] == p;
  }

  lemma PointedStep(a: map<nat, InternalKey>, b: map<nat, InternalKey>, ptrs: seq<(nat, InternalKey)>, i: nat)
    requires i < |ptrs| && Pointed(a, b, ptrs[..i])
    ensures Pointed(a, b[ptrs[i].0 := ptrs[i].1], ptrs[..i + 1])
  {
    hide Pointed;
    PointedOne(b, ptrs[i]);
    PointedConcat(a, b, b[ptrs[i].0 := ptrs[i].1], ptrs[..i], [ptrs[i]]);
    assert ptrs[..i + 1] == ptrs[..i] + [ptrs[i]];
  }

  lemma {:induction false} LastNamed(ptrs: seq<(nat, InternalKey)>, level: nat) returns (i: nat)
    requires Names(ptrs, level)
    ensures i < |ptrs| && ptrs[i].0 == level && Final(ptrs, i)
  {
    var n := |ptrs| - 1;
    if ptrs[n].0 == level {
      i := n;
    } else {
      assert Names(ptrs[..n], level);
      i := LastNamed(ptrs[..n], level);
    }
  }

  lemma PointedUnique(m: map<nat, InternalKey>, m1: map<nat, InternalKey>, m2: map<nat, InternalKey>,
                      ptrs: seq<(nat, InternalKey)>)
    requires Pointed(m, m1, ptrs) && Pointed(m, m2, ptrs)
    ensures m1 == m2
  {
    forall level
      ensures level in m1 <==> level in m2
      ensures level in m1 ==> m1[level] == m2[level]
    {
      if Names(ptrs, level) {
        var i := LastNamed(ptrs, level);
      }
    }
  }

  // Giving the same pointers once more changes nothing.
  lemma PointedAgain(m: map<nat, InternalKey>, m': map<nat, InternalKey>, ptrs: seq<(nat, InternalKey)>)
    requires Pointed(m, m', ptrs)
    ensures Pointed(m', m', ptrs)
  {
  }

  lemma NothingPointed(m: map<nat, InternalKey>)
    ensures Pointed(m, m, []) && PointersOf([]) == []
  {
  }

  ghost predicate PointersFit(ptrs: seq<(nat, InternalKey)>) {
    forall i :: 0 <= i < |ptrs| ==> ptrs[i].0 < NUM_LEVELS
  }

  lemma {:induction false} PointersOfFit(records: seq<VersionEdit>)
    requires forall e :: e in records ==> LevelsInRange(e)
    ensures PointersFit(PointersOf(records))
  {
    if records != [] {
      PointersOfFit(records[..|records| - 1]);
      assert LevelsInRange(records[|records| - 1]);
    }
  }

  lemma PointersInRange(m: map<nat, InternalKey>, m': map<nat, InternalKey>, ptrs: seq<(nat, InternalKey)>)
    requires Pointed(m, m', ptrs) && PointersFit(ptrs)
    requires forall level :: level in m ==> level < NUM_LEVELS
    ensures forall level :: level in m' ==> level < NUM_LEVELS
  {
  }

  lemma PointersSnoc(records: seq<VersionEdit>, e: VersionEdit)
    ensures PointersOf(records + [e]) == PointersOf(records) + e.compactPointers
    ensures PointersOf([e]) == e.compactPointers
  {
    assert (records + [e])[..|records|] == records && [e][..0] == [];
  }

  class Builder {
    const base: Version
    const vset: VersionSet
    var levels: seq<LevelState>

    constructor (vset: VersionSet, base: Version)
      ensures this.base == base && this.vset == vset && levels == seq(NUM_LEVELS, _ => NO_CHANGE)
    {
      this.base, this.vset, levels := base, vset, seq(NUM_LEVELS, _ => NO_CHANGE);
    }

    method UpdatePointers(edit: VersionEdit)
      modifies vset`compactPointer
      ensures Pointed(old(vset.compactPointer), vset.compactPointer, edit.compactPointers)
    {
      hide Pointed;
      NothingPointed(vset.compactPointer);
      for i := 0 to |edit.compactPointers|
        invariant Pointed(old(vset.compactPointer), vset.compactPointer, edit.compactPointers[..i])
      {
        PointedStep(old(vset.compactPointer), vset.compactPointer, edit.compactPointers, i);
        vset.compactPointer := vset.compactPointer[edit.compactPointers[i].0 := edit.compactPointers[i].1];
      }
      assert edit.compactPointers[..|edit.compactPointers|] == edit.compactPointers;
    }

    /** Gathers what one edit changes. */
    method Apply(edit: VersionEdit)
      requires |levels| == NUM_LEVELS && LevelsInRange(edit)
      modifies this, vset`compactPointer
      ensures |levels| == NUM_LEVELS
      ensures forall l :: 0 <= l < NUM_LEVELS ==> levels[l] == ApplyLevel(old(levels[l]), EditAt(edit, l))
      ensures Pointed(old(vset.compactPointer), vset.compactPointer, edit.compactPointers)
    {
      hide Pointed;
      UpdatePointers(edit);
      var todo := edit.deletedFiles;
      while todo != {}
        modifies this
        invariant |levels| == NUM_LEVELS && todo <= edit.deletedFiles
        invariant forall l :: 0 <= l < NUM_LEVELS ==>
                    levels[l] == LevelState(old(levels[l]).deleted + DeletedAt(edit.deletedFiles - todo, l),
                                            old(levels[l]).added)
      {
        var d :| d in todo;
        todo := todo - {d};
        levels := levels[d.0 := levels[d.0].(deleted := levels[d.0].deleted + {d.1})];
      }
      assert edit.deletedFiles - {} == edit.deletedFiles;
      for i := 0 to |edit.newFiles|
        modifies this
        invariant |levels| == NUM_LEVELS
        invariant forall l :: 0 <= l < NUM_LEVELS ==> levels[l] == AddFiles(
            LevelState(old(levels[l]).deleted + DeletedAt(edit.deletedFiles, l), old(levels[l]).added),
            AddedAt(edit.newFiles[..i], l))
      {
        var (level, f) := edit.newFiles[i];
        AddedAtStep(edit.newFiles, i);
        levels := levels[level := LevelState(levels[level].deleted - {f.number}, InsertFile(levels[level].added, f))];
      }
      assert edit.newFiles[..|edit.newFiles|] == edit.newFiles;
    }

    /** Writes the version that the base and the gathered changes give. */
    method SaveTo() returns (v: Version)
      requires |levels| == NUM_LEVELS
      requires forall l :: 0 <= l < NUM_LEVELS ==> SortedFiles(base[l])
      ensures forall l :: 0 <= l < NUM_LEVELS ==> v[l] == SaveLevel(base[l], levels[l])
    {
      v := EMPTY_VERSION;
      for level := 0 to NUM_LEVELS
        invariant forall l :: 0 <= l < level ==> v[l] == SaveLevel(base[l], levels[l])
      {
        var files := SaveOneLevel(base[level], levels[level].added, levels[level].deleted);
        v := v[level := files];
      }
    }

    static method UpperBound(files: seq<FileMeta>, from: nat, f: FileMeta) returns (pos: nat)
      requires SortedFiles(files) && from <= |files|
      ensures from <= pos <= |files|
      ensures forall i :: from <= i < pos ==> !FileLess(f, files[i])
      ensures forall i :: pos <= i < |files| ==> FileLess(f, files[i])
    {
      var left, right := from, |files|;
      while left < right
        invariant from <= left <= right <= |files|
        invariant forall i :: from <= i < left ==> !FileLess(f, files[i])
        invariant forall i :: right <= i < |files| ==> FileLess(f, files[i])
      {
        var mid := (left + right) / 2;
        if FileLess(f, files[mid]) {
          right := mid;
        } else {
          left := mid + 1;
        }
      }
      return left;
    }

    static method SaveOneLevel(base: seq<FileMeta>, added: seq<FileMeta>, deleted: set<nat>)
      returns (files: seq<FileMeta>)
      requires SortedFiles(base)
      ensures files == Merge(base, added, deleted)
    {
      files := [];
      var b: nat := 0;
      ghost var all := Merge(base, added, deleted);
      MergeEnds(base, added, deleted);
      hide Merge, MergeRest, Unless, FileLess, SortedFiles;
      for a := 0 to |added|
        invariant b <= |base| && files + MergeRest(base, added, deleted, b, a) == all
      {
        var pos := UpperBound(base, b, added[a]);
        while b < pos
          invariant b <= pos && files + MergeRest(base, added, deleted, b, a) == all
        {
          MergeTakesBase(files, base, added, deleted, b, a);
          files := files + Unless(deleted, base[b]);
          b := b + 1;
        }
        MergeTakesAdded(files, base, added, deleted, b, a);
        files := files + Unless(deleted, added[a]);
      }
      while b < |base|
        invariant b <= |base| && files + MergeRest(base, added, deleted, b, |added|) == all
      {
        MergeTakesBase(files, base, added, deleted, b, |added|);
        files := files + Unless(deleted, base[b]);
        b := b + 1;
      }
    }
  }

  // What is still to come once b base files and a added files have been handled.
  ghost function MergeRest(base: seq<FileMeta>, added: seq<FileMeta>, deleted: set<nat>, b: nat, a: nat): seq<FileMeta>
    requires b <= |base| && a <= |added|
  {
    Merge(base[b..], added[a..], deleted)
  }

  lemma MergeEnds(base: seq<FileMeta>, added: seq<FileMeta>, deleted: set<nat>)
    ensures MergeRest(base, added, deleted, 0, 0) == Merge(base, added, deleted)
    ensures MergeRest(base, added, deleted, |base|, |added|) == []
  {
    assert base[0..] == base && added[0..] == added;
  }

  lemma MergeTakesBase(files: seq<FileMeta>, base: seq<FileMeta>, added: seq<FileMeta>, deleted: set<nat>,
                       b: nat, a: nat)
    requires b < |base| && a <= |added| && (a < |added| ==> !FileLess(added[a], base[b]))
    ensures files + MergeRest(base, added, deleted, b, a)
         == files + Unless(deleted, base[b]) + MergeRest(base, added, deleted, b + 1, a)
  {
    assert base[b..][1..] == base[b + 1..];
  }

  lemma MergeTakesAdded(files: seq<FileMeta>, base: seq<FileMeta>, added: seq<FileMeta>, deleted: set<nat>,
                        b: nat, a: nat)
    requires b <= |base| && a < |added| && (b < |base| ==> FileLess(added[a], base[b]))
    ensures files + MergeRest(base, added, deleted, b, a)
         == files + Unless(deleted, added[a]) + MergeRest(base, added, deleted, b, a + 1)
  {
    assert added[a..][1..] == added[a + 1..];
  }

  lemma AddedAtStep(files: seq<(nat, FileMeta)>, i: nat)
    requires i < |files|
    ensures forall l :: AddedAt(files[..i + 1], l)
                     == AddedAt(files[..i], l) + if files[i].0 == l then [files[i].1] else []
    ensures forall l, st :: AddFiles(st, AddedAt(files[..i + 1], l))
                         == if files[i].0 == l
                            then var s := AddFiles(st, AddedAt(files[..i], l));
                                 LevelState(s.deleted - {files[i].1.number}, InsertFile(s.added, files[i].1))
                            else AddFiles(st, AddedAt(files[..i], l))
  {
    assert files[..i + 1][..i] == files[..i];
    forall l, st
      ensures AddFiles(st, AddedAt(files[..i + 1], l))
           == if files[i].0 == l
              then var s := AddFiles(st, AddedAt(files[..i], l));
                   LevelState(s.deleted - {files[i].1.number}, InsertFile(s.added, files[i].1))
              else AddFiles(st, AddedAt(files[..i], l))
    {
      var all := AddedAt(files[..i + 1], l);
      if files[i].0 == l {
        assert all == AddedAt(files[..i], l) + [files[i].1];
        assert all[..|all| - 1] == AddedAt(files[..i], l);
      } else {
        assert all == AddedAt(files[..i], l);
      }
    }
  }

  // ----- The manifest

  datatype Counter = LOG | PREV_LOG | NEXT_FILE | LAST_SEQUENCE

  function CounterOf(e: VersionEdit, c: Counter): Option<nat> {
    match c
    case LOG => e.logNumber
    case PREV_LOG => e.prevLogNumber
    case NEXT_FILE => e.nextFileNumber
    case LAST_SEQUENCE => e.lastSequence
  }

  // The value the last record that mentions the counter gives it.
  function Latest(records: seq<VersionEdit>, c: Counter): Option<nat> {
    if records == [] then None
    else
      var last := CounterOf(records[|records| - 1], c);
      if last.Some? then last else Latest(records[..|records| - 1], c)
  }

  ghost predicate NeverTwice(records: seq<VersionEdit>, level: nat) {
    DistinctNumbers(AllAdded(EditsAt(records, level)))
  }

  predicate ComparatorFits(e: VersionEdit, name: string) {
    e.comparator.Some? ==> e.comparator.value == name
  }

  ghost predicate NumbersBelow(files: seq<FileMeta>, bound: nat) {
    forall f :: f in files ==> f.number < bound
  }

  // The records of a manifest that LogAndApply has written.
  ghost predicate WellFormed(records: seq<VersionEdit>, name: string) {
    && (forall e :: e in records ==> LevelsInRange(e) && ComparatorFits(e, name))
    && Latest(records, LOG).Some? && Latest(records, NEXT_FILE).Some? && Latest(records, LAST_SEQUENCE).Some?
    && Latest(records, LOG).value < Latest(records, NEXT_FILE).value
    && forall l :: 0 <= l < NUM_LEVELS ==>
         NeverTwice(records, l) && NumbersBelow(AllAdded(EditsAt(records, l)), Latest(records, NEXT_FILE).value)
  }

  lemma LatestSnoc(records: seq<VersionEdit>, e: VersionEdit)
    ensures forall c :: Latest(records + [e], c) == if CounterOf(e, c).Some? then CounterOf(e, c) else Latest(records, c)
  {
    assert (records + [e])[..|records|] == records;
  }

  lemma ApplyAllSnoc(st: LevelState, es: seq<LevelEdit>, e: LevelEdit)
    ensures ApplyAll(st, es + [e]) == ApplyLevel(ApplyAll(st, es), e)
    ensures AllAdded(es + [e]) == AllAdded(es) + e.added
    ensures forall base :: SaveEach(base, es + [e]) == SaveLevel(SaveEach(base, es), ApplyLevel(NO_CHANGE, e))
  {
    assert (es + [e])[..|es|] == es;
  }

  // What a well-formed manifest says about one level.
  lemma ManifestLevel(records: seq<VersionEdit>, level: nat)
    requires NeverTwice(records, level)
    ensures var es := EditsAt(records, level);
            && SaveLevel([], ApplyAll(NO_CHANGE, es)) == SaveEach([], es)
            && SortedFiles(SaveEach([], es)) && DistinctNumbers(SaveEach([], es))
            && forall f :: f in SaveEach([], es) ==> f in AllAdded(es)
  {
    var es := EditsAt(records, level);
    assert [] + AllAdded(es) == AllAdded(es);
    OnceIsEach([], es);
    DistinctMembers(SaveEach([], es), AllAdded(es));
  }

  lemma DistinctMembers(files: seq<FileMeta>, all: seq<FileMeta>)
    requires SortedFiles(files) && DistinctNumbers(all) && forall f :: f in files ==> f in all
    ensures DistinctNumbers(files)
  {
    forall i, j | 0 <= i < j < |files|
      ensures files[i].number != files[j].number
    {
      assert FileLess(files[i], files[j]) && files[i] in all && files[j] in all;
    }
  }

  // A snapshot record on its own gives back the level it describes.
  lemma SnapshotRestores(files: seq<FileMeta>, snapshot: LevelEdit)
    requires SortedFiles(files) && DistinctNumbers(files) && snapshot == LevelEdit({}, files)
    ensures SaveEach([], [snapshot]) == files
  {
    assert [] + files == files;
    SavedLevel([], snapshot);
    assert [snapshot][..0] == [];
    assert SaveEach([], [snapshot]) == SaveLevel([], ApplyLevel(NO_CHANGE, snapshot));
    SortedUnique(SaveEach([], [snapshot]), files);
  }

  // Replaying the records gives exactly this version and these log numbers, and no file number at or above `next` has
  // been used.
  ghost predicate Describes(records: seq<VersionEdit>, name: string, v: Version, log: nat, prev: nat, next: nat) {
    && WellFormed(records, name)
    && Latest(records, LOG) == Some(log) && Latest(records, NEXT_FILE).value <= next
    && (Latest(records, PREV_LOG) == Some(prev) || (Latest(records, PREV_LOG) == None && prev == 0))
    && forall l :: 0 <= l < NUM_LEVELS ==> v[l] == SaveEach([], EditsAt(records, l))
  }

  // The edit can be applied: its files are new to their levels and numbered below `next`.
  ghost predicate Suits(edit: VersionEdit, records: seq<VersionEdit>, name: string, next: nat) {
    && LevelsInRange(edit) && ComparatorFits(edit, name)
    && forall l :: 0 <= l < NUM_LEVELS ==>
         && DistinctNumbers(AllAdded(EditsAt(records, l)) + AddedAt(edit.newFiles, l))
         && NumbersBelow(AddedAt(edit.newFiles, l), next)
  }

  ghost predicate IsSnapshot(snapshot: VersionEdit, name: string, v: Version) {
    && snapshot.comparator == Some(name) && snapshot.deletedFiles == {} && LevelsInRange(snapshot)
    && (forall c :: CounterOf(snapshot, c) == None)
    && forall l :: 0 <= l < NUM_LEVELS ==> AddedAt(snapshot.newFiles, l) == v[l]
  }

  // Filling in counters leaves an edit as applicable as it was.
  lemma StillSuits(change: VersionEdit, edit: VersionEdit, records: seq<VersionEdit>, name: string, v: Version,
                   log: nat, prev: nat, next: nat)
    requires Describes(records, name, v, log, prev, next) && Suits(change, records, name, next)
    requires edit.comparator == change.comparator && edit.compactPointers == change.compactPointers
    requires edit.deletedFiles == change.deletedFiles && edit.newFiles == change.newFiles
    ensures Suits(edit, records, name, next) && log < next && PointersFit(edit.compactPointers)
    ensures forall l :: 0 <= l < NUM_LEVELS ==> SortedFiles(v[l]) && EditAt(edit, l) == EditAt(change, l)
  {
    forall l | 0 <= l < NUM_LEVELS
      ensures SortedFiles(v[l])
    {
      ManifestLevel(records, l);
    }
  }

  // What the version becomes, level by level.
  ghost predicate Steps(v: Version, v': Version, edit: VersionEdit) {
    forall l :: 0 <= l < NUM_LEVELS ==> v'[l] == SaveLevel(v[l], ApplyLevel(NO_CHANGE, EditAt(edit, l)))
  }

  lemma DistinctPart(all: seq<FileMeta>, part: seq<FileMeta>, more: seq<FileMeta>)
    requires DistinctNumbers(all + more) && DistinctNumbers(part) && forall f :: f in part ==> f in all
    ensures DistinctNumbers(all) && DistinctNumbers(part + more)
  {
    DistinctSplit(all, more);
    forall i, j | 0 <= i < |part| && 0 <= j < |more|
      ensures part[i].number != more[j].number
    {
      assert part[i] in all && more[j] in more;
    }
  }

  // One level after an edit, replayed from the records so far or from a snapshot of the version.
  lemma LevelAfterEdit(records: seq<VersionEdit>, edit: VersionEdit, snapshot: VersionEdit, files: seq<FileMeta>,
                       files': seq<FileMeta>, l: nat)
    requires NeverTwice(records, l) && files == SaveEach([], EditsAt(records, l))
    requires DistinctNumbers(AllAdded(EditsAt(records, l)) + AddedAt(edit.newFiles, l))
    requires snapshot.deletedFiles == {} && AddedAt(snapshot.newFiles, l) == files
    requires files' == SaveLevel(files, ApplyLevel(NO_CHANGE, EditAt(edit, l)))
    ensures files' == SaveEach([], EditsAt(records + [edit], l)) && NeverTwice(records + [edit], l)
    ensures files' == SaveEach([], EditsAt([snapshot, edit], l)) && NeverTwice([snapshot, edit], l)
    ensures AllAdded(EditsAt(records + [edit], l)) == AllAdded(EditsAt(records, l)) + AddedAt(edit.newFiles, l)
    ensures AllAdded(EditsAt([snapshot, edit], l)) == files + AddedAt(edit.newFiles, l)
    ensures forall f :: f in files ==> f in AllAdded(EditsAt(records, l))
    ensures SortedFiles(files')
    ensures forall f :: f in files' <==>
              (f in files && f.number !in DeletedAt(edit.deletedFiles, l)) || f in AddedAt(edit.newFiles, l)
  {
    var e, s := EditAt(edit, l), EditAt(snapshot, l);
    assert s == LevelEdit({}, files) by {
      assert DeletedAt({}, l) == {};
    }
    ManifestLevel(records, l);
    hide SaveEach, SaveLevel, AllAdded, ApplyLevel, AddedAt, EditsAt, DistinctNumbers, SortedFiles, DeletedAt;
    EditsAtSnoc(records, edit, l);
    ApplyAllSnoc(NO_CHANGE, EditsAt(records, l), e);
    DistinctPart(AllAdded(EditsAt(records, l)), files, e.added);
    SavedLevel(files, e);
    SnapshotRestores(files, s);
    SnapshotEdits(snapshot, edit, l);
    ApplyAllSnoc(NO_CHANGE, [s], e);
  }

  lemma SnapshotEdits(snapshot: VersionEdit, edit: VersionEdit, l: nat)
    ensures EditsAt([snapshot, edit], l) == [EditAt(snapshot, l)] + [EditAt(edit, l)]
    ensures AllAdded([EditAt(snapshot, l)]) == EditAt(snapshot, l).added
  {
    assert [snapshot, edit] == [snapshot] + [edit] && [snapshot] == [] + [snapshot];
    EditsAtSnoc([snapshot], edit, l);
    EditsAtSnoc([], snapshot, l);
    assert [EditAt(snapshot, l)][..0] == [];
  }

  lemma Installed(records: seq<VersionEdit>, edit: VersionEdit, snapshot: VersionEdit, appending: bool, name: string,
                  v: Version, v': Version, log: nat, prev: nat, next: nat)
    requires Describes(records, name, v, log, prev, next) && Suits(edit, records, name, next)
    requires IsSnapshot(snapshot, name, v) && Steps(v, v', edit)
    requires edit.logNumber.Some? && edit.prevLogNumber.Some? && edit.lastSequence.Some?
    requires edit.nextFileNumber == Some(next) && edit.logNumber.value < next
    ensures var records' := if appending then records + [edit] else [snapshot, edit];
            && Describes(records', name, v', edit.logNumber.value, edit.prevLogNumber.value, next)
            && Latest(records', LAST_SEQUENCE) == edit.lastSequence && Latest(records', NEXT_FILE) == Some(next)
  {
    var records' := if appending then records + [edit] else [snapshot, edit];
    LatestSnoc(records, edit);
    LatestSnoc([snapshot], edit);
    assert [snapshot] + [edit] == [snapshot, edit];
    assert Latest(records', LOG) == edit.logNumber && Latest(records', NEXT_FILE) == Some(next);
    assert Latest(records', LAST_SEQUENCE) == edit.lastSequence && Latest(records', PREV_LOG) == edit.prevLogNumber;
    InstalledLevels(records, edit, snapshot, name, v, v', log, prev, next);
    hide NeverTwice, AllAdded, EditsAt, EditAt, AddedAt, SaveEach, SaveLevel, DistinctNumbers, Latest, LevelsInRange;
    assert forall e :: e in records' ==> e in records || e == snapshot || e == edit;
  }

  lemma InstalledLevels(records: seq<VersionEdit>, edit: VersionEdit, snapshot: VersionEdit, name: string,
                        v: Version, v': Version, log: nat, prev: nat, next: nat)
    requires Describes(records, name, v, log, prev, next) && Suits(edit, records, name, next)
    requires IsSnapshot(snapshot, name, v) && Steps(v, v', edit)
    ensures forall l :: 0 <= l < NUM_LEVELS ==>
              NeverTwice(records + [edit], l) && NumbersBelow(AllAdded(EditsAt(records + [edit], l)), next)
              && v'[l] == SaveEach([], EditsAt(records + [edit], l))
    ensures forall l :: 0 <= l < NUM_LEVELS ==>
              NeverTwice([snapshot, edit], l) && NumbersBelow(AllAdded(EditsAt([snapshot, edit], l)), next)
              && v'[l] == SaveEach([], EditsAt([snapshot, edit], l))
  {
    hide NeverTwice, AllAdded, EditsAt, EditAt, AddedAt, SaveEach, SaveLevel, DistinctNumbers, Latest, LevelsInRange;
    forall l | 0 <= l < NUM_LEVELS
      ensures NeverTwice(records + [edit], l) && NumbersBelow(AllAdded(EditsAt(records + [edit], l)), next)
      ensures NeverTwice([snapshot, edit], l) && NumbersBelow(AllAdded(EditsAt([snapshot, edit], l)), next)
      ensures v'[l] == SaveEach([], EditsAt(records + [edit], l)) == SaveEach([], EditsAt([snapshot, edit], l))
    {
      LevelAfterEdit(records, edit, snapshot, v[l], v'[l], l);
    }
  }

  /** The version an edit leads to: on every level the files that were there, less the deleted ones, and the added ones,
      in order. */
  lemma VersionAfterEdit(records: seq<VersionEdit>, edit: VersionEdit, name: string, v: Version, v': Version,
                         log: nat, prev: nat, next: nat, l: nat)
    requires Describes(records, name, v, log, prev, next) && Suits(edit, records, name, next) && Steps(v, v', edit)
    requires l < NUM_LEVELS
    ensures SortedFiles(v'[l])
    ensures forall f :: f in v'[l] <==>
              (f in v[l] && f.number !in DeletedAt(edit.deletedFiles, l)) || f in AddedAt(edit.newFiles, l)
  {
    ManifestLevel(records, l);
    DistinctPart(AllAdded(EditsAt(records, l)), v[l], AddedAt(edit.newFiles, l));
    SavedLevel(v[l], EditAt(edit, l));
  }

  // What the loop of Recover has gathered from the first records.
  ghost predicate Replayed(levels: seq<LevelState>, es: seq<VersionEdit>) {
    |levels| == NUM_LEVELS && forall l :: 0 <= l < NUM_LEVELS ==> levels[l] == ApplyAll(NO_CHANGE, EditsAt(es, l))
  }

  lemma ReplayedSnoc(levels: seq<LevelState>, levels': seq<LevelState>, es: seq<VersionEdit>, e: VersionEdit)
    requires Replayed(levels, es) && |levels'| == NUM_LEVELS
    requires forall l :: 0 <= l < NUM_LEVELS ==> levels'[l] == ApplyLevel(levels[l], EditAt(e, l))
    ensures Replayed(levels', es + [e])
  {
    forall l | 0 <= l < NUM_LEVELS
      ensures levels'[l] == ApplyAll(NO_CHANGE, EditsAt(es + [e], l))
    {
      EditsAtSnoc(es, e, l);
      ApplyAllSnoc(NO_CHANGE, EditsAt(es, l), EditAt(e, l));
    }
  }

  ghost predicate Counted(es: seq<VersionEdit>, nextFile: Option<nat>, last: Option<nat>, log: Option<nat>,
                          prev: Option<nat>) {
    && nextFile == Latest(es, NEXT_FILE) && last == Latest(es, LAST_SEQUENCE)
    && log == Latest(es, LOG) && prev == Latest(es, PREV_LOG)
  }

  lemma CountedSnoc(es: seq<VersionEdit>, e: VersionEdit, nextFile: Option<nat>, last: Option<nat>, log: Option<nat>,
                    prev: Option<nat>)
    requires Counted(es, nextFile, last, log, prev)
    ensures Counted(es + [e],
                    if e.nextFileNumber.Some? then e.nextFileNumber else nextFile,
                    if e.lastSequence.Some? then e.lastSequence else last,
                    if e.logNumber.Some? then e.logNumber else log,
                    if e.prevLogNumber.Some? then e.prevLogNumber else prev)
  {
    LatestSnoc(es, e);
  }

  lemma CountedLatest(es: seq<VersionEdit>, nextFile: Option<nat>, last: Option<nat>, log: Option<nat>,
                      prev: Option<nat>)
    requires Counted(es, nextFile, last, log, prev)
    ensures nextFile == Latest(es, NEXT_FILE) && last == Latest(es, LAST_SEQUENCE)
    ensures log == Latest(es, LOG) && prev == Latest(es, PREV_LOG)
  {
  }

  /** One builder fed all records of a well-formed manifest reaches the version that installing them one by one did. */
  lemma ReplayIsHistory(records: seq<VersionEdit>, name: string, levels: seq<LevelState>, v: Version)
    requires WellFormed(records, name) && Replayed(levels, records)
    requires forall l :: 0 <= l < NUM_LEVELS ==> v[l] == SaveLevel([], levels[l])
    ensures forall l :: 0 <= l < NUM_LEVELS ==> v[l] == SaveEach([], EditsAt(records, l))
  {
    forall l | 0 <= l < NUM_LEVELS
      ensures v[l] == SaveEach([], EditsAt(records, l))
    {
      ManifestLevel(records, l);
    }
  }

  /** Recovery reaches the version that installing the records one by one reached if and only if, at every level, no
      file was added by two records without being deleted for good in between. */
  lemma ReplayIsHistoryExactlyWhen(records: seq<VersionEdit>, levels: seq<LevelState>, v: Version)
    requires Replayed(levels, records)
    requires forall l :: 0 <= l < NUM_LEVELS ==> Named(AllAdded(EditsAt(records, l)))
    requires forall l :: 0 <= l < NUM_LEVELS ==> v[l] == SaveLevel([], levels[l])
    ensures (forall l :: 0 <= l < NUM_LEVELS ==> v[l] == SaveEach([], EditsAt(records, l)))
            <==> forall l :: 0 <= l < NUM_LEVELS ==> AddedOnce(EditsAt(records, l))
  {
    hide SaveLevel, SaveEach, EditsAt, AddedOnce, Named, AllAdded, ApplyAll;
    forall l | 0 <= l < NUM_LEVELS
      ensures v[l] == SaveEach([], EditsAt(records, l)) <==> AddedOnce(EditsAt(records, l))
    {
      OnceIsEachExactlyWhen(EditsAt(records, l));
    }
  }

  lemma RecoveredIsDescribed(records: seq<VersionEdit>, name: string, levels: seq<LevelState>, v: Version, log: nat,
                             prev: nat, next: nat)
    requires WellFormed(records, name) && Replayed(levels, records)
    requires forall l :: 0 <= l < NUM_LEVELS ==> v[l] == SaveLevel([], levels[l])
    requires Latest(records, LOG) == Some(log) && Latest(records, NEXT_FILE).value <= next
    requires prev == if Latest(records, PREV_LOG).Some? then Latest(records, PREV_LOG).value else 0
    ensures Describes(records, name, v, log, prev, next)
  {
    ReplayIsHistory(records, name, levels, v);
  }

  // What recovery reads from a manifest.
  ghost predicate Restores(manifest: seq<VersionEdit>, v: Version, log: nat, prev: nat, next: nat, last: nat,
                           pointers: map<nat, InternalKey>) {
    && (forall l :: 0 <= l < NUM_LEVELS ==> v[l] == SaveLevel([], ApplyAll(NO_CHANGE, EditsAt(manifest, l))))
    && Latest(manifest, LOG) == Some(log) && prev == OrZero(Latest(manifest, PREV_LOG))
    && Latest(manifest, LAST_SEQUENCE) == Some(last)
    && Latest(manifest, NEXT_FILE).Some? && next == Latest(manifest, NEXT_FILE).value + 1
    && Pointed(map[], pointers, PointersOf(manifest))
  }

  /** Recovering the manifest that a successful LogAndApply leaves gives back the version, the log numbers and the last
      sequence number, and goes on with file numbers above every one in use. */
  lemma ManifestRoundTrip(records: seq<VersionEdit>, name: string, v: Version, log: nat, prev: nat, next: nat,
                          last: nat, v': Version, log': nat, prev': nat, next': nat, last': nat,
                          pointers': map<nat, InternalKey>)
    requires Describes(records, name, v, log, prev, next)
    requires Latest(records, NEXT_FILE) == Some(next) && Latest(records, LAST_SEQUENCE) == Some(last)
    requires Restores(records, v', log', prev', next', last', pointers')
    ensures v' == v && log' == log && prev' == prev && last' == last
    ensures next' == next + 1 && log' < next'
    ensures forall e, i :: e in records && 0 <= i < |e.newFiles| ==> e.newFiles[i].1.number < next'
  {
    forall l | 0 <= l < NUM_LEVELS
      ensures v'[l] == v[l]
    {
      ManifestLevel(records, l);
    }
    assert v' == v;
    forall e, i | e in records && 0 <= i < |e.newFiles|
      ensures e.newFiles[i].1.number < next'
    {
      FileIsRecorded(records, e, i);
    }
  }

  // Every file a record adds is among the files added at its level.
  lemma {:induction false} FileIsRecorded(records: seq<VersionEdit>, e: VersionEdit, i: nat)
    requires e in records && i < |e.newFiles|
    ensures e.newFiles[i].1 in AllAdded(EditsAt(records, e.newFiles[i].0))
  {
    var n, level := |records| - 1, e.newFiles[i].0;
    assert records[..n] + [records[n]] == records;
    EditsAtSnoc(records[..n], records[n], level);
    ApplyAllSnoc(NO_CHANGE, EditsAt(records[..n], level), EditAt(records[n], level));
    if e == records[n] {
      AddedAtHas(e.newFiles, i);
    } else {
      FileIsRecorded(records[..n], e, i);
    }
  }

  lemma {:induction false} AddedAtHas(files: seq<(nat, FileMeta)>, i: nat)
    requires i < |files|
    ensures files[i].1 in AddedAt(files, files[i].0)
  {
    if i < |files| - 1 {
      AddedAtHas(files[..|files| - 1], i);
    }
  }

  /** A manifest restores the compaction pointers that moving them record by record led to, whether it was appended to
      or started from a snapshot taken once the edit's own pointers had moved. */
  lemma PointersRoundTrip(records: seq<VersionEdit>, edit: VersionEdit, snapshot: VersionEdit,
                          before: map<nat, InternalKey>, after: map<nat, InternalKey>)
    requires Pointed(before, after, edit.compactPointers)
    ensures Pointed(map[], before, PointersOf(records)) ==> Pointed(map[], after, PointersOf(records + [edit]))
    ensures Pointed(map[], after, snapshot.compactPointers) ==> Pointed(map[], after, PointersOf([snapshot, edit]))
  {
    hide Pointed;
    PointersSnoc(records, edit);
    PointersSnoc([], snapshot);
    PointersSnoc([snapshot], edit);
    assert [snapshot] + [edit] == [snapshot, edit];
    if Pointed(map[], before, PointersOf(records)) {
      PointedConcat(map[], before, after, PointersOf(records), edit.compactPointers);
    }
    if Pointed(map[], after, snapshot.compactPointers) {
      PointedAgain(before, after, edit.compactPointers);
      PointedConcat(map[], after, after, snapshot.compactPointers, edit.compactPointers);
    }
  }

  // The files list the levels below `level` and the first i files of that level.
  ghost predicate Listed(files: seq<(nat, FileMeta)>, v: Version, level: nat, i: nat) {
    && level <= NUM_LEVELS && (level < NUM_LEVELS ==> i <= |v[level]|)
    && forall l :: 0 <= l < NUM_LEVELS ==>
         AddedAt(files, l) == if l < level then v[l] else if l == level then v[l][..i] else []
  }

  lemma NothingListed(v: Version)
    ensures Listed([], v, 0, 0)
  {
  }

  lemma ListedStep(files: seq<(nat, FileMeta)>, v: Version, level: nat, i: nat)
    requires level < NUM_LEVELS && i < |v[level]| && Listed(files, v, level, i)
    ensures Listed(files + [(level, v[level][i])], v, level, i + 1)
  {
    assert (files + [(level, v[level][i])])[..|files|] == files;
  }

  lemma ListedLevel(files: seq<(nat, FileMeta)>, v: Version, level: nat)
    requires level < NUM_LEVELS && Listed(files, v, level, |v[level]|)
    ensures Listed(files, v, level + 1, 0)
  {
  }

  lemma ListedAll(files: seq<(nat, FileMeta)>, v: Version)
    requires Listed(files, v, NUM_LEVELS, 0)
    ensures forall l :: 0 <= l < NUM_LEVELS ==> AddedAt(files, l) == v[l]
  {
  }

  datatype Status = Ok | Corruption(what: string) | InvalidArgument(what: string)

  /** The running version and the manifest it can be recovered from. */
  class VersionSet {
    const name: string
    var current: Version
    var logNumber: nat
    var prevLogNumber: nat
    var nextFileNumber: nat
    var lastSequence: nat
    var compactPointer: map<nat, InternalKey>
    // Whether records are being appended to the manifest that CURRENT names, and the records it holds.
    var descriptorOpen: bool
    var records: seq<VersionEdit>

    // The manifest describes the running state.
    ghost predicate Valid()
      reads this
    {
      && Describes(records, name, current, logNumber, prevLogNumber, nextFileNumber)
      && Latest(records, LAST_SEQUENCE).value <= lastSequence
      && forall level :: level in compactPointer ==> level < NUM_LEVELS
    }

    constructor (name: string)
      ensures this.name == name && current == EMPTY_VERSION && compactPointer == map[]
    {
      this.name, current, compactPointer, records := name, EMPTY_VERSION, map[], [];
      logNumber, prevLogNumber, nextFileNumber, lastSequence, descriptorOpen := 0, 0, 2, 0, false;
    }

    method NewFileNumber() returns (number: nat)
      requires Valid()
      modifies `nextFileNumber
      ensures Valid() && nextFileNumber == number + 1
      ensures forall l, f :: 0 <= l < NUM_LEVELS && f in AllAdded(EditsAt(records, l)) ==> f.number < number
    {
      number := nextFileNumber;
      nextFileNumber := nextFileNumber + 1;
    }

    method SetLastSequence(s: nat)
      requires Valid() && s >= lastSequence
      modifies `lastSequence
      ensures Valid() && lastSequence == s
    {
      lastSequence := s;
    }

    ghost predicate Applicable(edit: VersionEdit)
      reads this
    {
      && Suits(edit, records, name, nextFileNumber)
      && (edit.logNumber.Some? ==> logNumber <= edit.logNumber.value < nextFileNumber)
    }

    method ListPointers() returns (pointers: seq<(nat, InternalKey)>)
      requires forall level :: level in compactPointer ==> level < NUM_LEVELS
      ensures Pointed(map[], compactPointer, pointers)
      ensures forall i :: 0 <= i < |pointers| ==> pointers[i].0 < NUM_LEVELS
    {
      pointers := [];
      for level: nat := 0 to NUM_LEVELS
        invariant forall i :: 0 <= i < |pointers| ==>
                    pointers[i].0 < level && pointers[i].0 in compactPointer && pointers[i].1 == compactPointer[pointers[i].0]
        invariant forall l :: l in compactPointer && l < level ==> Names(pointers, l)
      {
        ghost var sofar := pointers;
        if level in compactPointer {
          pointers := pointers + [(level, compactPointer[level])];
          assert pointers[|sofar|].0 == level;
        }
        assert forall i :: 0 <= i < |sofar| ==> pointers[i] == sofar[i];
      }
    }

    /** The record that describes the whole current version. */
    method WriteSnapshot() returns (snapshot: VersionEdit)
      requires forall level :: level in compactPointer ==> level < NUM_LEVELS
      ensures IsSnapshot(snapshot, name, current)
      ensures Pointed(map[], compactPointer, snapshot.compactPointers)
    {
      hide Listed, AddedAt, SortedFiles, DistinctNumbers, Describes, Pointed;
      var pointers := ListPointers();
      var files: seq<(nat, FileMeta)> := [];
      NothingListed(current);
      for level: nat := 0 to NUM_LEVELS
        invariant forall i :: 0 <= i < |files| ==> files[i].0 < NUM_LEVELS
        invariant Listed(files, current, level, 0)
      {
        for i: nat := 0 to |current[level]|
          invariant forall i :: 0 <= i < |files| ==> files[i].0 < NUM_LEVELS
          invariant Listed(files, current, level, i)
        {
          ListedStep(files, current, level, i);
          files := files + [(level, current[level][i])];
        }
        ListedLevel(files, current, level);
      }
      ListedAll(files, current);
      return VersionEdit(Some(name), None, None, None, None, pointers, {}, files);
    }

    /** Makes one edit durable and installs the version it leads to.  `io` says whether the manifest could be written. */
    method LogAndApply(change: VersionEdit, io: bool) returns (ok: bool)
      requires Valid() && Applicable(change)
      modifies this
      ensures Valid() && ok == io
      ensures ok ==> Steps(old(current), current, change)
      ensures ok ==> logNumber == (if change.logNumber.Some? then change.logNumber.value else old(logNumber))
      ensures ok ==> prevLogNumber == (if change.prevLogNumber.Some? then change.prevLogNumber.value
                                       else old(prevLogNumber))
      ensures ok ==> Latest(records, LAST_SEQUENCE) == Some(lastSequence) && Latest(records, NEXT_FILE) == Some(nextFileNumber)
      ensures ok && (old(descriptorOpen) ==> Pointed(map[], old(compactPointer), PointersOf(old(records)))) ==>
                Pointed(map[], compactPointer, PointersOf(records))
      ensures !ok ==> current == old(current) && logNumber == old(logNumber) && prevLogNumber == old(prevLogNumber)
                      && records == old(records)
      ensures nextFileNumber == old(nextFileNumber) && lastSequence == old(lastSequence)
      ensures Pointed(old(compactPointer), compactPointer, change.compactPointers)
    {
      hide Describes, Suits, IsSnapshot, EditAt, SaveLevel, ApplyLevel, SortedFiles, Pointed, PointersOf, Latest;
      var edit := change;
      if edit.logNumber.None? {
        edit := edit.(logNumber := Some(logNumber));
      }
      if edit.prevLogNumber.None? {
        edit := edit.(prevLogNumber := Some(prevLogNumber));
      }
      edit := edit.(nextFileNumber := Some(nextFileNumber), lastSequence := Some(lastSequence));
      StillSuits(change, edit, records, name, current, logNumber, prevLogNumber, nextFileNumber);
      var builder := new Builder(this, current);
      builder.Apply(edit);
      PointersInRange(old(compactPointer), compactPointer, change.compactPointers);
      var v := builder.SaveTo();
      var snapshot := WriteSnapshot();
      if !io {
        return false;
      }
      PointersRoundTrip(records, edit, snapshot, old(compactPointer), compactPointer);
      assert Steps(current, v, edit);
      Installed(records, edit, snapshot, descriptorOpen, name, current, v, logNumber, prevLogNumber, nextFileNumber);
      records := if descriptorOpen then records + [edit] else [snapshot, edit];
      descriptorOpen := true;
      current := v;
      logNumber, prevLogNumber := edit.logNumber.value, edit.prevLogNumber.value;
      return true;
    }

    /** Rebuilds the state from the records of a manifest. `reuse` says whether it goes on being appended to. */
    method Recover(manifest: seq<VersionEdit>, reuse: bool) returns (status: Status)
      requires current == EMPTY_VERSION && compactPointer == map[]
      requires forall e :: e in manifest ==> LevelsInRange(e)
      modifies this
      ensures status.Ok? <==> && (forall e :: e in manifest ==> ComparatorFits(e, name))
                              && Latest(manifest, NEXT_FILE).Some? && Latest(manifest, LOG).Some?
                              && Latest(manifest, LAST_SEQUENCE).Some?
      ensures status.InvalidArgument? <==> exists e :: e in manifest && !ComparatorFits(e, name)
      ensures !status.Ok? ==> current == EMPTY_VERSION
      ensures status.Ok? ==> Restores(manifest, current, logNumber, prevLogNumber, nextFileNumber, lastSequence,
                                      compactPointer)
      ensures status.Ok? && (forall l :: 0 <= l < NUM_LEVELS ==> Named(AllAdded(EditsAt(manifest, l)))) ==>
                ((forall l :: 0 <= l < NUM_LEVELS ==> current[l] == SaveEach([], EditsAt(manifest, l)))
                 <==> forall l :: 0 <= l < NUM_LEVELS ==> AddedOnce(EditsAt(manifest, l)))
      ensures status.Ok? && WellFormed(manifest, name) ==> Valid() && records == manifest
    {
      hide Describes, Replayed, Counted, Latest, WellFormed, SaveLevel, ApplyLevel, EditsAt, EditAt, LevelsInRange,
           ComparatorFits, Named, AllAdded, AddedOnce, SaveEach, ApplyAll, Pointed, PointersOf;
      NothingReplayed();
      var builder := new Builder(this, current);
      var nextFile: Option<nat>, last: Option<nat>, log: Option<nat>, prev: Option<nat>;
      status, nextFile, last, log, prev := ReadRecords(manifest, builder);
      if !status.Ok? {
        return;
      }
      CountedLatest(manifest, nextFile, last, log, prev);
      if nextFile.None? {
        return Corruption("no meta-nextfile entry in descriptor");
      } else if log.None? {
        return Corruption("no meta-lognumber entry in descriptor");
      } else if last.None? {
        return Corruption("no last-sequence-number entry in descriptor");
      }
      if prev.None? {
        prev := Some(0);
      }
      current := builder.SaveTo();
      nextFileNumber, lastSequence := nextFile.value + 1, last.value;
      logNumber, prevLogNumber := log.value, prev.value;
      records, descriptorOpen := manifest, reuse;
      RecoveredVersion(manifest, builder.levels, current);
      PointersOfFit(manifest);
      PointersInRange(map[], compactPointer, PointersOf(manifest));
      if WellFormed(manifest, name) {
        RecoveredIsDescribed(manifest, name, builder.levels, current, logNumber, prevLogNumber, nextFileNumber);
      }
    }

    // Feeds every record to the builder and keeps the last of each counter.
    method ReadRecords(manifest: seq<VersionEdit>, builder: Builder)
      returns (status: Status, nextFile: Option<nat>, last: Option<nat>, log: Option<nat>, prev: Option<nat>)
      requires Replayed(builder.levels, []) && |builder.levels| == NUM_LEVELS
      requires forall e :: e in manifest ==> LevelsInRange(e)
      requires builder.vset == this
      modifies this`compactPointer, builder
      ensures |builder.levels| == NUM_LEVELS
      ensures status.Ok? <==> forall e :: e in manifest ==> ComparatorFits(e, name)
      ensures status.Ok? || status.InvalidArgument?
      ensures status.Ok? ==> Replayed(builder.levels, manifest) && Counted(manifest, nextFile, last, log, prev)
      ensures status.Ok? ==> Pointed(old(compactPointer), compactPointer, PointersOf(manifest))
    {
      hide Replayed, Counted, LevelsInRange, ComparatorFits, Pointed, PointersOf;
      NothingPointed(compactPointer);
      NothingReplayed();
      nextFile, last, log, prev := None, None, None, None;
      status := Ok;
      for i: nat := 0 to |manifest|
        invariant status.Ok? && |builder.levels| == NUM_LEVELS
        invariant forall e :: e in manifest[..i] ==> ComparatorFits(e, name)
        invariant Replayed(builder.levels, manifest[..i])
        invariant Counted(manifest[..i], nextFile, last, log, prev)
        invariant Pointed(old(compactPointer), compactPointer, PointersOf(manifest[..i]))
      {
        var edit := manifest[i];
        assert edit in manifest;
        if !ComparatorFits(edit, name) {
          status := InvalidArgument("comparator does not match");
          return;
        }
        assert manifest[..i + 1] == manifest[..i] + [edit];
        CountedSnoc(manifest[..i], edit, nextFile, last, log, prev);
        ghost var before, pointers := builder.levels, compactPointer;
        builder.Apply(edit);
        PointersSnoc(manifest[..i], edit);
        PointedConcat(old(compactPointer), pointers, compactPointer, PointersOf(manifest[..i]), edit.compactPointers);
        ReplayedSnoc(before, builder.levels, manifest[..i], edit);
        nextFile := if edit.nextFileNumber.Some? then edit.nextFileNumber else nextFile;
        last := if edit.lastSequence.Some? then edit.lastSequence else last;
        log := if edit.logNumber.Some? then edit.logNumber else log;
        prev := if edit.prevLogNumber.Some? then edit.prevLogNumber else prev;
      }
      assert manifest[..|manifest|] == manifest;
    }
  }

  function OrZero(n: Option<nat>): nat {
    if n.Some? then n.value else 0
  }

  // What replay leads to, and when that is what the history led to.
  lemma RecoveredVersion(manifest: seq<VersionEdit>, levels: seq<LevelState>, v: Version)
    requires Replayed(levels, manifest)
    requires forall l :: 0 <= l < NUM_LEVELS ==> v[l] == SaveLevel([], levels[l])
    ensures forall l :: 0 <= l < NUM_LEVELS ==> v[l] == SaveLevel([], ApplyAll(NO_CHANGE, EditsAt(manifest, l)))
    ensures (forall l :: 0 <= l < NUM_LEVELS ==> Named(AllAdded(EditsAt(manifest, l)))) ==>
              ((forall l :: 0 <= l < NUM_LEVELS ==> v[l] == SaveEach([], EditsAt(manifest, l)))
               <==> forall l :: 0 <= l < NUM_LEVELS ==> AddedOnce(EditsAt(manifest, l)))
  {
    hide SaveLevel, ApplyAll, EditsAt, Named, AllAdded, SaveEach, AddedOnce;
    if forall l :: 0 <= l < NUM_LEVELS ==> Named(AllAdded(EditsAt(manifest, l))) {
      ReplayIsHistoryExactlyWhen(manifest, levels, v);
    }
  }

  lemma NothingReplayed()
    ensures Replayed(seq(NUM_LEVELS, _ => NO_CHANGE), []) && Counted([], None, None, None, None)
  {
  }
}
