/** Choosing the files of a compaction (version_set.cc GetOverlappingInputs, AddBoundaryInputs, SetupOtherInputs). */
module InputSelection {
  import opened Wrappers
  import opened DbFormat
  import opened VersionFiles

  // The file lies inside the range.
  predicate Within(r: Range, f: FileMeta) {
    && (r.begin.Some? ==> r.begin.value <= f.smallest.user)
    && (r.end.Some? ==> f.largest.user <= r.end.value)
  }

  predicate Covers(r: Range, s: Range) {
    && (r.begin.Some? ==> s.begin.Some? && r.begin.value <= s.begin.value)
    && (r.end.Some? ==> s.end.Some? && s.end.value <= r.end.value)
  }

  // No file sticks out of the range it overlaps.
  ghost predicate Closed(files: seq<FileMeta>, r: Range) {
    forall i :: 0 <= i < |files| && Overlaps(r, files[i]) ==> Within(r, files[i])
  }

  function Selected(files: seq<FileMeta>, r: Range): seq<FileMeta> {
    if files == [] then []
    else
      var last := files[|files| - 1];
      Selected(files[..|files| - 1], r) + if Overlaps(r, last) then [last] else []
  }

  lemma {:induction false} SelectedMembers(files: seq<FileMeta>, r: Range, f: FileMeta)
    ensures f in Selected(files, r) <==> f in files && Overlaps(r, f)
  {
    if files != [] {
      SelectedMembers(files[..|files| - 1], r, f);
      assert files == files[..|files| - 1] + [files[|files| - 1]];
    }
  }

  ghost function StartsBefore(files: seq<FileMeta>, r: Range): set<nat> {
    set i: nat | i < |files| && r.begin.Some? && files[i].smallest.user < r.begin.value
  }

  ghost function EndsAfter(files: seq<FileMeta>, r: Range): set<nat> {
    set i: nat | i < |files| && r.end.Some? && files[i].largest.user > r.end.value
  }

  /** Collects the files of `level` that overlap the range.  At level zero every file found may widen the range, and
      the search restarts; the range it ends with is the least closed one. */
  method GetOverlappingInputs(level: nat, files: seq<FileMeta>, range: Range)
    returns (inputs: seq<FileMeta>, ghost final: Range)
    ensures inputs == Selected(files, final)
    ensures level > 0 ==> final == range && inputs == Selected(files, range)
    ensures Covers(final, range) && (final.begin.Some? <==> range.begin.Some?) && (final.end.Some? <==> range.end.Some?)
    ensures level == 0 ==> Closed(files, final)
    ensures level == 0 ==> forall r :: Covers(r, range) && Closed(files, r) ==> Covers(r, final)
  {
    inputs := [];
    var r := range;
    var i := 0;
    while i < |files|
      invariant 0 <= i <= |files|
      invariant inputs == Selected(files[..i], r)
      invariant Covers(r, range) && (r.begin.Some? <==> range.begin.Some?) && (r.end.Some? <==> range.end.Some?)
      invariant level > 0 ==> r == range
      invariant level == 0 ==> forall k :: 0 <= k < i && Overlaps(r, files[k]) ==> Within(r, files[k])
      invariant level == 0 ==> forall s :: Covers(s, range) && Closed(files, s) ==> Covers(s, r)
      decreases StartsBefore(files, r), EndsAfter(files, r), |files| - i
    {
      var f := files[i];
      i := i + 1;
      assert files[..i][..i - 1] == files[..i - 1];
      if Overlaps(r, f) {
        inputs := inputs + [f];
        if level == 0 {
          ghost var before := r;
          if r.begin.Some? && f.smallest.user < r.begin.value {
            r := r.(begin := Some(f.smallest.user));
            inputs, i := [], 0;
            RangeWidens(files, before, r, f, range);
            assert StartsBefore(files, r) < StartsBefore(files, before) by {
              var k :| 0 <= k < |files| && files[k] == f;
              assert k in StartsBefore(files, before) && k !in StartsBefore(files, r);
            }
          } else if r.end.Some? && f.largest.user > r.end.value {
            r := r.(end := Some(f.largest.user));
            inputs, i := [], 0;
            RangeWidens(files, before, r, f, range);
            assert EndsAfter(files, r) < EndsAfter(files, before) by {
              var k :| 0 <= k < |files| && files[k] == f;
              assert k in EndsAfter(files, before) && k !in EndsAfter(files, r);
            }
          }
        }
      }
    }
    assert files[..i] == files;
    final := r;
  }

  // A closed range that covers r has room for every file that overlaps r.
  lemma RangeWidens(files: seq<FileMeta>, r: Range, r': Range, f: FileMeta, range: Range)
    requires f in files && Overlaps(r, f)
    requires (r.begin.Some? && r' == r.(begin := Some(f.smallest.user)))
          || (r.end.Some? && r' == r.(end := Some(f.largest.user)))
    requires forall s :: Covers(s, range) && Closed(files, s) ==> Covers(s, r)
    ensures forall s :: Covers(s, range) && Closed(files, s) ==> Covers(s, r')
  {
    forall s | Covers(s, range) && Closed(files, s)
      ensures Covers(s, r')
    {
      assert Covers(s, r) && Overlaps(s, f);
      var k :| 0 <= k < |files| && files[k] == f;
      assert Within(s, files[k]);
    }
  }

  /** At level zero, whatever overlaps a selected file is selected too. */
  lemma SelectionIsClosed(files: seq<FileMeta>, final: Range, f: FileMeta, g: FileMeta)
    requires Closed(files, final) && f in Selected(files, final) && g in files
    requires g.largest.user >= f.smallest.user && g.smallest.user <= f.largest.user
    ensures g in Selected(files, final)
  {
    SelectedMembers(files, final, f);
    SelectedMembers(files, final, g);
    var k :| 0 <= k < |files| && files[k] == f;
    assert Within(final, files[k]);
  }

  // ----- Boundary files

  ghost predicate IsLargest(files: seq<FileMeta>, k: InternalKey) {
    && (exists i :: 0 <= i < |files| && files[i].largest == k)
    && forall i :: 0 <= i < |files| ==> !Less(k, files[i].largest)
  }

  ghost predicate IsSmallest(files: seq<FileMeta>, k: InternalKey) {
    && (exists i :: 0 <= i < |files| && files[i].smallest == k)
    && forall i :: 0 <= i < |files| ==> !Less(files[i].smallest, k)
  }

  method FindLargestKey(files: seq<FileMeta>) returns (largest: Option<InternalKey>)
    ensures largest.None? <==> files == []
    ensures largest.Some? ==> IsLargest(files, largest.value)
  {
    if files == [] {
      return None;
    }
    var key := files[0].largest;
    for i := 1 to |files|
      invariant IsLargest(files[..i], key)
    {
      assert files[..i + 1] == files[..i] + [files[i]];
      if Less(key, files[i].largest) {
        key := files[i].largest;
        assert files[..i + 1][i].largest == key;
      } else {
        var k :| 0 <= k < i && files[..i][k].largest == key;
        assert files[..i + 1][k].largest == key;
      }
    }
    assert files[..|files|] == files;
    return Some(key);
  }

  // A file that continues, with older entries, the user key that `largest` ends with.
  predicate IsBoundary(f: FileMeta, largest: InternalKey) {
    Less(largest, f.smallest) && f.smallest.user == largest.user
  }

  method FindSmallestBoundaryFile(levelFiles: seq<FileMeta>, largest: InternalKey) returns (found: Option<FileMeta>)
    ensures found.None? ==> forall f :: f in levelFiles ==> !IsBoundary(f, largest)
    ensures found.Some? ==> IsNextBoundary(levelFiles, found.value, largest)
  {
    found := None;
    for i := 0 to |levelFiles|
      invariant found.None? ==> forall k :: 0 <= k < i ==> !IsBoundary(levelFiles[k], largest)
      invariant found.Some? ==> found.value in levelFiles && IsBoundary(found.value, largest)
      invariant found.Some? ==> forall k :: 0 <= k < i && IsBoundary(levelFiles[k], largest) ==>
                  !Less(levelFiles[k].smallest, found.value.smallest)
    {
      var f := levelFiles[i];
      if IsBoundary(f, largest) {
        if found.None? || Less(f.smallest, found.value.smallest) {
          found := Some(f);
        }
      }
    }
  }

  ghost function Above(files: seq<FileMeta>, k: InternalKey): set<nat> {
    set i: nat | i < |files| && Less(k, files[i].smallest)
  }

  // The smallest file of the level that continues the user key of `key`.
  ghost predicate IsNextBoundary(levelFiles: seq<FileMeta>, f: FileMeta, key: InternalKey) {
    && f in levelFiles && IsBoundary(f, key)
    && forall g :: g in levelFiles && IsBoundary(g, key) ==> !Less(g.smallest, f.smallest)
  }

  // Each added file is the next boundary file of everything selected before it.
  ghost predicate Chained(levelFiles: seq<FileMeta>, base: seq<FileMeta>, added: seq<FileMeta>) {
    forall k :: 0 <= k < |added| ==> Follows(levelFiles, base + added[..k], added[k])
  }

  ghost predicate Follows(levelFiles: seq<FileMeta>, selected: seq<FileMeta>, f: FileMeta) {
    exists key :: IsLargest(selected, key) && IsNextBoundary(levelFiles, f, key)
  }

  /** Extends the selection until no file of the level continues the user key of its largest key. */
  method AddBoundaryInputs(levelFiles: seq<FileMeta>, compactionFiles: seq<FileMeta>) returns (result: seq<FileMeta>)
    requires forall i :: 0 <= i < |levelFiles| ==> !Less(levelFiles[i].largest, levelFiles[i].smallest)
    ensures compactionFiles <= result && Chained(levelFiles, compactionFiles, result[|compactionFiles|..])
    ensures forall key, f :: IsLargest(result, key) && f in levelFiles ==> !IsBoundary(f, key)
  {
    result := compactionFiles;
    var largest := FindLargestKey(compactionFiles);
    if largest.None? {
      return;
    }
    var key := largest.value;
    ghost var added := [];
    assert compactionFiles + [] == compactionFiles;
    while true
      invariant result == compactionFiles + added && IsLargest(result, key)
      invariant Chained(levelFiles, compactionFiles, added)
      decreases Above(levelFiles, key)
    {
      var boundary := FindSmallestBoundaryFile(levelFiles, key);
      if boundary.None? {
        break;
      }
      var f := boundary.value;
      ghost var k :| 0 <= k < |levelFiles| && levelFiles[k] == f;
      BoundaryAdvances(levelFiles, result, key, k);
      ChainedSnoc(levelFiles, compactionFiles, added, f, key);
      result := result + [f];
      added := added + [f];
      assert result == compactionFiles + added;
      key := f.largest;
    }
    assert result[|compactionFiles|..] == added;
    forall other, f | IsLargest(result, other) && f in levelFiles
      ensures !IsBoundary(f, other)
    {
      LargestAgree(result, key, other);
    }
  }

  lemma ChainedSnoc(levelFiles: seq<FileMeta>, base: seq<FileMeta>, added: seq<FileMeta>, f: FileMeta, key: InternalKey)
    requires Chained(levelFiles, base, added)
    requires IsLargest(base + added, key) && IsNextBoundary(levelFiles, f, key)
    ensures Chained(levelFiles, base, added + [f])
  {
    var all := added + [f];
    forall k | 0 <= k < |all|
      ensures Follows(levelFiles, base + all[..k], all[k])
    {
      if k < |added| {
        assert all[..k] == added[..k];
      } else {
        assert all[..k] == added;
      }
    }
  }

  lemma BoundaryAdvances(levelFiles: seq<FileMeta>, result: seq<FileMeta>, key: InternalKey, k: nat)
    requires k < |levelFiles| && IsBoundary(levelFiles[k], key) && IsLargest(result, key)
    requires !Less(levelFiles[k].largest, levelFiles[k].smallest)
    ensures IsLargest(result + [levelFiles[k]], levelFiles[k].largest)
    ensures Above(levelFiles, levelFiles[k].largest) < Above(levelFiles, key)
  {
    var f := levelFiles[k];
    assert Less(key, f.largest);
    assert (result + [f])[|result|] == f;
    assert k in Above(levelFiles, key) && k !in Above(levelFiles, f.largest);
  }

  // Largest keys compare equal, and that is all a boundary depends on.
  lemma LargestAgree(files: seq<FileMeta>, a: InternalKey, b: InternalKey)
    requires IsLargest(files, a) && IsLargest(files, b)
    ensures SameKey(a, b)
    ensures forall f :: IsBoundary(f, a) <==> IsBoundary(f, b)
  {
    var i :| 0 <= i < |files| && files[i].largest == a;
    var j :| 0 <= j < |files| && files[j].largest == b;
    assert SameKey(a, b);
  }

  // ----- Both levels of a compaction

  ghost predicate Contiguous(files: seq<FileMeta>, part: seq<FileMeta>) {
    exists a, b :: IsSlice(files, part, a, b)
  }

  ghost predicate IsSlice(files: seq<FileMeta>, part: seq<FileMeta>, a: nat, b: nat) {
    a < b <= |files| && part == files[a..b]
  }

  // Whatever overlaps a member is a member.
  ghost predicate OverlapClosed(files: seq<FileMeta>, part: seq<FileMeta>) {
    forall f, g :: f in part && g in files && g.largest.user >= f.smallest.user && g.smallest.user <= f.largest.user ==>
      g in part
  }

  // The bounds of the files of a sorted level ascend.
  lemma LevelBounds(files: seq<FileMeta>)
    requires LevelOk(files)
    ensures forall i :: 0 <= i < |files| ==> !Less(files[i].largest, files[i].smallest)
    ensures forall i, j :: 0 <= i < j < |files| ==> Less(files[i].smallest, files[j].smallest)
    ensures forall i, j :: 0 <= i < j < |files| ==> Less(files[i].largest, files[j].largest)
  {
    forall i | 0 <= i < |files|
      ensures !Less(files[i].largest, files[i].smallest)
    {
      EntriesInRange(files[i], files[i].entries[0]);
    }
  }

  lemma SliceLargest(files: seq<FileMeta>, a: nat, b: nat)
    requires LevelOk(files) && a < b <= |files|
    ensures IsLargest(files[a..b], files[b - 1].largest)
  {
    var part := files[a..b];
    assert part[|part| - 1] == files[b - 1];
    LevelBounds(files);
  }

  // On a sorted level boundary files extend the selection by the files that follow it.
  lemma {:induction false} ChainedContiguous(files: seq<FileMeta>, base: seq<FileMeta>, added: seq<FileMeta>)
    requires LevelOk(files) && Contiguous(files, base) && Chained(files, base, added)
    ensures Contiguous(files, base + added)
  {
    hide LevelOk, IsSlice, Follows;
    if added == [] {
      assert base + added == base;
    } else {
      var n := |added| - 1;
      ChainedPrefix(files, base, added);
      ChainedContiguous(files, base, added[..n]);
      assert base + added == (base + added[..n]) + [added[n]];
      assert Follows(files, base + added[..n], added[n]);
      var a, b :| IsSlice(files, base + added[..n], a, b);
      SliceGrows(files, base + added[..n], a, b, added[n]);
    }
  }

  lemma SliceGrows(files: seq<FileMeta>, part: seq<FileMeta>, a: nat, b: nat, f: FileMeta)
    requires LevelOk(files) && IsSlice(files, part, a, b) && Follows(files, part, f)
    ensures IsSlice(files, part + [f], a, b + 1)
  {
    hide LevelOk, IsLargest, IsNextBoundary;
    var key :| IsLargest(part, key) && IsNextBoundary(files, f, key);
    NextBoundaryFollows(files, a, b, f, key);
    assert files[a..b + 1] == files[a..b] + [files[b]];
  }

  lemma ChainedPrefix(files: seq<FileMeta>, base: seq<FileMeta>, added: seq<FileMeta>)
    requires Chained(files, base, added) && added != []
    ensures Chained(files, base, added[..|added| - 1])
  {
    var n := |added| - 1;
    forall k | 0 <= k < n
      ensures Follows(files, base + added[..n][..k], added[..n][k])
    {
      assert added[..n][..k] == added[..k];
    }
  }

  lemma NextBoundaryFollows(files: seq<FileMeta>, a: nat, b: nat, f: FileMeta, key: InternalKey)
    requires LevelOk(files) && a < b <= |files|
    requires IsLargest(files[a..b], key) && IsNextBoundary(files, f, key)
    ensures b < |files| && f == files[b]
  {
    var last := files[b - 1].largest;
    SliceLargest(files, a, b);
    LargestAgree(files[a..b], key, last);
    LevelBounds(files);
    var j :| 0 <= j < |files| && files[j] == f;
    assert Less(last, f.smallest);
    assert j >= b;
    assert Less(last, files[b].smallest);
    assert j > b ==> Less(files[b].smallest, f.smallest) && IsBoundary(files[b], key);
  }

  // A selection closed under overlap has no boundary files.
  lemma ClosedHasNoBoundary(files: seq<FileMeta>, part: seq<FileMeta>, key: InternalKey, f: FileMeta)
    requires forall i :: 0 <= i < |files| ==> !Less(files[i].largest, files[i].smallest)
    requires OverlapClosed(files, part) && IsLargest(part, key) && f in files
    requires forall g :: g in part ==> g in files
    ensures !IsBoundary(f, key)
  {
    var i :| 0 <= i < |part| && part[i].largest == key;
    var g := part[i];
    assert g in files && f.largest.user >= f.smallest.user;
    assert IsBoundary(f, key) ==> f.largest.user >= g.smallest.user;
    assert IsBoundary(f, key) ==> f in part;
  }

  // The user keys from the smallest to the largest key of the files.
  function UserRange(files: seq<FileMeta>): Range
    requires files != []
  {
    var f := files[|files| - 1];
    if |files| == 1 then Range(Some(f.smallest.user), Some(f.largest.user))
    else
      var r := UserRange(files[..|files| - 1]);
      Range(Some(if f.smallest.user < r.begin.value then f.smallest.user else r.begin.value),
            Some(if f.largest.user > r.end.value then f.largest.user else r.end.value))
  }

  lemma {:induction false} UserRangeBounds(files: seq<FileMeta>)
    requires files != []
    ensures var r := UserRange(files);
            && r.begin.Some? && r.end.Some?
            && (forall i :: 0 <= i < |files| ==> Within(r, files[i]))
            && (exists i :: 0 <= i < |files| && files[i].smallest.user == r.begin.value)
            && exists i :: 0 <= i < |files| && files[i].largest.user == r.end.value
  {
    var n := |files| - 1;
    if n > 0 {
      UserRangeBounds(files[..n]);
      var r := UserRange(files[..n]);
      var i :| 0 <= i < n && files[..n][i].smallest.user == r.begin.value;
      var j :| 0 <= j < n && files[..n][j].largest.user == r.end.value;
      assert files[i].smallest.user == r.begin.value && files[j].largest.user == r.end.value;
      assert forall k :: 0 <= k < n ==> files[..n][k] == files[k];
    }
  }

  lemma RangeOfBounds(files: seq<FileMeta>, smallest: InternalKey, largest: InternalKey)
    requires IsSmallest(files, smallest) && IsLargest(files, largest)
    ensures files != [] && UserRange(files) == Range(Some(smallest.user), Some(largest.user))
  {
    UserRangeBounds(files);
  }

  method GetRange(inputs: seq<FileMeta>) returns (smallest: InternalKey, largest: InternalKey)
    requires inputs != []
    ensures IsSmallest(inputs, smallest) && IsLargest(inputs, largest)
    ensures UserRange(inputs) == Range(Some(smallest.user), Some(largest.user))
  {
    smallest, largest := inputs[0].smallest, inputs[0].largest;
    for i := 1 to |inputs|
      invariant IsSmallest(inputs[..i], smallest) && IsLargest(inputs[..i], largest)
    {
      BoundsSnoc(inputs[..i], inputs[i], smallest, largest);
      assert inputs[..i + 1] == inputs[..i] + [inputs[i]];
      if Less(inputs[i].smallest, smallest) {
        smallest := inputs[i].smallest;
      }
      if Less(largest, inputs[i].largest) {
        largest := inputs[i].largest;
      }
    }
    assert inputs[..|inputs|] == inputs;
    RangeOfBounds(inputs, smallest, largest);
  }

  lemma BoundsSnoc(files: seq<FileMeta>, f: FileMeta, smallest: InternalKey, largest: InternalKey)
    requires IsSmallest(files, smallest) && IsLargest(files, largest)
    ensures IsSmallest(files + [f], if Less(f.smallest, smallest) then f.smallest else smallest)
    ensures IsLargest(files + [f], if Less(largest, f.largest) then f.largest else largest)
  {
    var all := files + [f];
    var i :| 0 <= i < |files| && files[i].smallest == smallest;
    var j :| 0 <= j < |files| && files[j].largest == largest;
    assert all[i].smallest == smallest && all[j].largest == largest && all[|files|] == f;
  }

  // A wider range selects at least as many files, and the same ones if it selects no more.
  lemma {:induction false} SelectedMonotone(files: seq<FileMeta>, narrow: Range, wide: Range)
    requires Covers(wide, narrow)
    ensures |Selected(files, narrow)| <= |Selected(files, wide)|
    ensures |Selected(files, narrow)| == |Selected(files, wide)| ==> Selected(files, narrow) == Selected(files, wide)
  {
    if files != [] {
      SelectedMonotone(files[..|files| - 1], narrow, wide);
    }
  }

  // On a sorted level the files that overlap a range are consecutive.
  lemma SelectedIsSlice(files: seq<FileMeta>, r: Range) returns (a: nat, b: nat)
    requires LevelOk(files)
    requires r.begin.Some? && r.end.Some? && r.begin.value <= r.end.value
    ensures a <= b <= |files| && Selected(files, r) == files[a..b]
    ensures forall i :: 0 <= i < a ==> files[i].largest.user < r.begin.value
    ensures forall i :: b <= i < |files| ==> files[i].smallest.user > r.end.value
  {
    hide LevelOk, Selected;
    UserOrder(files);
    a := 0;
    while a < |files| && files[a].largest.user < r.begin.value
      invariant a <= |files| && forall i :: 0 <= i < a ==> files[i].largest.user < r.begin.value
    {
      a := a + 1;
    }
    b := a;
    while b < |files| && files[b].smallest.user <= r.end.value
      invariant a <= b <= |files| && forall i :: a <= i < b ==> files[i].smallest.user <= r.end.value
    {
      b := b + 1;
    }
    forall i | 0 <= i < |files|
      ensures a <= i < b <==> Overlaps(r, files[i])
      ensures b <= i ==> files[i].smallest.user > r.end.value
    {
      assert files[i].smallest.user <= files[i].largest.user;
      if a < i {
        assert files[a].largest.user <= files[i].largest.user;
      }
      if b < i {
        assert files[b].smallest.user <= files[i].smallest.user;
      }
    }
    SelectedRun(files, r, a, b, |files|);
    assert files[..|files|] == files;
  }

  lemma UserOrder(files: seq<FileMeta>)
    requires LevelOk(files)
    ensures forall i :: 0 <= i < |files| ==> files[i].smallest.user <= files[i].largest.user
    ensures forall i, j :: 0 <= i < j < |files| ==> files[i].smallest.user <= files[j].smallest.user
    ensures forall i, j :: 0 <= i < j < |files| ==> files[i].largest.user <= files[j].largest.user
  {
    LevelBounds(files);
  }

  lemma {:induction false} SelectedRun(files: seq<FileMeta>, r: Range, a: nat, b: nat, n: nat)
    requires a <= b <= |files| && n <= |files|
    requires forall i :: 0 <= i < |files| ==> (a <= i < b <==> Overlaps(r, files[i]))
    ensures Selected(files[..n], r) == if n <= a then [] else if n <= b then files[a..n] else files[a..b]
  {
    if n > 0 {
      SelectedRun(files, r, a, b, n - 1);
      assert files[..n][..n - 1] == files[..n - 1];
      assert a < n <= b ==> files[a..n] == files[a..n - 1] + [files[n - 1]];
    }
  }

  // What the rest of a compaction relies on: the files of the upper level were chosen without leaving a gap.
  ghost predicate Chosen(level: nat, files: seq<FileMeta>, part: seq<FileMeta>) {
    && part != [] && (forall f :: f in part ==> f in files)
    && (level > 0 ==> Contiguous(files, part))
    && (level == 0 ==> OverlapClosed(files, part))
  }

  ghost predicate FilesOk(level: nat, files: seq<FileMeta>) {
    && (forall i :: 0 <= i < |files| ==> FileOk(files[i]))
    && (level > 0 ==> LevelOk(files))
  }

  lemma BoundsOrdered(level: nat, files: seq<FileMeta>)
    requires FilesOk(level, files)
    ensures forall i :: 0 <= i < |files| ==> !Less(files[i].largest, files[i].smallest)
  {
    forall i | 0 <= i < |files|
      ensures !Less(files[i].largest, files[i].smallest)
    {
      EntriesInRange(files[i], files[i].entries[0]);
    }
  }

  lemma RangeNotEmpty(level: nat, files: seq<FileMeta>, part: seq<FileMeta>)
    requires FilesOk(level, files) && part != [] && (forall f :: f in part ==> f in files)
    ensures var r := UserRange(part);
            r.begin.Some? && r.end.Some? && r.begin.value <= r.end.value
  {
    BoundsOrdered(level, files);
    UserRangeBounds(part);
    assert part[0] in files && Within(UserRange(part), part[0]);
  }

  // Boundary files leave the choice without a gap; at level zero there are none.
  lemma BoundariesKeepChosen(level: nat, files: seq<FileMeta>, part: seq<FileMeta>, added: seq<FileMeta>)
    requires FilesOk(level, files) && Chosen(level, files, part) && Chained(files, part, added)
    ensures Chosen(level, files, part + added)
    ensures level == 0 ==> added == []
  {
    if level > 0 {
      ChainedContiguous(files, part, added);
    } else if added != [] {
      assert part + added[..0] == part;
      assert Follows(files, part, added[0]);
      var key :| IsLargest(part, key) && IsNextBoundary(files, added[0], key);
      BoundsOrdered(level, files);
      ClosedHasNoBoundary(files, part, key, added[0]);
    } else {
      assert part + added == part;
    }
    forall f | f in part + added
      ensures f in files
    {
      if f in added {
        var k :| 0 <= k < |added| && added[k] == f;
        assert Follows(files, part + added[..k], added[k]);
      }
    }
  }

  // The files of the level that overlap the range of a choice are a choice again.
  lemma OverlappingIsChosen(level: nat, files: seq<FileMeta>, part: seq<FileMeta>, r: Range)
    requires FilesOk(level, files) && Chosen(level, files, part) && Covers(r, UserRange(part))
    requires r.begin.Some? && r.end.Some?
    requires level == 0 ==> Closed(files, r)
    ensures Chosen(level, files, Selected(files, r))
    ensures forall f :: f in part ==> f in Selected(files, r)
  {
    BoundsOrdered(level, files);
    UserRangeBounds(part);
    forall f
      ensures f in part ==> f in Selected(files, r)
      ensures f in Selected(files, r) ==> f in files
    {
      SelectedMembers(files, r, f);
      if f in part {
        assert f in files && Within(UserRange(part), f);
      }
    }
    assert part[0] in Selected(files, r);
    if level > 0 {
      RangeNotEmpty(level, files, part);
      var a, b := SelectedIsSlice(files, r);
      assert IsSlice(files, Selected(files, r), a, b);
    } else {
      forall f, g | f in Selected(files, r) && g in files
                    && g.largest.user >= f.smallest.user && g.smallest.user <= f.largest.user
        ensures g in Selected(files, r)
      {
        SelectionIsClosed(files, r, f, g);
      }
    }
  }

  /** Completes a compaction.  The upper inputs are extended past every user key they end with, the lower inputs are
      all files of the next level that overlap them, and the upper inputs grow further only if that costs no more
      lower inputs. */
  method SetupOtherInputs(level: nat, files0: seq<FileMeta>, files1: seq<FileMeta>, inputs: seq<FileMeta>,
                          byteLimit: nat)
    returns (inputs0: seq<FileMeta>, inputs1: seq<FileMeta>, compactPointer: InternalKey, ghost added: seq<FileMeta>,
             ghost grown: seq<FileMeta>)
    requires FilesOk(level, files0) && FilesOk(level + 1, files1)
    requires Chosen(level, files0, inputs)
    ensures Chosen(level, files0, inputs0) && forall f :: f in inputs ==> f in inputs0
    ensures IsLargest(inputs0, compactPointer) && forall f :: f in files0 ==> !IsBoundary(f, compactPointer)
    ensures inputs1 == Selected(files1, UserRange(inputs0))
    ensures Chained(files0, inputs, added) && inputs1 == Selected(files1, UserRange(inputs + added))
    ensures inputs1 != [] ==> GrownFrom(level, files0, UserRange(inputs + added + inputs1), grown)
    ensures inputs0 == if inputs1 != [] && |grown| > |inputs + added|
                          && TotalFileSize(inputs1) + TotalFileSize(grown) < byteLimit
                          && |Selected(files1, UserRange(grown))| == |inputs1|
                       then grown else inputs + added
  {
    assert inputs != [];
    hide Chosen, FilesOk, Chained, IsLargest, IsSmallest, Selected, UserRange, TotalFileSize, IsBoundary, Closed;
    BoundsOrdered(level, files0);
    inputs0 := AddBoundaryInputs(files0, inputs);
    added := inputs0[|inputs|..];
    assert inputs0 == inputs + added;
    BoundariesKeepChosen(level, files0, inputs, added);
    var smallest, largest := GetRange(inputs0);
    ghost var r;
    inputs1, r := GetOverlappingInputs(level + 1, files1, Range(Some(smallest.user), Some(largest.user)));
    compactPointer := largest;
    grown := [];
    if inputs1 != [] {
      var allStart, allLimit := GetRange(inputs0 + inputs1);
      var expanded0, final := GetOverlappingInputs(level, files0, Range(Some(allStart.user), Some(allLimit.user)));
      var expanded := AddBoundaryInputs(files0, expanded0);
      grown := expanded;
      assert GrownFrom(level, files0, UserRange(inputs0 + inputs1), grown) by {
        assert Grows(level, files0, UserRange(inputs0 + inputs1), final, grown);
      }
      GrownIsChosen(level, files0, inputs0, inputs1, final, grown);
      if |expanded| > |inputs0| && TotalFileSize(inputs1) + TotalFileSize(expanded) < byteLimit {
        var newStart, newLimit := GetRange(expanded);
        var expanded1, _ := GetOverlappingInputs(level + 1, files1, Range(Some(newStart.user), Some(newLimit.user)));
        if |expanded1| == |inputs1| {
          SelectedMonotone(files1, UserRange(inputs0), UserRange(grown));
          inputs0, inputs1, compactPointer := expanded, expanded1, newLimit;
        }
      }
    }
  }

  // Everything of the level that overlaps the range, or at level zero the least closed range around it, and the
  // boundary files behind that.
  ghost predicate Grows(level: nat, files: seq<FileMeta>, range: Range, final: Range, grown: seq<FileMeta>) {
    && Covers(final, range) && (level > 0 ==> final == range)
    && (level == 0 ==> Closed(files, final) && forall r :: Covers(r, range) && Closed(files, r) ==> Covers(r, final))
    && var overlapping := Selected(files, final);
       && overlapping <= grown && Chained(files, overlapping, grown[|overlapping|..])
       && forall key, f :: IsLargest(grown, key) && f in files ==> !IsBoundary(f, key)
  }

  ghost predicate GrownFrom(level: nat, files: seq<FileMeta>, range: Range, grown: seq<FileMeta>) {
    exists final :: Grows(level, files, range, final, grown)
  }

  lemma GrownIsChosen(level: nat, files: seq<FileMeta>, part: seq<FileMeta>, lower: seq<FileMeta>, final: Range,
                      grown: seq<FileMeta>)
    requires FilesOk(level, files) && Chosen(level, files, part)
    requires Covers(final, UserRange(part + lower)) && final.begin.Some? && final.end.Some?
    requires level == 0 ==> Closed(files, final)
    requires var expanded := Selected(files, final);
             expanded <= grown && Chained(files, expanded, grown[|expanded|..])
    ensures Chosen(level, files, grown)
    ensures forall f :: f in part ==> f in grown
    ensures Covers(UserRange(grown), UserRange(part))
  {
    hide FilesOk, Chained, IsLargest, Closed;
    var expanded := Selected(files, final);
    AllRangeCovers(part, lower);
    OverlappingIsChosen(level, files, part, final);
    BoundariesKeepChosen(level, files, expanded, grown[|expanded|..]);
    assert grown == expanded + grown[|expanded|..];
    RangeGrows(part, grown);
  }

  function TotalFileSize(files: seq<FileMeta>): nat {
    if files == [] then 0 else TotalFileSize(files[..|files| - 1]) + files[|files| - 1].size
  }

  lemma RangeGrows(part: seq<FileMeta>, all: seq<FileMeta>)
    requires part != [] && all != [] && forall f :: f in part ==> f in all
    ensures Covers(UserRange(all), UserRange(part))
  {
    UserRangeBounds(part);
    UserRangeBounds(all);
    var i :| 0 <= i < |part| && part[i].smallest.user == UserRange(part).begin.value;
    var j :| 0 <= j < |part| && part[j].largest.user == UserRange(part).end.value;
    assert part[i] in all && part[j] in all;
  }

  lemma AllRangeCovers(inputs0: seq<FileMeta>, inputs1: seq<FileMeta>)
    requires inputs0 != []
    ensures Covers(UserRange(inputs0 + inputs1), UserRange(inputs0))
    ensures UserRange(inputs0 + inputs1).begin.Some? && UserRange(inputs0 + inputs1).end.Some?
  {
    UserRangeBounds(inputs0 + inputs1);
    RangeGrows(inputs0, inputs0 + inputs1);
  }
}
