/** From the choice of inputs to what readers see: a compaction set up by VersionSet::SetupOtherInputs and carried out
    by DBImpl::DoCompactionWork changes no read, provided the lower inputs do not end inside the entries of one user
    key. */
module CompactionSafety {
  import opened Wrappers
  import opened DbFormat
  import opened VersionFiles
  import opened Compaction
  import opened InputSelection

  ghost predicate Holds(files: seq<FileMeta>, e: Entry) {
    exists f :: f in files && e in f.entries
  }

  // Entries of the same user key differ in their sequence numbers.
  ghost predicate Distinct(es: seq<Entry>) {
    forall a, b :: a in es && b in es && a.key.user == b.key.user && a.key.sn == b.key.sn ==> a == b
  }

  // Where the entries stand does not matter to a read.
  lemma NewestOfSameEntries(xs: seq<Entry>, ys: seq<Entry>, user: UserKey, snapshot: nat)
    requires Distinct(xs) && forall e :: e in xs <==> e in ys
    ensures Newest(xs, user, snapshot) == Newest(ys, user, snapshot)
  {
    NewestIsMaximal(xs, user, snapshot);
    NewestIsMaximal(ys, user, snapshot);
    var a, b := Newest(xs, user, snapshot), Newest(ys, user, snapshot);
    if a.Some? {
      var i :| 0 <= i < |ys| && ys[i] == a.value;
    }
    if b.Some? {
      var j :| 0 <= j < |xs| && xs[j] == b.value;
    }
  }

  // Files of the upper level that stay behind hold only newer entries of the user keys that move down.
  ghost predicate StaysNewer(outside: seq<FileMeta>, inputs: seq<FileMeta>) {
    forall f, g :: f in outside && g in inputs ==> Newer(f.entries, g.entries)
  }

  /** What the boundary files are for: of the files left at the upper level, none holds older entries of a user key
      that moves down. */
  lemma LeftBehindIsNewer(level: nat, files: seq<FileMeta>, inputs: seq<FileMeta>, pointer: InternalKey,
                          outside: seq<FileMeta>)
    requires FilesOk(level, files) && Chosen(level, files, inputs)
    requires IsLargest(inputs, pointer) && forall f :: f in files ==> !IsBoundary(f, pointer)
    requires forall f :: f in outside ==> f in files && f !in inputs
    requires level > 0 ==> NewerFirst(FileSources(files))
    ensures StaysNewer(outside, inputs)
  {
    forall f, g, a, b | f in outside && g in inputs && a in f.entries && b in g.entries && a.key.user == b.key.user
      ensures a.key.sn > b.key.sn
    {
      EntriesInRange(f, a);
      EntriesInRange(g, b);
      if level > 0 {
        var lo, hi :| IsSlice(files, inputs, lo, hi);
        BehindSlice(files, lo, hi, pointer, f, g, a, b);
      }
    }
  }

  lemma BehindSlice(files: seq<FileMeta>, lo: nat, hi: nat, pointer: InternalKey, f: FileMeta, g: FileMeta,
                    a: Entry, b: Entry)
    requires LevelOk(files) && lo < hi <= |files| && NewerFirst(FileSources(files))
    requires IsLargest(files[lo..hi], pointer) && forall f :: f in files ==> !IsBoundary(f, pointer)
    requires f in files && f !in files[lo..hi] && g in files[lo..hi]
    requires a in f.entries && b in g.entries
    ensures a.key.user == b.key.user ==> a.key.sn > b.key.sn
  {
    var i :| 0 <= i < |files| && files[i] == f;
    var j :| lo <= j < hi && files[j] == g;
    assert forall k :: lo <= k < hi ==> files[k] in files[lo..hi];
    if i >= hi {
      BeyondSlice(files, lo, hi, pointer, i, j, a, b);
    } else {
      assert FileSources(files)[i] == f.entries && FileSources(files)[j] == g.entries;
      assert Newer(FileSources(files)[i], FileSources(files)[j]);
    }
  }

  // With no boundary file left, the user keys behind the slice are all larger.
  lemma BeyondSlice(files: seq<FileMeta>, lo: nat, hi: nat, pointer: InternalKey, i: nat, j: nat, a: Entry, b: Entry)
    requires LevelOk(files) && lo < hi <= |files|
    requires IsLargest(files[lo..hi], pointer) && forall f :: f in files ==> !IsBoundary(f, pointer)
    requires lo <= j < hi <= i < |files| && a in files[i].entries && b in files[j].entries
    ensures b.key.user < a.key.user
  {
    var last := files[hi - 1].largest;
    EntriesInRange(files[i], a);
    EntriesInRange(files[j], b);
    LevelBounds(files);
    SliceLargest(files, lo, hi);
    LargestAgree(files[lo..hi], pointer, last);
    assert files[i] in files && Less(last, files[i].smallest);
  }

  // ----- Sources in the order they are searched

  lemma HoldsIsUnion(files: seq<FileMeta>, e: Entry)
    ensures e in Union(FileSources(files)) <==> Holds(files, e)
  {
    UnionMembers(FileSources(files), e);
    if Holds(files, e) {
      var f :| f in files && e in f.entries;
      var i :| 0 <= i < |files| && files[i] == f;
      assert e in FileSources(files)[i];
    }
    if i :| 0 <= i < |FileSources(files)| && e in FileSources(files)[i] {
      assert files[i] in files;
    }
  }

  // The files that stay, in their order.
  function Remaining(files: seq<FileMeta>, inputs: seq<FileMeta>): seq<FileMeta> {
    if files == [] then []
    else if files[0] in inputs then Remaining(files[1..], inputs)
    else [files[0]] + Remaining(files[1..], inputs)
  }

  lemma {:induction false} RemainingMembers(files: seq<FileMeta>, inputs: seq<FileMeta>, f: FileMeta)
    ensures f in Remaining(files, inputs) <==> f in files && f !in inputs
  {
    if files != [] {
      RemainingMembers(files[1..], inputs, f);
    }
  }

  lemma {:induction false} RemainingNewerFirst(files: seq<FileMeta>, inputs: seq<FileMeta>)
    requires NewerFirst(FileSources(files))
    ensures NewerFirst(FileSources(Remaining(files, inputs)))
  {
    if files != [] {
      var rest := files[1..];
      assert FileSources(files) == [files[0].entries] + FileSources(rest);
      NewerFirstConcat([files[0].entries], FileSources(rest));
      RemainingNewerFirst(rest, inputs);
      if files[0] !in inputs {
        var kept := Remaining(rest, inputs);
        assert FileSources([files[0]] + kept) == [files[0].entries] + FileSources(kept);
        forall e | e in Union(FileSources(kept))
          ensures e in Union(FileSources(rest))
        {
          HoldsIsUnion(kept, e);
          HoldsIsUnion(rest, e);
          var f :| f in kept && e in f.entries;
          RemainingMembers(rest, inputs, f);
        }
        NewerFirstConcat([files[0].entries], FileSources(kept));
      }
    }
  }

  // What the merged input of a compaction is made of.
  ghost predicate IsMerged(input: seq<Entry>, inputs0: seq<FileMeta>, inputs1: seq<FileMeta>) {
    && Sorted(input) && AllParse(input)
    && forall e :: e in input <==> Holds(inputs0, e) || Holds(inputs1, e)
  }

  // The lower level splits into the files before, inside and after the user keys of the upper inputs.
  ghost predicate Split(lower: seq<FileMeta>, c: nat, d: nat, inputs0: seq<FileMeta>)
    requires inputs0 != []
  {
    var r := UserRange(inputs0);
    && c <= d <= |lower| && r.begin.Some? && r.end.Some?
    && (forall i :: 0 <= i < c ==> lower[i].largest.user < r.begin.value)
    && (forall i :: d <= i < |lower| ==> lower[i].smallest.user > r.end.value)
  }

  // SetupOtherInputs does not extend the lower inputs: they may end between two entries of one user key.
  predicate LowerEndsCleanly(lower: seq<FileMeta>, c: nat, d: nat)
    requires c <= d <= |lower|
  {
    c < d < |lower| ==> lower[d].smallest.user != lower[d - 1].largest.user
  }

  lemma OutsideLower(lower: seq<FileMeta>, c: nat, d: nat, inputs0: seq<FileMeta>, e: Entry, g: Entry)
    requires LevelOk(lower) && inputs0 != [] && Split(lower, c, d, inputs0)
    requires forall f :: f in inputs0 ==> FileOk(f)
    requires (Holds(lower[..c], e) || Holds(lower[d..], e)) && Holds(inputs0, g)
    ensures e.key.user != g.key.user
  {
    UserRangeBounds(inputs0);
    var f :| f in inputs0 && g in f.entries;
    EntriesInRange(f, g);
    if Holds(lower[..c], e) {
      var h :| h in lower[..c] && e in h.entries;
      EntriesInRange(h, e);
    } else {
      var h :| h in lower[d..] && e in h.entries;
      EntriesInRange(h, e);
    }
  }

  lemma AfterLower(lower: seq<FileMeta>, c: nat, d: nat, e: Entry, g: Entry)
    requires LevelOk(lower) && c <= d <= |lower| && LowerEndsCleanly(lower, c, d)
    requires Holds(lower[d..], e) && Holds(lower[c..d], g)
    ensures e.key.user != g.key.user
  {
    var f :| f in lower[d..] && e in f.entries;
    var h :| h in lower[c..d] && g in h.entries;
    var i :| d <= i < |lower| && lower[i] == f;
    var j :| c <= j < d && lower[j] == h;
    UsersApart(lower, d, i, j);
    EntriesInRange(f, e);
    EntriesInRange(h, g);
  }

  lemma UsersApart(lower: seq<FileMeta>, d: nat, i: nat, j: nat)
    requires LevelOk(lower) && j < d <= i < |lower|
    requires lower[d].smallest.user != lower[d - 1].largest.user
    ensures lower[j].largest.user < lower[i].smallest.user
  {
    LevelBounds(lower);
    assert Less(lower[d - 1].largest, lower[d].smallest);
  }

  ghost predicate Within(xs: seq<Entry>, ys: seq<Entry>) {
    forall e :: e in xs ==> e in ys
  }

  // The parts of the levels searched before and after a compaction, each as the entries it holds.
  lemma PartsInOrder(a: seq<Entry>, u: seq<Entry>, l: seq<Entry>, z: seq<Entry>, o: seq<Entry>, l1: seq<Entry>,
                     input: seq<Entry>, l2: seq<Entry>)
    requires Newer(a, u + (l + z)) && Newer(u, l + z) && Newer(l, z)
    requires Within(o, u) && Within(l1, l) && Within(l2, l) && Within(input, u + l)
    requires Newer(o, input) && Newer(l1, input) && Newer(l1, l2) && Newer(input, l2)
    ensures Newer(a, o + (l1 + (input + (l2 + z))))
    ensures Newer(o, l1 + (input + (l2 + z)))
    ensures Newer(l1, input + (l2 + z))
    ensures Newer(input, l2 + z) && Newer(l2, z)
  {
  }

  lemma SixInOrder(a: seq<seq<Entry>>, o: seq<seq<Entry>>, l1: seq<seq<Entry>>, run: seq<seq<Entry>>,
                   l2: seq<seq<Entry>>, z: seq<seq<Entry>>)
    requires NewerFirst(a) && NewerFirst(o) && NewerFirst(l1) && NewerFirst(run) && NewerFirst(l2) && NewerFirst(z)
    requires var (ua, uo, u1, ur, u2, uz) := (Union(a), Union(o), Union(l1), Union(run), Union(l2), Union(z));
             && Newer(ua, uo + (u1 + (ur + (u2 + uz))))
             && Newer(uo, u1 + (ur + (u2 + uz)))
             && Newer(u1, ur + (u2 + uz))
             && Newer(ur, u2 + uz) && Newer(u2, uz)
    ensures var all := a + (o + (l1 + (run + (l2 + z))));
            NewerFirst(all) && Union(all) == Union(a) + (Union(o) + (Union(l1) + (Union(run) + (Union(l2) + Union(z)))))
  {
    hide Newer, NewerFirst, Union;
    UnionConcat(l2, z);
    NewerFirstJoin(l2, z);
    UnionConcat(run, l2 + z);
    NewerFirstJoin(run, l2 + z);
    UnionConcat(l1, run + (l2 + z));
    NewerFirstJoin(l1, run + (l2 + z));
    UnionConcat(o, l1 + (run + (l2 + z)));
    NewerFirstJoin(o, l1 + (run + (l2 + z)));
    UnionConcat(a, o + (l1 + (run + (l2 + z))));
    NewerFirstJoin(a, o + (l1 + (run + (l2 + z))));
  }

  lemma OneRun(input: seq<Entry>)
    ensures NewerFirst([input]) && Union([input]) == input
  {
    assert [input][1..] == [];
  }

  lemma FourInOrder(a: seq<seq<Entry>>, u: seq<seq<Entry>>, l: seq<seq<Entry>>, z: seq<seq<Entry>>)
    requires NewerFirst(a + (u + (l + z)))
    ensures NewerFirst(a) && NewerFirst(u) && NewerFirst(l) && NewerFirst(z)
    ensures Union(a + (u + (l + z))) == Union(a) + (Union(u) + (Union(l) + Union(z)))
    ensures Newer(Union(a), Union(u) + (Union(l) + Union(z))) && Newer(Union(u), Union(l) + Union(z))
    ensures Newer(Union(l), Union(z))
  {
    hide Newer, NewerFirst, Union;
    NewerFirstConcat(a, u + (l + z));
    NewerFirstConcat(u, l + z);
    NewerFirstConcat(l, z);
    UnionConcat(a, u + (l + z));
    UnionConcat(u, l + z);
    UnionConcat(l, z);
  }

  // Merging the inputs of a compaction into one run changes no read.
  lemma MergeInPlace(a: seq<seq<Entry>>, u: seq<seq<Entry>>, l: seq<seq<Entry>>, z: seq<seq<Entry>>,
                     o: seq<seq<Entry>>, l1: seq<seq<Entry>>, input: seq<Entry>, l2: seq<seq<Entry>>,
                     user: UserKey, snapshot: nat)
    requires NewerFirst(a + (u + (l + z))) && Distinct(Union(a + (u + (l + z))))
    requires NewerFirst(o) && NewerFirst(l1) && NewerFirst(l2)
    requires Newer(Union(o), input) && Newer(Union(l1), input) && Newer(Union(l1), Union(l2))
    requires Newer(input, Union(l2))
    requires forall e :: e in Union(u) + Union(l) <==> e in Union(o) + (Union(l1) + (input + Union(l2)))
    requires Within(Union(o), Union(u)) && Within(Union(l1), Union(l)) && Within(Union(l2), Union(l))
    ensures SearchInOrder(a + (o + (l1 + ([input] + (l2 + z)))), user, snapshot)
         == SearchInOrder(a + (u + (l + z)), user, snapshot)
  {
    var before, after := a + (u + (l + z)), a + (o + (l1 + ([input] + (l2 + z))));
    FourInOrder(a, u, l, z);
    var (ua, uu, ul, uz) := (Union(a), Union(u), Union(l), Union(z));
    assert Within(input, uu + ul);
    PartsInOrder(ua, uu, ul, uz, Union(o), Union(l1), input, Union(l2));
    OneRun(input);
    SixInOrder(a, o, l1, [input], l2, z);
    SearchInOrderIsNewest(before, user, snapshot);
    SearchInOrderIsNewest(after, user, snapshot);
    SameUnion(ua, uu, ul, uz, Union(o), Union(l1), input, Union(l2));
    NewestOfSameEntries(Union(before), Union(after), user, snapshot);
  }

  lemma SameUnion(a: seq<Entry>, u: seq<Entry>, l: seq<Entry>, z: seq<Entry>, o: seq<Entry>, l1: seq<Entry>,
                  input: seq<Entry>, l2: seq<Entry>)
    requires forall e :: e in u + l <==> e in o + (l1 + (input + l2))
    ensures forall e :: e in a + (u + (l + z)) <==> e in a + (o + (l1 + (input + (l2 + z))))
  {
    forall e
      ensures e in a + (u + (l + z)) <==> e in a + (o + (l1 + (input + (l2 + z))))
    {
      assert e in u + l <==> e in o + (l1 + (input + l2));
    }
  }

  lemma Regroup(a: seq<seq<Entry>>, o: seq<seq<Entry>>, l1: seq<seq<Entry>>, run: seq<Entry>, l2: seq<seq<Entry>>,
                z: seq<seq<Entry>>)
    ensures (a + o + l1) + [run] + l2 + z == a + (o + (l1 + ([run] + (l2 + z))))
  {
  }

  lemma InputNotAfter(lower: seq<FileMeta>, c: nat, d: nat, inputs0: seq<FileMeta>, input: seq<Entry>, e: Entry)
    requires inputs0 != [] && forall f :: f in inputs0 ==> FileOk(f)
    requires LevelOk(lower) && Split(lower, c, d, inputs0) && LowerEndsCleanly(lower, c, d)
    requires IsMerged(input, inputs0, lower[c..d]) && e in input
    ensures HoldsNoKey(FileSources(lower[d..]), e.key.user)
  {
    var l2 := FileSources(lower[d..]);
    forall i, g: Entry | 0 <= i < |l2| && g in l2[i]
      ensures g.key.user != e.key.user
    {
      UnionMembers(l2, g);
      HoldsIsUnion(lower[d..], g);
      if Holds(inputs0, e) {
        OutsideLower(lower, c, d, inputs0, g, e);
      } else {
        AfterLower(lower, c, d, g, e);
      }
    }
  }

  lemma PartsOfLevels(above: seq<seq<Entry>>, upper: seq<FileMeta>, inputs0: seq<FileMeta>, lower: seq<FileMeta>,
                      c: nat, d: nat, deeper: seq<seq<Entry>>, input: seq<Entry>)
    requires NewerFirst(above + (FileSources(upper) + (FileSources(lower) + deeper)))
    requires inputs0 != [] && forall f :: f in inputs0 ==> f in upper && FileOk(f)
    requires StaysNewer(Remaining(upper, inputs0), inputs0)
    requires LevelOk(lower) && Split(lower, c, d, inputs0)
    requires IsMerged(input, inputs0, lower[c..d])
    ensures var (u, l) := (Union(FileSources(upper)), Union(FileSources(lower)));
            var (o, l1, l2) := (FileSources(Remaining(upper, inputs0)), FileSources(lower[..c]), FileSources(lower[d..]));
            && NewerFirst(o) && NewerFirst(l1) && NewerFirst(l2)
            && Newer(Union(o), input) && Newer(Union(l1), input) && Newer(Union(l1), Union(l2))
            && Newer(input, Union(l2))
            && (forall e :: e in u + l <==> e in Union(o) + (Union(l1) + (input + Union(l2))))
            && Within(Union(o), u) && Within(Union(l1), l) && Within(Union(l2), l)
  {
    var (u, l) := (Union(FileSources(upper)), Union(FileSources(lower)));
    var (o, l1, l2) := (FileSources(Remaining(upper, inputs0)), FileSources(lower[..c]), FileSources(lower[d..]));
    FourInOrder(above, FileSources(upper), FileSources(lower), deeper);
    LowerParts(lower, c, d);
    RemainingNewerFirst(upper, inputs0);
    forall e
      ensures e in u <==> e in Union(o) || Holds(inputs0, e)
      ensures e in Union(o) <==> Holds(Remaining(upper, inputs0), e)
    {
      UpperParts(upper, inputs0, e);
    }
    forall e
      ensures e in Union(FileSources(lower[c..d])) <==> Holds(lower[c..d], e)
      ensures e in Union(l1) <==> Holds(lower[..c], e)
    {
      HoldsIsUnion(lower[c..d], e);
      HoldsIsUnion(lower[..c], e);
    }
    hide FileSources, Union, Remaining, NewerFirst, LevelOk, Split;
    forall a, b | a in Union(o) && b in input && a.key.user == b.key.user
      ensures a.key.sn > b.key.sn
    {
      if Holds(inputs0, b) {
        StaysNewerEntries(Remaining(upper, inputs0), inputs0, a, b);
      }
    }
    forall a, b | a in Union(l1) && b in input && a.key.user == b.key.user
      ensures a.key.sn > b.key.sn
    {
      if Holds(inputs0, b) {
        OutsideLower(lower, c, d, inputs0, a, b);
      }
    }
  }

  lemma StaysNewerEntries(outside: seq<FileMeta>, inputs: seq<FileMeta>, a: Entry, b: Entry)
    requires StaysNewer(outside, inputs) && Holds(outside, a) && Holds(inputs, b) && a.key.user == b.key.user
    ensures a.key.sn > b.key.sn
  {
    var f :| f in outside && a in f.entries;
    var g :| g in inputs && b in g.entries;
    assert Newer(f.entries, g.entries);
  }

  lemma UpperParts(upper: seq<FileMeta>, inputs0: seq<FileMeta>, e: Entry)
    requires forall f :: f in inputs0 ==> f in upper
    ensures var o := Union(FileSources(Remaining(upper, inputs0)));
            && (e in Union(FileSources(upper)) <==> e in o || Holds(inputs0, e))
            && (e in o <==> Holds(Remaining(upper, inputs0), e))
  {
    HoldsIsUnion(upper, e);
    HoldsIsUnion(Remaining(upper, inputs0), e);
    forall f
      ensures f in Remaining(upper, inputs0) <==> f in upper && f !in inputs0
    {
      RemainingMembers(upper, inputs0, f);
    }
  }

  lemma LowerParts(lower: seq<FileMeta>, c: nat, d: nat)
    requires c <= d <= |lower| && NewerFirst(FileSources(lower))
    ensures var (l1, m, l2) := (FileSources(lower[..c]), FileSources(lower[c..d]), FileSources(lower[d..]));
            && NewerFirst(l1) && NewerFirst(l2)
            && Union(FileSources(lower)) == Union(l1) + (Union(m) + Union(l2))
            && Newer(Union(l1), Union(m) + Union(l2)) && Newer(Union(m), Union(l2))
  {
    var (l1, m, l2) := (FileSources(lower[..c]), FileSources(lower[c..d]), FileSources(lower[d..]));
    assert FileSources(lower) == l1 + (m + l2);
    hide NewerFirst, Newer, Union;
    NewerFirstConcat(l1, m + l2);
    NewerFirstConcat(m, l2);
    UnionConcat(l1, m + l2);
    UnionConcat(m, l2);
  }

  // ----- The compaction of chosen inputs

  // How many files lie before the range.
  function CountBefore(lower: seq<FileMeta>, r: Range): (n: nat)
    ensures n <= |lower|
  {
    if lower == [] || r.begin.None? || lower[0].largest.user >= r.begin.value then 0
    else 1 + CountBefore(lower[1..], r)
  }

  /** A compaction about to run.  `above` is what is searched before the upper level, whose files `upper` lists in the
      order they are searched; `input` is what the merging iterator over all inputs yields. */
  datatype Plan = Plan(level: nat, above: seq<seq<Entry>>, upper: seq<FileMeta>, inputs: seq<FileMeta>,
                       lower: seq<FileMeta>, files: seq<seq<FileMeta>>, smallest: nat, input: seq<Entry>)
  {
    // The lower inputs are lower[First()..End()].
    function First(): (n: nat)
      ensures n <= |lower|
    {
      if inputs == [] then 0 else CountBefore(lower, UserRange(inputs))
    }

    function End(): (n: nat)
      ensures First() <= n <= |lower|
    {
      if inputs == [] || First() + |Selected(lower, UserRange(inputs))| > |lower| then |lower|
      else First() + |Selected(lower, UserRange(inputs))|
    }

    function Deeper(): seq<seq<Entry>> {
      DeeperSources(files, level + 2)
    }

    function Before(): seq<seq<Entry>> {
      above + (FileSources(upper) + (FileSources(lower) + Deeper()))
    }

    // What stays in front of the inputs, and what stays behind them at the two levels.
    function Ahead(): seq<seq<Entry>> {
      above + FileSources(Remaining(upper, inputs)) + FileSources(lower[..First()])
    }

    function Behind(): seq<seq<Entry>> {
      FileSources(lower[End()..])
    }

    ghost function Output(): seq<Entry> {
      Kept(files, level, smallest, input, |input|)
    }

    ghost function After(): seq<seq<Entry>> {
      Ahead() + [Output()] + Behind() + Deeper()
    }

    // The inputs are as SetupOtherInputs leaves them, given the files of the upper level.
    ghost predicate SetUp(files0: seq<FileMeta>, pointer: InternalKey) {
      && FilesOk(level, files0) && FilesOk(level + 1, lower)
      && (forall f :: f in upper <==> f in files0) && (level > 0 ==> upper == files0)
      && Chosen(level, files0, inputs)
      && IsLargest(inputs, pointer) && (forall f :: f in files0 ==> !IsBoundary(f, pointer))
      && IsMerged(input, inputs, Selected(lower, UserRange(inputs)))
    }

    // The version is in order, and the snapshots to respect are below the sequence limit.
    ghost predicate InOrder() {
      && smallest < MAX_SEQUENCE
      && (forall lvl :: level + 2 <= lvl < |files| ==> LevelOk(files[lvl]))
      && NewerFirst(Before()) && Distinct(Union(Before()))
    }

    ghost predicate Changes(user: UserKey, snapshot: nat) {
      ValueOf(SearchInOrder(After(), user, snapshot)) != ValueOf(SearchInOrder(Before(), user, snapshot))
    }

    // The lower inputs end with a deletion of the key, and the file behind them holds an older value of it.
    ghost predicate Loses(user: UserKey) {
      Resurrects(files, level, smallest, input, Ahead(), Behind(), user)
    }
  }

  // The files of a sorted level that overlap the upper inputs split it as they should.
  lemma {:induction false} CountedSplit(lower: seq<FileMeta>, r: Range, a: nat)
    requires a <= |lower| && r.begin.Some?
    requires forall i :: 0 <= i < a ==> lower[i].largest.user < r.begin.value
    requires a < |lower| ==> lower[a].largest.user >= r.begin.value
    ensures CountBefore(lower, r) == a
  {
    if a > 0 {
      CountedSplit(lower[1..], r, a - 1);
    }
  }

  lemma SplitsLower(p: Plan, files0: seq<FileMeta>, pointer: InternalKey)
    requires p.SetUp(files0, pointer)
    ensures Split(p.lower, p.First(), p.End(), p.inputs)
    ensures p.lower[p.First()..p.End()] == Selected(p.lower, UserRange(p.inputs))
  {
    var r := UserRange(p.inputs);
    RangeNotEmpty(p.level, files0, p.inputs);
    var a, b := SelectedIsSlice(p.lower, r);
    if a < |p.lower| {
      UserOrder(p.lower);
      if a < b {
        assert p.lower[a..b][0] == p.lower[a];
        SelectedMembers(p.lower, r, p.lower[a]);
      }
    }
    CountedSplit(p.lower, r, a);
  }

  lemma SetUpStaysNewer(p: Plan, files0: seq<FileMeta>, pointer: InternalKey)
    requires p.SetUp(files0, pointer) && p.InOrder()
    ensures StaysNewer(Remaining(p.upper, p.inputs), p.inputs)
    ensures p.inputs != [] && forall f :: f in p.inputs ==> f in p.upper && FileOk(f)
  {
    FourInOrder(p.above, FileSources(p.upper), FileSources(p.lower), p.Deeper());
    forall f
      ensures f in Remaining(p.upper, p.inputs) <==> f in p.upper && f !in p.inputs
    {
      RemainingMembers(p.upper, p.inputs, f);
    }
    LeftBehindIsNewer(p.level, files0, p.inputs, pointer, Remaining(p.upper, p.inputs));
  }

  /** Merging the chosen inputs into one run changes no read; what stays behind them is older. */
  lemma MergedReads(p: Plan, files0: seq<FileMeta>, pointer: InternalKey, user: UserKey, snapshot: nat)
    requires p.SetUp(files0, pointer) && p.InOrder()
    ensures SearchInOrder(p.Ahead() + [p.input] + p.Behind() + p.Deeper(), user, snapshot)
         == SearchInOrder(p.Before(), user, snapshot)
    ensures Newer(p.input, Union(p.Behind()))
  {
    var (c, d) := (p.First(), p.End());
    var (o, l1, l2) := (FileSources(Remaining(p.upper, p.inputs)), FileSources(p.lower[..c]), p.Behind());
    SplitsLower(p, files0, pointer);
    SetUpStaysNewer(p, files0, pointer);
    hide Split, StaysNewer, IsMerged, NewerFirst, Newer, Distinct, Union, FileSources, Selected, CountBefore;
    PartsOfLevels(p.above, p.upper, p.inputs, p.lower, c, d, p.Deeper(), p.input);
    MergeInPlace(p.above, FileSources(p.upper), FileSources(p.lower), p.Deeper(), o, l1, p.input, l2, user, snapshot);
    Regroup(p.above, o, l1, p.input, l2, p.Deeper());
  }

  /** Selection, merge and drop rules together: some read of a user key at a snapshot still held changes if and only if
      the lower inputs end with a deletion of it that nothing newer hides, no deeper file covers it, and the file
      behind the inputs has an older value of it. */
  lemma ReadsChangeExactlyWhenLost(p: Plan, files0: seq<FileMeta>, pointer: InternalKey, user: UserKey)
    requires p.SetUp(files0, pointer) && p.InOrder()
    ensures (exists s: nat :: p.smallest <= s && p.Changes(user, s)) <==> p.Loses(user)
  {
    hide SearchInOrder, Resurrects, Newer, NewerFirst, Distinct, Union, FileSources, Kept;
    forall s: nat
      ensures p.Changes(user, s) <==> ReadChanges(p.files, p.level, p.smallest, p.input, p.Ahead(), p.Behind(), user, s)
    {
      MergedReads(p, files0, pointer, user, s);
    }
    MergedReads(p, files0, pointer, user, 0);
    ReadsChangeExactlyWhen(p.files, p.level, p.smallest, p.input, p.Ahead(), p.Behind(), user);
  }

  /** So a compaction whose lower inputs end between user keys changes no read at all. */
  lemma ChosenCompactionPreservesReads(p: Plan, files0: seq<FileMeta>, pointer: InternalKey, user: UserKey, snapshot: nat)
    requires p.SetUp(files0, pointer) && p.InOrder() && p.smallest <= snapshot
    requires LowerEndsCleanly(p.lower, p.First(), p.End())
    ensures ValueOf(SearchInOrder(p.After(), user, snapshot)) == ValueOf(SearchInOrder(p.Before(), user, snapshot))
  {
    ReadsChangeExactlyWhenLost(p, files0, pointer, user);
    if p.Loses(user) {
      var e := Newest(p.input, user, p.smallest).value;
      NewestIsMaximal(p.input, user, p.smallest);
      SplitsLower(p, files0, pointer);
      SetUpStaysNewer(p, files0, pointer);
      InputNotAfter(p.lower, p.First(), p.End(), p.inputs, p.input, e);
      SearchFindsNothing(p.Behind(), user, p.smallest);
      assert false;
    }
    assert !p.Changes(user, snapshot);
  }

  // ----- A compaction that loses a deletion

  const ALPHA: UserKey := 1.0
  const BETA: UserKey := 2.0

  function FileOf(number: nat, entries: seq<Entry>): FileMeta
    requires entries != []
  {
    FileMeta(number, 1, entries[0].key, entries[|entries| - 1].key, entries)
  }

  // A newer ALPHA comes down on a level whose files are cut between the deletion of BETA and its older value.
  function CutPlan(value: Bytes): Plan {
    var alpha := Entry(InternalKey(ALPHA, 9, TYPE_VALUE), value);
    var oldAlpha := Entry(InternalKey(ALPHA, 1, TYPE_VALUE), value);
    var deletion := Entry(InternalKey(BETA, 5, TYPE_DELETION), []);
    var oldBeta := Entry(InternalKey(BETA, 3, TYPE_VALUE), value);
    var upper := [FileOf(3, [alpha])];
    var lower := [FileOf(1, [oldAlpha, deletion]), FileOf(2, [oldBeta])];
    Plan(1, [], upper, upper, lower, [[], upper, lower, [], [], [], []], 10, [alpha, oldAlpha, deletion])
  }

  lemma CutPlanSelects(value: Bytes)
    ensures var p := CutPlan(value);
            && UserRange(p.inputs) == Range(Some(ALPHA), Some(ALPHA))
            && Selected(p.lower, UserRange(p.inputs)) == [p.lower[0]]
            && p.First() == 0 && p.End() == 1 && p.Behind() == [p.lower[1].entries]
            && Remaining(p.upper, p.inputs) == [] && p.Ahead() == [] && p.Deeper() == []
  {
    var p := CutPlan(value);
    var r := UserRange(p.inputs);
    assert p.lower[..1][..0] == [];
    assert p.lower[..1] == [p.lower[0]];
    assert Selected(p.lower[..1], r) == [p.lower[0]];
    assert p.upper[1..] == [];
    assert p.lower[1..] == [p.lower[1]];
    assert FileSources(p.lower[1..]) == [p.lower[1].entries];
    assert DeeperSources(p.files, 7) == [];
    assert DeeperSources(p.files, 6) == [];
    assert DeeperSources(p.files, 5) == [];
    assert DeeperSources(p.files, 4) == [];
    assert DeeperSources(p.files, 3) == [];
  }

  lemma CutLevelsAreOk(value: Bytes)
    ensures var p := CutPlan(value); LevelOk(p.upper) && LevelOk(p.lower) && Sorted(p.input)
  {
  }

  lemma CutPlanIsSetUp(value: Bytes)
    ensures var p := CutPlan(value); p.SetUp(p.upper, p.upper[0].largest)
  {
    hide Sorted, LevelOk, UserRange, Selected;
    var p := CutPlan(value);
    var u := p.upper[0];
    CutPlanSelects(value);
    CutLevelsAreOk(value);
    assert IsSlice(p.upper, p.inputs, 0, 1);
    assert p.inputs[0].largest == u.largest;
    assert forall e :: e in p.input <==> e in u.entries || e in p.lower[0].entries;
    forall e
      ensures e in p.input <==> Holds(p.inputs, e) || Holds([p.lower[0]], e)
    {
      assert u in p.inputs && p.lower[0] in [p.lower[0]];
    }
  }

  lemma CutPlanSources(value: Bytes)
    ensures var p := CutPlan(value);
            p.Before() == [p.upper[0].entries, p.lower[0].entries, p.lower[1].entries]
    ensures forall e :: e in Union(CutPlan(value).Before()) <==> e in CutPlan(value).input || e in CutPlan(value).lower[1].entries
  {
    var p := CutPlan(value);
    CutPlanSelects(value);
    var (a, b, c) := (p.upper[0].entries, p.lower[0].entries, p.lower[1].entries);
    assert p.Before() == [a, b, c];
    hide Plan.Before;
    forall e
      ensures e in Union([a, b, c]) <==> e in p.input || e in c
    {
      UnionMembers([a, b, c], e);
      assert e in p.input <==> e in [a, b, c][0] || e in [a, b, c][1];
      assert [a, b, c][2] == c;
    }
  }

  lemma NewerFirstThree(a: seq<Entry>, b: seq<Entry>, c: seq<Entry>)
    requires Newer(a, b) && Newer(a, c) && Newer(b, c)
    ensures NewerFirst([a, b, c])
  {
  }

  lemma CutPlanIsInOrder(value: Bytes)
    ensures CutPlan(value).InOrder()
  {
    hide NewerFirst, Union, Plan.Before, Plan.Deeper;
    var p := CutPlan(value);
    CutPlanSources(value);
    NewerFirstThree(p.upper[0].entries, p.lower[0].entries, p.lower[1].entries);
  }

  lemma CutPlanLoses(value: Bytes)
    ensures var p := CutPlan(value); p.Loses(BETA) && ValueOf(SearchInOrder(p.Behind(), BETA, 10)) == Some(value)
  {
    var p := CutPlan(value);
    CutPlanSelects(value);
    CutLevelsAreOk(value);
    NewestIsFirst(p.input, BETA, 10, 2);
    NewestIsFirst(p.lower[1].entries, BETA, 10, 0);
    assert p.Behind()[1..] == [];
  }

  /** The lower inputs are not extended by boundary files, so the condition does occur: on a version in order, with
      inputs as SetupOtherInputs chooses them, a deleted value comes back. */
  lemma CutUserKeyComesBack(value: Bytes)
    ensures var p := CutPlan(value);
            && p.SetUp(p.upper, p.upper[0].largest) && p.InOrder() && p.Loses(BETA)
            && ValueOf(SearchInOrder(p.Before(), BETA, 10)) == None
            && ValueOf(SearchInOrder(p.After(), BETA, 10)) == Some(value)
  {
    hide SearchInOrder, Plan.SetUp, Plan.InOrder, Sorted, Resurrects, Kept, Union, DeeperSources;
    var p := CutPlan(value);
    CutPlanIsSetUp(value);
    CutPlanIsInOrder(value);
    CutPlanLoses(value);
    CutLevelsAreOk(value);
    ResurrectedRead(p.files, p.level, p.smallest, p.input, p.Ahead(), p.Behind(), BETA);
    MergedReads(p, p.upper, p.upper[0].largest, BETA, 10);
  }

  // ----- What the compaction leaves behind

  ghost function EntriesOf(outs: seq<FileMeta>): seq<Entry> {
    if outs == [] then [] else outs[0].entries + EntriesOf(outs[1..])
  }

  // The outputs are finished tables that hold what was kept, one after the other.
  ghost predicate Finished(outs: seq<FileMeta>, kept: seq<Entry>) {
    && EntriesOf(outs) == kept
    && forall i :: 0 <= i < |outs| ==> |outs[i].entries| > 0 && outs[i].smallest == outs[i].entries[0].key
                                       && outs[i].largest == outs[i].entries[|outs[i].entries| - 1].key
  }

  lemma {:induction false} FinishedMembers(outs: seq<FileMeta>, e: Entry)
    ensures Holds(outs, e) <==> e in EntriesOf(outs)
  {
    if outs != [] {
      FinishedMembers(outs[1..], e);
      if Holds(outs, e) {
        var f :| f in outs && e in f.entries;
        assert f == outs[0] || f in outs[1..];
      }
      if Holds(outs[1..], e) {
        var f :| f in outs[1..] && e in f.entries;
        assert f in outs;
      }
      if e in outs[0].entries {
        assert outs[0] in outs;
      }
    }
  }

  // Behind the first file of a sorted run come larger keys only.
  lemma HeadIsBelow(head: seq<Entry>, rest: seq<Entry>, e: Entry)
    requires Sorted(head + rest) && AllParse(head + rest)
    ensures Sorted(head) && AllParse(head) && Sorted(rest) && AllParse(rest)
    ensures head != [] && e in rest ==> Less(head[|head| - 1].key, e.key)
  {
    var all := head + rest;
    assert forall i :: 0 <= i < |rest| ==> all[|head| + i] == rest[i];
    assert forall i :: 0 <= i < |head| ==> all[i] == head[i];
  }

  lemma {:induction false} FinishedLevel(outs: seq<FileMeta>, kept: seq<Entry>)
    requires Finished(outs, kept) && Sorted(kept) && AllParse(kept)
    ensures LevelOk(outs)
  {
    hide Sorted, AllParse;
    if outs != [] {
      var (head, tail) := (outs[0], outs[1..]);
      HeadIsBelow(head.entries, EntriesOf(tail), head.entries[0]);
      FinishedLevel(tail, EntriesOf(tail));
      forall j | 0 <= j < |tail|
        ensures Less(head.largest, tail[j].smallest)
      {
        assert tail[j] in tail && tail[j].entries[0] in tail[j].entries;
        FinishedMembers(tail, tail[j].entries[0]);
        HeadIsBelow(head.entries, EntriesOf(tail), tail[j].entries[0]);
      }
      LevelCons(head, tail);
    }
  }

  lemma LevelCons(head: FileMeta, tail: seq<FileMeta>)
    requires FileOk(head) && LevelOk(tail) && forall j :: 0 <= j < |tail| ==> Less(head.largest, tail[j].smallest)
    ensures LevelOk([head] + tail)
  {
    hide FileOk;
  }

  // Searching the files of a sorted run one after the other is searching the run.
  lemma {:induction false} SearchSplitRun(outs: seq<FileMeta>, kept: seq<Entry>, user: UserKey, snapshot: nat)
    requires EntriesOf(outs) == kept && Sorted(kept)
    ensures SearchInOrder(FileSources(outs), user, snapshot) == Newest(kept, user, snapshot)
  {
    if outs != [] {
      var (head, rest) := (outs[0].entries, EntriesOf(outs[1..]));
      assert FileSources(outs)[1..] == FileSources(outs[1..]);
      assert forall i :: 0 <= i < |rest| ==> kept[|head| + i] == rest[i];
      SearchSplitRun(outs[1..], rest, user, snapshot);
      NewestOfConcat(head, rest, user, snapshot);
      NewestIsMaximal(head, user, snapshot);
      NewestIsMaximal(rest, user, snapshot);
      var (a, b) := (Newest(head, user, snapshot), Newest(rest, user, snapshot));
      if a.Some? && b.Some? {
        var i :| 0 <= i < |head| && head[i] == a.value;
        var j :| 0 <= j < |rest| && rest[j] == b.value;
        assert Less(kept[i].key, kept[|head| + j].key);
      }
    }
  }

  // Where the keys of the inputs lie among the lower files that stay.
  lemma InputBetween(p: Plan, files0: seq<FileMeta>, pointer: InternalKey, e: Entry, i: nat)
    requires p.SetUp(files0, pointer) && e in p.input && i < |p.lower|
    ensures i < p.First() ==> Less(p.lower[i].largest, e.key)
    ensures p.End() <= i ==> Less(e.key, p.lower[i].smallest)
  {
    SplitsLower(p, files0, pointer);
    SetUpInputs(p, files0, pointer);
    hide Selected, Chosen, IsLargest, FilesOk, Plan.First, Plan.End, Plan.SetUp, FileOk;
    if Holds(p.inputs, e) {
      UpperBetween(p.lower, p.First(), p.End(), p.inputs, e, i);
    } else {
      LowerBetween(p.lower, p.First(), p.End(), e, i);
    }
  }

  lemma SetUpInputs(p: Plan, files0: seq<FileMeta>, pointer: InternalKey)
    requires p.SetUp(files0, pointer)
    ensures LevelOk(p.lower) && p.inputs != [] && forall f :: f in p.inputs ==> FileOk(f)
    ensures IsMerged(p.input, p.inputs, Selected(p.lower, UserRange(p.inputs)))
  {
  }

  lemma UpperBetween(lower: seq<FileMeta>, c: nat, d: nat, inputs: seq<FileMeta>, e: Entry, i: nat)
    requires inputs != [] && Split(lower, c, d, inputs) && Holds(inputs, e) && i < |lower|
    requires forall f :: f in inputs ==> FileOk(f)
    ensures i < c ==> Less(lower[i].largest, e.key)
    ensures d <= i ==> Less(e.key, lower[i].smallest)
  {
    var f :| f in inputs && e in f.entries;
    EntriesInRange(f, e);
    UserRangeBounds(inputs);
  }

  lemma LowerBetween(lower: seq<FileMeta>, c: nat, d: nat, e: Entry, i: nat)
    requires LevelOk(lower) && c <= d <= |lower| && Holds(lower[c..d], e) && i < |lower|
    ensures i < c ==> Less(lower[i].largest, e.key)
    ensures d <= i ==> Less(e.key, lower[i].smallest)
  {
    var h :| h in lower[c..d] && e in h.entries;
    var j :| c <= j < d && lower[j] == h;
    EntriesInRange(h, e);
  }

  function NewLower(p: Plan, outs: seq<FileMeta>): seq<FileMeta> {
    p.lower[..p.First()] + outs + p.lower[p.End()..]
  }

  // What is searched once the outputs are installed.
  function NewSources(p: Plan, outs: seq<FileMeta>): seq<seq<Entry>> {
    p.above + (FileSources(Remaining(p.upper, p.inputs)) + (FileSources(NewLower(p, outs)) + p.Deeper()))
  }

  lemma ParseWithin(xs: seq<Entry>, ys: seq<Entry>)
    requires AllParse(ys) && Within(xs, ys)
    ensures AllParse(xs)
  {
    assert forall i :: 0 <= i < |xs| ==> xs[i] in ys;
  }

  lemma OutputFacts(p: Plan, outs: seq<FileMeta>)
    requires Sorted(p.input) && AllParse(p.input) && Finished(outs, p.Output())
    ensures Sorted(p.Output()) && AllParse(p.Output()) && Within(p.Output(), p.input) && LevelOk(outs)
    ensures forall f :: f in outs ==> FileOk(f) && f.entries[0] in p.input && f.entries[|f.entries| - 1] in p.input
  {
    KeptSorted(p.files, p.level, p.smallest, p.input, |p.input|);
    assert p.input[..|p.input|] == p.input;
    ParseWithin(p.Output(), p.input);
    FinishedLevel(outs, p.Output());
    forall f | f in outs
      ensures f.entries[0] in p.input && f.entries[|f.entries| - 1] in p.input
    {
      assert f.entries[0] in f.entries && f.entries[|f.entries| - 1] in f.entries;
      FinishedMembers(outs, f.entries[0]);
      FinishedMembers(outs, f.entries[|f.entries| - 1]);
    }
  }

  /** The outputs take the place of the lower inputs: the level is sorted and without overlap again. */
  lemma NewLevelIsOk(p: Plan, files0: seq<FileMeta>, pointer: InternalKey, outs: seq<FileMeta>)
    requires p.SetUp(files0, pointer) && Finished(outs, p.Output())
    ensures LevelOk(NewLower(p, outs))
  {
    hide Plan.First, Plan.End, Plan.SetUp, FileOk, Plan.Output, LevelOk, Sorted, AllParse, Finished, Within, Holds, IsMerged;
    SetUpInputs(p, files0, pointer);
    MergedIsSorted(p.input, p.inputs, Selected(p.lower, UserRange(p.inputs)));
    OutputFacts(p, outs);
    var (l1, l2) := (p.lower[..p.First()], p.lower[p.End()..]);
    forall k: nat, i: nat | k < |outs| && i < |p.lower|
      ensures i < p.First() ==> Less(p.lower[i].largest, outs[k].smallest)
      ensures p.End() <= i ==> Less(outs[k].largest, p.lower[i].smallest)
    {
      OutputBetween(p, files0, pointer, outs[k], i);
    }
    LevelParts(p.lower, p.First(), p.End());
    JoinThree(l1, outs, l2);
  }

  lemma OutputBetween(p: Plan, files0: seq<FileMeta>, pointer: InternalKey, f: FileMeta, i: nat)
    requires p.SetUp(files0, pointer) && i < |p.lower| && FileOk(f)
    requires f.entries[0] in p.input && f.entries[|f.entries| - 1] in p.input
    ensures i < p.First() ==> Less(p.lower[i].largest, f.smallest)
    ensures p.End() <= i ==> Less(f.largest, p.lower[i].smallest)
  {
    hide Plan.First, Plan.End, Plan.SetUp;
    InputBetween(p, files0, pointer, f.entries[0], i);
    InputBetween(p, files0, pointer, f.entries[|f.entries| - 1], i);
  }

  lemma LevelParts(files: seq<FileMeta>, c: nat, d: nat)
    requires LevelOk(files) && c <= d <= |files|
    ensures LevelOk(files[..c]) && LevelOk(files[d..])
    ensures forall i: nat, j: nat :: i < c && d <= j < |files| ==> Less(files[i].largest, files[j].smallest)
  {
    hide FileOk;
  }

  lemma MergedIsSorted(input: seq<Entry>, inputs0: seq<FileMeta>, inputs1: seq<FileMeta>)
    requires IsMerged(input, inputs0, inputs1)
    ensures Sorted(input) && AllParse(input)
  {
  }

  lemma JoinThree(xs: seq<FileMeta>, ys: seq<FileMeta>, zs: seq<FileMeta>)
    requires LevelOk(xs) && LevelOk(ys) && LevelOk(zs)
    requires forall i, j :: 0 <= i < |xs| && 0 <= j < |ys| ==> Less(xs[i].largest, ys[j].smallest)
    requires forall i, j :: 0 <= i < |ys| && 0 <= j < |zs| ==> Less(ys[i].largest, zs[j].smallest)
    requires forall i, j :: 0 <= i < |xs| && 0 <= j < |zs| ==> Less(xs[i].largest, zs[j].smallest)
    ensures LevelOk(xs + ys + zs)
  {
    LevelJoin(xs, ys);
    LevelJoin(xs + ys, zs);
  }

  lemma LevelJoin(xs: seq<FileMeta>, ys: seq<FileMeta>)
    requires LevelOk(xs) && LevelOk(ys)
    requires forall i, j :: 0 <= i < |xs| && 0 <= j < |ys| ==> Less(xs[i].largest, ys[j].smallest)
    ensures LevelOk(xs + ys)
  {
    hide FileOk;
  }

  lemma {:induction false} OutputsNewerFirst(outs: seq<FileMeta>, kept: seq<Entry>)
    requires EntriesOf(outs) == kept && Sorted(kept) && AllParse(kept) && Distinct(kept)
    ensures NewerFirst(FileSources(outs)) && Union(FileSources(outs)) == kept
  {
    if outs != [] {
      var (head, rest) := (outs[0].entries, EntriesOf(outs[1..]));
      assert FileSources(outs) == [head] + FileSources(outs[1..]);
      assert forall i :: 0 <= i < |rest| ==> kept[|head| + i] == rest[i];
      OutputsNewerFirst(outs[1..], rest);
      OneRun(head);
      SortedIsNewer(head, rest);
      UnionConcat([head], FileSources(outs[1..]));
      NewerFirstJoin([head], FileSources(outs[1..]));
    }
  }

  // In a sorted run with distinct sequence numbers the older entries of a user key come later.
  lemma SortedIsNewer(head: seq<Entry>, rest: seq<Entry>)
    requires Sorted(head + rest) && AllParse(head + rest) && Distinct(head + rest)
    ensures Newer(head, rest)
  {
    var all := head + rest;
    forall a, b | a in head && b in rest && a.key.user == b.key.user
      ensures a.key.sn > b.key.sn
    {
      var i :| 0 <= i < |head| && head[i] == a;
      var j :| 0 <= j < |rest| && rest[j] == b;
      assert Less(all[i].key, all[|head| + j].key);
      assert all[i] in all && all[|head| + j] in all;
    }
  }

  lemma FewerStayDistinct(a: seq<Entry>, u: seq<Entry>, l: seq<Entry>, z: seq<Entry>, o: seq<Entry>, l1: seq<Entry>,
                          kept: seq<Entry>, l2: seq<Entry>)
    requires Distinct(a + (u + (l + z)))
    requires Within(o, u) && Within(l1, l) && Within(l2, l) && Within(kept, u + l)
    ensures Distinct(kept) && Distinct(a + (o + (l1 + (kept + (l2 + z)))))
  {
    assert Within(kept, a + (u + (l + z)));
    assert Within(a + (o + (l1 + (kept + (l2 + z)))), a + (u + (l + z)));
  }

  lemma FewerStayNewer(o: seq<Entry>, l1: seq<Entry>, input: seq<Entry>, l2: seq<Entry>, kept: seq<Entry>)
    requires Within(kept, input) && Newer(o, input) && Newer(l1, input) && Newer(input, l2)
    ensures Newer(o, kept) && Newer(l1, kept) && Newer(kept, l2)
  {
  }

  lemma NewSourcesParts(p: Plan, outs: seq<FileMeta>)
    ensures NewSources(p, outs)
         == p.above + (FileSources(Remaining(p.upper, p.inputs)) + (FileSources(p.lower[..p.First()])
              + (FileSources(outs) + (p.Behind() + p.Deeper()))))
  {
    var (l1, run, l2) := (FileSources(p.lower[..p.First()]), FileSources(outs), p.Behind());
    assert FileSources(NewLower(p, outs)) == l1 + run + l2;
    assert l1 + run + l2 + p.Deeper() == l1 + (run + (l2 + p.Deeper()));
  }

  /** The new version is in order again, so that what is proved about one compaction applies to the next one. */
  lemma NewVersionIsInOrder(p: Plan, files0: seq<FileMeta>, pointer: InternalKey, outs: seq<FileMeta>)
    requires p.SetUp(files0, pointer) && p.InOrder() && Finished(outs, p.Output())
    ensures NewerFirst(NewSources(p, outs)) && Distinct(Union(NewSources(p, outs)))
  {
    var (c, d) := (p.First(), p.End());
    var (u, l, z) := (FileSources(p.upper), FileSources(p.lower), p.Deeper());
    var (o, l1, l2) := (FileSources(Remaining(p.upper, p.inputs)), FileSources(p.lower[..c]), p.Behind());
    var kept := p.Output();
    SplitsLower(p, files0, pointer);
    SetUpStaysNewer(p, files0, pointer);
    OutputFacts(p, outs);
    PartsOfLevels(p.above, p.upper, p.inputs, p.lower, c, d, z, p.input);
    FourInOrder(p.above, u, l, z);
    NewVersionParts(p.above, u, l, z, o, l1, p.input, l2, outs, kept);
    NewSourcesParts(p, outs);
  }

  lemma NewVersionParts(a: seq<seq<Entry>>, u: seq<seq<Entry>>, l: seq<seq<Entry>>, z: seq<seq<Entry>>,
                        o: seq<seq<Entry>>, l1: seq<seq<Entry>>, input: seq<Entry>, l2: seq<seq<Entry>>,
                        outs: seq<FileMeta>, kept: seq<Entry>)
    requires NewerFirst(a + (u + (l + z))) && Distinct(Union(a + (u + (l + z))))
    requires NewerFirst(o) && NewerFirst(l1) && NewerFirst(l2)
    requires Newer(Union(o), input) && Newer(Union(l1), input) && Newer(Union(l1), Union(l2))
    requires Newer(input, Union(l2))
    requires forall e :: e in Union(u) + Union(l) <==> e in Union(o) + (Union(l1) + (input + Union(l2)))
    requires Within(Union(o), Union(u)) && Within(Union(l1), Union(l)) && Within(Union(l2), Union(l))
    requires EntriesOf(outs) == kept && Sorted(kept) && AllParse(kept) && Within(kept, input)
    ensures var all := a + (o + (l1 + (FileSources(outs) + (l2 + z))));
            NewerFirst(all) && Distinct(Union(all))
  {
    hide NewerFirst, Union, FileSources, Newer, Distinct, Sorted, AllParse;
    var (ua, uu, ul, uz) := (Union(a), Union(u), Union(l), Union(z));
    FourInOrder(a, u, l, z);
    assert Within(kept, uu + ul);
    FewerStayNewer(Union(o), Union(l1), input, Union(l2), kept);
    FewerStayDistinct(ua, uu, ul, uz, Union(o), Union(l1), kept, Union(l2));
    OutputsNewerFirst(outs, kept);
    PartsInOrder(ua, uu, ul, uz, Union(o), Union(l1), kept, Union(l2));
    SixInOrder(a, o, l1, FileSources(outs), l2, z);
  }

  /** Reading through the installed files is reading through what was kept. */
  lemma NewVersionReads(p: Plan, outs: seq<FileMeta>, user: UserKey, snapshot: nat)
    requires EntriesOf(outs) == p.Output() && Sorted(p.Output())
    ensures SearchInOrder(NewSources(p, outs), user, snapshot) == SearchInOrder(p.After(), user, snapshot)
  {
    var (o, l1, run) := (FileSources(Remaining(p.upper, p.inputs)), FileSources(p.lower[..p.First()]), FileSources(outs));
    var rest := p.Behind() + p.Deeper();
    NewSourcesParts(p, outs);
    assert NewSources(p, outs) == p.Ahead() + (run + rest);
    assert p.After() == p.Ahead() + ([p.Output()] + rest);
    SearchSplitRun(outs, p.Output(), user, snapshot);
    SearchConcat(p.Ahead(), run + rest, user, snapshot);
    SearchConcat(p.Ahead(), [p.Output()] + rest, user, snapshot);
    SearchConcat(run, rest, user, snapshot);
    assert ([p.Output()] + rest)[1..] == rest;
  }
}
