/** The user-visible iterator (db/db_iter.cc): it shows exactly the snapshot map, in both directions. */
module DbIter {
  import opened Wrappers
  import opened DbFormat
  import opened InternalIterator

  // The map a snapshot stands for: each user key with its newest value, deleted keys left out.
  ghost function Snapshot(es: seq<Entry>, s: nat): map<UserKey, Bytes> {
    map u | u in (set e | e in es :: e.key.user) && Read(es, u, s).Some? :: Read(es, u, s).value
  }

  // The entry can be read at the snapshot at all.
  predicate Live(es: seq<Entry>, s: nat, i: nat)
    requires i < |es|
  {
    es[i].key.Parses() && es[i].key.sn <= s
  }

  // Entry j is the one that speaks for its user key, and it holds a value.
  ghost predicate Yields(es: seq<Entry>, s: nat, j: nat)
    requires j < |es|
  {
    && Live(es, s, j) && es[j].key.kind == TYPE_VALUE
    && forall i :: 0 <= i < j && Live(es, s, i) ==> es[i].key.user != es[j].key.user
  }

  ghost predicate YieldsBinding(es: seq<Entry>, s: nat, y: nat, user: UserKey, value: Bytes) {
    y < |es| && Yields(es, s, y) && es[y].key.user == user && es[y].value == value
  }

  // The snapshot map lists exactly the yielding entries.
  lemma YieldIsInSnapshot(es: seq<Entry>, s: nat, j: nat)
    requires Sorted(es) && j < |es| && Yields(es, s, j)
    ensures es[j].key.user in Snapshot(es, s) && Snapshot(es, s)[es[j].key.user] == es[j].value
  {
    NewestIsFirst(es, es[j].key.user, s, j);
    assert es[j] in es;
  }

  lemma SnapshotIsYielded(es: seq<Entry>, s: nat, u: UserKey) returns (j: nat)
    requires Sorted(es) && u in Snapshot(es, s)
    ensures j < |es| && Yields(es, s, j) && es[j].key.user == u && es[j].value == Snapshot(es, s)[u]
  {
    NewestIsMaximal(es, u, s);
    var e := Newest(es, u, s).value;
    j :| 0 <= j < |es| && es[j] == e;
    var first: nat := 0;
    while !Visible(es[first].key, u, s)
      invariant first <= j
      invariant forall i :: 0 <= i < first ==> !Visible(es[i].key, u, s)
      decreases j - first
    {
      first := first + 1;
    }
    NewestIsFirst(es, u, s, first);
    j := first;
  }

  // Entries from p on that share a user key with a live entry before p are covered by the key to skip, and no
  // live entry from p on is below that key.
  ghost predicate SkipsCover(es: seq<Entry>, s: nat, p: nat, skip: Option<UserKey>)
    requires p <= |es|
  {
    && (forall i, j :: 0 <= i < p <= j < |es| && Live(es, s, i) && Live(es, s, j) && es[i].key.user == es[j].key.user
          ==> skip.Some? && es[j].key.user <= skip.value)
    && (forall j :: p <= j < |es| && Live(es, s, j) && skip.Some? ==> es[j].key.user >= skip.value)
  }

  predicate Hides(skip: Option<UserKey>, user: UserKey) {
    skip.Some? && user <= skip.value
  }

  // Where a forward scan from p that hides `skip` stops: at a live value that is not hidden, or at the end.
  function Scan(es: seq<Entry>, s: nat, p: nat, skip: Option<UserKey>): (stop: nat)
    requires p <= |es|
    ensures p <= stop <= |es|
    decreases |es| - p
  {
    if p == |es| then p
    else
      var k := es[p].key;
      if !Live(es, s, p) then Scan(es, s, p + 1, skip)
      else if k.kind == TYPE_DELETION then Scan(es, s, p + 1, Some(k.user))
      else if Hides(skip, k.user) then Scan(es, s, p + 1, skip)
      else p
  }

  // It stops at the first yield that was not hidden to begin with.
  lemma {:induction false} ScanStopsAtYield(es: seq<Entry>, s: nat, p: nat, skip: Option<UserKey>)
    requires Sorted(es) && p <= |es| && SkipsCover(es, s, p, skip)
    ensures var stop := Scan(es, s, p, skip);
            && (stop < |es| ==> Yields(es, s, stop) && !Hides(skip, es[stop].key.user))
            && forall j :: p <= j < stop && Yields(es, s, j) ==> Hides(skip, es[j].key.user)
    decreases |es| - p
  {
    if p < |es| {
      var k := es[p].key;
      if Live(es, s, p) && k.kind == TYPE_VALUE && !Hides(skip, k.user) {
        assert Yields(es, s, p);
      } else {
        var skip' := if Live(es, s, p) && k.kind == TYPE_DELETION then Some(k.user) else skip;
        CoverStep(es, s, p, skip);
        ScanStopsAtYield(es, s, p + 1, skip');
        forall j | p < j < |es|
          ensures es[j].key.user >= k.user
        {
          assert Less(k, es[j].key);
        }
      }
    }
  }

  lemma CoverStep(es: seq<Entry>, s: nat, p: nat, skip: Option<UserKey>)
    requires Sorted(es) && p < |es| && SkipsCover(es, s, p, skip)
    requires Live(es, s, p) ==> es[p].key.kind == TYPE_DELETION || Hides(skip, es[p].key.user)
    ensures SkipsCover(es, s, p + 1,
                       if Live(es, s, p) && es[p].key.kind == TYPE_DELETION then Some(es[p].key.user) else skip)
  {
    forall j | p < j < |es|
      ensures es[j].key.user >= es[p].key.user
    {
      assert Less(es[p].key, es[j].key);
    }
  }

  // The lookup key separates the live entries by user key, although it sorts among the entries of its own user key.
  lemma SeekBoundary(es: seq<Entry>, s: nat, target: UserKey, at: nat)
    requires IsLowerBound(es, LookupKey(target, s), at)
    ensures Separates(es, s, at, target)
  {
    forall i | 0 <= i < at && Live(es, s, i)
      ensures es[i].key.user < target
    {
      assert Less(es[i].key, LookupKey(target, s));
    }
  }

  // Live entries before h have smaller user keys, those from h on do not.
  ghost predicate Separates(es: seq<Entry>, s: nat, h: nat, user: UserKey)
    requires h <= |es|
  {
    && (forall i :: 0 <= i < h && Live(es, s, i) ==> es[i].key.user < user)
    && (forall i :: h <= i < |es| && Live(es, s, i) ==> es[i].key.user >= user)
  }

  // What a backward scan holds: nothing, or the entry that speaks for the least key met so far.
  datatype Held = Nothing | Holding(at: nat)

  // One step of a backward scan, taking in entry i.
  function TakeIn(es: seq<Entry>, s: nat, i: nat, held: Held): Held
    requires i < |es|
  {
    if !Live(es, s, i) then held
    else if es[i].key.kind == TYPE_DELETION then Nothing
    else Holding(i)
  }

  // A live entry of a smaller key shows that the held key is complete.
  predicate Complete(es: seq<Entry>, s: nat, i: nat, held: Held)
    requires i < |es|
  {
    Live(es, s, i) && held.Holding? && held.at < |es| && es[i].key.user < es[held.at].key.user
  }

  // Where a backward scan of the entries before h stops, and what it holds then.
  function GatherEnd(es: seq<Entry>, s: nat, h: nat, held: Held): (low: nat)
    requires h <= |es|
    ensures low <= h
  {
    if h == 0 || Complete(es, s, h - 1, held) then h
    else GatherEnd(es, s, h - 1, TakeIn(es, s, h - 1, held))
  }

  function GatherHeld(es: seq<Entry>, s: nat, h: nat, held: Held): Held
    requires h <= |es|
  {
    if h == 0 || Complete(es, s, h - 1, held) then held
    else GatherHeld(es, s, h - 1, TakeIn(es, s, h - 1, held))
  }

  // One step of both.
  lemma GatherUnfolds(es: seq<Entry>, s: nat, h: nat, held: Held)
    requires 0 < h <= |es|
    ensures var next := TakeIn(es, s, h - 1, held);
            && GatherEnd(es, s, h, held) == (if Complete(es, s, h - 1, held) then h else GatherEnd(es, s, h - 1, next))
            && GatherHeld(es, s, h, held) == if Complete(es, s, h - 1, held) then held else GatherHeld(es, s, h - 1, next)
  {
  }

  // Of the entries in [h, top): with nothing held none yields; a held entry is the least live one, and no entry
  // after it yields.
  ghost predicate Gathering(es: seq<Entry>, s: nat, top: nat, h: nat, held: Held)
    requires h <= top <= |es|
  {
    match held
    case Nothing => forall j :: h <= j < top ==> !Yields(es, s, j)
    case Holding(g) =>
      && h <= g < top && Live(es, s, g) && es[g].key.kind == TYPE_VALUE
      && (forall j :: h <= j < g ==> !Live(es, s, j))
      && (forall j :: g < j < top ==> !Yields(es, s, j))
  }

  lemma GatherStep(es: seq<Entry>, s: nat, top: nat, h: nat, held: Held)
    requires Sorted(es) && 0 < h <= top <= |es| && Gathering(es, s, top, h, held) && !Complete(es, s, h - 1, held)
    ensures Gathering(es, s, top, h - 1, TakeIn(es, s, h - 1, held))
  {
    if Live(es, s, h - 1) && held.Holding? {
      assert Less(es[h - 1].key, es[held.at].key);
    }
  }

  lemma {:induction false} GatherHolds(es: seq<Entry>, s: nat, top: nat, h: nat, held: Held)
    requires Sorted(es) && h <= top <= |es| && Gathering(es, s, top, h, held)
    ensures var h' := GatherEnd(es, s, h, held);
            var held' := GatherHeld(es, s, h, held);
            Gathering(es, s, top, h', held') && (h' > 0 ==> Complete(es, s, h' - 1, held'))
    decreases h
  {
    if h > 0 && !Complete(es, s, h - 1, held) {
      GatherStep(es, s, top, h, held);
      GatherHolds(es, s, top, h - 1, TakeIn(es, s, h - 1, held));
    }
  }

  // Where a backward scan from `top` ends: no yield before top, or the greatest one and its key's boundary.
  lemma GatherResult(es: seq<Entry>, s: nat, top: nat)
    requires Sorted(es) && top <= |es|
    ensures var h := GatherEnd(es, s, top, Nothing);
            var held := GatherHeld(es, s, top, Nothing);
            && (held.Nothing? ==> forall y :: 0 <= y < top ==> !Yields(es, s, y))
            && (held.Holding? ==>
                  && held.at < top && Yields(es, s, held.at) && Separates(es, s, h, es[held.at].key.user)
                  && forall y :: 0 <= y < top && Yields(es, s, y) ==> es[y].key.user <= es[held.at].key.user)
  {
    GatherHolds(es, s, top, top, Nothing);
    var h, held := GatherEnd(es, s, top, Nothing), GatherHeld(es, s, top, Nothing);
    if held.Holding? {
      var g := held.at;
      forall i | 0 <= i < h
        ensures es[i].key.user < es[g].key.user
      {
        assert i < h - 1 ==> Less(es[i].key, es[h - 1].key);
      }
      forall i | g < i < |es|
        ensures es[i].key.user >= es[g].key.user
      {
        assert Less(es[g].key, es[i].key);
      }
    }
  }

  // Positions of a cursor over a map; None is the invalid position.
  ghost predicate IsFirst(m: map<UserKey, Bytes>, r: Option<UserKey>) {
    match r
    case None => m == map[]
    case Some(u) => u in m && forall k :: k in m ==> u <= k
  }

  ghost predicate IsLast(m: map<UserKey, Bytes>, r: Option<UserKey>) {
    match r
    case None => m == map[]
    case Some(u) => u in m && forall k :: k in m ==> k <= u
  }

  ghost predicate IsFirstFrom(m: map<UserKey, Bytes>, target: UserKey, r: Option<UserKey>) {
    match r
    case None => forall k :: k in m ==> k < target
    case Some(u) => u in m && target <= u && forall k :: k in m && target <= k ==> u <= k
  }

  ghost predicate IsNext(m: map<UserKey, Bytes>, from: UserKey, r: Option<UserKey>) {
    match r
    case None => forall k :: k in m ==> k <= from
    case Some(u) => u in m && from < u && forall k :: k in m && from < k ==> u <= k
  }

  ghost predicate IsPrev(m: map<UserKey, Bytes>, from: UserKey, r: Option<UserKey>) {
    match r
    case None => forall k :: k in m ==> k >= from
    case Some(u) => u in m && u < from && forall k :: k in m && k < from ==> k <= u
  }

  datatype Direction = Forward | Reverse

  class DBIter {
    const iter: Cursor
    const sequence: nat
    var direction: Direction
    var valid: bool
    var corrupt: bool
    var savedKey: Option<UserKey>
    var savedValue: Bytes

    ghost function View(): map<UserKey, Bytes> {
      Snapshot(iter.entries, sequence)
    }

    // Number of entries not beyond the internal cursor, with the off-the-front position counted as zero.
    ghost function Below(): nat
      reads this, iter
      requires iter.pos <= |iter.entries|
    {
      if iter.pos == |iter.entries| then 0 else iter.pos + 1
    }

    // A corruption is reported only if some key does not parse.
    ghost predicate CorruptOk()
      reads this
    {
      corrupt ==> !AllParse(iter.entries)
    }

    ghost predicate Ok()
      reads this, iter
    {
      var es := iter.entries;
      && iter.Ok()
      && CorruptOk()
      && (valid && direction == Forward ==> iter.Valid() && Yields(es, sequence, iter.pos))
      && (valid && direction == Reverse ==>
            && savedKey.Some? && Separates(es, sequence, Below(), savedKey.value)
            && exists y: nat :: YieldsBinding(es, sequence, y, savedKey.value, savedValue))
    }

    function Key(): UserKey
      reads this, iter
      requires valid && (if direction == Forward then iter.Valid() else savedKey.Some?)
    {
      if direction == Forward then iter.Key().user else savedKey.value
    }

    function Value(): Bytes
      reads this, iter
      requires valid && (if direction == Forward then iter.Valid() else savedKey.Some?)
    {
      if direction == Forward then iter.Value() else savedValue
    }

    constructor (iter: Cursor, sequence: nat)
      requires iter.Ok()
      ensures Ok() && !valid && this.iter == iter && this.sequence == sequence
    {
      this.iter, this.sequence := iter, sequence;
      direction, valid, corrupt, savedKey, savedValue := Forward, false, false, None, [];
    }

    // Whatever the direction, a valid iterator shows a binding of the snapshot map.
    lemma ShowsBinding()
      requires Ok() && valid
      ensures Key() in View() && View()[Key()] == Value()
    {
      if direction == Forward {
        YieldIsInSnapshot(iter.entries, sequence, iter.pos);
      } else {
        var y: nat :| YieldsBinding(iter.entries, sequence, y, savedKey.value, savedValue);
        YieldIsInSnapshot(iter.entries, sequence, y);
      }
    }

    // The internal cursor ends where the scan from it stops.
    method FindNextUserEntry(skipping: bool)
      requires iter.Ok() && iter.Valid() && direction == Forward && CorruptOk()
      requires skipping ==> savedKey.Some?
      modifies this, iter
      ensures iter.Ok() && direction == Forward && CorruptOk()
      ensures iter.pos == Scan(iter.entries, sequence, old(iter.pos), if skipping then old(savedKey) else None)
      ensures valid <==> iter.Valid()
    {
      ghost var stop := Scan(iter.entries, sequence, iter.pos, if skipping then savedKey else None);
      var skipping := skipping;
      while true
        invariant iter.Ok() && iter.Valid() && direction == Forward && CorruptOk()
        invariant skipping ==> savedKey.Some?
        invariant stop == Scan(iter.entries, sequence, iter.pos, if skipping then savedKey else None)
        decreases |iter.entries| - iter.pos
      {
        var ikey := iter.Key();
        var parsed := ParseKey();
        if parsed && ikey.sn <= sequence {
          if ikey.kind == TYPE_DELETION {
            savedKey := Some(ikey.user);
            skipping := true;
          } else if skipping && ikey.user <= savedKey.value {
            // Entry hidden
          } else {
            valid := true;
            savedKey := None;
            return;
          }
        }
        iter.Next();
        if !iter.Valid() {
          break;
        }
      }
      savedKey := None;
      valid := false;
    }

    // The internal cursor ends where the backward scan from it stops; the held entry is saved.
    method FindPrevUserEntry()
      requires iter.Ok() && direction == Reverse && CorruptOk()
      modifies this, iter
      ensures iter.Ok() && CorruptOk()
      ensures Below() == GatherEnd(iter.entries, sequence, old(Below()), Nothing)
      ensures var held := GatherHeld(iter.entries, sequence, old(Below()), Nothing);
              && (valid <==> held.Holding?)
              && direction == (if valid then Reverse else Forward)
              && (valid ==> held.at < |iter.entries| && savedKey == Some(iter.entries[held.at].key.user)
                            && savedValue == iter.entries[held.at].value)
    {
      hide Sorted;
      var es := iter.entries;
      ghost var h := Below();
      ghost var end, goal := GatherEnd(es, sequence, h, Nothing), GatherHeld(es, sequence, h, Nothing);
      var valueType: nat := TYPE_DELETION;
      ghost var held := Nothing;
      while iter.Valid()
        invariant iter.Ok() && direction == Reverse && CorruptOk() && h == Below()
        invariant end == GatherEnd(es, sequence, h, held) && goal == GatherHeld(es, sequence, h, held)
        invariant valueType == if held.Holding? then TYPE_VALUE else TYPE_DELETION
        invariant held.Holding? ==> held.at < |es| && savedKey == Some(es[held.at].key.user)
                                    && savedValue == es[held.at].value
        decreases h
      {
        ghost var next := TakeIn(es, sequence, h - 1, held);
        GatherUnfolds(es, sequence, h, held);
        var ikey := iter.Key();
        var parsed := ParseKey();
        if parsed && ikey.sn <= sequence {
          if valueType != TYPE_DELETION && ikey.user < savedKey.value {
            break;
          }
          valueType := ikey.kind;
          if valueType == TYPE_DELETION {
            savedKey, savedValue := None, [];
          } else {
            savedKey, savedValue := Some(ikey.user), iter.Value();
          }
        }
        iter.Prev();
        h, held := h - 1, next;
      }
      if valueType == TYPE_DELETION {
        valid, savedKey, savedValue, direction := false, None, [], Forward;
      } else {
        valid := true;
      }
    }

    method ParseKey() returns (ok: bool)
      requires iter.Valid() && CorruptOk()
      modifies this`corrupt
      ensures ok <==> iter.Key().Parses()
      ensures CorruptOk() && (corrupt <==> old(corrupt) || !ok)
    {
      ok := iter.Key().Parses();
      if !ok {
        corrupt := true;
      }
    }

    ghost function Position(): Option<UserKey>
      reads this, iter
      requires Ok()
    {
      if valid then Some(Key()) else None
    }

    // Every key of the snapshot is yielded somewhere; the caller says on which side of the cursor.
    lemma YieldOf(u: UserKey) returns (j: nat)
      requires Sorted(iter.entries) && u in View()
      ensures j < |iter.entries| && Yields(iter.entries, sequence, j) && iter.entries[j].key.user == u
    {
      j := SnapshotIsYielded(iter.entries, sequence, u);
    }

    lemma UserOrder(i: nat, j: nat)
      requires Sorted(iter.entries) && i <= j < |iter.entries|
      ensures iter.entries[i].key.user <= iter.entries[j].key.user
    {
      assert i < j ==> Less(iter.entries[i].key, iter.entries[j].key);
    }

    method Next()
      requires Ok() && valid
      modifies this, iter
      ensures Ok() && IsNext(View(), old(Key()), Position())
    {
      ghost var from := Key();
      if direction == Reverse {
        direction := Forward;
        if !iter.Valid() {
          iter.SeekToFirst();
        } else {
          iter.Next();
        }
        // The entries of the current key follow, so the source's test for the end never fires here.
        assert iter.Valid();
      } else {
        savedKey := Some(iter.Key().user);
        forall j | iter.pos <= j < |iter.entries|
          ensures iter.entries[j].key.user >= from
        {
          UserOrder(iter.pos, j);
        }
      }
      ghost var start := iter.pos;
      ScanStopsAtYield(iter.entries, sequence, iter.pos, savedKey);
      FindNextUserEntry(true);
      forall u | u in View() && from < u
        ensures valid && iter.Key().user <= u
      {
        var j := YieldOf(u);
        assert start <= j;
        UserOrder(iter.pos, j);
      }
      if valid {
        ShowsBinding();
      }
    }

    method Prev()
      requires Ok() && valid
      modifies this, iter
      ensures Ok() && IsPrev(View(), old(Key()), Position())
    {
      hide Snapshot, GatherEnd, GatherHeld;
      ghost var from := Key();
      if direction == Forward {
        savedKey := Some(iter.Key().user);
        while true
          invariant iter.Ok() && iter.Valid() && direction == Forward && savedKey == Some(from)
          invariant CorruptOk()
          invariant forall i :: iter.pos <= i < |iter.entries| ==> iter.entries[i].key.user >= from
          decreases iter.pos
        {
          iter.Prev();
          if !iter.Valid() {
            valid := false;
            savedKey := None;
            savedValue := [];
            forall u | u in View()
              ensures u >= from
            {
              var j := YieldOf(u);
            }
            return;
          }
          if iter.Key().user < savedKey.value {
            break;
          }
        }
        direction := Reverse;
      }
      ghost var top := Below();
      GatherResult(iter.entries, sequence, top);
      FindPrevUserEntry();
      forall u | u in View() && u < from
        ensures valid && u <= savedKey.value
      {
        var j := YieldOf(u);
        assert j < top;
      }
      if valid {
        ghost var g := GatherHeld(iter.entries, sequence, top, Nothing).at;
        assert YieldsBinding(iter.entries, sequence, g, savedKey.value, savedValue);
        ShowsBinding();
      }
    }

    method Seek(target: UserKey)
      requires Ok()
      modifies this, iter
      ensures Ok() && IsFirstFrom(View(), target, Position())
    {
      direction := Forward;
      savedValue := [];
      savedKey := None;
      iter.Seek(LookupKey(target, sequence));
      SeekBoundary(iter.entries, sequence, target, iter.pos);
      if iter.Valid() {
        ScanStopsAtYield(iter.entries, sequence, iter.pos, None);
        FindNextUserEntry(false);
      } else {
        valid := false;
      }
      forall u | u in View() && target <= u
        ensures valid && iter.Key().user <= u
      {
        var j := YieldOf(u);
        UserOrder(iter.pos, j);
      }
      if valid {
        ShowsBinding();
      }
    }

    method SeekToFirst()
      requires Ok()
      modifies this, iter
      ensures Ok() && IsFirst(View(), Position())
    {
      direction := Forward;
      savedValue := [];
      iter.SeekToFirst();
      if iter.Valid() {
        ScanStopsAtYield(iter.entries, sequence, iter.pos, None);
        FindNextUserEntry(false);
      } else {
        valid := false;
      }
      forall u | u in View()
        ensures valid && iter.Key().user <= u
      {
        var j := YieldOf(u);
        UserOrder(iter.pos, j);
      }
      if valid {
        ShowsBinding();
      }
    }

    method SeekToLast()
      requires Ok()
      modifies this, iter
      ensures Ok() && IsLast(View(), Position())
    {
      direction := Reverse;
      savedValue := [];
      iter.SeekToLast();
      GatherResult(iter.entries, sequence, Below());
      ghost var top := Below();
      FindPrevUserEntry();
      forall u | u in View()
        ensures valid && u <= savedKey.value
      {
        var j := YieldOf(u);
      }
      if valid {
        ghost var g := GatherHeld(iter.entries, sequence, top, Nothing).at;
        assert YieldsBinding(iter.entries, sequence, g, savedKey.value, savedValue);
        ShowsBinding();
      }
    }
  }
}
