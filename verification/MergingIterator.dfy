/** The merging iterator (table/merger.cc) is a bidirectional cursor over the union of its children. */
module MergingIterator {
  import opened Wrappers
  import opened DbFormat
  import opened InternalIterator

  // A place between keys: everything past it lies before, the rest after.
  datatype Bound = AtStart | Before(key: InternalKey) | Through(key: InternalKey) | AtEnd

  predicate Past(b: Bound, k: InternalKey) {
    match b
    case AtStart => false
    case Before(t) => Less(k, t)
    case Through(t) => !Less(t, k)
    case AtEnd => true
  }

  ghost predicate CutAt(es: seq<Entry>, b: Bound, at: nat) {
    && at <= |es|
    && (forall i :: 0 <= i < at ==> Past(b, es[i].key))
    && (forall i :: at <= i < |es| ==> !Past(b, es[i].key))
  }

  ghost predicate DistinctKeys(xs: seq<Entry>, ys: seq<Entry>) {
    forall i, j :: 0 <= i < |xs| && 0 <= j < |ys| ==> !SameKey(xs[i].key, ys[j].key)
  }

  datatype Direction = Forward | Reverse

  class MergingIterator {
    const children: seq<Cursor>
    var current: Option<nat>
    var direction: Direction

    // Number of entries of a child not beyond its position, counting the off-the-front position as zero.
    static ghost function Below(c: Cursor): nat
      reads c
      requires c.pos <= |c.entries|
    {
      if c.Valid() then c.pos + 1 else 0
    }

    ghost predicate ChildrenOk()
      reads children
    {
      && (forall c :: 0 <= c < |children| ==> children[c].Ok())
      && (forall c, d :: 0 <= c < d < |children| ==> children[c] != children[d])
      && (forall c, d :: 0 <= c < |children| && 0 <= d < |children| && c != d ==>
            DistinctKeys(children[c].entries, children[d].entries))
    }

    ghost predicate Ok()
      reads this, children
    {
      && ChildrenOk()
      && (current.Some? ==>
            && current.value < |children| && children[current.value].Valid()
            && forall c :: 0 <= c < |children| && c != current.value ==>
                 if direction == Forward then CutAt(children[c].entries, Through(Key()), children[c].pos)
                 else CutAt(children[c].entries, Before(Key()), Below(children[c])))
    }

    predicate Valid()
      reads this
    {
      current.Some?
    }

    function Key(): InternalKey
      reads this, children
      requires current.Some? && current.value < |children| && children[current.value].Valid()
    {
      children[current.value].Key()
    }

    function Value(): Bytes
      reads this, children
      requires current.Some? && current.value < |children| && children[current.value].Valid()
    {
      children[current.value].Value()
    }

    // What the iterator shows, if anything.
    ghost function Position(): Option<Entry>
      reads this, children
      requires Ok()
    {
      if current.Some? then Some(Entry(Key(), Value())) else None
    }

    ghost predicate InUnion(e: Entry) {
      exists c :: 0 <= c < |children| && e in children[c].entries
    }

    ghost predicate IsLeastNotPast(b: Bound, r: Option<Entry>) {
      match r
      case None => forall e :: InUnion(e) ==> Past(b, e.key)
      case Some(x) => InUnion(x) && !Past(b, x.key) && forall e :: InUnion(e) && !Past(b, e.key) ==> !Less(e.key, x.key)
    }

    ghost predicate IsGreatestPast(b: Bound, r: Option<Entry>) {
      match r
      case None => forall e :: InUnion(e) ==> !Past(b, e.key)
      case Some(x) => InUnion(x) && Past(b, x.key) && forall e :: InUnion(e) && Past(b, e.key) ==> !Less(x.key, e.key)
    }

    constructor (children: seq<Cursor>)
      requires forall c :: 0 <= c < |children| ==> children[c].Ok()
      requires forall c, d :: 0 <= c < d < |children| ==> children[c] != children[d]
      requires forall c, d :: 0 <= c < |children| && 0 <= d < |children| && c != d ==>
                 DistinctKeys(children[c].entries, children[d].entries)
      ensures Ok() && !Valid() && this.children == children
    {
      this.children := children;
      current, direction := None, Forward;
    }

    method FindSmallest(ghost b: Bound)
      requires ChildrenOk() && direction == Forward
      requires forall c :: 0 <= c < |children| ==> CutAt(children[c].entries, b, children[c].pos)
      modifies this`current
      ensures Ok() && IsLeastNotPast(b, Position())
    {
      var smallest: Option<nat> := None;
      for i := 0 to |children|
        invariant smallest.Some? ==> smallest.value < |children| && children[smallest.value].Valid()
        invariant forall c :: 0 <= c < i && children[c].Valid() ==>
                    smallest.Some? && !Less(children[c].Key(), children[smallest.value].Key())
      {
        if children[i].Valid() {
          if smallest.None? || Less(children[i].Key(), children[smallest.value].Key()) {
            smallest := Some(i);
          }
        }
      }
      current := smallest;
      forall c, j | 0 <= c < |children| && children[c].pos <= j < |children[c].entries|
        ensures smallest.Some? && !Less(children[c].entries[j].key, children[smallest.value].Key())
      {
        var es := children[c].entries;
        assert children[c].pos < j ==> Less(es[children[c].pos].key, es[j].key);
      }
      if smallest.Some? {
        OthersCutThrough(b);
      }
    }

    // Around the least entry not past b, the other children are cut exactly there.
    lemma OthersCutThrough(b: Bound)
      requires ChildrenOk() && current.Some? && current.value < |children| && children[current.value].Valid()
      requires forall c :: 0 <= c < |children| ==> CutAt(children[c].entries, b, children[c].pos)
      requires forall c, j :: 0 <= c < |children| && children[c].pos <= j < |children[c].entries| ==>
                 !Less(children[c].entries[j].key, Key())
      ensures forall c :: 0 <= c < |children| && c != current.value ==>
                CutAt(children[c].entries, Through(Key()), children[c].pos)
    {
      var k := Key();
      assert !Past(b, k);
      forall c, i | 0 <= c < |children| && c != current.value && 0 <= i < |children[c].entries|
        ensures i < children[c].pos <==> Past(Through(k), children[c].entries[i].key)
      {
        var x := children[c].entries[i].key;
        assert DistinctKeys(children[c].entries, children[current.value].entries);
        assert !SameKey(x, children[current.value].entries[children[current.value].pos].key);
        if i < children[c].pos {
          assert Past(b, x);
        }
      }
    }

    method FindLargest(ghost b: Bound)
      requires ChildrenOk() && direction == Reverse
      requires forall c :: 0 <= c < |children| ==> CutAt(children[c].entries, b, Below(children[c]))
      modifies this`current
      ensures Ok() && IsGreatestPast(b, Position())
    {
      var largest: Option<nat> := None;
      var i := |children|;
      while i > 0
        invariant 0 <= i <= |children|
        invariant largest.Some? ==> largest.value < |children| && children[largest.value].Valid()
        invariant forall c :: i <= c < |children| && children[c].Valid() ==>
                    largest.Some? && !Less(children[largest.value].Key(), children[c].Key())
      {
        i := i - 1;
        if children[i].Valid() {
          if largest.None? || Less(children[largest.value].Key(), children[i].Key()) {
            largest := Some(i);
          }
        }
      }
      current := largest;
      forall c, j | 0 <= c < |children| && 0 <= j < Below(children[c])
        ensures largest.Some? && !Less(children[largest.value].Key(), children[c].entries[j].key)
      {
        var es := children[c].entries;
        assert j < children[c].pos ==> Less(es[j].key, es[children[c].pos].key);
      }
      if largest.Some? {
        OthersCutBefore(b);
      }
    }

    lemma OthersCutBefore(b: Bound)
      requires ChildrenOk() && current.Some? && current.value < |children| && children[current.value].Valid()
      requires forall c :: 0 <= c < |children| ==> CutAt(children[c].entries, b, Below(children[c]))
      requires forall c, j :: 0 <= c < |children| && 0 <= j < Below(children[c]) ==>
                 !Less(Key(), children[c].entries[j].key)
      ensures forall c :: 0 <= c < |children| && c != current.value ==>
                CutAt(children[c].entries, Before(Key()), Below(children[c]))
    {
      var k := Key();
      assert Past(b, k);
      forall c, i | 0 <= c < |children| && c != current.value && 0 <= i < |children[c].entries|
        ensures i < Below(children[c]) <==> Past(Before(k), children[c].entries[i].key)
      {
        var x := children[c].entries[i].key;
        assert DistinctKeys(children[c].entries, children[current.value].entries);
        assert !SameKey(x, children[current.value].entries[children[current.value].pos].key);
        if i >= Below(children[c]) {
          assert !Past(b, x);
        }
      }
    }

    method SeekToFirst()
      requires Ok()
      modifies this, children
      ensures Ok() && IsLeastNotPast(AtStart, Position())
    {
      current := None;
      for i := 0 to |children|
        invariant ChildrenOk() && current == None
        invariant forall c :: 0 <= c < i ==> children[c].pos == 0
      {
        children[i].SeekToFirst();
      }
      direction := Forward;
      FindSmallest(AtStart);
    }

    method SeekToLast()
      requires Ok()
      modifies this, children
      ensures Ok() && IsGreatestPast(AtEnd, Position())
    {
      current := None;
      for i := 0 to |children|
        invariant ChildrenOk() && current == None
        invariant forall c :: 0 <= c < i ==> Below(children[c]) == |children[c].entries|
      {
        children[i].SeekToLast();
      }
      direction := Reverse;
      FindLargest(AtEnd);
    }

    method Seek(target: InternalKey)
      requires Ok()
      modifies this, children
      ensures Ok() && IsLeastNotPast(Before(target), Position())
    {
      current := None;
      for i := 0 to |children|
        invariant ChildrenOk() && current == None
        invariant forall c :: 0 <= c < i ==> IsLowerBound(children[c].entries, target, children[c].pos)
      {
        children[i].Seek(target);
      }
      direction := Forward;
      FindSmallest(Before(target));
    }

    method Next()
      requires Ok() && Valid()
      modifies this, children
      ensures Ok() && IsLeastNotPast(Through(old(Key())), Position())
    {
      ghost var k := Key();
      var cur := current.value;
      if direction != Forward {
        for i := 0 to |children|
          invariant ChildrenOk() && current == Some(cur)
          invariant children[cur].Valid() && Key() == k
          invariant forall c :: 0 <= c < i && c != cur ==> CutAt(children[c].entries, Through(k), children[c].pos)
        {
          if i != cur {
            children[i].Seek(Key());
            // Keys of different children are distinct, so the source's step past an equal key never happens.
            assert DistinctKeys(children[i].entries, children[cur].entries);
            assert forall j :: 0 <= j < |children[i].entries| ==>
                !SameKey(children[i].entries[j].key, children[cur].entries[children[cur].pos].key);
            assert children[i].Valid() ==> !SameKey(Key(), children[i].Key());
          }
        }
        direction := Forward;
      }
      CurrentCut(children[cur]);
      children[cur].Next();
      FindSmallest(Through(k));
    }

    // A child's own position cuts its entries on either side of its key.
    static lemma CurrentCut(c: Cursor)
      requires c.Ok() && c.Valid()
      ensures CutAt(c.entries, Through(c.Key()), c.pos + 1) && CutAt(c.entries, Before(c.Key()), c.pos)
    {
      forall i | 0 <= i < |c.entries|
        ensures (i < c.pos ==> Less(c.entries[i].key, c.Key())) && (i > c.pos ==> Less(c.Key(), c.entries[i].key))
      {
      }
    }

    method Prev()
      requires Ok() && Valid()
      modifies this, children
      ensures Ok() && IsGreatestPast(Before(old(Key())), Position())
    {
      ghost var k := Key();
      var cur := current.value;
      if direction != Reverse {
        for i := 0 to |children|
          invariant ChildrenOk() && current == Some(cur)
          invariant children[cur].Valid() && Key() == k
          invariant forall c :: 0 <= c < i && c != cur ==> CutAt(children[c].entries, Before(k), Below(children[c]))
        {
          if i != cur {
            children[i].Seek(Key());
            if children[i].Valid() {
              children[i].Prev();
            } else {
              children[i].SeekToLast();
            }
          }
        }
        direction := Reverse;
      }
      CurrentCut(children[cur]);
      children[cur].Prev();
      FindLargest(Before(k));
    }

    // Moving from an entry of the sorted union leads to its neighbour there, or off the end.
    lemma StepsThroughUnion(merged: seq<Entry>, i: nat, next: Option<Entry>, prev: Option<Entry>)
      requires Sorted(merged) && (forall e :: InUnion(e) <==> e in merged) && i < |merged|
      requires IsLeastNotPast(Through(merged[i].key), next) && IsGreatestPast(Before(merged[i].key), prev)
      ensures next == if i + 1 < |merged| then Some(merged[i + 1]) else None
      ensures prev == if i > 0 then Some(merged[i - 1]) else None
    {
      if i + 1 < |merged| {
        assert InUnion(merged[i + 1]) && Less(merged[i].key, merged[i + 1].key);
      }
      if i > 0 {
        assert InUnion(merged[i - 1]) && Less(merged[i - 1].key, merged[i].key);
      }
      if next.Some? {
        var j :| 0 <= j < |merged| && merged[j] == next.value;
        assert j == i + 1;
      }
      if prev.Some? {
        var j :| 0 <= j < |merged| && merged[j] == prev.value;
        assert j == i - 1;
      }
    }

    /** Every move leads where it leads a Cursor over the sorted union: to the first entry, the last one, the first one not
        below a target, and from entry i to the next or the previous one, or off the end. */
    lemma ActsAsCursor(merged: seq<Entry>, i: nat, target: InternalKey, at: nat, r: Option<Entry>)
      requires Sorted(merged) && (forall e :: InUnion(e) <==> e in merged)
      requires i < |merged| && IsLowerBound(merged, target, at)
      ensures IsLeastNotPast(AtStart, r) ==> r == Shown(merged, 0)
      ensures IsGreatestPast(AtEnd, r) ==> r == Shown(merged, |merged| - 1)
      ensures IsLeastNotPast(Before(target), r) ==> r == Shown(merged, at)
      ensures IsLeastNotPast(Through(merged[i].key), r) ==> r == Shown(merged, i + 1)
      ensures IsGreatestPast(Before(merged[i].key), r) ==> r == Shown(merged, if i == 0 then |merged| else i - 1)
    {
      hide IsLeastNotPast, IsGreatestPast, InUnion, IsLowerBound;
      CutsOfSorted(merged, i, target, at);
      if IsLeastNotPast(AtStart, r) {
        LeastIsShown(merged, AtStart, 0, r);
      }
      if IsGreatestPast(AtEnd, r) {
        GreatestIsShown(merged, AtEnd, |merged|, r);
      }
      if IsLeastNotPast(Before(target), r) {
        LeastIsShown(merged, Before(target), at, r);
      }
      if IsLeastNotPast(Through(merged[i].key), r) {
        LeastIsShown(merged, Through(merged[i].key), i + 1, r);
      }
      if IsGreatestPast(Before(merged[i].key), r) {
        GreatestIsShown(merged, Before(merged[i].key), i, r);
      }
    }

    lemma LeastIsShown(merged: seq<Entry>, b: Bound, at: nat, r: Option<Entry>)
      requires Sorted(merged) && (forall e :: InUnion(e) <==> e in merged)
      requires CutAt(merged, b, at) && IsLeastNotPast(b, r)
      ensures r == Shown(merged, at)
    {
      hide InUnion;
      assert at < |merged| ==> merged[at] in merged;
      if r.Some? {
        var j :| 0 <= j < |merged| && merged[j] == r.value;
        assert j >= at;
      }
    }

    lemma GreatestIsShown(merged: seq<Entry>, b: Bound, at: nat, r: Option<Entry>)
      requires Sorted(merged) && (forall e :: InUnion(e) <==> e in merged)
      requires CutAt(merged, b, at) && IsGreatestPast(b, r)
      ensures r == if at == 0 then None else Some(merged[at - 1])
    {
      hide InUnion;
      assert at > 0 ==> merged[at - 1] in merged;
      if r.Some? {
        var j :| 0 <= j < |merged| && merged[j] == r.value;
        assert j < at;
      }
    }
  }

  // What a Cursor over the entries shows at a position.
  function Shown(es: seq<Entry>, pos: nat): Option<Entry> {
    if pos < |es| then Some(es[pos]) else None
  }

  lemma CutsOfSorted(es: seq<Entry>, i: nat, target: InternalKey, at: nat)
    requires Sorted(es) && i < |es| && IsLowerBound(es, target, at)
    ensures CutAt(es, AtStart, 0) && CutAt(es, AtEnd, |es|) && CutAt(es, Before(target), at)
    ensures CutAt(es, Through(es[i].key), i + 1) && CutAt(es, Before(es[i].key), i)
  {
  }

  /** Runs without a common key have a sorted union. */
  lemma {:induction false} SortedUnion(runs: seq<seq<Entry>>) returns (merged: seq<Entry>)
    requires forall c :: 0 <= c < |runs| ==> Sorted(runs[c])
    requires forall c, d :: 0 <= c < |runs| && 0 <= d < |runs| && c != d ==> DistinctKeys(runs[c], runs[d])
    ensures Sorted(merged)
    ensures forall e :: e in merged <==> exists c :: 0 <= c < |runs| && e in runs[c]
  {
    if runs == [] {
      merged := [];
    } else {
      var n := |runs| - 1;
      var others := SortedUnion(runs[..n]);
      assert forall e :: e in others <==> exists c :: 0 <= c < n && e in runs[c] by {
        assert forall c :: 0 <= c < n ==> runs[..n][c] == runs[c];
      }
      forall i, j | 0 <= i < |others| && 0 <= j < |runs[n]|
        ensures !SameKey(others[i].key, runs[n][j].key)
      {
        assert others[i] in others;
        var c :| 0 <= c < n && others[i] in runs[c];
        assert DistinctKeys(runs[c], runs[n]);
      }
      merged := MergeTwo(others, runs[n]);
    }
  }

  lemma {:induction false} MergeTwo(xs: seq<Entry>, ys: seq<Entry>) returns (zs: seq<Entry>)
    requires Sorted(xs) && Sorted(ys) && DistinctKeys(xs, ys)
    ensures Sorted(zs) && forall e :: e in zs <==> e in xs || e in ys
    decreases |xs| + |ys|
  {
    if xs == [] {
      zs := ys;
    } else if ys == [] {
      zs := xs;
    } else {
      var (m, n) := (|xs| - 1, |ys| - 1);
      assert !SameKey(xs[m].key, ys[n].key);
      if Less(xs[m].key, ys[n].key) {
        var rest := MergeTwo(xs, ys[..n]);
        SortedSnoc(rest, ys[n], xs, ys[..n]);
        zs := rest + [ys[n]];
        assert ys == ys[..n] + [ys[n]];
      } else {
        var rest := MergeTwo(xs[..m], ys);
        SortedSnoc(rest, xs[m], xs[..m], ys);
        zs := rest + [xs[m]];
        assert xs == xs[..m] + [xs[m]];
      }
    }
  }

  lemma SortedSnoc(rest: seq<Entry>, last: Entry, xs: seq<Entry>, ys: seq<Entry>)
    requires Sorted(rest) && (forall e :: e in rest <==> e in xs || e in ys)
    requires forall e :: e in xs || e in ys ==> Less(e.key, last.key)
    ensures Sorted(rest + [last])
  {
    assert forall i :: 0 <= i < |rest| ==> rest[i] in rest;
  }
}
