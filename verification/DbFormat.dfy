/** Internal keys of the storage engine and what a read at a snapshot means (db/dbformat.h, db/dbformat.cc).

    The engine looks at a user key only through Comparator::Compare.  Modules that do nothing else with it
    take a user key to be its position in the comparator's order, a real number; Comparator.RankOrder shows that
    byte strings under the default comparator embed in the reals that way. */
module DbFormat {
  import opened Wrappers

  type UserKey = real
  type byte = x: int | 0 <= x < 256
  type Bytes = seq<byte>

  const TYPE_DELETION: nat := 0
  const TYPE_VALUE: nat := 1
  const TYPE_FOR_SEEK: nat := TYPE_VALUE
  const MAX_SEQUENCE: nat := 0xFF_FFFF_FFFF_FFFF
  const NUM_LEVELS: nat := 7

  datatype InternalKey = InternalKey(user: UserKey, sn: nat, kind: nat) {
    // The trailing 64 bits of an encoded internal key.
    function Tag(): nat {
      sn * 256 + kind
    }

    predicate Parses() {
      kind <= TYPE_VALUE
    }
  }

  datatype Entry = Entry(key: InternalKey, value: Bytes)

  // InternalKeyComparator::Compare(a, b) < 0: user keys ascending, then tags descending.
  predicate Less(a: InternalKey, b: InternalKey) {
    a.user < b.user || (a.user == b.user && a.Tag() > b.Tag())
  }

  predicate SameKey(a: InternalKey, b: InternalKey) {
    !Less(a, b) && !Less(b, a)
  }

  // A type tag is one byte, so the packed tag determines sequence number and type.
  predicate Packed(k: InternalKey) {
    k.kind < 256 && k.sn <= MAX_SEQUENCE
  }

  /** User keys ascend, sequence numbers descend, and at one sequence number so do types. */
  lemma NewestFirst(a: InternalKey, b: InternalKey)
    requires Packed(a) && Packed(b)
    ensures Less(a, b) <==> a.user < b.user
                            || (a.user == b.user && (a.sn > b.sn || (a.sn == b.sn && a.kind > b.kind)))
  {
  }

  // The key a lookup of `user` at `snapshot` seeks to.
  function LookupKey(user: UserKey, snapshot: nat): InternalKey {
    InternalKey(user, snapshot, TYPE_FOR_SEEK)
  }

  ghost predicate Sorted(es: seq<Entry>) {
    forall i, j :: 0 <= i < j < |es| ==> Less(es[i].key, es[j].key)
  }

  ghost predicate AllParse(es: seq<Entry>) {
    forall i :: 0 <= i < |es| ==> es[i].key.Parses()
  }

  // `k` may answer a read of `user` at `snapshot`.
  predicate Visible(k: InternalKey, user: UserKey, snapshot: nat) {
    k.Parses() && k.user == user && k.sn <= snapshot
  }

  // The visible entry with the greatest sequence number, wherever it stands in `es`.
  function Newest(es: seq<Entry>, user: UserKey, snapshot: nat): Option<Entry> {
    if es == [] then None
    else
      var rest := Newest(es[1..], user, snapshot);
      if Visible(es[0].key, user, snapshot) && (rest.None? || rest.value.key.sn <= es[0].key.sn)
      then Some(es[0])
      else rest
  }

  lemma {:induction false} NewestIsMaximal(es: seq<Entry>, user: UserKey, snapshot: nat)
    ensures var r := Newest(es, user, snapshot);
            && (r.None? ==> forall i :: 0 <= i < |es| ==> !Visible(es[i].key, user, snapshot))
            && (r.Some? ==> r.value in es && Visible(r.value.key, user, snapshot)
                            && forall i :: 0 <= i < |es| && Visible(es[i].key, user, snapshot) ==>
                                 es[i].key.sn <= r.value.key.sn)
  {
    if es != [] {
      NewestIsMaximal(es[1..], user, snapshot);
      forall i | 0 <= i < |es| && Visible(es[i].key, user, snapshot)
        ensures var r := Newest(es, user, snapshot);
                r.Some? && es[i].key.sn <= r.value.key.sn
      {
        assert i > 0 ==> es[1..][i - 1] == es[i];
      }
    }
  }

  // What a read returns for the newest visible entry: nothing for a deletion marker.
  function ValueOf(r: Option<Entry>): Option<Bytes> {
    if r.Some? && r.value.key.kind == TYPE_VALUE then Some(r.value.value) else None
  }

  function Read(es: seq<Entry>, user: UserKey, snapshot: nat): Option<Bytes> {
    ValueOf(Newest(es, user, snapshot))
  }

  // In a sorted run the newest visible entry is the first visible one, and the first one at or after the lookup key.
  lemma {:induction false} NewestIsFirst(es: seq<Entry>, user: UserKey, snapshot: nat, i: nat)
    requires Sorted(es)
    requires i < |es| && Visible(es[i].key, user, snapshot)
    requires forall j :: 0 <= j < i ==> !Visible(es[j].key, user, snapshot)
    ensures Newest(es, user, snapshot) == Some(es[i])
  {
    var tail := es[1..];
    if i > 0 {
      assert forall j :: 0 <= j < |tail| ==> tail[j] == es[j + 1];
      NewestIsFirst(tail, user, snapshot, i - 1);
    } else {
      NewestIsMaximal(tail, user, snapshot);
      var rest := Newest(tail, user, snapshot);
      if rest.Some? {
        var j :| 0 <= j < |tail| && tail[j] == rest.value;
        assert es[j + 1] == rest.value && Less(es[0].key, es[j + 1].key);
      }
    }
  }

  lemma {:induction false} NewestNone(es: seq<Entry>, user: UserKey, snapshot: nat)
    requires forall i :: 0 <= i < |es| ==> !Visible(es[i].key, user, snapshot)
    ensures Newest(es, user, snapshot) == None
  {
    NewestIsMaximal(es, user, snapshot);
    assert forall e :: e in es ==> exists i :: 0 <= i < |es| && es[i] == e;
  }

  // Seeking a sorted run to the lookup key lands on the newest visible entry or on another user key.
  lemma {:induction false} SeekFindsNewest(es: seq<Entry>, user: UserKey, snapshot: nat, at: nat)
    requires Sorted(es) && AllParse(es) && at <= |es|
    requires forall j :: 0 <= j < at ==> Less(es[j].key, LookupKey(user, snapshot))
    requires at < |es| ==> !Less(es[at].key, LookupKey(user, snapshot))
    ensures Newest(es, user, snapshot)
         == if at < |es| && es[at].key.user == user then Some(es[at]) else None
  {
    var target := LookupKey(user, snapshot);
    forall j | 0 <= j < at
      ensures !Visible(es[j].key, user, snapshot)
    {
      assert Less(es[j].key, target);
    }
    if at < |es| && es[at].key.user == user {
      assert es[at].key.Tag() <= target.Tag();
      assert es[at].key.sn <= snapshot;
      NewestIsFirst(es, user, snapshot, at);
    } else {
      forall j | 0 <= j < |es|
        ensures !Visible(es[j].key, user, snapshot)
      {
        if at < j {
          assert Less(es[at].key, es[j].key);
        }
      }
      NewestNone(es, user, snapshot);
    }
  }

  // Sources are searched in order; the first one that has a visible entry answers.
  function SearchInOrder(sources: seq<seq<Entry>>, user: UserKey, snapshot: nat): Option<Entry> {
    if sources == [] then None
    else
      var r := Newest(sources[0], user, snapshot);
      if r.Some? then r else SearchInOrder(sources[1..], user, snapshot)
  }

  lemma {:induction false} SearchConcat(xs: seq<seq<Entry>>, ys: seq<seq<Entry>>, user: UserKey, snapshot: nat)
    ensures SearchInOrder(xs + ys, user, snapshot)
         == var r := SearchInOrder(xs, user, snapshot);
            if r.Some? then r else SearchInOrder(ys, user, snapshot)
  {
    if xs == [] {
      assert xs + ys == ys;
    } else {
      assert (xs + ys)[1..] == xs[1..] + ys;
      SearchConcat(xs[1..], ys, user, snapshot);
    }
  }

  function Union(sources: seq<seq<Entry>>): seq<Entry> {
    if sources == [] then [] else sources[0] + Union(sources[1..])
  }

  // For each user key, entries of earlier sources are newer than those of later ones.
  ghost predicate NewerFirst(sources: seq<seq<Entry>>) {
    forall i, j :: 0 <= i < j < |sources| ==> Newer(sources[i], sources[j])
  }

  ghost predicate Newer(xs: seq<Entry>, ys: seq<Entry>) {
    forall a, b :: a in xs && b in ys && a.key.user == b.key.user ==> a.key.sn > b.key.sn
  }

  lemma {:induction false} NewestOfConcat(xs: seq<Entry>, ys: seq<Entry>, user: UserKey, snapshot: nat)
    ensures var a := Newest(xs, user, snapshot);
            var b := Newest(ys, user, snapshot);
            Newest(xs + ys, user, snapshot)
            == if a.Some? && (b.None? || b.value.key.sn <= a.value.key.sn) then a else b
  {
    if xs == [] {
      assert xs + ys == ys;
    } else {
      assert (xs + ys)[1..] == xs[1..] + ys;
      NewestOfConcat(xs[1..], ys, user, snapshot);
    }
  }

  lemma {:induction false} UnionConcat(xs: seq<seq<Entry>>, ys: seq<seq<Entry>>)
    ensures Union(xs + ys) == Union(xs) + Union(ys)
  {
    if xs == [] {
      assert xs + ys == ys;
    } else {
      assert (xs + ys)[1..] == xs[1..] + ys;
      UnionConcat(xs[1..], ys);
    }
  }

  lemma {:induction false} UnionMembers(sources: seq<seq<Entry>>, e: Entry)
    ensures e in Union(sources) <==> exists i :: 0 <= i < |sources| && e in sources[i]
  {
    if sources != [] {
      var tail := sources[1..];
      UnionMembers(tail, e);
      if e in Union(tail) {
        var i :| 0 <= i < |tail| && e in tail[i];
        assert e in sources[i + 1];
      }
      if i :| 0 <= i < |sources| && e in sources[i] {
        assert i == 0 || tail[i - 1] == sources[i];
      }
    }
  }

  lemma NewerFirstConcat(xs: seq<seq<Entry>>, ys: seq<seq<Entry>>)
    ensures NewerFirst(xs + ys) <==> NewerFirst(xs) && NewerFirst(ys) && Newer(Union(xs), Union(ys))
  {
    if NewerFirst(xs + ys) {
      assert forall i :: 0 <= i < |xs| ==> (xs + ys)[i] == xs[i];
      assert forall i :: 0 <= i < |ys| ==> (xs + ys)[|xs| + i] == ys[i];
      forall a, b | a in Union(xs) && b in Union(ys) && a.key.user == b.key.user
        ensures a.key.sn > b.key.sn
      {
        UnionMembers(xs, a);
        UnionMembers(ys, b);
        var i :| 0 <= i < |xs| && a in xs[i];
        var j :| 0 <= j < |ys| && b in ys[j];
        assert Newer((xs + ys)[i], (xs + ys)[|xs| + j]);
      }
    }
    if NewerFirst(xs) && NewerFirst(ys) && Newer(Union(xs), Union(ys)) {
      NewerFirstJoin(xs, ys);
    }
  }

  lemma NewerFirstJoin(xs: seq<seq<Entry>>, ys: seq<seq<Entry>>)
    requires NewerFirst(xs) && NewerFirst(ys) && Newer(Union(xs), Union(ys))
    ensures NewerFirst(xs + ys)
  {
    var all := xs + ys;
    forall i, j, a: Entry, b: Entry | 0 <= i < j < |all| && a in all[i] && b in all[j] && a.key.user == b.key.user
      ensures a.key.sn > b.key.sn
    {
      if j < |xs| {
        assert Newer(xs[i], xs[j]);
      } else if i < |xs| {
        UnionMembers(xs, a);
        UnionMembers(ys, b);
      } else {
        assert Newer(ys[i - |xs|], ys[j - |xs|]);
      }
    }
  }

  lemma PairwiseNewer(xs: seq<seq<Entry>>, ys: seq<seq<Entry>>)
    requires forall i, j :: 0 <= i < |xs| && 0 <= j < |ys| ==> Newer(xs[i], ys[j])
    ensures Newer(Union(xs), Union(ys))
  {
    forall a, b | a in Union(xs) && b in Union(ys) && a.key.user == b.key.user
      ensures a.key.sn > b.key.sn
    {
      UnionMembers(xs, a);
      UnionMembers(ys, b);
      var i :| 0 <= i < |xs| && a in xs[i];
      var j :| 0 <= j < |ys| && b in ys[j];
      assert Newer(xs[i], ys[j]);
    }
  }

  // Stopping at the first source that answers is as good as comparing the answers of all of them.
  lemma {:induction false} SearchInOrderIsNewest(sources: seq<seq<Entry>>, user: UserKey, snapshot: nat)
    requires NewerFirst(sources)
    ensures SearchInOrder(sources, user, snapshot) == Newest(Union(sources), user, snapshot)
  {
    if sources != [] {
      var tail := sources[1..];
      assert forall i :: 0 <= i < |tail| ==> tail[i] == sources[i + 1];
      SearchInOrderIsNewest(tail, user, snapshot);
      NewestOfConcat(sources[0], Union(tail), user, snapshot);
      var a := Newest(sources[0], user, snapshot);
      var b := Newest(Union(tail), user, snapshot);
      NewestIsMaximal(sources[0], user, snapshot);
      NewestIsMaximal(Union(tail), user, snapshot);
      if a.Some? && b.Some? {
        UnionMembers(tail, b.value);
        var j :| 0 <= j < |tail| && b.value in tail[j];
        assert Newer(sources[0], sources[j + 1]);
      }
    }
  }
}
