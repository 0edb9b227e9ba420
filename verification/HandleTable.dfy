/**
 * The cache's own hash table (util/cache.cc HandleTable): linked buckets that resize, equal to a finite map.
 *
 * The number of buckets is a power of two, so masking the hash with length - 1 is taking it modulo the length.
 */
module HandleTable {
  import opened DbFormat
  import opened CacheHandle
  import opened HandleChain

  type Contents = map<Id, Handle>

  predicate PowerOfTwo(n: nat) {
    n == 1 || (n > 0 && n % 2 == 0 && PowerOfTwo(n / 2))
  }

  // The buckets hold exactly the handles of the map, each in the bucket of its hash.
  ghost predicate Represents(list: Buckets, m: Contents) {
    && |list| > 0
    && (forall b, i :: 0 <= b < |list| && 0 <= i < |list[b]| ==>
          && list[b][i].hash % |list| == b
          && list[b][i].GetId() in m && m[list[b][i].GetId()] == list[b][i])
    && (forall id :: id in m ==> m[id].GetId() == id && m[id] in list[id.hash % |list|])
    && (forall b :: 0 <= b < |list| ==> NoDuplicates(list[b]))
  }

  lemma PutKeepsTable(list: Buckets, m: Contents, h: Handle, front: bool)
    requires Represents(list, m) && h.GetId() !in m
    ensures var b := h.hash % |list|;
            Represents(list[b := if front then [h] + list[b] else list[b] + [h]], m[h.GetId() := h])
  {
    var b := h.hash % |list|;
    var list': Buckets := list[b := if front then [h] + list[b] else list[b] + [h]];
    var m' := m[h.GetId() := h];
    forall id: Id | id in m'
      ensures m'[id].GetId() == id && m'[id] in list'[id.hash % |list'|]
    {
      if id != h.GetId() {
        assert m[id] in list[id.hash % |list|];
      }
    }
    assert h !in list[b];
  }

  lemma ReplaceKeepsTable(list: Buckets, m: Contents, h: Handle, i: nat)
    requires Represents(list, m)
    requires var b := h.hash % |list|; i < |list[b]| && list[b][i].GetId() == h.GetId()
    ensures var b := h.hash % |list|;
            Represents(list[b := list[b][i := h]], m[h.GetId() := h])
  {
    var b := h.hash % |list|;
    var list': Buckets := list[b := list[b][i := h]];
    var m' := m[h.GetId() := h];
    forall c, j | 0 <= c < |list'| && 0 <= j < |list'[c]|
      ensures list'[c][j].hash % |list'| == c && list'[c][j].GetId() in m' && m'[list'[c][j].GetId()] == list'[c][j]
    {
      if c == b && j != i {
        assert list[b][j].GetId() != h.GetId();
      }
    }
    forall id: Id | id in m'
      ensures m'[id].GetId() == id && m'[id] in list'[id.hash % |list'|]
    {
      if id == h.GetId() {
        assert list'[b][i] == h;
      } else {
        var c := id.hash % |list|;
        var j :| 0 <= j < |list[c]| && list[c][j] == m[id];
        assert list'[c][j] == m[id];
      }
    }
    forall j, k | 0 <= j < k < |list'[b]|
      ensures list'[b][j] != list'[b][k]
    {
      assert list[b][j] != list[b][k];
    }
  }

  lemma RemoveKeepsTable(list: Buckets, m: Contents, b: nat, i: nat)
    requires Represents(list, m) && b < |list| && i < |list[b]|
    ensures Represents(list[b := WithoutAt(list[b], i)], m - {list[b][i].GetId()})
  {
    var h := list[b][i];
    var list': Buckets := list[b := WithoutAt(list[b], i)];
    var m' := m - {h.GetId()};
    forall c, j | 0 <= c < |list'| && 0 <= j < |list'[c]|
      ensures list'[c][j].hash % |list'| == c && list'[c][j].GetId() in m' && m'[list'[c][j].GetId()] == list'[c][j]
    {
      if c == b {
        var k := if j < i then j else j + 1;
        assert list'[b][j] == list[b][k] != h;
      } else {
        assert list[c][j].hash % |list| == c;
      }
    }
    forall id: Id | id in m'
      ensures m'[id].GetId() == id && m'[id] in list'[id.hash % |list'|]
    {
      var c := id.hash % |list|;
      var j :| 0 <= j < |list[c]| && list[c][j] == m[id];
      if c == b {
        assert j != i;
        assert list'[b][if j < i then j else j - 1] == m[id];
      }
    }
  }

  // The first i chains and the first j handles of the next one have been moved to the new buckets.
  ghost predicate Moved(list: Buckets, m: Contents, i: nat, j: nat, newList: Buckets, moved: Contents) {
    && Represents(list, m) && Represents(newList, moved) && i <= |list|
    && (forall id :: id in moved ==> id in m && moved[id] == m[id])
    && (forall b, k :: 0 <= b < i && 0 <= k < |list[b]| ==> list[b][k].GetId() in moved)
    && (i < |list| ==> forall k :: 0 <= k < |list[i]| ==> (list[i][k].GetId() in moved <==> k < j))
    && (forall b, k :: i < b < |list| && 0 <= k < |list[b]| ==> list[b][k].GetId() !in moved)
  }

  lemma NothingMoved(list: Buckets, m: Contents, length: nat)
    requires Represents(list, m) && length > 0
    ensures Moved(list, m, 0, 0, seq(length, _ => []), map[])
  {
  }

  lemma MoveOne(list: Buckets, m: Contents, i: nat, j: nat, newList: Buckets, moved: Contents)
    requires Moved(list, m, i, j, newList, moved) && i < |list| && j < |list[i]|
    ensures var h := list[i][j];
            var b := h.hash % |newList|;
            Moved(list, m, i, j + 1, newList[b := [h] + newList[b]], moved[h.GetId() := h])
  {
    var h := list[i][j];
    PutKeepsTable(newList, moved, h, true);
    forall b, k | 0 <= b < |list| && 0 <= k < |list[b]| && (b != i || k != j)
      ensures list[b][k].GetId() != h.GetId()
    {
      assert m[list[b][k].GetId()] == list[b][k];
      assert b != i ==> list[b][k].hash % |list| == b;
      assert NoDuplicates(list[i]);
    }
  }

  lemma ChainMoved(list: Buckets, m: Contents, i: nat, newList: Buckets, moved: Contents)
    requires i < |list| && Moved(list, m, i, |list[i]|, newList, moved)
    ensures Moved(list, m, i + 1, 0, newList, moved)
    ensures i + 1 == |list| ==> moved == m && Represents(newList, m)
  {
    if i + 1 == |list| {
      forall id | id in m
        ensures id in moved
      {
        var b := id.hash % |list|;
        var k :| 0 <= k < |list[b]| && list[b][k] == m[id];
        assert list[b][k].GetId() in moved;
      }
    }
  }

  lemma HandlesAreMapped(list: Buckets, m: Contents)
    requires Represents(list, m)
    ensures Handles(list) == m.Values
  {
    forall h | h in Handles(list)
      ensures h in m.Values
    {
      var b :| 0 <= b < |list| && h in list[b];
      var i :| 0 <= i < |list[b]| && list[b][i] == h;
      assert m[h.GetId()] == h;
    }
    forall h | h in m.Values
      ensures h in Handles(list)
    {
      var id :| id in m && m[id] == h;
      assert h in list[id.hash % |list|];
    }
  }

  // What is left of the old chains when the first i and j handles of the next one have been moved.
  ghost predicate IsRest(list: Buckets, i: nat, j: nat, rest: Buckets) {
    && |rest| == |list| && (i < |list| ==> j <= |list[i]| && rest[i] == list[i][j..])
    && (forall c :: 0 <= c < i && c < |list| ==> rest[c] == [])
    && (forall c :: i < c < |list| ==> rest[c] == list[c])
  }

  // Handles still to be moved are on no new chain.
  lemma RestApart(list: Buckets, m: Contents, i: nat, j: nat, rest: Buckets, newList: Buckets, moved: Contents)
    requires Moved(list, m, i, j, newList, moved) && IsRest(list, i, j, rest)
    ensures Handles(rest) !! Handles(newList) && Handles(rest) <= m.Values
  {
    HandlesAreMapped(list, m);
    HandlesAreMapped(newList, moved);
    forall h | h in Handles(rest)
      ensures h in m.Values && h !in Handles(newList)
    {
      var b :| 0 <= b < |rest| && h in rest[b];
      var k :| 0 <= k < |rest[b]| && rest[b][k] == h;
      assert h == list[b][if b == i then k + j else k];
      assert h in list[b] && h in Handles(list);
      assert h.GetId() !in moved;
    }
  }

  // The first match in its bucket is what the map holds; without one the map holds nothing.
  lemma FoundIsMapped(list: Buckets, m: Contents, id: Id, i: nat)
    requires Represents(list, m)
    requires var chain := list[id.hash % |list|];
             i <= |chain| && (i < |chain| ==> chain[i].GetId() == id) && forall j :: 0 <= j < i ==> chain[j].GetId() != id
    ensures HandleAt(list[id.hash % |list|], i) == if id in m then m[id] else null
  {
    assert id in m ==> m[id] in list[id.hash % |list|];
  }

  class HandleTable {
    var list: seq<Bucket>
    var elems: nat
    ghost var chains: Buckets
    ghost var m: Contents

    ghost predicate Valid()
      reads this, list, m.Values`nextHash
    {
      && Handles(chains) == m.Values && Hold(list, chains) && Represents(chains, m)
      && elems == |m| && PowerOfTwo(|list|) && |list| >= 4
    }

    constructor ()
      ensures Valid() && m == map[] && forall b :: b in list ==> fresh(b)
    {
      elems := 0;
      m := map[];
      new;
      list := NewBuckets(4);
      chains := seq(4, _ => []);
      assert PowerOfTwo(2) && PowerOfTwo(4);
    }

    static method NewBuckets(n: nat) returns (list: seq<Bucket>)
      ensures forall b :: b in list ==> fresh(b)
      ensures Hold(list, seq(n, _ => []))
    {
      list := [];
      for i := 0 to n
        invariant forall b :: b in list ==> fresh(b)
        invariant |list| == i && forall b :: 0 <= b < i ==> list[b].Valid() && list[b].nodes == []
        invariant forall b, c :: 0 <= b < c < i ==> list[b] != list[c]
      {
        var bucket := new Bucket();
        list := list + [bucket];
      }
    }

    method Lookup(key: Bytes, hash: nat) returns (h: Handle?)
      requires Valid()
      ensures h == if Id(key, hash) in m then m[Id(key, hash)] else null
    {
      hide Represents, Bucket.Valid, NoDuplicates, Apart;
      var b := hash % |list|;
      var before, i := list[b].FindPointer(key, hash);
      h := list[b].Target(before);
      FoundIsMapped(chains, m, Id(key, hash), i);
    }

    method Insert(h: Handle) returns (replaced: Handle?)
      requires Valid() && h !in m.Values
      modifies this, list, h`nextHash, m.Values`nextHash
      ensures Valid() && m == old(m)[h.GetId() := h]
      ensures replaced == if h.GetId() in old(m) then old(m)[h.GetId()] else null
      ensures forall b :: b in list ==> b in old(list) || fresh(b)
    {
      hide Represents, Hold;
      var b := h.hash % |list|;
      HoldHandles(list, chains);
      ghost var i;
      replaced, i := InsertAt(list, b, h, chains);
      FoundIsMapped(chains, m, h.GetId(), i);
      if replaced != null {
        ReplaceKeepsTable(chains, m, h, i);
        chains := chains[b := chains[b][i := h]];
      } else {
        PutKeepsTable(chains, m, h, false);
        chains := chains[b := chains[b] + [h]];
        elems := elems + 1;
      }
      m := m[h.GetId() := h];
      HandlesAreMapped(chains, m);
      if replaced == null && elems > |list| {
        Resize();
      }
    }

    method Remove(key: Bytes, hash: nat) returns (removed: Handle?)
      requires Valid()
      modifies this, list, m.Values`nextHash
      ensures Valid() && m == old(m) - {Id(key, hash)} && list == old(list)
      ensures removed == if Id(key, hash) in old(m) then old(m)[Id(key, hash)] else null
    {
      hide Represents, Hold;
      var b := hash % |list|;
      HoldHandles(list, chains);
      ghost var i;
      removed, i := RemoveAt(list, b, Id(key, hash), chains);
      FoundIsMapped(chains, m, Id(key, hash), i);
      if removed != null {
        RemoveKeepsTable(chains, m, b, i);
        chains := chains[b := WithoutAt(chains[b], i)];
        elems := elems - 1;
        m := m - {Id(key, hash)};
        HandlesAreMapped(chains, m);
      } else {
        assert m - {Id(key, hash)} == m;
      }
    }

    static method NewLength(elems: nat) returns (newLength: nat)
      ensures newLength >= 4 && newLength >= elems && PowerOfTwo(newLength)
      ensures newLength == 4 || newLength < 2 * elems
    {
      newLength := 4;
      assert PowerOfTwo(2) && PowerOfTwo(4);
      while newLength < elems
        invariant newLength >= 4 && PowerOfTwo(newLength) && (newLength == 4 || newLength < 2 * elems)
      {
        newLength := newLength * 2;
      }
    }

    // Moves the handles of one old bucket to the new ones, the first one first.
    static method MoveChain(from: seq<Bucket>, i: nat, newList: seq<Bucket>, ghost was: Buckets, ghost m: Contents,
                            ghost rest: Buckets, ghost to: Buckets, ghost moved: Contents)
      returns (ghost rest': Buckets, ghost to': Buckets, ghost moved': Contents)
      requires i < |from| && newList != [] && forall b :: b in from ==> b !in newList
      requires Hold(from, rest) && Hold(newList, to)
      requires IsRest(was, i, 0, rest) && Moved(was, m, i, 0, to, moved)
      modifies from, newList, m.Values`nextHash
      ensures Hold(from, rest') && Hold(newList, to')
      ensures IsRest(was, i + 1, 0, rest') && Moved(was, m, i + 1, 0, to', moved')
      ensures i + 1 == |from| ==> Represents(to', m)
    {
      hide Represents, Moved, Hold;
      HoldHandles(from, rest);
      HoldHandles(newList, to);
      rest', to', moved' := rest, to, moved;
      ghost var j := 0;
      HeadAt(from, rest, i);
      while from[i].head != null
        invariant |newList| == |to'| && Hold(from, rest') && Hold(newList, to')
        invariant IsRest(was, i, j, rest') && Moved(was, m, i, j, to', moved')
        invariant from[i].head == HandleAt(rest'[i], 0)
        decreases |was[i]| - j
      {
        var h := from[i].head;
        var b := h.hash % |newList|;
        HoldHandles(from, rest');
        RestApart(was, m, i, j, rest', to', moved');
        MoveOne(was, m, i, j, to', moved');
        assert newList[b] in newList && from[i] in from;
        assert forall h :: h in rest'[i] ==> h in m.Values;
        MoveFirstAt(from, i, newList, b, rest', to');
        to', rest' := to'[b := [h] + to'[b]], rest'[i := rest'[i][1..]];
        moved' := moved'[h.GetId() := h];
        j := j + 1;
        HeadAt(from, rest', i);
      }
      ChainMoved(was, m, i, to', moved');
    }

    // Doubles the number of buckets until it reaches the number of elements and moves every handle.
    method Resize()
      requires Valid()
      modifies this`list, this`chains, list, m.Values`nextHash
      ensures Valid() && elems <= |list|
      ensures forall b :: b in list ==> fresh(b)
    {
      hide Represents, Moved, Hold;
      var newLength := NewLength(elems);
      var from := list;
      var newList := NewBuckets(newLength);
      ghost var was: Buckets, rest: Buckets, to: Buckets, moved: Contents := chains, chains, seq(newLength, _ => []), map[];
      NothingMoved(was, m, newLength);
      HoldHandles(from, was);
      HoldHandles(newList, to);
      var i := 0;
      while i < |from|
        invariant 0 <= i <= |from| && |newList| == newLength
        invariant Hold(from, rest) && Hold(newList, to) && IsRest(was, i, 0, rest)
        invariant Moved(was, m, i, 0, to, moved)
        invariant i == |from| ==> Represents(to, m)
      {
        assert forall b :: 0 <= b < |newList| ==> newList[b] in newList;
        rest, to, moved := MoveChain(from, i, newList, was, m, rest, to, moved);
        i := i + 1;
      }
      HoldHandles(newList, to);
      HandlesAreMapped(to, m);
      list, chains := newList, to;
    }
  }
}
