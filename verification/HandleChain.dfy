/**
 * One bucket of the cache's hash table (util/cache.cc HandleTable): handles linked through next_hash.  FindPointer
 * yields the place that points to a handle, and Insert, Remove and Resize store through it.
 */
module HandleChain {
  import opened DbFormat
  import opened CacheHandle

  // The handle at index i, or none behind the last one.
  function HandleAt(nodes: seq<Handle>, i: nat): Handle? {
    if i < |nodes| then nodes[i] else null
  }

  // From the head through the links to the end of the chain.
  ghost predicate Linked(head: Handle?, nodes: seq<Handle>)
    reads nodes`nextHash
  {
    && NoDuplicates(nodes)
    && head == HandleAt(nodes, 0)
    && (forall i, j :: 0 <= i && j == i + 1 && j < |nodes| ==> nodes[i].nextHash == nodes[j])
    && (nodes != [] ==> nodes[|nodes| - 1].nextHash == null)
  }

  class Bucket {
    var head: Handle?
    ghost var nodes: seq<Handle>

    ghost predicate Valid()
      reads this, nodes`nextHash
    {
      Linked(head, nodes)
    }

    constructor ()
      ensures Valid() && nodes == []
    {
      head, nodes := null, [];
    }

    lemma HeadIsFirst()
      requires Valid()
      ensures head == HandleAt(nodes, 0)
    {
    }

    // A bucket stays as it is while neither its head nor the links of its handles change.
    twostate lemma Stays()
      requires old(Valid()) && head == old(head) && nodes == old(nodes)
      requires forall h :: h in nodes ==> h.nextHash == old(h.nextHash)
      ensures Valid()
    {
    }

    // The pointer to handle i is the head for i == 0 and the link of the handle before it otherwise.
    ghost predicate PointsTo(before: Handle?, i: nat)
      reads this
    {
      i <= |nodes| && before == if i == 0 then null else nodes[i - 1]
    }

    // What the pointer holds.
    function Target(before: Handle?): Handle?
      reads this, before
    {
      if before == null then head else before.nextHash
    }

    /** The pointer to the matching handle, or to the end of the chain. */
    method FindPointer(key: Bytes, hash: nat) returns (before: Handle?, ghost i: nat)
      requires Valid()
      ensures PointsTo(before, i) && Target(before) == HandleAt(nodes, i)
      ensures i < |nodes| ==> nodes[i].GetId() == Id(key, hash)
      ensures forall j :: 0 <= j < i ==> nodes[j].GetId() != Id(key, hash)
      ensures var h := Target(before);
              if h == null then forall g :: g in nodes ==> g.GetId() != Id(key, hash)
              else h in nodes && h.GetId() == Id(key, hash)
    {
      before, i := null, 0;
      while Target(before) != null && (Target(before).hash != hash || Target(before).key != key)
        invariant PointsTo(before, i) && Target(before) == HandleAt(nodes, i)
        invariant forall j :: 0 <= j < i ==> nodes[j].GetId() != Id(key, hash)
        decreases |nodes| - i
      {
        before := Target(before);
        i := i + 1;
      }
    }

    /** Puts the handle in the place of the one with its key, or at the end. */
    method Insert(h: Handle) returns (replaced: Handle?, ghost i: nat)
      requires Valid() && h !in nodes
      modifies this, h`nextHash, nodes`nextHash
      ensures Valid() && replaced == HandleAt(old(nodes), i) && i <= |old(nodes)|
      ensures i < |old(nodes)| ==> old(nodes)[i].GetId() == h.GetId() && nodes == old(nodes)[i := h]
      ensures i == |old(nodes)| ==> nodes == old(nodes) + [h]
      ensures forall j :: 0 <= j < i ==> old(nodes)[j].GetId() != h.GetId()
    {
      var before;
      before, i := FindPointer(h.key, h.hash);
      replaced := Target(before);
      h.nextHash := if replaced == null then null else replaced.nextHash;
      if before == null {
        head := h;
      } else {
        before.nextHash := h;
      }
      nodes := if i < |nodes| then nodes[i := h] else nodes + [h];
    }

    /** Takes the handle with the key out. */
    method Remove(key: Bytes, hash: nat) returns (removed: Handle?, ghost i: nat)
      requires Valid()
      modifies this, nodes`nextHash
      ensures Valid() && removed == HandleAt(old(nodes), i) && i <= |old(nodes)|
      ensures i < |old(nodes)| ==> old(nodes)[i].GetId() == Id(key, hash) && nodes == WithoutAt(old(nodes), i)
      ensures i == |old(nodes)| ==> nodes == old(nodes)
      ensures forall j :: 0 <= j < i ==> old(nodes)[j].GetId() != Id(key, hash)
    {
      var before;
      before, i := FindPointer(key, hash);
      removed := Target(before);
      if removed != null {
        if before == null {
          head := removed.nextHash;
        } else {
          before.nextHash := removed.nextHash;
        }
        nodes := WithoutAt(nodes, i);
      }
    }

    /** One turn of Resize: the first handle goes to the front of a bucket of the new table. */
    method MoveFirst(to: Bucket)
      requires Valid() && to.Valid() && head != null && to != this && forall h :: h in nodes ==> h !in to.nodes
      modifies this, to, nodes`nextHash
      ensures Valid() && to.Valid()
      ensures nodes == old(nodes)[1..] && to.nodes == [old(nodes)[0]] + old(to.nodes)
    {
      var h := head;
      assert h in nodes;
      var next := h.nextHash;
      h.nextHash := to.head;
      to.head := h;
      head := next;
      to.nodes := [h] + to.nodes;
      nodes := nodes[1..];
    }
  }

  type Buckets = seq<seq<Handle>>

  ghost function Handles(chains: Buckets): set<Handle> {
    set c, h | 0 <= c < |chains| && h in chains[c] :: h
  }

  // No handle is on two chains.
  ghost predicate Apart(chains: Buckets) {
    forall c, d, h :: 0 <= c < |chains| && 0 <= d < |chains| && c != d && h in chains[c] ==> h !in chains[d]
  }

  // The buckets of a table hold the chains.
  ghost predicate Hold(list: seq<Bucket>, chains: Buckets)
    reads list, Handles(chains)`nextHash
  {
    && |list| == |chains| && Apart(chains)
    && (forall b, c :: 0 <= b < c < |list| ==> list[b] != list[c])
    && (forall b :: 0 <= b < |list| ==>
          && list[b].nodes == chains[b]
          && (forall h :: h in chains[b] ==> h in Handles(chains))
          && list[b].Valid())
  }

  lemma HoldHandles(list: seq<Bucket>, chains: Buckets)
    requires Hold(list, chains)
    ensures |list| == |chains|
    ensures forall b, h :: 0 <= b < |chains| && h in chains[b] ==> h in Handles(chains)
  {
  }

  lemma HeadAt(list: seq<Bucket>, chains: Buckets, b: nat)
    requires Hold(list, chains) && b < |list|
    ensures |list| == |chains| && list[b].head == HandleAt(chains[b], 0)
  {
    list[b].HeadIsFirst();
  }

  // One turn of Resize leaves the other buckets of both tables as they are.
  method MoveFirstAt(list: seq<Bucket>, i: nat, to: seq<Bucket>, b: nat, ghost chains: Buckets, ghost moved: Buckets)
    requires Hold(list, chains) && i < |list| && chains[i] != []
    requires Hold(to, moved) && b < |to| && Handles(chains) !! Handles(moved) && forall c :: c in list ==> c !in to
    modifies list[i], to[b], chains[i]`nextHash
    ensures Hold(list, chains[i := chains[i][1..]]) && Hold(to, moved[b := [chains[i][0]] + moved[b]])
  {
    hide Bucket.Valid, NoDuplicates;
    assert forall c, d :: 0 <= c < |list| && 0 <= d < |to| ==> list[c] in list && to[d] in to;
    list[i].HeadIsFirst();
    list[i].MoveFirst(to[b]);
    forall c | 0 <= c < |list| && c != i
      ensures list[c].nodes == chains[c] && list[c].Valid()
    {
      forall h | h in list[c].nodes
        ensures h.nextHash == old(h.nextHash)
      {
        assert h in chains[c] && h !in chains[i];
      }
      list[c].Stays();
    }
    forall c | 0 <= c < |to| && c != b
      ensures to[c].nodes == moved[c] && to[c].Valid()
    {
      forall h | h in to[c].nodes
        ensures h.nextHash == old(h.nextHash)
      {
        assert h in Handles(moved) && h !in Handles(chains);
      }
      to[c].Stays();
    }
  }

  // Insert on one bucket leaves the others as they are.
  method InsertAt(list: seq<Bucket>, b: nat, h: Handle, ghost chains: Buckets) returns (replaced: Handle?, ghost i: nat)
    requires Hold(list, chains) && b < |list| && h !in Handles(chains)
    modifies list[b], h`nextHash, chains[b]`nextHash
    ensures replaced == HandleAt(chains[b], i) && i <= |chains[b]|
    ensures i < |chains[b]| ==> chains[b][i].GetId() == h.GetId()
    ensures forall j :: 0 <= j < i ==> chains[b][j].GetId() != h.GetId()
    ensures Hold(list, chains[b := if i < |chains[b]| then chains[b][i := h] else chains[b] + [h]])
  {
    hide Bucket.Valid;
    replaced, i := list[b].Insert(h);
    forall c | 0 <= c < |list| && c != b
      ensures list[c].nodes == chains[c] && list[c].Valid()
    {
      forall g | g in list[c].nodes
        ensures g.nextHash == old(g.nextHash)
      {
        assert g in Handles(chains);
        assert g in chains[c] && g !in chains[b];
      }
      list[c].Stays();
    }
  }

  // Remove on one bucket leaves the others as they are.
  method RemoveAt(list: seq<Bucket>, b: nat, id: Id, ghost chains: Buckets) returns (removed: Handle?, ghost i: nat)
    requires Hold(list, chains) && b < |list|
    modifies list[b], chains[b]`nextHash
    ensures removed == HandleAt(chains[b], i) && i <= |chains[b]|
    ensures i < |chains[b]| ==> chains[b][i].GetId() == id
    ensures forall j :: 0 <= j < i ==> chains[b][j].GetId() != id
    ensures Hold(list, if i < |chains[b]| then chains[b := WithoutAt(chains[b], i)] else chains)
  {
    hide Bucket.Valid;
    removed, i := list[b].Remove(id.key, id.hash);
    forall c | 0 <= c < |list| && c != b
      ensures list[c].nodes == chains[c] && list[c].Valid()
    {
      forall g | g in list[c].nodes
        ensures g.nextHash == old(g.nextHash)
      {
        assert g in chains[c] && g !in chains[b];
      }
      list[c].Stays();
    }
  }
}
