/**
 * The circular lists of the cache (util/cache.cc LRU_Append, LRU_Remove): handles linked through next and prev
 * around a dummy head. LruCache keeps the sequence of the handles behind each head.
 */
module LruRing {
  import opened CacheHandle

  // Handles, the dummy head first, are linked into a ring both ways.
  ghost predicate Linked(ring: seq<Handle>)
    reads ring`next, ring`prev
  {
    && ring != [] && NoDuplicates(ring)
    && (forall i, j :: 0 <= i && j == i + 1 && j < |ring| ==> ring[i].next == ring[j] && ring[j].prev == ring[i])
    && ring[|ring| - 1].next == ring[0] && ring[0].prev == ring[|ring| - 1]
  }

  // No handle is on both lists.
  ghost predicate Apart(a: seq<Handle>, b: seq<Handle>) {
    forall h :: h in a ==> h !in b
  }

  // An empty list is its dummy head alone.
  method NewHead() returns (head: Handle)
    ensures fresh(head) && Linked([head])
  {
    head := new Handle([], 0, 0, 0);
    head.next, head.prev := head, head;
  }

  lemma LinkedDistinct(ring: seq<Handle>)
    requires Linked(ring)
    ensures NoDuplicates(ring)
  {
  }

  lemma HeadLinks(ring: seq<Handle>)
    requires Linked(ring)
    ensures ring[0].next == if |ring| > 1 then ring[1] else ring[0]
  {
  }

  /** Unlinks an entry; the others stay linked, in order, and so does another list. */
  method Remove(e: Handle, ghost ring: seq<Handle>, ghost i: nat, ghost other: seq<Handle>)
    requires Linked(ring) && 0 < i < |ring| && ring[i] == e
    requires Linked(other) && Apart(ring, other)
    modifies ring`next, ring`prev
    ensures Linked(WithoutAt(ring, i)) && e !in WithoutAt(ring, i)
    ensures Linked(other) && Apart(WithoutAt(ring, i), other)
  {
    ghost var rest := WithoutAt(ring, i);
    WithoutAtDistinct(ring, i);
    assert forall k :: 0 <= k < |other| ==> other[k] in other && other[k] !in ring;
    var next, prev := e.next, e.prev;
    assert prev == ring[i - 1];
    assert next == if i + 1 < |ring| then ring[i + 1] else ring[0];
    next.prev := prev;
    prev.next := next;
    forall j, k | 0 <= j && k == j + 1 && k < |rest|
      ensures rest[j].next == rest[k] && rest[k].prev == rest[j]
    {
      if k < i {
        assert rest[j] == ring[j] && rest[k] == ring[k];
      } else if k > i {
        assert rest[j] == ring[k] && rest[k] == ring[k + 1];
      }
    }
  }

  /** Links an entry in front of the dummy head, that is, as the newest one; another list stays as it is. */
  method Append(list: Handle, e: Handle, ghost ring: seq<Handle>, ghost other: seq<Handle>)
    requires Linked(ring) && ring[0] == list && e !in ring
    requires Linked(other) && Apart(ring, other) && e !in other
    modifies e`next, e`prev, ring`next, ring`prev
    ensures Linked(ring + [e])
    ensures Linked(other) && Apart(ring + [e], other)
  {
    assert forall k :: 0 <= k < |other| ==> other[k] in other && other[k] !in ring;
    e.next := list;
    e.prev := list.prev;
    e.prev.next := e;
    e.next.prev := e;
  }
}
