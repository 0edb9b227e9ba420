/** One shard of the reference-counted LRU cache (util/cache.cc LRUCache), over its linked lists and its hash table. */
module LruCache {
  import opened DbFormat
  import opened CacheHandle
  import opened HandleChain
  import opened HandleTable
  import LruRing

  function Charges(s: seq<Handle>): nat {
    if s == [] then 0 else s[0].charge + Charges(s[1..])
  }

  // Unlinking a handle from the list it is on.
  function Without(s: seq<Handle>, h: Handle): seq<Handle> {
    if s == [] then [] else if s[0] == h then s[1..] else [s[0]] + Without(s[1..], h)
  }

  ghost predicate IsRemoval(s: seq<Handle>, h: Handle, r: seq<Handle>) {
    && NoDuplicates(r)
    && (forall x :: x in r ==> x in s && x != h)
    && (forall x :: x in s && x != h ==> x in r)
    && Charges(s) == Charges(r) + (if h in s then h.charge else 0)
    && (h !in s ==> r == s)
  }

  lemma {:induction false} WithoutIsRemoval(s: seq<Handle>, h: Handle)
    requires NoDuplicates(s)
    ensures IsRemoval(s, h, Without(s, h))
  {
    if s != [] {
      WithoutIsRemoval(s[1..], h);
      assert s == [s[0]] + s[1..];
      assert s[0] !in s[1..];
    }
  }

  lemma {:induction false} ChargesSnoc(s: seq<Handle>, h: Handle)
    ensures Charges(s + [h]) == Charges(s) + h.charge
  {
    if s == [] {
      assert s + [h] == [h];
    } else {
      assert (s + [h])[1..] == s[1..] + [h];
      ChargesSnoc(s[1..], h);
    }
  }

  // The lists of the cache, oldest entry first, and the references clients hold on every handle ever created.
  datatype Lists = Lists(lru: seq<Handle>, inUse: seq<Handle>, usage: int, clients: map<Handle, nat>)

  predicate Listed(l: Lists, h: Handle) {
    h in l.lru || h in l.inUse
  }

  // References recorded in the handle: those of clients and the cache's own.
  function Refs(l: Lists, h: Handle): nat
    requires h in l.clients
  {
    l.clients[h] + if Listed(l, h) then 1 else 0
  }

  // Cached entries are split between the lists by whether a client holds them, and the table maps exactly them.
  ghost predicate ListsOk(l: Lists, m: Contents) {
    && NoDuplicates(l.lru) && NoDuplicates(l.inUse)
    && (forall h :: h in l.lru ==> h in l.clients && l.clients[h] == 0 && Maps(m, h))
    && (forall h :: h in l.inUse ==> h in l.clients && l.clients[h] > 0 && Maps(m, h))
    && (forall id :: id in m ==> Listed(l, m[id]) && m[id].GetId() == id)
    && l.usage == Charges(l.lru) + Charges(l.inUse)
  }

  predicate Maps(m: Contents, h: Handle) {
    h.GetId() in m && m[h.GetId()] == h
  }

  // ----- What each operation does to the lists

  function TakeRef(l: Lists, e: Handle): Lists
    requires e in l.clients
  {
    l.(lru := Without(l.lru, e), inUse := if e in l.lru then l.inUse + [e] else l.inUse,
       clients := l.clients[e := l.clients[e] + 1])
  }

  function DropRef(l: Lists, e: Handle): Lists
    requires e in l.clients && l.clients[e] > 0
  {
    var l' := l.(clients := l.clients[e := l.clients[e] - 1]);
    if Listed(l, e) && l.clients[e] == 1 then l'.(inUse := Without(l.inUse, e), lru := Without(l.lru, e) + [e]) else l'
  }

  function Attach(l: Lists, e: Handle): Lists {
    l.(inUse := l.inUse + [e], usage := l.usage + e.charge, clients := l.clients[e := 1])
  }

  function Detach(l: Lists, e: Handle): Lists {
    l.(lru := Without(l.lru, e), inUse := Without(l.inUse, e), usage := l.usage - e.charge)
  }

  // Victims are the oldest entries, until the usage fits or none is left.
  function Evict(l: Lists, capacity: nat): Lists
    decreases |l.lru|
  {
    if l.usage <= capacity || l.lru == [] then l
    else Evict(l.(lru := l.lru[1..], usage := l.usage - l.lru[0].charge), capacity)
  }

  lemma TakeRefOk(l: Lists, m: Contents, e: Handle)
    requires ListsOk(l, m) && Listed(l, e)
    ensures ListsOk(TakeRef(l, e), m)
    ensures forall h :: h in l.clients ==> (Listed(TakeRef(l, e), h) <==> Listed(l, h))
    ensures TakeRef(l, e).clients.Keys == l.clients.Keys
    ensures e in l.lru <==> l.clients[e] == 0
    ensures var clients := l.clients[e := l.clients[e] + 1];
            TakeRef(l, e) == if e in l.lru then Lists(Without(l.lru, e), l.inUse + [e], l.usage, clients)
                             else l.(clients := clients)
  {
    WithoutIsRemoval(l.lru, e);
    WithoutIsRemoval(l.inUse, e);
    Relink(l, m, e, Without(l.lru, e));
  }

  lemma Relink(l: Lists, m: Contents, e: Handle, r: seq<Handle>)
    requires ListsOk(l, m) && Listed(l, e) && IsRemoval(l.lru, e, r)
    ensures var l' := Lists(r, if e in l.lru then l.inUse + [e] else l.inUse, l.usage,
                            l.clients[e := l.clients[e] + 1]);
            ListsOk(l', m) && forall h :: h in l.clients ==> (Listed(l', h) <==> Listed(l, h))
  {
    ChargesSnoc(l.inUse, e);
  }

  lemma DropRefOk(l: Lists, m: Contents, e: Handle)
    requires ListsOk(l, m) && e in l.clients && l.clients[e] > 0
    ensures ListsOk(DropRef(l, e), m)
    ensures forall h :: h in l.clients ==> (Listed(DropRef(l, e), h) <==> Listed(l, h))
  {
    hide Charges, Without;
    WithoutIsRemoval(l.lru, e);
    WithoutIsRemoval(l.inUse, e);
    ChargesSnoc(l.lru, e);
  }

  lemma AttachOk(l: Lists, m: Contents, e: Handle)
    requires ListsOk(l, m) && e !in l.clients && e.GetId() !in m
    ensures ListsOk(Attach(l, e), m[e.GetId() := e])
  {
    hide Charges, Without;
    ChargesSnoc(l.inUse, e);
  }

  lemma DetachOk(l: Lists, m: Contents, e: Handle)
    requires ListsOk(l, m) && Maps(m, e)
    ensures ListsOk(Detach(l, e), m - {e.GetId()})
    ensures forall h :: h in l.clients ==> (Listed(Detach(l, e), h) <==> Listed(l, h) && h != e)
  {
    hide Charges, Without;
    WithoutIsRemoval(l.lru, e);
    WithoutIsRemoval(l.inUse, e);
  }

  // What Insert does before evicting: the entry replaced by the new one, if any, leaves the lists.
  function Replace(l: Lists, m: Contents, e: Handle): Lists {
    Attach(if e.GetId() in m then Detach(l, m[e.GetId()]) else l, e)
  }

  lemma {:induction false} WithoutSnoc(s: seq<Handle>, e: Handle, h: Handle)
    requires h != e
    ensures Without(s + [e], h) == Without(s, h) + [e]
  {
    if s == [] {
      assert s + [e] == [e];
    } else {
      assert (s + [e])[1..] == s[1..] + [e];
      if s[0] != h {
        WithoutSnoc(s[1..], e, h);
      }
    }
  }

  // The new entry is linked before the replaced one is unlinked; the order does not matter.
  lemma AttachDetachCommute(l: Lists, e: Handle, h: Handle)
    requires e != h
    ensures Detach(Attach(l, e), h) == Attach(Detach(l, h), e)
  {
    WithoutSnoc(l.inUse, e, h);
  }

  lemma ReplaceOk(l: Lists, m: Contents, e: Handle)
    requires ListsOk(l, m) && e !in l.clients
    ensures ListsOk(Replace(l, m, e), m[e.GetId() := e])
    ensures forall h :: h in l.clients ==>
              (Listed(Replace(l, m, e), h) <==> Listed(l, h) && (e.GetId() in m ==> h != m[e.GetId()]))
  {
    hide Charges, Without;
    var id := e.GetId();
    if id in m {
      MappedIsListed(l, m, id);
      DetachOk(l, m, m[id]);
      AttachOk(Detach(l, m[id]), m - {id}, e);
      assert (m - {id})[id := e] == m[id := e];
    } else {
      AttachOk(l, m, e);
    }
  }

  // Evicting one victim is detaching the oldest entry.
  lemma EvictOne(l: Lists, m: Contents, capacity: nat)
    requires ListsOk(l, m) && l.usage > capacity && l.lru != []
    ensures var h := l.lru[0];
            && Maps(m, h) && h in l.clients && Listed(l, h)
            && Evict(l, capacity) == Evict(Detach(l, h), capacity)
            && |Detach(l, h).lru| < |l.lru|
  {
    var h := l.lru[0];
    WithoutIsRemoval(l.inUse, h);
    assert l.clients[h] == 0;
    assert Without(l.inUse, h) == l.inUse;
  }

  lemma MappedIsListed(l: Lists, m: Contents, id: Id)
    requires ListsOk(l, m) && id in m
    ensures m[id] in l.clients && Listed(l, m[id]) && Maps(m, m[id]) && m[id].GetId() == id
  {
  }

  lemma {:induction false} WithoutIsAt(s: seq<Handle>, i: nat)
    requires NoDuplicates(s) && i < |s|
    ensures Without(s, s[i]) == WithoutAt(s, i)
  {
    if i > 0 {
      WithoutIsAt(s[1..], i - 1);
    }
  }

  // Everything the lists and the table hold is known to the cache.
  lemma ListsKnown(l: Lists, m: Contents)
    requires ListsOk(l, m)
    ensures (forall h :: h in l.lru ==> h in l.clients) && forall h :: h in l.inUse ==> h in l.clients
    ensures forall h :: h in m.Values ==> h in l.clients
    ensures forall h :: h in l.lru ==> h !in l.inUse
  {
  }

  class LRUCache {
    const capacity: nat
    var usage: int
    // Dummy heads: behind each of them comes the oldest entry of its list, in front of it the newest.
    const lruHead: Handle
    const inUseHead: Handle
    const table: HandleTable
    ghost var lru: seq<Handle>
    ghost var inUse: seq<Handle>
    ghost var clients: map<Handle, nat>

    ghost function State(): Lists
      reads this
    {
      Lists(lru, inUse, usage, clients)
    }

    // The handle records its references, its presence in the cache, and whether its deleter has run.
    static ghost predicate HandleOk(l: Lists, h: Handle)
      reads h`refs, h`inCache, h`deleted
      requires h in l.clients
    {
      && h.refs == Refs(l, h)
      && (h.inCache <==> Listed(l, h))
      && h.deleted == if h.refs == 0 then 1 else 0
    }

    static ghost predicate HandlesOk(l: Lists)
      reads l.clients.Keys`refs, l.clients.Keys`inCache, l.clients.Keys`deleted
    {
      forall h :: h in l.clients ==> HandleOk(l, h)
    }

    // The two lists are linked rings, each around its dummy head.
    ghost predicate Ringed()
      reads this`lru, this`inUse, lru`next, lru`prev, inUse`next, inUse`prev
      reads lruHead`next, lruHead`prev, inUseHead`next, inUseHead`prev
    {
      && LruRing.Linked([lruHead] + lru) && LruRing.Linked([inUseHead] + inUse)
      && LruRing.Apart([lruHead] + lru, [inUseHead] + inUse)
    }

    // What is on a list is known to the cache.
    ghost predicate Known()
      reads this`lru, this`inUse, this`clients
    {
      (forall h :: h in lru ==> h in clients) && (forall h :: h in inUse ==> h in clients)
    }

    ghost predicate Valid()
      reads this, table, table.list, table.m.Values`nextHash
      reads clients.Keys`refs, clients.Keys`inCache, clients.Keys`deleted
      reads lru`next, lru`prev, inUse`next, inUse`prev, lruHead`next, lruHead`prev, inUseHead`next, inUseHead`prev
    {
      && table.Valid() && ListsOk(State(), table.m) && HandlesOk(State())
      && Ringed() && lruHead !in clients && inUseHead !in clients
    }

    constructor (capacity: nat)
      ensures Valid() && this.capacity == capacity && State() == Lists([], [], 0, map[])
      ensures fresh(table) && fresh(lruHead) && fresh(inUseHead) && forall b :: b in table.list ==> fresh(b)
    {
      hide HandleTable.Valid, LruRing.Linked;
      this.capacity := capacity;
      usage, lru, inUse := 0, [], [];
      var head1 := LruRing.NewHead();
      var head2 := LruRing.NewHead();
      lruHead, inUseHead := head1, head2;
      table := new HandleTable();
      clients := map[];
      new;
      assert [lruHead] + lru == [lruHead] && [inUseHead] + inUse == [inUseHead];
    }

    method LRU_Remove(e: Handle)
      requires Ringed() && Known() && (e in lru || e in inUse)
      modifies this`lru, this`inUse, clients.Keys`next, clients.Keys`prev
      modifies lruHead`next, lruHead`prev, inUseHead`next, inUseHead`prev
      ensures Ringed() && Known() && lru == Without(old(lru), e) && inUse == Without(old(inUse), e)
      ensures e !in lru && e !in inUse && (e !in old(inUse) ==> inUse == old(inUse))
      ensures forall h :: h != e ==> (Listed(State(), h) <==> Listed(old(State()), h))
    {
      hide LruRing.Linked, Without, NoDuplicates, WithoutAt;
      LruRing.LinkedDistinct([lruHead] + lru);
      LruRing.LinkedDistinct([inUseHead] + inUse);
      assert forall i :: 0 <= i < |lru| ==> lru[i] in lru;
      assert forall i :: 0 <= i < |inUse| ==> inUse[i] in inUse;
      ghost var inLru := e in lru;
      assert e in [lruHead] + lru <==> inLru || e == lruHead;
      ghost var head, a := if inLru then lruHead else inUseHead, if inLru then lru else inUse;
      ghost var head', b := if inLru then inUseHead else lruHead, if inLru then inUse else lru;
      ghost var i := Unlinked(head, a, e);
      StaysWhole(head', b, e);
      LruRing.Remove(e, [head] + a, i + 1, [head'] + b);
      lru, inUse := Without(lru, e), Without(inUse, e);
    }

    method LRU_Append(list: Handle, e: Handle)
      requires Ringed() && Known() && (list == lruHead || list == inUseHead)
      requires e in clients && e != lruHead && e != inUseHead && e !in lru && e !in inUse
      modifies this`lru, this`inUse, clients.Keys`next, clients.Keys`prev
      modifies lruHead`next, lruHead`prev, inUseHead`next, inUseHead`prev
      ensures Ringed() && Known()
      ensures list == lruHead ==> lru == old(lru) + [e] && inUse == old(inUse)
      ensures list == inUseHead ==> lru == old(lru) && inUse == old(inUse) + [e]
    {
      hide LruRing.Linked;
      assert forall i :: 0 <= i < |lru| ==> lru[i] in lru;
      assert forall i :: 0 <= i < |inUse| ==> inUse[i] in inUse;
      assert lruHead != inUseHead by {
        assert lruHead in [lruHead] + lru && inUseHead in [inUseHead] + inUse;
      }
      ghost var a, b := if list == lruHead then lru else inUse, if list == lruHead then inUse else lru;
      ghost var head' := if list == lruHead then inUseHead else lruHead;
      LruRing.Append(list, e, [list] + a, [head'] + b);
      assert [list] + a + [e] == [list] + (a + [e]);
      if list == lruHead {
        lru := lru + [e];
      } else {
        inUse := inUse + [e];
      }
    }

    lemma HandleIsOk(h: Handle)
      requires HandlesOk(State()) && h in clients
      ensures HandleOk(State(), h)
    {
    }

    // The handles are right after one of them gained or lost a reference.
    twostate lemma OneChanged(e: Handle)
      requires old(HandlesOk(State())) && e in clients && clients.Keys == old(clients.Keys) && HandleOk(State(), e)
      requires forall h :: h in clients && h != e ==>
                 && clients[h] == old(clients[h]) && (Listed(State(), h) <==> Listed(old(State()), h))
                 && h.refs == old(h.refs) && h.inCache == old(h.inCache) && h.deleted == old(h.deleted)
      ensures HandlesOk(State())
    {
      forall h | h in clients
        ensures HandleOk(State(), h)
      {
        assert h != e ==> old(HandleOk(State(), h));
      }
    }

    // Adds a reference for a client: the first one moves the entry to the in-use list.
    method Ref(e: Handle)
      requires Ringed() && Known() && HandlesOk(State()) && lruHead !in clients && inUseHead !in clients
      requires e in clients && Listed(State(), e) && (e in lru <==> clients[e] == 0) && (e in lru ==> e !in inUse)
      modifies this`lru, this`inUse, this`clients, clients.Keys, lruHead, inUseHead
      ensures Ringed() && Known() && HandlesOk(State()) && clients == old(clients)[e := old(clients)[e] + 1]
      ensures if e in old(lru) then lru == Without(old(lru), e) && inUse == old(inUse) + [e]
              else lru == old(lru) && inUse == old(inUse)
      ensures forall h :: h in clients ==> h.nextHash == old(h.nextHash)
    {
      hide Without, Ringed, HandlesOk;
      HandleIsOk(e);
      if e.refs == 1 && e.inCache {
        LRU_Remove(e);
        LRU_Append(inUseHead, e);
      }
      e.refs := e.refs + 1;
      clients := clients[e := clients[e] + 1];
      OneChanged(e);
    }

    method Lookup(key: Bytes, hash: nat) returns (e: Handle?)
      requires Valid()
      modifies this, clients.Keys, lruHead, inUseHead
      ensures Valid() && table.m == old(table.m) && (e != null ==> e in old(clients))
      ensures e == if Id(key, hash) in table.m then table.m[Id(key, hash)] else null
      ensures State() == if e == null then old(State()) else TakeRef(old(State()), e)
    {
      hide ListsOk, Without, Charges, HandleTable.Valid, Ringed, TakeRef, HandlesOk;
      e := table.Lookup(key, hash);
      if e != null {
        ghost var l := State();
        MappedIsListed(l, table.m, Id(key, hash));
        ListsKnown(l, table.m);
        TakeRefOk(l, table.m, e);
        Ref(e);
        assert State() == TakeRef(l, e);
      }
    }

    // Drops one reference: the last one runs the deleter, the last client's moves a cached entry to the LRU list.
    method Unref(e: Handle)
      requires e.refs > 0 && Ringed() && Known() && e in clients && e != lruHead && e != inUseHead
      requires e.inCache ==> e in lru || e in inUse
      modifies this`lru, this`inUse, e`refs, e`deleted, clients.Keys`next, clients.Keys`prev
      modifies lruHead`next, lruHead`prev, inUseHead`next, inUseHead`prev
      ensures Ringed() && Known() && e.refs == old(e.refs) - 1
      ensures e.deleted == old(e.deleted) + if e.refs == 0 then 1 else 0
      ensures if e.refs == 1 && e.inCache
              then lru == Without(old(lru), e) + [e] && inUse == Without(old(inUse), e)
              else lru == old(lru) && inUse == old(inUse)
    {
      hide Without, Ringed;
      e.refs := e.refs - 1;
      if e.refs == 0 {
        e.deleted := e.deleted + 1;
      } else if e.inCache && e.refs == 1 {
        LRU_Remove(e);
        LRU_Append(lruHead, e);
      }
    }

    method Release(e: Handle)
      requires Valid() && e in clients && clients[e] > 0
      modifies this, clients.Keys, lruHead, inUseHead
      ensures Valid() && State() == DropRef(old(State()), e) && table.m == old(table.m)
    {
      hide ListsOk, Without, Charges, HandleTable.Valid, Ringed, HandlesOk;
      ghost var l := State();
      ListsKnown(l, table.m);
      DropRefOk(l, table.m, e);
      HandleIsOk(e);
      Unref(e);
      clients := clients[e := clients[e] - 1];
      assert State() == DropRef(l, e);
      OneChanged(e);
    }

    // Removes an entry the table no longer maps from the lists and drops the cache's reference.
    method FinishErase(e: Handle?)
      requires Ringed() && Known() && lruHead !in clients && inUseHead !in clients && HandlesOk(State())
      requires e != null ==> e in clients && Listed(State(), e)
      modifies this`lru, this`inUse, this`usage, clients.Keys, lruHead, inUseHead
      ensures Ringed() && Known() && HandlesOk(State())
      ensures State() == if e == null then old(State()) else Detach(old(State()), e)
      ensures forall h :: h in clients ==> h.nextHash == old(h.nextHash)
    {
      hide Without, Ringed, HandlesOk;
      if e != null {
        HandleIsOk(e);
        LRU_Remove(e);
        e.inCache := false;
        usage := usage - e.charge;
        Unref(e);
        OneChanged(e);
      }
    }

    method Erase(key: Bytes, hash: nat)
      requires Valid()
      modifies this, table, table.list, clients.Keys, lruHead, inUseHead
      ensures Valid() && table.m == old(table.m) - {Id(key, hash)} && table.list == old(table.list)
      ensures Id(key, hash) !in old(table.m) ==> State() == old(State())
      ensures Id(key, hash) in old(table.m) ==> State() == Detach(old(State()), old(table.m)[Id(key, hash)])
    {
      hide ListsOk, Without, Charges, HandleTable.Valid, Ringed, HandlesOk;
      ghost var l, m := State(), table.m;
      ListsKnown(l, m);
      var e := table.Remove(key, hash);
      if e != null {
        MappedIsListed(l, m, Id(key, hash));
        DetachOk(l, m, e);
      } else {
        assert table.m == m;
      }
      FinishErase(e);
    }

    method Insert(key: Bytes, hash: nat, value: nat, charge: nat) returns (e: Handle)
      requires Valid()
      modifies this, table, table.list, clients.Keys, lruHead, inUseHead
      ensures Valid() && fresh(e) && forall b :: b in table.list ==> b in old(table.list) || fresh(b)
      ensures e.key == key && e.hash == hash && e.value == value && e.charge == charge
      ensures capacity > 0 ==> State() == Evict(Replace(old(State()), old(table.m), e), capacity)
      ensures capacity == 0 ==> State() == Evict(old(State()).(clients := old(clients)[e := 1]), 0)
    {
      hide ListsOk, Without, Charges, HandleTable.Valid, Ringed;
      e := new Handle(key, hash, value, charge);
      if capacity > 0 {
        Link(e);
      } else {
        ghost var l := State();
        clients := clients[e := 1];
        NewClient(l, table.m, e);
      }
      assert forall i :: 0 <= i < |table.list| ==> table.list[i] in table.list;
      Shrink();
    }

    // The part of Insert that puts the new entry into the lists and the table.
    method Link(e: Handle)
      requires Valid() && e !in clients && e != lruHead && e != inUseHead
      requires e.refs == 1 && !e.inCache && e.deleted == 0
      modifies this, table, table.list, e, clients.Keys, lruHead, inUseHead
      ensures Valid() && State() == Replace(old(State()), old(table.m), e)
      ensures forall b :: b in table.list ==> b in old(table.list) || fresh(b)
    {
      hide ListsOk, Without, Charges, HandleTable.Valid, Ringed, HandlesOk;
      ghost var l, m := State(), table.m;
      ListsKnown(l, m);
      ReplaceOk(l, m, e);
      LinkToList(e);
      var replaced := table.Insert(e);
      if replaced != null {
        MappedIsListed(l, m, e.GetId());
        AttachDetachCommute(l, e, replaced);
      }
      FinishErase(replaced);
    }

    // The new entry is the newest one of the in-use list.
    method LinkToList(e: Handle)
      requires Ringed() && Known() && HandlesOk(State()) && e !in clients && e != lruHead && e != inUseHead
      requires e.refs == 1 && !e.inCache && e.deleted == 0
      modifies this`lru, this`inUse, this`usage, this`clients, e`refs, e`inCache, e`next, e`prev
      modifies clients.Keys`next, clients.Keys`prev, lruHead`next, lruHead`prev, inUseHead`next, inUseHead`prev
      ensures Ringed() && Known() && HandlesOk(State()) && State() == Attach(old(State()), e)
    {
      hide Ringed;
      e.refs := e.refs + 1;
      e.inCache := true;
      clients := clients[e := 1];
      LRU_Append(inUseHead, e);
      usage := usage + e.charge;
    }

    // Evicts the oldest entries while the usage exceeds the capacity.
    method Shrink()
      requires Valid()
      modifies this, table, table.list, clients.Keys, lruHead, inUseHead
      ensures Valid() && State() == Evict(old(State()), capacity) && table.list == old(table.list)
    {
      hide ListsOk, Without, Charges, HandleTable.Valid, Ringed, Evict;
      OldestIsFirst();
      while usage > capacity && lruHead.next != lruHead
        invariant Valid() && clients.Keys == old(clients.Keys) && table.list == old(table.list)
        invariant lruHead.next == (if lru == [] then lruHead else lru[0]) && lruHead !in lru
        invariant Evict(State(), capacity) == Evict(old(State()), capacity)
        decreases |lru|
      {
        ghost var l, m := State(), table.m;
        EvictOne(l, m, capacity);
        var victim := lruHead.next;
        Erase(victim.key, victim.hash);
        OldestIsFirst();
      }
      NothingToEvict(State(), capacity);
    }

    method Prune()
      requires Valid()
      modifies this, table, table.list, clients.Keys, lruHead, inUseHead
      ensures Valid() && lru == [] && inUse == old(inUse) && clients == old(clients) && table.list == old(table.list)
    {
      hide ListsOk, Without, Charges, HandleTable.Valid, Ringed;
      OldestIsFirst();
      while lruHead.next != lruHead
        invariant Valid() && clients == old(clients) && inUse == old(inUse) && table.list == old(table.list)
        invariant lruHead.next == (if lru == [] then lruHead else lru[0]) && lruHead !in lru
        decreases |lru|
      {
        OldestOnly(State(), table.m);
        var e := lruHead.next;
        Erase(e.key, e.hash);
        OldestIsFirst();
      }
    }

    // The entry behind the dummy head of the LRU list is the oldest one.
    lemma OldestIsFirst()
      requires Ringed()
      ensures lruHead.next == if lru == [] then lruHead else lru[0]
      ensures lruHead !in lru
    {
      LruRing.HeadLinks([lruHead] + lru);
      assert ([lruHead] + lru)[1..] == lru;
    }
  }

  lemma NothingToEvict(l: Lists, capacity: nat)
    requires l.usage <= capacity || l.lru == []
    ensures Evict(l, capacity) == l
  {
  }

  // With no capacity the new entry is not cached.
  lemma NewClient(l: Lists, m: Contents, e: Handle)
    requires ListsOk(l, m) && e !in l.clients
    ensures ListsOk(l.(clients := l.clients[e := 1]), m) && !Listed(l, e)
  {
  }

  lemma Unlinked(head: Handle, s: seq<Handle>, e: Handle) returns (i: nat)
    requires NoDuplicates([head] + s) && e in s
    ensures i < |s| && s[i] == e && WithoutAt([head] + s, i + 1) == [head] + Without(s, e)
    ensures forall h :: h in Without(s, e) ==> h in s
    ensures forall h :: h in s && h != e ==> h in Without(s, e)
  {
    i :| 0 <= i < |s| && s[i] == e;
    assert ([head] + s)[1..] == s;
    WithoutIsAt(s, i);
    WithoutIsRemoval(s, e);
  }

  lemma StaysWhole(head: Handle, s: seq<Handle>, e: Handle)
    requires NoDuplicates([head] + s) && e !in s
    ensures Without(s, e) == s && forall h :: h in Without(s, e) ==> h in s
  {
    assert ([head] + s)[1..] == s;
    WithoutIsRemoval(s, e);
  }

  lemma OldestOnly(l: Lists, m: Contents)
    requires ListsOk(l, m) && l.lru != []
    ensures var h := l.lru[0];
            Maps(m, h) && Detach(l, h).lru == l.lru[1..] && Detach(l, h).inUse == l.inUse
  {
    WithoutIsRemoval(l.inUse, l.lru[0]);
    assert l.clients[l.lru[0]] == 0;
  }

  // The n oldest entries have gone, and not one of them in vain.
  ghost predicate EvictedOldest(l: Lists, l': Lists, capacity: nat, n: nat) {
    && n <= |l.lru|
    && l' == l.(lru := l.lru[n..], usage := l.usage - Charges(l.lru[..n]))
    && (n > 0 ==> l.usage - Charges(l.lru[..n - 1]) > capacity)
  }

  /** After an insertion the usage fits the capacity or no entry is left that could be evicted; the victims are the
      entries released longest ago, and no more of them than needed. */
  lemma {:induction false} EvictionIsOldestFirst(l: Lists, capacity: nat) returns (n: nat)
    ensures var l' := Evict(l, capacity);
            EvictedOldest(l, l', capacity, n) && (l'.usage <= capacity || l'.lru == [])
    decreases |l.lru|
  {
    if l.usage <= capacity || l.lru == [] {
      n := 0;
      assert l.lru[0..] == l.lru && l.lru[..0] == [];
    } else {
      var t := l.(lru := l.lru[1..], usage := l.usage - l.lru[0].charge);
      var k := EvictionIsOldestFirst(t, capacity);
      n := k + 1;
      EvictedStep(l, Evict(t, capacity), capacity, k);
    }
  }

  lemma EvictedStep(l: Lists, l': Lists, capacity: nat, k: nat)
    requires l.lru != [] && l.usage > capacity
    requires EvictedOldest(l.(lru := l.lru[1..], usage := l.usage - l.lru[0].charge), l', capacity, k)
    ensures EvictedOldest(l, l', capacity, k + 1)
  {
    var tail := l.lru[1..];
    assert l.lru[..k + 1][1..] == tail[..k];
    assert tail[k..] == l.lru[k + 1..];
    if k > 0 {
      assert l.lru[..k][1..] == tail[..k - 1];
    } else {
      assert l.lru[..0] == [];
    }
  }

  // ----- Least recently used, over any run

  // What happens to the lists: a look-up that hits, a release, a new entry, one that leaves, an eviction.
  datatype Use = Take(h: Handle) | Drop(h: Handle) | Add(h: Handle) | Gone(h: Handle) | Shrink(capacity: nat)

  predicate Possible(l: Lists, u: Use) {
    match u
    case Take(h) => h in l.clients && Listed(l, h)
    case Drop(h) => h in l.clients && l.clients[h] > 0
    case Add(h) => h !in l.clients
    case Gone(h) => true
    case Shrink(_) => true
  }

  function Used(l: Lists, u: Use): Lists
    requires Possible(l, u)
  {
    match u
    case Take(h) => TakeRef(l, h)
    case Drop(h) => DropRef(l, h)
    case Add(h) => Attach(l, h)
    case Gone(h) => Detach(l, h)
    case Shrink(capacity) => Evict(l, capacity)
  }

  // The lists before each use and after the last one, from an empty cache on.
  ghost predicate History(states: seq<Lists>, uses: seq<Use>) {
    && |states| == |uses| + 1 && states[0] == Lists([], [], 0, map[])
    && forall i :: 0 <= i < |uses| ==> Possible(states[i], uses[i]) && states[i + 1] == Used(states[i], uses[i])
  }

  // When a handle was released last: the number of the use, counted from one.
  function LastDrop(uses: seq<Use>, h: Handle): nat {
    if uses == [] then 0
    else if uses[|uses| - 1] == Drop(h) then |uses|
    else LastDrop(uses[..|uses| - 1], h)
  }

  // The entries that may be evicted are all released, and stand in the order of their last releases.
  ghost predicate ByRelease(l: Lists, uses: seq<Use>) {
    && (forall h :: h in l.lru ==> h in l.clients && l.clients[h] == 0)
    && Ascending(l.lru, uses)
  }

  ghost predicate Ascending(s: seq<Handle>, uses: seq<Use>) {
    forall i, j :: 0 <= i < j < |s| ==> LastDrop(uses, s[i]) < LastDrop(uses, s[j])
  }

  lemma {:induction false} WithoutMembers(s: seq<Handle>, h: Handle)
    ensures forall x :: x in Without(s, h) ==> x in s
  {
    if s != [] && s[0] != h {
      WithoutMembers(s[1..], h);
    }
  }

  lemma {:induction false} WithoutAscends(s: seq<Handle>, h: Handle, uses: seq<Use>)
    requires Ascending(s, uses)
    ensures Ascending(Without(s, h), uses) && h !in Without(s, h)
  {
    hide LastDrop;
    if s != [] {
      assert forall i :: 0 <= i < |s[1..]| ==> s[1..][i] == s[i + 1];
      if s[0] == h {
        assert forall i :: 0 < i < |s| ==> LastDrop(uses, s[0]) < LastDrop(uses, s[i]);
      } else {
        WithoutAscends(s[1..], h, uses);
        WithoutMembers(s[1..], h);
        var rest := Without(s[1..], h);
        forall j | 0 <= j < |rest|
          ensures LastDrop(uses, s[0]) < LastDrop(uses, rest[j])
        {
          assert rest[j] in s[1..];
          var k :| 0 <= k < |s[1..]| && s[1..][k] == rest[j];
          assert s[k + 1] == rest[j];
        }
      }
    }
  }

  lemma {:induction false} EvictIsSuffix(l: Lists, capacity: nat)
    ensures |Evict(l, capacity).lru| <= |l.lru|
    ensures Evict(l, capacity).lru == l.lru[|l.lru| - |Evict(l, capacity).lru|..]
    ensures Evict(l, capacity).clients == l.clients
    decreases |l.lru|
  {
    if l.usage > capacity && l.lru != [] {
      EvictIsSuffix(l.(lru := l.lru[1..], usage := l.usage - l.lru[0].charge), capacity);
    }
  }

  // A use leaves the release times of the entries on the list as they were, but for the one it releases.
  lemma LastDropStep(uses: seq<Use>, u: Use, h: Handle)
    ensures LastDrop(uses + [u], h) == if u == Drop(h) then |uses| + 1 else LastDrop(uses, h)
    ensures LastDrop(uses, h) <= |uses|
  {
    assert (uses + [u])[..|uses|] == uses;
    LastDropEarlier(uses, h);
  }

  lemma {:induction false} LastDropEarlier(uses: seq<Use>, h: Handle)
    ensures LastDrop(uses, h) <= |uses|
  {
    if uses != [] {
      LastDropEarlier(uses[..|uses| - 1], h);
    }
  }

  lemma AscendsOn(s: seq<Handle>, uses: seq<Use>, u: Use)
    requires Ascending(s, uses) && forall h :: h in s ==> u != Drop(h)
    ensures Ascending(s, uses + [u])
  {
    hide LastDrop;
    forall i, j | 0 <= i < j < |s|
      ensures LastDrop(uses + [u], s[i]) < LastDrop(uses + [u], s[j])
    {
      LastDropStep(uses, u, s[i]);
      LastDropStep(uses, u, s[j]);
    }
  }

  lemma ReleasedLast(s: seq<Handle>, uses: seq<Use>, h: Handle)
    requires Ascending(s, uses) && h !in s
    ensures Ascending(s + [h], uses + [Drop(h)])
  {
    hide LastDrop;
    var all := s + [h];
    AscendsOn(s, uses, Drop(h));
    forall i | 0 <= i < |s|
      ensures LastDrop(uses + [Drop(h)], s[i]) < LastDrop(uses + [Drop(h)], h)
    {
      LastDropStep(uses, Drop(h), s[i]);
      LastDropStep(uses, Drop(h), h);
    }
    assert forall i, j :: 0 <= i < j < |all| ==> all[i] == s[i] && (j < |s| ==> all[j] == s[j]) && (j == |s| ==> all[j] == h);
  }

  lemma UseKeepsOrder(l: Lists, uses: seq<Use>, u: Use)
    requires ByRelease(l, uses) && Possible(l, u)
    ensures ByRelease(Used(l, u), uses + [u])
  {
    hide LastDrop, Without, Evict, Ascending;
    match u
    case Take(h) =>
      WithoutAscends(l.lru, h, uses);
      WithoutMembers(l.lru, h);
      AscendsOn(Without(l.lru, h), uses, u);
    case Drop(h) =>
      WithoutAscends(l.lru, h, uses);
      WithoutMembers(l.lru, h);
      ReleasedLast(Without(l.lru, h), uses, h);
      AscendsOn(l.lru, uses, u);
    case Add(h) =>
      AscendsOn(l.lru, uses, u);
    case Gone(h) =>
      WithoutAscends(l.lru, h, uses);
      WithoutMembers(l.lru, h);
      AscendsOn(Without(l.lru, h), uses, u);
    case Shrink(capacity) =>
      EvictIsSuffix(l, capacity);
      SuffixAscends(l.lru, |l.lru| - |Evict(l, capacity).lru|, uses);
      AscendsOn(Evict(l, capacity).lru, uses, u);
  }

  lemma SuffixAscends(s: seq<Handle>, n: nat, uses: seq<Use>)
    requires Ascending(s, uses) && n <= |s|
    ensures Ascending(s[n..], uses)
  {
    hide LastDrop;
  }

  /** Whatever the cache has been used for, the entries that may be evicted stand in the order in which they were
      released last, so the victim of an eviction is the one whose last release is the longest ago. */
  lemma {:induction false} OldestReleaseFirst(states: seq<Lists>, uses: seq<Use>, i: nat)
    requires History(states, uses) && i <= |uses|
    ensures ByRelease(states[i], uses[..i])
  {
    hide LastDrop, Used, Possible;
    if i > 0 {
      OldestReleaseFirst(states, uses, i - 1);
      assert uses[..i] == uses[..i - 1] + [uses[i - 1]];
      UseKeepsOrder(states[i - 1], uses[..i - 1], uses[i - 1]);
    }
  }
}
