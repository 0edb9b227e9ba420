/** The memtable's skip list (db/skiplist.h) under one writer and any number of concurrent readers.

    Nodes live in an arena and are named by their index, the head being node 0.  Each statement of Insert that
    stores to shared memory is one step; the class records the memory after every step, which is all that a
    concurrent reader can ever observe. */
module SkipList {
  import opened Wrappers

  // A key is its position in the comparator's order.
  type Key = real

  const MAX_HEIGHT: nat := 12
  const NIL: int := -1
  const HEAD: int := 0

  datatype Node = Node(key: Key, next: seq<int>)

  // Shared memory, and for each level the nodes linked there.
  datatype Heap = Heap(nodes: seq<Node>, maxHeight: nat, levels: seq<set<int>>)

  predicate InArena(h: Heap, n: int) {
    0 <= n < |h.nodes|
  }

  // The head counts as below every key.
  predicate IsBefore(h: Heap, n: int, k: Key)
    requires InArena(h, n)
  {
    n == HEAD || h.nodes[n].key < k
  }

  // Node n is linked at level i.
  ghost predicate Linked(h: Heap, i: int, n: int) {
    0 <= i < |h.levels| && n in h.levels[i]
  }

  ghost predicate Shaped(h: Heap) {
    && |h.nodes| > 0 && |h.nodes[HEAD].next| == MAX_HEIGHT && |h.levels| == MAX_HEIGHT
    && 1 <= h.maxHeight <= MAX_HEIGHT
    && (forall i, n :: 0 <= i < MAX_HEIGHT && Linked(h, i, n) ==>
          InArena(h, n) && n != HEAD && i < |h.nodes[n].next| && i < h.maxHeight)
  }

  // Node n has a successor pointer at level i.
  ghost predicate OnLevel(h: Heap, i: nat, n: int) {
    i < |h.levels| && (n == HEAD || Linked(h, i, n))
  }

  // The pointer leads to the least linked key above n's, if there is one: the level is strictly sorted.
  ghost predicate LinkOk(h: Heap, i: nat, n: int)
    requires Shaped(h) && OnLevel(h, i, n)
  {
    var t := h.nodes[n].next[i];
    && (t == NIL ==> forall m :: Linked(h, i, m) ==> !IsBefore(h, n, h.nodes[m].key))
    && (t != NIL ==> Linked(h, i, t) && IsBefore(h, n, h.nodes[t].key)
                     && forall m :: Linked(h, i, m) && IsBefore(h, n, h.nodes[m].key) ==> h.nodes[t].key <= h.nodes[m].key)
  }

  ghost predicate HeapOk(h: Heap) {
    && Shaped(h)
    && (forall i, n :: 0 <= i < MAX_HEIGHT && OnLevel(h, i, n) ==> LinkOk(h, i, n))
    && (forall i, n :: 0 < i < MAX_HEIGHT && Linked(h, i, n) ==> Linked(h, i - 1, n))
    && (forall n, m :: Linked(h, 0, n) && Linked(h, 0, m) && h.nodes[n].key == h.nodes[m].key ==> n == m)
  }

  // Between two observations keys stay, nodes stay linked, and links only appear.
  ghost predicate Grows(h: Heap, h': Heap) {
    && |h.nodes| <= |h'.nodes| && |h.levels| == |h'.levels|
    && (forall n :: 0 <= n < |h.nodes| ==> h'.nodes[n].key == h.nodes[n].key)
    && (forall i, n :: Linked(h, i, n) ==> Linked(h', i, n))
  }

  // One store to shared memory.
  ghost predicate SingleStore(h: Heap, h': Heap) {
    || (h'.nodes == h.nodes && h'.levels == h.levels)
    || (|h'.nodes| == |h.nodes| + 1 && h'.nodes[..|h.nodes|] == h.nodes && h'.maxHeight == h.maxHeight
        && h'.levels == h.levels)
    || (h'.maxHeight == h.maxHeight
        && exists n, i, t :: 0 <= n < |h.nodes| && 0 <= i < |h.nodes[n].next| && h'.nodes == Stored(h.nodes, n, i, t))
  }

  function Stored(nodes: seq<Node>, n: int, i: int, t: int): (r: seq<Node>)
    requires 0 <= n < |nodes| && 0 <= i < |nodes[n].next|
    ensures |r| == |nodes|
    ensures forall m :: 0 <= m < |nodes| ==> r[m].key == nodes[m].key && |r[m].next| == |nodes[m].next|
    ensures forall m, j :: 0 <= m < |nodes| && 0 <= j < |nodes[m].next| ==>
              r[m].next[j] == if m == n && j == i then t else nodes[m].next[j]
  {
    nodes[n := nodes[n].(next := nodes[n].next[i := t])]
  }

  ghost predicate HistoryOk(history: seq<Heap>) {
    && (forall i :: 0 <= i < |history| ==> HeapOk(history[i]))
    && (forall i :: 0 <= i < |history| - 1 ==> Grows(history[i], history[i + 1]) && SingleStore(history[i], history[i + 1]))
  }

  // p is the last node of level i below k.
  ghost predicate IsPrev(h: Heap, i: nat, p: int, k: Key) {
    && Shaped(h) && OnLevel(h, i, p) && IsBefore(h, p, k)
    && (h.nodes[p].next[i] == NIL || (InArena(h, h.nodes[p].next[i]) && h.nodes[h.nodes[p].next[i]].key > k))
  }

  lemma {:induction false} InBottom(h: Heap, i: nat, n: int)
    requires HeapOk(h) && i < MAX_HEIGHT && Linked(h, i, n)
    ensures Linked(h, 0, n)
  {
    if i > 0 {
      assert Linked(h, i - 1, n);
      InBottom(h, i - 1, n);
    }
  }

  lemma PrevIsStrict(h: Heap, i: nat, p: int, k: Key)
    requires HeapOk(h) && i < MAX_HEIGHT && OnLevel(h, i, p) && IsBefore(h, p, k)
    requires var t := h.nodes[p].next[i]; t == NIL || (InArena(h, t) && h.nodes[t].key >= k)
    requires forall n :: Linked(h, 0, n) ==> h.nodes[n].key != k
    ensures IsPrev(h, i, p, k)
  {
    assert LinkOk(h, i, p);
    var t := h.nodes[p].next[i];
    if t != NIL {
      InBottom(h, i, t);
    }
  }

  // A link is unaffected by what happens elsewhere.
  lemma LinkKept(h: Heap, h': Heap, i: nat, n: int)
    requires Shaped(h) && Shaped(h') && OnLevel(h, i, n) && LinkOk(h, i, n)
    requires |h.nodes| <= |h'.nodes| && forall m :: 0 <= m < |h.nodes| ==> h'.nodes[m].key == h.nodes[m].key
    requires forall m :: Linked(h', i, m) <==> Linked(h, i, m)
    requires i < |h'.nodes[n].next| && h'.nodes[n].next[i] == h.nodes[n].next[i]
    ensures OnLevel(h', i, n) && LinkOk(h', i, n)
  {
    forall m | Linked(h', i, m)
      ensures Linked(h, i, m) && (IsBefore(h', n, h'.nodes[m].key) <==> IsBefore(h, n, h.nodes[m].key))
    {
    }
  }

  // Raising the height before the new levels are linked is harmless: they are still empty.
  lemma RaiseKeepsHeap(h: Heap, height: nat)
    requires HeapOk(h) && h.maxHeight <= height <= MAX_HEIGHT
    ensures var h' := Heap(h.nodes, height, h.levels); HeapOk(h') && Grows(h, h') && SingleStore(h, h')
  {
    var h' := Heap(h.nodes, height, h.levels);
    assert forall j, n :: Linked(h', j, n) <==> Linked(h, j, n);
    forall i, n | 0 <= i < MAX_HEIGHT && OnLevel(h', i, n)
      ensures LinkOk(h', i, n)
    {
      assert OnLevel(h, i, n);
      LinkKept(h, h', i, n);
    }
  }

  lemma AllocKeepsHeap(h: Heap, node: Node)
    requires HeapOk(h)
    ensures var h' := Heap(h.nodes + [node], h.maxHeight, h.levels); HeapOk(h') && Grows(h, h') && SingleStore(h, h')
  {
    var h' := Heap(h.nodes + [node], h.maxHeight, h.levels);
    assert forall j, n :: Linked(h', j, n) <==> Linked(h, j, n);
    forall i, n | 0 <= i < MAX_HEIGHT && OnLevel(h', i, n)
      ensures LinkOk(h', i, n)
    {
      assert OnLevel(h, i, n);
      LinkKept(h, h', i, n);
    }
  }

  // The new node's own pointer is stored before anyone can reach it on that level.
  lemma PrepareKeepsHeap(h: Heap, x: int, i: nat, t: int)
    requires HeapOk(h) && InArena(h, x) && x != HEAD && i < |h.nodes[x].next| && i < MAX_HEIGHT && !Linked(h, i, x)
    ensures var h' := Heap(Stored(h.nodes, x, i, t), h.maxHeight, h.levels);
            HeapOk(h') && Grows(h, h') && SingleStore(h, h')
  {
    var h' := Heap(Stored(h.nodes, x, i, t), h.maxHeight, h.levels);
    assert forall j, n :: Linked(h', j, n) <==> Linked(h, j, n);
    forall j, n | 0 <= j < MAX_HEIGHT && OnLevel(h', j, n)
      ensures LinkOk(h', j, n)
    {
      assert OnLevel(h, j, n);
      LinkKept(h, h', j, n);
    }
  }

  // Every other node of the level that is below k is below its predecessor p.
  lemma PrevIsLast(h: Heap, i: nat, p: int, k: Key, n: int)
    requires HeapOk(h) && i < MAX_HEIGHT && IsPrev(h, i, p, k)
    requires OnLevel(h, i, n) && n != p && IsBefore(h, n, k)
    ensures p != HEAD && IsBefore(h, n, h.nodes[p].key)
  {
    assert LinkOk(h, i, p);
    if n != HEAD {
      InBottom(h, i, n);
      if p != HEAD {
        InBottom(h, i, p);
      }
    }
  }

  // Publishing a prepared node behind its predecessor keeps the level sorted.
  lemma PublishKeepsLinks(h: Heap, i: nat, p: int, x: int)
    requires HeapOk(h) && InArena(h, x) && IsPrev(h, i, p, h.nodes[x].key)
    requires x != HEAD && i < |h.nodes[x].next| && i < h.maxHeight && !Linked(h, i, x)
    requires h.nodes[x].next[i] == h.nodes[p].next[i]
    ensures var h' := Publish(h, i, p, x);
            Shaped(h') && forall n :: OnLevel(h', i, n) ==> LinkOk(h', i, n)
  {
    var h' := Publish(h, i, p, x);
    forall j, n | 0 <= j < MAX_HEIGHT && Linked(h', j, n)
      ensures InArena(h', n) && n != HEAD && j < |h'.nodes[n].next| && j < h'.maxHeight
    {
      assert n == x || Linked(h, j, n);
      assert |h'.nodes[n].next| == |h.nodes[n].next|;
    }
    forall n | OnLevel(h', i, n)
      ensures LinkOk(h', i, n)
    {
      PublishedLink(h, i, p, x, n);
    }
  }

  lemma PublishedLink(h: Heap, i: nat, p: int, x: int, n: int)
    requires HeapOk(h) && InArena(h, x) && IsPrev(h, i, p, h.nodes[x].key)
    requires x != HEAD && i < |h.nodes[x].next| && i < h.maxHeight && !Linked(h, i, x)
    requires h.nodes[x].next[i] == h.nodes[p].next[i]
    requires Shaped(Publish(h, i, p, x)) && OnLevel(Publish(h, i, p, x), i, n)
    ensures LinkOk(Publish(h, i, p, x), i, n)
  {
    var h' := Publish(h, i, p, x);
    assert LinkOk(h, i, p);
    if n != x && n != p {
      assert OnLevel(h, i, n) && LinkOk(h, i, n);
      if IsBefore(h, n, h.nodes[x].key) {
        PrevIsLast(h, i, p, h.nodes[x].key, n);
      }
    }
    forall m | Linked(h', i, m)
      ensures m == x || Linked(h, i, m)
      ensures h'.nodes[m].key == h.nodes[m].key
    {
    }
  }

  ghost function Publish(h: Heap, i: nat, p: int, x: int): (h': Heap)
    requires i < |h.levels| && InArena(h, p) && i < |h.nodes[p].next|
    ensures |h'.levels| == |h.levels| && forall j, n :: Linked(h', j, n) <==> Linked(h, j, n) || (j == i && n == x)
  {
    Heap(Stored(h.nodes, p, i, x), h.maxHeight, h.levels[i := h.levels[i] + {x}])
  }

  lemma PublishKeepsHeap(h: Heap, i: nat, p: int, x: int)
    requires HeapOk(h) && InArena(h, x) && IsPrev(h, i, p, h.nodes[x].key)
    requires x != HEAD && i < |h.nodes[x].next| && i < h.maxHeight
    requires h.nodes[x].next[i] == h.nodes[p].next[i]
    requires i > 0 ==> Linked(h, i - 1, x)
    requires forall j :: i <= j < MAX_HEIGHT ==> !Linked(h, j, x)
    requires i == 0 ==> forall n :: Linked(h, 0, n) ==> h.nodes[n].key != h.nodes[x].key
    ensures var h' := Publish(h, i, p, x); HeapOk(h') && Grows(h, h') && SingleStore(h, h')
  {
    var h' := Publish(h, i, p, x);
    PublishKeepsLinks(h, i, p, x);
    forall j, n | 0 <= j < MAX_HEIGHT && OnLevel(h', j, n)
      ensures LinkOk(h', j, n)
    {
      if j != i {
        assert OnLevel(h, j, n);
        LinkKept(h, h', j, n);
      }
    }
  }

  // The keys in the list.
  ghost function KeysOf(h: Heap): set<Key> {
    set n | 0 <= n < |h.nodes| && Linked(h, 0, n) :: h.nodes[n].key
  }

  // The history goes on with the memory after one more store.
  lemma Extend(history: seq<Heap>, h: Heap, h': Heap)
    requires HistoryOk(history) && history != [] && history[|history| - 1] == h
    requires HeapOk(h') && Grows(h, h') && SingleStore(h, h')
    ensures HistoryOk(history + [h'])
  {
  }

  // Insert has linked x, which holds key, at the levels below i, and prev is right for those that remain.
  ghost predicate Linking(h1: Heap, h: Heap, x: int, key: Key, height: nat, prev: seq<int>, i: nat) {
    && HeapOk(h1) && HeapOk(h) && i <= height <= |prev| && height <= h.maxHeight
    && InArena(h, x) && x != HEAD && h.nodes[x].key == key && |h.nodes[x].next| == height
    && |h1.nodes| <= |h.nodes| && (forall n :: 0 <= n < |h1.nodes| ==> h.nodes[n].key == h1.nodes[n].key)
    && (forall j, n :: Linked(h, j, n) <==> Linked(h1, j, n) || (0 <= j < i && n == x))
    && (forall j :: 0 <= j < MAX_HEIGHT ==> !Linked(h1, j, x))
    && (forall n :: Linked(h1, 0, n) ==> h1.nodes[n].key != key)
    && (forall j :: i <= j < height ==> IsPrev(h, j, prev[j], key))
  }

  lemma PrepareStep(h1: Heap, h: Heap, x: int, key: Key, height: nat, prev: seq<int>, i: nat)
    requires Linking(h1, h, x, key, height, prev, i) && i < height
    requires OnLevel(h, i, prev[i]) && InArena(h, prev[i]) && i < |h.nodes[prev[i]].next|
    ensures var t := h.nodes[prev[i]].next[i];
            var h' := Heap(Stored(h.nodes, x, i, t), h.maxHeight, h.levels);
            && Grows(h, h') && SingleStore(h, h') && Linking(h1, h', x, key, height, prev, i)
            && h'.nodes[x].next[i] == h'.nodes[prev[i]].next[i]
  {
    var t := h.nodes[prev[i]].next[i];
    var h' := Heap(Stored(h.nodes, x, i, t), h.maxHeight, h.levels);
    assert !Linked(h, i, x);
    PrepareKeepsHeap(h, x, i, t);
    assert forall j, n :: Linked(h', j, n) <==> Linked(h, j, n);
    forall j | i <= j < height
      ensures IsPrev(h', j, prev[j], key)
    {
      PrevKept(h, h', j, prev[j], key);
    }
  }

  lemma PublishStep(h1: Heap, h: Heap, x: int, key: Key, height: nat, prev: seq<int>, i: nat)
    requires Linking(h1, h, x, key, height, prev, i) && i < height
    requires OnLevel(h, i, prev[i]) && InArena(h, prev[i]) && i < |h.nodes[prev[i]].next|
    requires h.nodes[x].next[i] == h.nodes[prev[i]].next[i]
    ensures var h' := Publish(h, i, prev[i], x);
            Grows(h, h') && SingleStore(h, h') && Linking(h1, h', x, key, height, prev, i + 1)
  {
    var h' := Publish(h, i, prev[i], x);
    assert IsPrev(h, i, prev[i], key);
    PublishKeepsHeap(h, i, prev[i], x);
    forall j | i + 1 <= j < height
      ensures IsPrev(h', j, prev[j], key)
    {
      PrevKept(h, h', j, prev[j], key);
    }
  }

  function Prepared(h: Heap, x: int, i: nat, p: int): Heap
    requires InArena(h, x) && i < |h.nodes[x].next| && InArena(h, p) && i < |h.nodes[p].next|
  {
    Heap(Stored(h.nodes, x, i, h.nodes[p].next[i]), h.maxHeight, h.levels)
  }

  lemma LinkStep(history: seq<Heap>, h1: Heap, h: Heap, x: int, key: Key, height: nat, prev: seq<int>, i: nat)
    requires HistoryOk(history) && history != [] && history[|history| - 1] == h
    requires Linking(h1, h, x, key, height, prev, i) && i < height
    ensures InArena(h, prev[i]) && i < |h.nodes[prev[i]].next|
    ensures var mid := Prepared(h, x, i, prev[i]);
            var after := Publish(mid, i, prev[i], x);
            HistoryOk(history + [mid] + [after]) && Linking(h1, after, x, key, height, prev, i + 1)
  {
    assert IsPrev(h, i, prev[i], key);
    PrepareStep(h1, h, x, key, height, prev, i);
    var mid := Prepared(h, x, i, prev[i]);
    PublishStep(h1, mid, x, key, height, prev, i);
    Extend(history, h, mid);
    Extend(history + [mid], mid, Publish(mid, i, prev[i], x));
  }

  lemma PrevKept(h: Heap, h': Heap, j: nat, p: int, k: Key)
    requires HeapOk(h) && j < MAX_HEIGHT && IsPrev(h, j, p, k) && Shaped(h') && Grows(h, h')
    requires j < |h'.nodes[p].next| && h'.nodes[p].next[j] == h.nodes[p].next[j]
    ensures IsPrev(h', j, p, k)
  {
    assert p != HEAD ==> Linked(h', j, p);
  }

  class SkipList {
    var nodes: seq<Node>
    var maxHeight: nat
    ghost var levels: seq<set<int>>
    ghost var history: seq<Heap>

    ghost function Memory(): Heap
      reads this
    {
      Heap(nodes, maxHeight, levels)
    }

    ghost predicate Valid()
      reads this
    {
      HistoryOk(history) && history != [] && history[|history| - 1] == Memory()
    }

    ghost function Keys(): set<Key>
      reads this
    {
      KeysOf(Memory())
    }

    constructor ()
      ensures Valid() && Keys() == {}
    {
      nodes := [Node(0.0, seq(MAX_HEIGHT, _ => NIL))];
      maxHeight := 1;
      levels := seq(MAX_HEIGHT, _ => {});
      history := [Heap([Node(0.0, seq(MAX_HEIGHT, _ => NIL))], 1, seq(MAX_HEIGHT, _ => {}))];
    }

    predicate KeyIsAfterNode(key: Key, n: int)
      reads this
      requires n == NIL || 0 <= n < |nodes|
    {
      n != NIL && nodes[n].key < key
    }

    method FindGreaterOrEqual(key: Key) returns (result: int, prev: seq<int>)
      requires Valid()
      ensures |prev| == maxHeight
      ensures result == NIL ==> forall n :: Linked(Memory(), 0, n) ==> nodes[n].key < key
      ensures result != NIL ==> Linked(Memory(), 0, result) && nodes[result].key >= key
                                && forall n :: Linked(Memory(), 0, n) && nodes[n].key >= key ==> nodes[result].key <= nodes[n].key
      ensures forall i :: 0 <= i < maxHeight ==>
                OnLevel(Memory(), i, prev[i]) && IsBefore(Memory(), prev[i], key)
                && (nodes[prev[i]].next[i] == NIL || nodes[nodes[prev[i]].next[i]].key >= key)
    {
      ghost var h := Memory();
      var x := HEAD;
      var level := maxHeight - 1;
      prev := seq(maxHeight, _ => HEAD);
      while true
        invariant 0 <= level < maxHeight && |prev| == maxHeight
        invariant OnLevel(h, level, x) && IsBefore(h, x, key)
        invariant forall i :: level < i < maxHeight ==>
                    OnLevel(h, i, prev[i]) && IsBefore(h, prev[i], key)
                    && (nodes[prev[i]].next[i] == NIL || nodes[nodes[prev[i]].next[i]].key >= key)
        decreases level, NodesAfter(h, x)
      {
        assert LinkOk(h, level, x);
        var next := nodes[x].next[level];
        if KeyIsAfterNode(key, next) {
          InBottom(h, level, next);
          AfterShrinks(h, x, next);
          x := next;
        } else {
          prev := prev[level := x];
          if level == 0 {
            return next, prev;
          }
          assert x != HEAD ==> Linked(h, level - 1, x);
          level := level - 1;
        }
      }
    }

    method FindLessThan(key: Key) returns (result: int)
      requires Valid()
      ensures OnLevel(Memory(), 0, result) && IsBefore(Memory(), result, key)
      ensures forall n :: Linked(Memory(), 0, n) && nodes[n].key < key ==> result != HEAD && nodes[n].key <= nodes[result].key
    {
      ghost var h := Memory();
      var x := HEAD;
      var level := maxHeight - 1;
      while true
        invariant 0 <= level < maxHeight
        invariant OnLevel(h, level, x) && IsBefore(h, x, key)
        decreases level, NodesAfter(h, x)
      {
        assert LinkOk(h, level, x);
        var next := nodes[x].next[level];
        if next == NIL || nodes[next].key >= key {
          if level == 0 {
            return x;
          }
          assert x != HEAD ==> Linked(h, level - 1, x);
          level := level - 1;
        } else {
          InBottom(h, level, next);
          AfterShrinks(h, x, next);
          x := next;
        }
      }
    }

    method FindLast() returns (result: int)
      requires Valid()
      ensures OnLevel(Memory(), 0, result)
      ensures forall n :: Linked(Memory(), 0, n) ==> result != HEAD && nodes[n].key <= nodes[result].key
    {
      ghost var h := Memory();
      var x := HEAD;
      var level := maxHeight - 1;
      while true
        invariant 0 <= level < maxHeight && OnLevel(h, level, x)
        decreases level, NodesAfter(h, x)
      {
        assert LinkOk(h, level, x);
        var next := nodes[x].next[level];
        if next == NIL {
          if level == 0 {
            return x;
          }
          assert x != HEAD ==> Linked(h, level - 1, x);
          level := level - 1;
        } else {
          InBottom(h, level, next);
          AfterShrinks(h, x, next);
          x := next;
        }
      }
    }

    method Contains(key: Key) returns (found: bool)
      requires Valid()
      ensures found <==> key in Keys()
    {
      var x, _ := FindGreaterOrEqual(key);
      found := x != NIL && nodes[x].key == key;
    }

    // `height` is the outcome of the random draw.
    method Insert(key: Key, height: nat)
      requires Valid() && key !in Keys() && 1 <= height <= MAX_HEIGHT
      modifies this
      ensures Valid() && Keys() == old(Keys()) + {key}
      ensures old(history) <= history
    {
      var _, prev := FindGreaterOrEqual(key);
      ghost var h0 := Memory();
      StrictPrevs(h0, prev, key);
      if height > maxHeight {
        RaiseKeepsHeap(h0, height);
        RaisedPrevs(h0, prev, key, height);
        prev := prev + seq(height - maxHeight, _ => HEAD);
        Extend(history, h0, Heap(h0.nodes, height, h0.levels));
        maxHeight := height;
        history := history + [Memory()];
      }
      ghost var h1 := Memory();
      var x := NewNode(key, height, prev);
      var i := 0;
      while i < height
        invariant 0 <= i <= height
        invariant Valid() && old(history) <= history
        invariant Linking(h1, Memory(), x, key, height, prev, i)
      {
        LinkLevel(h1, x, key, height, prev, i);
        i := i + 1;
      }
      InsertedKeys(h1, Memory(), x, key, height, prev);
    }

    // Allocates a node that nothing points to yet.
    method NewNode(key: Key, height: nat, ghost prev: seq<int>) returns (x: int)
      requires Valid() && key !in Keys() && height <= |prev| && height <= maxHeight
      requires forall i :: 0 <= i < height ==> IsPrev(Memory(), i, prev[i], key)
      modifies this
      ensures Valid() && history == old(history) + [Memory()]
      ensures Linking(old(Memory()), Memory(), x, key, height, prev, 0)
    {
      ghost var h := Memory();
      StartLinking(h, key, height, prev);
      Extend(history, h, Heap(h.nodes + [Node(key, seq(height, _ => NIL))], h.maxHeight, h.levels));
      x := |nodes|;
      nodes := nodes + [Node(key, seq(height, _ => NIL))];
      history := history + [Memory()];
    }

    // The two stores that link the new node at level i.
    method LinkLevel(ghost h1: Heap, x: int, ghost key: Key, ghost height: nat, prev: seq<int>, i: nat)
      requires Valid() && i < height && Linking(h1, Memory(), x, key, height, prev, i)
      modifies this
      ensures Valid() && old(history) <= history
      ensures Linking(h1, Memory(), x, key, height, prev, i + 1)
    {
      ghost var h := Memory();
      LinkStep(history, h1, h, x, key, height, prev, i);
      ghost var mid := Prepared(h, x, i, prev[i]);
      ghost var after := Publish(mid, i, prev[i], x);
      nodes := Stored(nodes, x, i, nodes[prev[i]].next[i]);
      assert Memory() == mid;
      history := history + [mid];
      nodes := Stored(nodes, prev[i], i, x);
      levels := levels[i := levels[i] + {x}];
      assert Memory() == after;
      history := history + [after];
    }
  }

  lemma StrictPrevs(h: Heap, prev: seq<int>, key: Key)
    requires HeapOk(h) && key !in KeysOf(h) && |prev| == h.maxHeight
    requires forall i :: 0 <= i < h.maxHeight ==>
               && OnLevel(h, i, prev[i]) && InArena(h, prev[i]) && IsBefore(h, prev[i], key)
               && i < |h.nodes[prev[i]].next|
               && var t := h.nodes[prev[i]].next[i]; t == NIL || (InArena(h, t) && h.nodes[t].key >= key)
    ensures forall i :: 0 <= i < h.maxHeight ==> IsPrev(h, i, prev[i], key)
  {
    forall n | Linked(h, 0, n)
      ensures h.nodes[n].key != key
    {
      assert h.nodes[n].key in KeysOf(h);
    }
    forall i | 0 <= i < h.maxHeight
      ensures IsPrev(h, i, prev[i], key)
    {
      PrevIsStrict(h, i, prev[i], key);
    }
  }

  // On the levels above the old height the head is the predecessor of everything.
  lemma RaisedPrevs(h: Heap, prev: seq<int>, key: Key, height: nat)
    requires HeapOk(h) && |prev| == h.maxHeight < height <= MAX_HEIGHT
    requires forall i :: 0 <= i < h.maxHeight ==> IsPrev(h, i, prev[i], key)
    ensures var h' := Heap(h.nodes, height, h.levels);
            var prev' := prev + seq(height - |prev|, _ => HEAD);
            forall i :: 0 <= i < height ==> IsPrev(h', i, prev'[i], key)
  {
    var h' := Heap(h.nodes, height, h.levels);
    var prev' := prev + seq(height - |prev|, _ => HEAD);
    RaiseKeepsHeap(h, height);
    forall i | 0 <= i < height
      ensures IsPrev(h', i, prev'[i], key)
    {
      if i < |prev| {
        PrevKept(h, h', i, prev[i], key);
      } else {
        assert OnLevel(h, i, HEAD) && LinkOk(h, i, HEAD);
      }
    }
  }

  lemma StartLinking(h: Heap, key: Key, height: nat, prev: seq<int>)
    requires HeapOk(h) && height <= |prev| && height <= h.maxHeight && key !in KeysOf(h)
    requires forall i :: 0 <= i < height ==> IsPrev(h, i, prev[i], key)
    ensures var h' := Heap(h.nodes + [Node(key, seq(height, _ => NIL))], h.maxHeight, h.levels);
            Grows(h, h') && SingleStore(h, h') && Linking(h, h', |h.nodes|, key, height, prev, 0)
  {
    var node := Node(key, seq(height, _ => NIL));
    var h' := Heap(h.nodes + [node], h.maxHeight, h.levels);
    AllocKeepsHeap(h, node);
    assert forall j, n :: Linked(h', j, n) <==> Linked(h, j, n);
    forall n | Linked(h, 0, n)
      ensures h.nodes[n].key != key
    {
      assert h.nodes[n].key in KeysOf(h);
    }
    forall i | 0 <= i < height
      ensures IsPrev(h', i, prev[i], key)
    {
      PrevKept(h, h', i, prev[i], key);
    }
  }

  lemma InsertedKeys(h1: Heap, h: Heap, x: int, key: Key, height: nat, prev: seq<int>)
    requires Linking(h1, h, x, key, height, prev, height) && height > 0
    ensures KeysOf(h) == KeysOf(h1) + {key}
  {
    assert Linked(h, 0, x);
    forall k | k in KeysOf(h1)
      ensures k in KeysOf(h)
    {
      var n :| 0 <= n < |h1.nodes| && Linked(h1, 0, n) && h1.nodes[n].key == k;
      assert Linked(h, 0, n) && h.nodes[n].key == k;
    }
    forall k | k in KeysOf(h)
      ensures k in KeysOf(h1) + {key}
    {
      var n :| 0 <= n < |h.nodes| && Linked(h, 0, n) && h.nodes[n].key == k;
      assert n != x ==> Linked(h1, 0, n) && h1.nodes[n].key == k;
    }
  }

  // Linked nodes whose key is above n's.
  ghost function NodesAfter(h: Heap, n: int): set<int>
    requires Shaped(h) && InArena(h, n)
  {
    set m | 0 <= m < |h.nodes| && Linked(h, 0, m) && IsBefore(h, n, h.nodes[m].key)
  }

  lemma AfterShrinks(h: Heap, n: int, t: int)
    requires HeapOk(h) && InArena(h, n) && Linked(h, 0, t) && IsBefore(h, n, h.nodes[t].key)
    ensures NodesAfter(h, t) < NodesAfter(h, n)
  {
    assert t in NodesAfter(h, n) && t !in NodesAfter(h, t);
  }

  // ----- What a level looks like to someone who follows its pointers

  ghost function Walk(h: Heap, i: nat, n: int): seq<Key>
    requires HeapOk(h) && i < MAX_HEIGHT && OnLevel(h, i, n)
    decreases NodesAfter(h, n)
  {
    assert LinkOk(h, i, n);
    var t := h.nodes[n].next[i];
    if t == NIL then []
    else
      InBottom(h, i, t);
      AfterShrinks(h, n, t);
      [h.nodes[t].key] + Walk(h, i, t)
  }

  /** Following the pointers of a level from any of its nodes meets exactly the linked keys above it, in strictly
      ascending order. */
  lemma {:induction false} WalkIsSortedLevel(h: Heap, i: nat, n: int)
    requires HeapOk(h) && i < MAX_HEIGHT && OnLevel(h, i, n)
    ensures var w := Walk(h, i, n);
            && (forall a, b :: 0 <= a < b < |w| ==> w[a] < w[b])
            && (forall a :: 0 <= a < |w| ==> IsBefore(h, n, w[a]) && exists m :: Linked(h, i, m) && h.nodes[m].key == w[a])
            && (forall m :: Linked(h, i, m) && IsBefore(h, n, h.nodes[m].key) ==> h.nodes[m].key in w)
    decreases NodesAfter(h, n)
  {
    assert LinkOk(h, i, n);
    var t := h.nodes[n].next[i];
    if t != NIL {
      InBottom(h, i, t);
      AfterShrinks(h, n, t);
      WalkIsSortedLevel(h, i, t);
      var w := Walk(h, i, t);
      forall a | 0 <= a < |w|
        ensures h.nodes[t].key < w[a]
      {
        assert IsBefore(h, t, w[a]);
      }
    }
  }

  /** In every state a reader can observe, each level's walk is a subset, hence a subsequence, of the one below. */
  lemma LevelsNest(h: Heap, i: nat, k: Key)
    requires HeapOk(h) && 0 < i < MAX_HEIGHT && k in Walk(h, i, HEAD)
    ensures k in Walk(h, i - 1, HEAD)
  {
    WalkIsSortedLevel(h, i, HEAD);
    WalkIsSortedLevel(h, i - 1, HEAD);
    var a :| 0 <= a < |Walk(h, i, HEAD)| && Walk(h, i, HEAD)[a] == k;
    var m :| Linked(h, i, m) && h.nodes[m].key == k;
    assert Linked(h, i - 1, m);
  }

  // ----- Readers interleaved with the writer

  datatype Reader = At(x: int, level: int) | Done(result: int)

  // One step of FindGreaterOrEqual: load a pointer from the current memory and act on it.
  function ReaderStep(h: Heap, key: Key, r: Reader): Reader
    requires r.At? ==> InArena(h, r.x) && 0 <= r.level < |h.nodes[r.x].next|
    requires r.At? ==> var next := h.nodes[r.x].next[r.level]; next == NIL || InArena(h, next)
  {
    if r.Done? then r
    else
      var next := h.nodes[r.x].next[r.level];
      if next != NIL && h.nodes[next].key < key then At(next, r.level)
      else if r.level == 0 then Done(next)
      else At(r.x, r.level - 1)
  }

  ghost predicate ReaderOk(h: Heap, key: Key, r: Reader) {
    && Shaped(h)
    && (r.At? ==> 0 <= r.level < MAX_HEIGHT && OnLevel(h, r.level, r.x) && IsBefore(h, r.x, key))
    && (r.Done? && r.result != NIL ==> Linked(h, 0, r.result) && h.nodes[r.result].key >= key)
  }

  // A reader that starts at history[times[0]] and takes its k-th step on the memory as of times[k].
  ghost predicate Reads(history: seq<Heap>, key: Key, times: seq<nat>, readers: seq<Reader>) {
    && |times| == |readers| > 0
    && (forall k :: 0 <= k < |times| ==> times[k] < |history|)
    && (forall j, k :: 0 <= j <= k < |times| ==> times[j] <= times[k])
    && readers[0] == At(HEAD, history[times[0]].maxHeight - 1)
    && (forall k :: 0 < k < |readers| ==> StepsTo(history[times[k]], key, readers[k - 1], readers[k]))
  }

  ghost predicate StepsTo(h: Heap, key: Key, r: Reader, r': Reader) {
    && (r.At? ==> InArena(h, r.x) && 0 <= r.level < |h.nodes[r.x].next|
                  && (h.nodes[r.x].next[r.level] == NIL || InArena(h, h.nodes[r.x].next[r.level])))
    && r' == ReaderStep(h, key, r)
  }

  lemma {:induction false} HistoryGrows(history: seq<Heap>, a: nat, b: nat)
    requires HistoryOk(history) && a <= b < |history|
    ensures Grows(history[a], history[b])
    decreases b - a
  {
    if a < b {
      HistoryGrows(history, a, b - 1);
      assert Grows(history[b - 1], history[b]);
    }
  }

  lemma ReaderKept(h: Heap, h': Heap, key: Key, r: Reader)
    requires HeapOk(h) && HeapOk(h') && Grows(h, h') && ReaderOk(h, key, r)
    ensures ReaderOk(h', key, r)
  {
    assert r.At? && r.x != HEAD ==> Linked(h', r.level, r.x);
  }

  // No memory a reader meets makes its next load go wrong, and what it then knows is right.
  lemma ReaderStepOk(h: Heap, key: Key, r: Reader)
    requires HeapOk(h) && ReaderOk(h, key, r)
    ensures StepsTo(h, key, r, ReaderStep(h, key, r)) && ReaderOk(h, key, ReaderStep(h, key, r))
  {
    if r.At? {
      assert LinkOk(h, r.level, r.x);
      if r.level > 0 && r.x != HEAD {
        assert Linked(h, r.level - 1, r.x);
      }
    }
  }

  lemma {:induction false} ReaderStaysOk(history: seq<Heap>, key: Key, times: seq<nat>, readers: seq<Reader>, k: nat)
    requires HistoryOk(history) && Reads(history, key, times, readers) && k < |readers|
    ensures ReaderOk(history[times[k]], key, readers[k])
  {
    if k > 0 {
      ReaderStaysOk(history, key, times, readers, k - 1);
      HistoryGrows(history, times[k - 1], times[k]);
      ReaderKept(history[times[k - 1]], history[times[k]], key, readers[k - 1]);
      assert StepsTo(history[times[k]], key, readers[k - 1], readers[k]);
      ReaderStepOk(history[times[k]], key, readers[k - 1]);
    } else {
      assert HeapOk(history[times[0]]);
    }
  }

  // The k-th step is the one at which the reader finishes.
  ghost predicate FinishesAt(readers: seq<Reader>, k: nat) {
    0 < k < |readers| && readers[k].Done? && readers[k - 1].At?
  }

  /** A reader whose steps interleave with any number of Inserts finishes at a linked node not below its key, and not
      above any such node that was linked when it started; so it finds every key whose Insert had returned. */
  lemma ReaderFindsWhatWasThere(history: seq<Heap>, key: Key, times: seq<nat>, readers: seq<Reader>, k: nat, n: int)
    requires HistoryOk(history) && Reads(history, key, times, readers) && FinishesAt(readers, k)
    requires var start := history[times[0]]; Linked(start, 0, n) && InArena(start, n) && start.nodes[n].key >= key
    ensures var end := history[times[k]];
            var found := readers[k].result;
            && Linked(end, 0, found) && InArena(end, found) && InArena(end, n)
            && key <= end.nodes[found].key <= end.nodes[n].key
            && (end.nodes[n].key == key ==> found == n)
  {
    var start, end := history[times[0]], history[times[k]];
    var r := readers[k - 1];
    ReaderStaysOk(history, key, times, readers, k - 1);
    HistoryGrows(history, times[k - 1], times[k]);
    ReaderKept(history[times[k - 1]], end, key, r);
    assert StepsTo(end, key, r, readers[k]);
    HistoryGrows(history, times[0], times[k]);
    assert Linked(end, 0, n);
    assert HeapOk(end) && LinkOk(end, 0, r.x);
    ReaderStaysOk(history, key, times, readers, k);
  }
}
