/** Prefix-compressed blocks: the builder, and the iterator that reads them back (table/block_builder.cc,
    table/block.cc). */
module Block {
  import opened Wrappers
  import opened DbFormat
  import opened Coding
  import opened Comparator

  datatype KeyValue = KeyValue(key: Bytes, value: Bytes)

  // Keys strictly ascend.
  ghost predicate Ascending(kvs: seq<KeyValue>) {
    && (forall i :: 0 <= i < |kvs| ==> IsInternal(kvs[i].key))
    && forall i, j :: 0 <= i < j < |kvs| ==> KeyLess(kvs[i].key, kvs[j].key)
  }

  // ----- The format

  function Header(shared: nat, nonShared: nat, valueLength: nat): Bytes {
    Varint(shared) + Varint(nonShared) + Varint(valueLength)
  }

  function EntryBytes(shared: nat, kv: KeyValue): Bytes
    requires shared <= |kv.key|
  {
    Header(shared, |kv.key| - shared, |kv.value|) + kv.key[shared..] + kv.value
  }

  // What a block was built from: its entries, how much of each key the key before it supplies, and the entries that
  // restart points refer to.
  datatype Layout = Layout(kvs: seq<KeyValue>, shared: seq<nat>, starts: seq<nat>)

  ghost predicate SharesPrefix(kvs: seq<KeyValue>, shared: seq<nat>, i: nat)
    requires i < |kvs| && |shared| == |kvs|
  {
    && |kvs[i].key| < TWO32
    && (i == 0 ==> shared[i] == 0)
    && (i > 0 ==> shared[i] <= |kvs[i - 1].key| && shared[i] <= |kvs[i].key| && kvs[i - 1].key[..shared[i]] == kvs[i].key[..shared[i]])
  }

  ghost predicate SharedFits(kvs: seq<KeyValue>, shared: seq<nat>) {
    |shared| == |kvs| && forall i :: 0 <= i < |kvs| ==> shared[i] <= |kvs[i].key|
  }

  ghost predicate StartsOk(starts: seq<nat>, shared: seq<nat>) {
    && starts != [] && starts[0] == 0
    && (forall r :: 0 <= r < |starts| && starts[r] < |shared| ==> shared[starts[r]] == 0)
    && (forall r :: 1 <= r < |starts| ==> starts[r] < |shared|)
    && forall r, s :: 0 <= r < s < |starts| ==> starts[r] < starts[s]
  }

  ghost predicate LayoutOk(l: Layout) {
    && SharedFits(l.kvs, l.shared)
    && (forall i :: 0 <= i < |l.kvs| ==> SharesPrefix(l.kvs, l.shared, i))
    && StartsOk(l.starts, l.shared)
  }

  // The encoding of the first n entries.
  ghost function Body(kvs: seq<KeyValue>, shared: seq<nat>, n: nat): Bytes
    requires SharedFits(kvs, shared) && n <= |kvs|
  {
    if n == 0 then [] else Body(kvs, shared, n - 1) + EntryBytes(shared[n - 1], kvs[n - 1])
  }

  // The offset of entry i, or of the end of the entries.
  ghost function Offset(l: Layout, i: nat): nat
    requires LayoutOk(l) && i <= |l.kvs|
  {
    |Body(l.kvs, l.shared, i)|
  }

  ghost function RestartPoints(l: Layout): seq<nat>
    requires LayoutOk(l)
  {
    seq(|l.starts|, r requires 0 <= r < |l.starts| => Offset(l, l.starts[r]))
  }

  // The finished block holds the layout, and fits a 32-bit size.
  ghost predicate Encodes(data: Bytes, l: Layout) {
    && LayoutOk(l)
    && |data| < TWO32 && 4 * (|l.starts| + 1) <= |data|
    && Fit32(RestartPoints(l))
    && data == Body(l.kvs, l.shared, |l.kvs|) + Fixed32s(RestartPoints(l)) + Fixed32(|l.starts|)
  }

  lemma {:induction false} BodyIsPrefix(kvs: seq<KeyValue>, shared: seq<nat>, i: nat, n: nat)
    requires SharedFits(kvs, shared) && i <= n <= |kvs|
    ensures Body(kvs, shared, i) <= Body(kvs, shared, n)
    ensures i < n ==> |Body(kvs, shared, i)| + 3 <= |Body(kvs, shared, n)|
  {
    if i < n {
      BodyIsPrefix(kvs, shared, i, n - 1);
    }
  }

  lemma OffsetsAscend(l: Layout, i: nat, j: nat)
    requires LayoutOk(l) && i <= j <= |l.kvs|
    ensures i < j ==> Offset(l, i) + 3 <= Offset(l, j)
  {
    BodyIsPrefix(l.kvs, l.shared, i, j);
  }

  lemma EntryAtOffset(l: Layout, i: nat)
    requires LayoutOk(l) && i < |l.kvs|
    ensures Offset(l, i) + |EntryBytes(l.shared[i], l.kvs[i])| == Offset(l, i + 1) <= Offset(l, |l.kvs|)
    ensures Body(l.kvs, l.shared, |l.kvs|)[Offset(l, i)..Offset(l, i + 1)] == EntryBytes(l.shared[i], l.kvs[i])
  {
    var n := |l.kvs|;
    BodyIsPrefix(l.kvs, l.shared, i + 1, n);
    PrefixSlice(Body(l.kvs, l.shared, i), EntryBytes(l.shared[i], l.kvs[i]), Body(l.kvs, l.shared, n));
  }

  lemma PrefixSlice(a: Bytes, b: Bytes, whole: Bytes)
    requires a + b <= whole
    ensures whole[|a|..|a| + |b|] == b
  {
    assert whole[..|a| + |b|] == a + b;
  }

  /** The bytes of one entry: how much of the key is shared, how much is not, the length of the value, and then the two. */
  lemma KnownEntry(a: byte, b: byte, c: byte, d: byte)
    ensures EntryBytes(2, KeyValue([7, 8, a, b, c], [d])) == [2, 3, 1, a, b, c, d]
  {
    assert [7, 8, a, b, c][2..] == [a, b, c];
  }

  /** A whole block of one entry: the entry, where it starts, and the number of restart points. */
  lemma KnownBlock(data: Bytes, k: byte, v: byte)
    requires Encodes(data, Layout([KeyValue([k], [v])], [0], [0]))
    ensures data == [0, 1, 1, k, v] + [0, 0, 0, 0] + [1, 0, 0, 0]
  {
    hide Body, Fixed32s, Fixed;
    KnownBody(k, v);
    KnownTail();
    var l := Layout([KeyValue([k], [v])], [0], [0]);
    assert RestartPoints(l) == [0];
  }

  lemma KnownBody(k: byte, v: byte)
    ensures Body([KeyValue([k], [v])], [0], 0) == []
    ensures Body([KeyValue([k], [v])], [0], 1) == [0, 1, 1, k, v]
  {
    assert [k][0..] == [k];
  }

  lemma KnownTail()
    ensures Fixed32s([0]) == [0, 0, 0, 0] && Fixed32(1) == [1, 0, 0, 0]
  {
    assert [0][..0] == [];
    assert Fixed(0, 3) == [0, 0, 0] && Fixed(0, 4) == [0] + Fixed(0, 3) && Fixed(1, 4) == [1] + Fixed(0, 3);
  }

  // ----- The builder

  // Restart points stand `interval` entries apart, and all other entries share with the key before them all they can.
  ghost predicate Compressed(l: Layout, interval: nat) {
    && LayoutOk(l)
    && (forall r :: 1 <= r < |l.starts| ==> l.starts[r] == l.starts[r - 1] + interval)
    && |l.kvs| <= l.starts[|l.starts| - 1] + interval
    && forall i :: 1 <= i < |l.kvs| && i !in l.starts ==> SharesMost(l.kvs[i - 1].key, l.kvs[i].key, l.shared[i])
  }

  predicate SharesMost(last: Bytes, key: Bytes, shared: nat) {
    && shared <= |last| && shared <= |key| && last[..shared] == key[..shared]
    && (shared < |last| && shared < |key| ==> last[shared] != key[shared])
  }

  /** Entries and interval determine the layout, and so the bytes of the block. */
  lemma OnlyOneLayout(l: Layout, m: Layout, interval: nat)
    requires Compressed(l, interval) && Compressed(m, interval) && l.kvs == m.kvs && interval > 0
    ensures l == m
  {
    hide SharesPrefix, SharesMost;
    if |l.starts| <= |m.starts| {
      SameStarts(l, m, interval, |l.starts| - 1);
    } else {
      SameStarts(m, l, interval, |m.starts| - 1);
    }
    assert l.starts == m.starts;
    forall i | 0 <= i < |l.kvs|
      ensures l.shared[i] == m.shared[i]
    {
      SameShared(l, m, interval, i);
    }
  }

  lemma MostIsUnique(a: Bytes, b: Bytes, s: nat, t: nat)
    requires SharesMost(a, b, s) && SharesMost(a, b, t)
    ensures s == t
  {
    assert forall j :: 0 <= j < t ==> a[..t][j] == a[j] && b[..t][j] == b[j];
    assert forall j :: 0 <= j < s ==> a[..s][j] == a[j] && b[..s][j] == b[j];
  }

  lemma SameShared(l: Layout, m: Layout, interval: nat, i: nat)
    requires Compressed(l, interval) && Compressed(m, interval) && l.kvs == m.kvs && l.starts == m.starts && i < |l.kvs|
    ensures l.shared[i] == m.shared[i]
  {
    if i in l.starts {
      var r :| 0 <= r < |l.starts| && l.starts[r] == i;
    } else if i > 0 {
      var (a, b, s, t) := (l.kvs[i - 1].key, l.kvs[i].key, l.shared[i], m.shared[i]);
      assert SharesMost(a, b, s) && SharesMost(a, b, t);
      MostIsUnique(a, b, s, t);
    }
  }

  lemma {:induction false} SameStarts(l: Layout, m: Layout, interval: nat, r: nat)
    requires Compressed(l, interval) && Compressed(m, interval) && l.kvs == m.kvs && interval > 0
    requires r < |l.starts| <= |m.starts|
    ensures forall q :: 0 <= q <= r ==> l.starts[q] == m.starts[q]
    ensures r == |l.starts| - 1 ==> l.starts == m.starts
  {
    hide SharesPrefix, SharesMost;
    if r > 0 {
      SameStarts(l, m, interval, r - 1);
      assert l.starts[r] == l.starts[r - 1] + interval && m.starts[r] == m.starts[r - 1] + interval;
    }
    if r == |l.starts| - 1 && |l.starts| < |m.starts| {
      assert m.starts[r + 1] == m.starts[r] + interval;
    }
  }

  lemma CompressedGrows(l: Layout, kv: KeyValue, shared: nat, starts: seq<nat>, interval: nat)
    requires interval > 0 && Compressed(l, interval) && LayoutOk(Layout(l.kvs + [kv], l.shared + [shared], starts))
    requires var n := |l.kvs|;
             if starts == l.starts
             then n < l.starts[|l.starts| - 1] + interval && (n > 0 ==> SharesMost(l.kvs[n - 1].key, kv.key, shared))
             else n == l.starts[|l.starts| - 1] + interval && starts == l.starts + [n]
    ensures Compressed(Layout(l.kvs + [kv], l.shared + [shared], starts), interval)
  {
    hide SharesPrefix, SharesMost, LayoutOk;
    LayoutSizes(l);
    var l' := Layout(l.kvs + [kv], l.shared + [shared], starts);
    LayoutSizes(l');
    assert starts != l.starts ==> starts[|l.starts|] == |l.kvs|;
    forall i | 1 <= i < |l'.kvs| && i !in starts
      ensures SharesMost(l'.kvs[i - 1].key, l'.kvs[i].key, l'.shared[i])
    {
      assert i !in l.starts by {
        assert forall r :: 0 <= r < |l.starts| ==> starts[r] == l.starts[r];
      }
      if i < |l.kvs| {
        assert l'.kvs[i - 1] == l.kvs[i - 1] && l'.kvs[i] == l.kvs[i] && l'.shared[i] == l.shared[i];
      }
    }
    forall r | 1 <= r < |starts|
      ensures starts[r] == starts[r - 1] + interval
    {
      assert r < |l.starts| ==> l.starts[r] == l.starts[r - 1] + interval;
    }
  }

  lemma StillCompressed(l: Layout, buffer: Bytes, restarts: seq<nat>, lastKey: Bytes, kv: KeyValue, shared: nat,
                        starts: seq<nat>, interval: nat)
    requires interval > 0 && Compressed(l, interval) && Building(l, buffer, restarts, lastKey) && |kv.key| < TWO32
    requires var n := |l.kvs|;
             if starts == l.starts
             then n < l.starts[|l.starts| - 1] + interval && SharesMost(lastKey, kv.key, shared)
             else n > 0 && shared == 0 && n == l.starts[|l.starts| - 1] + interval && starts == l.starts + [n]
    ensures Compressed(Layout(l.kvs + [kv], l.shared + [shared], starts), interval)
  {
    hide Compressed, Body, RestartPoints;
    LayoutGrows(l, kv, shared, starts);
    CompressedGrows(l, kv, shared, starts, interval);
  }

  lemma LayoutSizes(l: Layout)
    requires LayoutOk(l)
    ensures |l.shared| == |l.kvs| && l.starts != []
  {
  }

  // The builder has encoded the entries of the layout.
  ghost predicate Building(l: Layout, buffer: Bytes, restarts: seq<nat>, lastKey: Bytes) {
    && LayoutOk(l)
    && lastKey == (if l.kvs == [] then [] else l.kvs[|l.kvs| - 1].key)
    && buffer == Body(l.kvs, l.shared, |l.kvs|)
    && restarts == RestartPoints(l)
  }

  class BlockBuilder {
    const restartInterval: nat
    var buffer: Bytes
    var restarts: seq<nat>
    var counter: nat
    var finished: bool
    var lastKey: Bytes
    ghost var layout: Layout

    ghost predicate Ok()
      reads this
    {
      && restartInterval >= 1 && counter <= restartInterval
      && (layout.kvs == [] ==> counter == 0)
      && Compressed(layout, restartInterval)
      && |layout.kvs| == layout.starts[|layout.starts| - 1] + counter
      && (!finished ==> Building(layout, buffer, restarts, lastKey))
    }

    constructor (restartInterval: nat)
      requires restartInterval >= 1
      ensures Ok() && !finished && layout.kvs == [] && this.restartInterval == restartInterval
      ensures CurrentSizeEstimate() == 8
    {
      this.restartInterval := restartInterval;
      buffer, restarts, counter, finished, lastKey := [], [0], 0, false, [];
      layout := Layout([], [], [0]);
    }

    method Reset()
      requires restartInterval >= 1
      modifies this
      ensures Ok() && !finished && layout.kvs == []
    {
      buffer, restarts, counter, finished, lastKey := [], [0], 0, false, [];
      layout := Layout([], [], [0]);
    }

    function CurrentSizeEstimate(): nat
      reads this
    {
      |buffer| + |restarts| * 4 + 4
    }

    predicate Empty()
      reads this
    {
      buffer == []
    }

    lemma EmptyHasNoEntries()
      requires Ok() && !finished
      ensures Empty() <==> layout.kvs == []
    {
      if layout.kvs != [] {
        OffsetsAscend(layout, 0, |layout.kvs|);
      }
    }

    /** Appends one entry, sharing what it can with the key before it unless a restart is due. */
    method Add(key: Bytes, value: Bytes)
      requires Ok() && !finished
      requires |key| < TWO32 && |value| < TWO32
      modifies this
      ensures Ok() && !finished
      ensures layout.kvs == old(layout.kvs) + [KeyValue(key, value)]
      ensures CurrentSizeEstimate() <= old(CurrentSizeEstimate()) + |key| + |value| + 19
    {
      hide Building, Varint, Compressed;
      var shared: nat := 0;
      ghost var before, starts := layout, layout.starts;
      var points := restarts;
      if counter < restartInterval {
        shared := SharedWith(lastKey, key);
      } else {
        points := points + [|buffer|];
        starts := starts + [|layout.kvs|];
        counter := 0;
      }
      var nonShared: nat := |key| - shared;
      VarintShort(shared);
      VarintShort(nonShared);
      VarintShort(|value|);
      BuildingGrows(layout, buffer, restarts, lastKey, KeyValue(key, value), shared, starts, points);
      StillCompressed(layout, buffer, restarts, lastKey, KeyValue(key, value), shared, starts, restartInterval);
      layout := Layout(layout.kvs + [KeyValue(key, value)], layout.shared + [shared], starts);
      buffer := buffer + Varint(shared) + Varint(nonShared) + Varint(|value|) + key[shared..] + value;
      restarts := points;
      lastKey := lastKey[..shared] + key[shared..];
      counter := counter + 1;
    }

    /** How much of the key the one before it supplies. */
    static method SharedWith(lastKey: Bytes, key: Bytes) returns (shared: nat)
      ensures shared <= |lastKey| && shared <= |key| && lastKey[..shared] == key[..shared]
      ensures shared < |lastKey| && shared < |key| ==> lastKey[shared] != key[shared]
    {
      shared := 0;
      var minLength: nat := if |lastKey| < |key| then |lastKey| else |key|;
      while shared < minLength && lastKey[shared] == key[shared]
        invariant shared <= minLength && lastKey[..shared] == key[..shared]
      {
        shared := shared + 1;
      }
    }

    /** Appends the restart points and their number. */
    method Finish() returns (block: Bytes)
      requires Ok() && !finished && CurrentSizeEstimate() < TWO32
      modifies this
      ensures Ok() && finished && layout == old(layout)
      ensures Encodes(block, layout) && |block| == old(CurrentSizeEstimate())
    {
      BuildingFits(layout, buffer, restarts, lastKey);
      FinishedEncodes(layout, buffer, restarts, lastKey);
      ghost var body := buffer;
      hide Building, Encodes;
      for i: nat := 0 to |restarts|
        modifies `buffer
        invariant buffer == body + Fixed32s(restarts[..i])
      {
        RestartArrayStep(body, restarts, i);
        buffer := buffer + Fixed32(restarts[i]);
      }
      buffer := buffer + Fixed32(|restarts|);
      finished := true;
      return buffer;
    }
  }

  lemma RestartArrayStep(body: Bytes, points: seq<nat>, i: nat)
    requires Fit32(points) && i < |points|
    ensures body + Fixed32s(points[..i]) + Fixed32(points[i]) == body + Fixed32s(points[..i + 1])
  {
    assert points[..i + 1][..i] == points[..i];
  }

  lemma BuildingFits(l: Layout, buffer: Bytes, restarts: seq<nat>, lastKey: Bytes)
    requires Building(l, buffer, restarts, lastKey) && |buffer| < TWO32
    ensures Fit32(restarts)
  {
    PointsFit(l);
  }

  lemma FinishedEncodes(l: Layout, buffer: Bytes, restarts: seq<nat>, lastKey: Bytes)
    requires Building(l, buffer, restarts, lastKey) && Fit32(restarts)
    requires |buffer| + |restarts| * 4 + 4 < TWO32
    ensures restarts[..|restarts|] == restarts
    ensures var block := buffer + Fixed32s(restarts) + Fixed32(|restarts|);
            Encodes(block, l) && |block| == |buffer| + |restarts| * 4 + 4
  {
    Fixed32sAt(restarts, 0);
  }

  lemma BuildingGrows(l: Layout, buffer: Bytes, restarts: seq<nat>, lastKey: Bytes, kv: KeyValue, shared: nat,
                      starts: seq<nat>, points: seq<nat>)
    requires Building(l, buffer, restarts, lastKey) && |kv.key| < TWO32
    requires shared <= |lastKey| && shared <= |kv.key| && lastKey[..shared] == kv.key[..shared]
    requires (starts == l.starts && points == restarts)
          || (l.kvs != [] && shared == 0 && starts == l.starts + [|l.kvs|] && points == restarts + [|buffer|])
    ensures Building(Layout(l.kvs + [kv], l.shared + [shared], starts),
                     buffer + Varint(shared) + Varint(|kv.key| - shared) + Varint(|kv.value|) + kv.key[shared..] + kv.value,
                     points, lastKey[..shared] + kv.key[shared..])
  {
    hide LayoutOk, RestartPoints, Body, EntryBytes, Varint;
    LayoutGrows(l, kv, shared, starts);
    EntryParts(shared, kv, buffer);
    assert lastKey[..shared] + kv.key[shared..] == kv.key;
  }

  lemma EntryParts(shared: nat, kv: KeyValue, buffer: Bytes)
    requires shared <= |kv.key|
    ensures buffer + Varint(shared) + Varint(|kv.key| - shared) + Varint(|kv.value|) + kv.key[shared..] + kv.value
         == buffer + EntryBytes(shared, kv)
  {
  }

  lemma PointsFit(l: Layout)
    requires LayoutOk(l)
    ensures forall r :: 0 <= r < |RestartPoints(l)| ==> RestartPoints(l)[r] <= |Body(l.kvs, l.shared, |l.kvs|)|
  {
    forall r | 0 <= r < |l.starts|
      ensures l.starts[r] <= |l.kvs| && Offset(l, l.starts[r]) <= |Body(l.kvs, l.shared, |l.kvs|)|
    {
      BodyIsPrefix(l.kvs, l.shared, l.starts[r], |l.kvs|);
    }
  }

  lemma {:induction false} BodyUnchanged(l: Layout, kv: KeyValue, shared: nat, n: nat)
    requires SharedFits(l.kvs, l.shared) && n <= |l.kvs| && shared <= |kv.key|
    ensures Body(l.kvs + [kv], l.shared + [shared], n) == Body(l.kvs, l.shared, n)
  {
    if n > 0 {
      BodyUnchanged(l, kv, shared, n - 1);
    }
  }

  lemma LayoutGrows(l: Layout, kv: KeyValue, shared: nat, starts: seq<nat>)
    requires LayoutOk(l) && shared <= |kv.key| < TWO32
    requires var n := |l.kvs|;
             && (n == 0 ==> shared == 0)
             && (n > 0 ==> shared <= |l.kvs[n - 1].key| && l.kvs[n - 1].key[..shared] == kv.key[..shared])
             && (starts == l.starts || (n > 0 && shared == 0 && starts == l.starts + [n]))
    ensures var l' := Layout(l.kvs + [kv], l.shared + [shared], starts);
            var n := |l.kvs|;
            && LayoutOk(l')
            && RestartPoints(l') == (if starts == l.starts then RestartPoints(l)
                                     else RestartPoints(l) + [Offset(l, n)])
            && Body(l'.kvs, l'.shared, n + 1) == Body(l.kvs, l.shared, n) + EntryBytes(shared, kv)
  {
    var l' := Layout(l.kvs + [kv], l.shared + [shared], starts);
    var n := |l.kvs|;
    forall i | 0 <= i < |l'.kvs|
      ensures SharesPrefix(l'.kvs, l'.shared, i)
    {
      assert i < n ==> SharesPrefix(l.kvs, l.shared, i);
    }
    BodyUnchanged(l, kv, shared, n);
    StartsGrow(l, shared, starts);
    hide Body, EntryBytes, SharesPrefix, StartsOk;
    forall r | 0 <= r < |l.starts|
      ensures l.starts[r] <= n && Offset(l', l.starts[r]) == Offset(l, l.starts[r])
    {
      StartInRange(l, r);
      BodyUnchanged(l, kv, shared, l.starts[r]);
    }
  }

  lemma StartInRange(l: Layout, r: nat)
    requires LayoutOk(l) && r < |l.starts|
    ensures l.starts[r] <= |l.kvs|
  {
  }

  lemma StartsGrow(l: Layout, shared: nat, starts: seq<nat>)
    requires LayoutOk(l) && (l.kvs == [] ==> shared == 0)
    requires starts == l.starts || (l.kvs != [] && shared == 0 && starts == l.starts + [|l.kvs|])
    ensures StartsOk(starts, l.shared + [shared])
  {
    assert l.starts[0] == 0;
  }

  // ----- The reader

  datatype Lengths = Lengths(shared: nat, nonShared: nat, valueLength: nat)

  // The three lengths an entry starts with; a fast path reads them when each takes one byte.
  function DecodeLengths(input: Bytes): Option<Parsed<Lengths>> {
    if |input| < 3 then None
    else if input[0] < 128 && input[1] < 128 && input[2] < 128
      then Some(Parsed(Lengths(input[0], input[1], input[2]), input[3..]))
    else
      var r0 := GetVarint32(input);
      if r0.None? then None
      else
        var r1 := GetVarint32(r0.value.rest);
        if r1.None? then None
        else
          var r2 := GetVarint32(r1.value.rest);
          if r2.None? then None
          else Some(Parsed(Lengths(r0.value.value, r1.value.value, r2.value.value), r2.value.rest))
  }

  datatype EntryHeader = EntryHeader(shared: nat, nonShared: nat, valueLength: nat, keyAt: nat)

  // The entry at p: its lengths and where its key bytes start, if they and the value fit in front of the limit.
  function DecodeEntry(data: Bytes, p: nat, limit: nat): Option<EntryHeader>
    requires limit <= |data|
  {
    if p > limit then None
    else
      var r := DecodeLengths(data[p..limit]);
      if r.None? then None
      else
        var h := r.value.value;
        if |r.value.rest| < (h.nonShared + h.valueLength) % TWO32 || |r.value.rest| > limit then None
        else Some(EntryHeader(h.shared, h.nonShared, h.valueLength, limit - |r.value.rest|))
  }

  lemma FirstByte(v: nat)
    ensures Varint(v)[0] < 128 <==> v < 128
    ensures v < 128 ==> Varint(v) == [v]
  {
  }

  // The fast path reads what the general one would.
  lemma HeaderPaths(a: nat, b: nat, c: nat, rest: Bytes)
    requires a < TWO32 && b < TWO32 && c < TWO32
    ensures var input := Varint(a) + (Varint(b) + (Varint(c) + rest));
            && |input| >= 3
            && GetVarint32(input) == Some(Parsed(a, Varint(b) + (Varint(c) + rest)))
            && GetVarint32(Varint(b) + (Varint(c) + rest)) == Some(Parsed(b, Varint(c) + rest))
            && GetVarint32(Varint(c) + rest) == Some(Parsed(c, rest))
            && (input[0] < 128 && input[1] < 128 && input[2] < 128 ==>
                  input == [a, b, c] + rest && input[1..] == Varint(b) + (Varint(c) + rest)
                  && input[2..] == Varint(c) + rest && input[3..] == rest)
  {
    var input := Varint(a) + (Varint(b) + (Varint(c) + rest));
    FirstByte(a);
    FirstByte(b);
    FirstByte(c);
    VarintRoundTrip(a, Varint(b) + (Varint(c) + rest));
    VarintRoundTrip(b, Varint(c) + rest);
    VarintRoundTrip(c, rest);
    hide Varint, GetVarint32;
    if input[0] < 128 {
      assert input == [a] + (Varint(b) + (Varint(c) + rest));
      if input[1] < 128 {
        assert input == [a, b] + (Varint(c) + rest);
      }
    }
  }

  lemma LengthsRoundTrip(a: nat, b: nat, c: nat, rest: Bytes)
    requires a < TWO32 && b < TWO32 && c < TWO32
    ensures DecodeLengths(Header(a, b, c) + rest) == Some(Parsed(Lengths(a, b, c), rest))
  {
    assert Header(a, b, c) + rest == Varint(a) + (Varint(b) + (Varint(c) + rest));
    HeaderPaths(a, b, c, rest);
    hide Varint, GetVarint32;
  }

  // What reading an entry between p and end gives.
  predicate Reads(data: Bytes, p: nat, end: nat, limit: nat, shared: nat, kv: KeyValue)
    requires limit <= |data|
  {
    var r := DecodeEntry(data, p, limit);
    && shared <= |kv.key| && end <= |data|
    && r.Some? && r.value.shared == shared && r.value.nonShared == |kv.key| - shared
    && r.value.keyAt + r.value.nonShared + |kv.value| == end && r.value.valueLength == |kv.value|
    && data[r.value.keyAt..r.value.keyAt + r.value.nonShared] == kv.key[shared..]
    && data[end - |kv.value|..end] == kv.value
  }

  /** An encoded entry decodes to its three lengths and the place of its key bytes and value. */
  lemma DecodeEntryAt(data: Bytes, p: nat, end: nat, limit: nat, shared: nat, kv: KeyValue)
    requires shared <= |kv.key| && shared < TWO32 && p <= end <= limit <= |data| < TWO32
    requires data[p..end] == EntryBytes(shared, kv)
    ensures Reads(data, p, end, limit, shared, kv)
  {
    var nonShared: nat, valueLength: nat := |kv.key| - shared, |kv.value|;
    var head := Header(shared, nonShared, valueLength);
    var suffix := kv.key[shared..];
    assert data[p..end] == head + suffix + kv.value;
    assert |suffix| == nonShared;
    hide EntryBytes, Header, DecodeLengths, DecodeEntry;
    ThreeParts(data, p, end, head, suffix, kv.value);
    InputSplits(data, p, end, limit, head);
    DecodeInput(data, p, limit, shared, nonShared, valueLength, data[p + |head|..limit]);
  }

  lemma InputSplits(data: Bytes, p: nat, end: nat, limit: nat, head: Bytes)
    requires p + |head| <= end <= limit <= |data| && head <= data[p..end]
    ensures data[p..limit] == head + data[p + |head|..limit]
  {
    forall i | 0 <= i < |head|
      ensures data[p + i] == head[i]
    {
      assert data[p..end][i] == head[i];
    }
  }

  lemma DecodeInput(data: Bytes, p: nat, limit: nat, a: nat, b: nat, c: nat, rest: Bytes)
    requires p <= limit <= |data| && data[p..limit] == Header(a, b, c) + rest
    requires a < TWO32 && b + c < TWO32 && b + c <= |rest|
    ensures DecodeEntry(data, p, limit) == Some(EntryHeader(a, b, c, limit - |rest|))
  {
    hide Header, DecodeLengths;
    LengthsRoundTrip(a, b, c, rest);
  }

  lemma ThreeParts(data: Bytes, p: nat, end: nat, a: Bytes, b: Bytes, c: Bytes)
    requires p <= end <= |data| && data[p..end] == a + b + c
    ensures end == p + |a| + |b| + |c|
    ensures data[p + |a|..p + |a| + |b|] == b && data[p + |a| + |b|..end] == c
  {
    assert |data[p..end]| == end - p;
    assert forall i :: 0 <= i < end - p ==> data[p..end][i] == data[p + i];
    forall i | 0 <= i < |b|
      ensures data[p + |a| + i] == b[i]
    {
      assert data[p + (|a| + i)] == (a + b + c)[|a| + i];
    }
    forall i | 0 <= i < |c|
      ensures data[p + |a| + |b| + i] == c[i]
    {
      assert data[p + (|a| + |b| + i)] == (a + b + c)[|a| + |b| + i];
    }
  }

  ghost function EntriesEnd(l: Layout): nat
    requires LayoutOk(l)
  {
    Offset(l, |l.kvs|)
  }

  lemma EntryInBlock(data: Bytes, l: Layout, i: nat)
    requires Encodes(data, l) && i < |l.kvs|
    ensures Offset(l, i) + 3 <= Offset(l, i + 1) <= EntriesEnd(l) <= |data|
    ensures Reads(data, Offset(l, i), Offset(l, i + 1), EntriesEnd(l), l.shared[i], l.kvs[i])
  {
    var body := Body(l.kvs, l.shared, |l.kvs|);
    EntryAtOffset(l, i);
    OffsetsAscend(l, i, i + 1);
    assert SharesPrefix(l.kvs, l.shared, i);
    assert body <= data;
    assert data[Offset(l, i)..Offset(l, i + 1)] == body[Offset(l, i)..Offset(l, i + 1)];
    DecodeEntryAt(data, Offset(l, i), Offset(l, i + 1), EntriesEnd(l), l.shared[i], l.kvs[i]);
  }

  lemma TrailerInBlock(data: Bytes, l: Layout)
    requires Encodes(data, l)
    ensures |data| == EntriesEnd(l) + 4 * |l.starts| + 4 && data[|data| - 4..] == Fixed32(|l.starts|)
  {
    Fixed32sAt(RestartPoints(l), 0);
  }

  lemma RestartInBlock(data: Bytes, l: Layout, r: nat)
    requires Encodes(data, l) && r < |l.starts|
    ensures |data| == EntriesEnd(l) + 4 * |l.starts| + 4
    ensures l.starts[r] <= |l.kvs| && Offset(l, l.starts[r]) < TWO32
    ensures DecodeFixed32(data[EntriesEnd(l) + 4 * r..EntriesEnd(l) + 4 * r + 4]) == Offset(l, l.starts[r])
  {
    var body := Body(l.kvs, l.shared, |l.kvs|);
    var points := RestartPoints(l);
    assert points[r] == Offset(l, l.starts[r]);
    Fixed32sAt(points, r);
    SliceInside(body, Fixed32s(points), Fixed32(|l.starts|), 4 * r);
  }

  lemma SliceInside(a: Bytes, b: Bytes, c: Bytes, i: nat)
    requires i + 4 <= |b|
    ensures (a + b + c)[|a| + i..|a| + i + 4] == b[i..i + 4]
  {
  }

  // The key has what entry i shares with the key before it.
  ghost predicate SuppliesPrefix(l: Layout, i: nat, key: Bytes)
    requires LayoutOk(l)
  {
    i < |l.kvs| ==>
      && l.shared[i] <= |key| && l.shared[i] <= |l.kvs[i].key|
      && key[..l.shared[i]] == l.kvs[i].key[..l.shared[i]]
  }

  lemma StartSuppliesPrefix(l: Layout, r: nat, key: Bytes)
    requires LayoutOk(l) && r < |l.starts|
    ensures l.starts[r] <= |l.kvs| && SuppliesPrefix(l, l.starts[r], key)
  {
    assert l.starts[r] < |l.kvs| ==> l.shared[l.starts[r]] == 0;
  }

  // Entry i decodes, given what it shares with the key before it, and its key supplies what the next entry shares.
  lemma ParsedEntry(data: Bytes, l: Layout, i: nat, key: Bytes)
    requires Encodes(data, l) && i < |l.kvs| && SuppliesPrefix(l, i, key)
    ensures Offset(l, i) < EntriesEnd(l) <= |data|
    ensures var r := DecodeEntry(data, Offset(l, i), EntriesEnd(l));
            && r.Some? && r.value.shared <= |key|
            && r.value.keyAt + r.value.nonShared + r.value.valueLength == Offset(l, i + 1) <= |data|
            && key[..r.value.shared] + data[r.value.keyAt..r.value.keyAt + r.value.nonShared] == l.kvs[i].key
            && data[r.value.keyAt + r.value.nonShared..Offset(l, i + 1)] == l.kvs[i].value
    ensures SuppliesPrefix(l, i + 1, l.kvs[i].key)
  {
    EntryInBlock(data, l, i);
    assert l.kvs[i].key == l.kvs[i].key[..l.shared[i]] + l.kvs[i].key[l.shared[i]..];
    assert i + 1 < |l.kvs| ==> SharesPrefix(l.kvs, l.shared, i + 1);
    hide DecodeEntry;
  }

  /** A cursor over the entries of a finished block. */
  class BlockIter {
    const data: Bytes
    const restarts: nat
    const numRestarts: nat
    var current: nat
    var restartIndex: nat
    var key: Bytes
    // The value as a slice of the data.
    var valueStart: nat
    var valueLength: nat
    ghost const layout: Layout
    // The entry the cursor is at; the number of entries when it is at none.
    ghost var at: nat

    ghost predicate OverBlock() {
      LayoutOk(layout) && Encodes(data, layout) && restarts == EntriesEnd(layout) && numRestarts == |layout.starts|
    }

    ghost predicate Shows(i: nat)
      reads this
      requires OverBlock() && i < |layout.kvs|
    {
      && current == Offset(layout, i) && key == layout.kvs[i].key
      && Follows(i + 1)
      && valueStart + valueLength <= |data| && data[valueStart..valueStart + valueLength] == layout.kvs[i].value
    }

    // The next parse reads entry i.
    ghost predicate Follows(i: nat)
      reads this
      requires OverBlock() && i <= |layout.kvs|
    {
      && valueStart + valueLength == Offset(layout, i)
      && restartIndex < numRestarts && layout.starts[restartIndex] <= i
      && SuppliesPrefix(layout, i, key)
    }

    ghost predicate Ok()
      reads this
    {
      && OverBlock() && at <= |layout.kvs|
      && (at == |layout.kvs| ==> current == restarts)
      && (at < |layout.kvs| ==> Shows(at))
    }

    /** Opens the block the builder finished. */
    constructor (contents: Bytes, ghost layout: Layout)
      requires Encodes(contents, layout)
      ensures Ok() && data == contents && this.layout == layout && at == |layout.kvs|
    {
      TrailerInBlock(contents, layout);
      var n := DecodeFixed32(contents[|contents| - 4..]);
      data, numRestarts, restarts := contents, n, |contents| - (1 + n) * 4;
      this.layout, at := layout, |layout.kvs|;
      current, restartIndex, key := |contents| - (1 + n) * 4, n, [];
      valueStart, valueLength := 0, 0;
    }

    predicate Valid()
      reads this
    {
      current < restarts
    }

    lemma ValidMeansAt()
      requires Ok()
      ensures Valid() <==> at < |layout.kvs|
      ensures Valid() ==> key == layout.kvs[at].key && valueStart + valueLength <= |data|
                          && data[valueStart..valueStart + valueLength] == layout.kvs[at].value
    {
      if at < |layout.kvs| {
        OffsetsAscend(layout, at, |layout.kvs|);
      }
    }

    function NextEntryOffset(): nat
      reads this
    {
      valueStart + valueLength
    }

    method GetRestartPoint(index: nat) returns (offset: nat)
      requires OverBlock() && index < numRestarts
      ensures layout.starts[index] <= |layout.kvs| && offset == Offset(layout, layout.starts[index])
    {
      RestartInBlock(data, layout, index);
      offset := DecodeFixed32(data[restarts + index * 4..restarts + index * 4 + 4]);
    }

    method SeekToRestartPoint(index: nat)
      requires OverBlock() && index < numRestarts
      modifies `key, `restartIndex, `valueStart, `valueLength
      ensures layout.starts[index] <= |layout.kvs| && Follows(layout.starts[index])
    {
      StartSuppliesPrefix(layout, index, []);
      key := [];
      restartIndex := index;
      valueStart := GetRestartPoint(index);
      valueLength := 0;
    }

    method ParseNextKey(ghost i: nat) returns (found: bool)
      requires OverBlock() && i <= |layout.kvs| && Follows(i)
      modifies this
      ensures Ok() && at == i && (found <==> i < |layout.kvs|)
    {
      hide Encodes, LayoutOk, SuppliesPrefix, DecodeEntry;
      current := NextEntryOffset();
      at := i;
      if i < |layout.kvs| {
        ParsedEntry(data, layout, i, key);
      }
      if current >= restarts {
        current, restartIndex := restarts, numRestarts;
        return false;
      }
      var header := DecodeEntry(data, current, restarts);
      // A finished block has no malformed entry, so the source's corruption branch is not taken.
      assert header.Some? && header.value.shared <= |key|;
      var h := header.value;
      key := key[..h.shared] + data[h.keyAt..h.keyAt + h.nonShared];
      valueStart, valueLength := h.keyAt + h.nonShared, h.valueLength;
      AdvanceRestartIndex(i);
      return true;
    }

    // restartIndex follows the cursor across restart points.
    method AdvanceRestartIndex(ghost i: nat)
      requires OverBlock() && i <= |layout.kvs| && current == Offset(layout, i)
      requires restartIndex < numRestarts && layout.starts[restartIndex] <= i
      modifies `restartIndex
      ensures restartIndex < numRestarts && layout.starts[restartIndex] <= i
    {
      while restartIndex + 1 < numRestarts
        invariant restartIndex < numRestarts && layout.starts[restartIndex] <= i
        decreases numRestarts - restartIndex
      {
        var point := GetRestartPoint(restartIndex + 1);
        if point >= current {
          return;
        }
        if i < layout.starts[restartIndex + 1] {
          OffsetsAscend(layout, i, layout.starts[restartIndex + 1]);
        }
        restartIndex := restartIndex + 1;
      }
    }

    method SeekToFirst()
      requires Ok()
      modifies this
      ensures Ok() && at == 0
    {
      SeekToRestartPoint(0);
      var _ := ParseNextKey(0);
    }

    method SeekToLast()
      requires Ok()
      modifies this
      ensures Ok() && at == if layout.kvs == [] then 0 else |layout.kvs| - 1
    {
      SeekToRestartPoint(numRestarts - 1);
      ScanTo(layout.starts[numRestarts - 1], restarts, |layout.kvs|);
    }

    method Next()
      requires Ok() && Valid()
      modifies this
      ensures Ok() && at == old(at) + 1
    {
      ValidMeansAt();
      var _ := ParseNextKey(at + 1);
    }

    /** Steps back by parsing forward again from the last restart point before the cursor. */
    method Prev()
      requires Ok() && Valid()
      modifies this
      ensures Ok() && at == if old(at) == 0 then |layout.kvs| else old(at) - 1
    {
      ValidMeansAt();
      hide Encodes, SuppliesPrefix;
      var original := current;
      ghost var from := at;
      var found := RestartBefore(original, from);
      if !found {
        current, restartIndex := restarts, numRestarts;
        at := |layout.kvs|;
        return;
      }
      ghost var start := layout.starts[restartIndex];
      SeekToRestartPoint(restartIndex);
      ScanTo(start, original, from);
    }

    // Moves back to the last restart point below the offset, if there is one.
    method RestartBefore(original: nat, ghost from: nat) returns (found: bool)
      requires OverBlock() && from <= |layout.kvs| && original == Offset(layout, from)
      requires restartIndex < numRestarts
      modifies `restartIndex
      ensures restartIndex < numRestarts && (found <==> from > 0)
      ensures found ==> layout.starts[restartIndex] < from
    {
      hide Encodes;
      var point := GetRestartPoint(restartIndex);
      OffsetOrder(layout, layout.starts[restartIndex], from);
      while point >= original
        invariant restartIndex < numRestarts && layout.starts[restartIndex] <= |layout.kvs|
        invariant point < original <==> layout.starts[restartIndex] < from
        decreases restartIndex
      {
        if restartIndex == 0 {
          return false;
        }
        restartIndex := restartIndex - 1;
        point := GetRestartPoint(restartIndex);
        OffsetOrder(layout, layout.starts[restartIndex], from);
      }
      return true;
    }

    // Parses from entry i on until the end of an entry reaches the offset of entry `to`.
    method ScanTo(ghost i: nat, offset: nat, ghost to: nat)
      requires OverBlock() && i <= to <= |layout.kvs| && Follows(i) && offset == Offset(layout, to)
      requires i < to || to == |layout.kvs| == 0
      modifies this
      ensures Ok() && at == if to == 0 then 0 else to - 1
    {
      hide Encodes, SuppliesPrefix, LayoutOk, Body;
      var found := ParseNextKey(i);
      ghost var next := i;
      while found && NextEntryOffset() < offset
        invariant Ok() && at == next && (found <==> next < |layout.kvs|)
        invariant found ==> next < to
        invariant !found ==> to == 0
        decreases if found then to - next else 0
      {
        OffsetOrder(layout, next + 1, to);
        next := next + 1;
        found := ParseNextKey(next);
      }
      if found {
        OffsetOrder(layout, next + 1, to);
      }
    }

    /** Finds the first entry whose key is not below the target: binary search over the restart points, then a scan. */
    method Seek(target: Bytes)
      requires Ok() && Ascending(layout.kvs) && IsInternal(target)
      modifies this
      ensures Ok()
      ensures forall j :: 0 <= j < at ==> KeyLess(layout.kvs[j].key, target)
      ensures forall j :: at <= j < |layout.kvs| ==> !KeyLess(layout.kvs[j].key, target)
    {
      var left := FindRestart(target);
      SeekToRestartPoint(left);
      ScanToKey(layout.starts[left], target);
    }

    // Parses from entry i on until a key is not below the target.
    method ScanToKey(ghost start: nat, target: Bytes)
      requires OverBlock() && start <= |layout.kvs| && Follows(start) && Ascending(layout.kvs) && IsInternal(target)
      requires forall j :: 0 <= j < start ==> KeyLess(layout.kvs[j].key, target)
      modifies this
      ensures Ok()
      ensures forall j :: 0 <= j < at ==> KeyLess(layout.kvs[j].key, target)
      ensures forall j :: at <= j < |layout.kvs| ==> !KeyLess(layout.kvs[j].key, target)
    {
      hide Encodes, LayoutOk, SuppliesPrefix, KeyLess;
      ghost var i := start;
      var found := ParseNextKey(i);
      while found && KeyLess(key, target)
        invariant Ok() && at == i && (found <==> i < |layout.kvs|)
        invariant forall j :: 0 <= j < i ==> KeyLess(layout.kvs[j].key, target)
        decreases |layout.kvs| - i
      {
        i := i + 1;
        found := ParseNextKey(i);
      }
      if found {
        AllAbove(layout.kvs, i, target);
      }
    }

    // Binary search: the last restart point whose key is below the target, or the first one.
    method FindRestart(target: Bytes) returns (left: nat)
      requires OverBlock() && Ascending(layout.kvs) && IsInternal(target)
      ensures left < numRestarts && layout.starts[left] <= |layout.kvs|
      ensures forall j :: 0 <= j < layout.starts[left] ==> KeyLess(layout.kvs[j].key, target)
    {
      hide Encodes, Reads, KeyLess;
      left := 0;
      var right: nat := numRestarts - 1;
      while left < right
        invariant left <= right < numRestarts
        invariant layout.starts[left] <= |layout.kvs|
        invariant left > 0 ==> layout.starts[left] < |layout.kvs| && KeyLess(layout.kvs[layout.starts[left]].key, target)
      {
        var mid := (left + right + 1) / 2;
        var regionOffset := GetRestartPoint(mid);
        RestartKey(data, layout, mid);
        var header := DecodeEntry(data, regionOffset, restarts);
        // Restart points of a finished block are well formed, so the source's corruption branch is not taken.
        assert header.Some? && header.value.shared == 0;
        var midKey := data[header.value.keyAt..header.value.keyAt + header.value.nonShared];
        if KeyLess(midKey, target) {
          left := mid;
        } else {
          right := mid - 1;
        }
      }
      AllBelow(layout.kvs, layout.starts[left], target, left == 0);
    }
  }

  lemma OffsetOrder(l: Layout, i: nat, j: nat)
    requires LayoutOk(l) && i <= |l.kvs| && j <= |l.kvs|
    ensures Offset(l, i) < Offset(l, j) <==> i < j
  {
    if i < j {
      OffsetsAscend(l, i, j);
    } else {
      OffsetsAscend(l, j, i);
    }
  }

  // Every restart point after the first is at an entry that spells its key out.
  lemma RestartKey(data: Bytes, l: Layout, r: nat)
    requires Encodes(data, l) && 1 <= r < |l.starts|
    ensures l.starts[r] < |l.kvs| && Offset(l, l.starts[r]) < EntriesEnd(l) <= |data|
    ensures var h := DecodeEntry(data, Offset(l, l.starts[r]), EntriesEnd(l));
            && h.Some? && h.value.shared == 0 && h.value.keyAt + h.value.nonShared <= |data|
            && data[h.value.keyAt..h.value.keyAt + h.value.nonShared] == l.kvs[l.starts[r]].key
  {
    EntryInBlock(data, l, l.starts[r]);
    assert l.kvs[l.starts[r]].key[0..] == l.kvs[l.starts[r]].key;
  }

  lemma AllBelow(kvs: seq<KeyValue>, i: nat, target: Bytes, first: bool)
    requires Ascending(kvs) && IsInternal(target) && i <= |kvs|
    requires if first then i == 0 else i < |kvs| && KeyLess(kvs[i].key, target)
    ensures forall j :: 0 <= j < i ==> KeyLess(kvs[j].key, target)
  {
    forall j | 0 <= j < i
      ensures KeyLess(kvs[j].key, target)
    {
      KeyLessTransitive(kvs[j].key, kvs[i].key, target);
    }
  }

  lemma AllAbove(kvs: seq<KeyValue>, i: nat, target: Bytes)
    requires Ascending(kvs) && IsInternal(target) && i < |kvs| && !KeyLess(kvs[i].key, target)
    ensures forall j :: i <= j < |kvs| ==> !KeyLess(kvs[j].key, target)
  {
    forall j | i <= j < |kvs|
      ensures !KeyLess(kvs[j].key, target)
    {
      if i < j {
        KeyLessTransitive(kvs[i].key, kvs[j].key, target);
      }
    }
  }
}
