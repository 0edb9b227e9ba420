/** Bloom filters and the filter block of a table (util/bloom.cc, table/filter_block.cc). */
module Filter {
  import opened Wrappers
  import opened DbFormat
  import opened Coding

  // The filter policy: how many bits and probes a key gets, and the hash of its bytes.  What is proved holds for any
  // hash function.
  datatype Policy = Policy(bitsPerKey: nat, probes: nat, hash: Bytes -> nat)

  // BloomFilterPolicy's constructor: about ln(2) probes a bit, from 1 to 30.
  function NewPolicy(bitsPerKey: nat, hash: Bytes -> nat): (p: Policy)
    ensures 1 <= p.probes <= 30 && p.bitsPerKey == bitsPerKey && p.hash == hash
    ensures p.probes > 1 ==> p.probes as real <= bitsPerKey as real * 0.69
    ensures p.probes < 30 ==> bitsPerKey as real * 0.69 < p.probes as real + 1.0
  {
    var k := (bitsPerKey as real * 0.69).Floor;
    Policy(bitsPerKey, if k < 1 then 1 else if k > 30 then 30 else k, hash)
  }

  predicate PolicyOk(p: Policy) {
    1 <= p.probes <= 30
  }

  // ----- Bits of bytes

  // b & (1 << i)
  predicate BitOf(b: nat, i: nat) {
    if i == 0 then b % 2 == 1 else BitOf(b / 2, i - 1)
  }

  // b | (1 << i)
  function WithBit(b: nat, i: nat): nat {
    if i == 0 then b - b % 2 + 1 else 2 * WithBit(b / 2, i - 1) + b % 2
  }

  lemma {:induction false} WithBitSets(b: nat, i: nat, j: nat)
    ensures BitOf(WithBit(b, i), i)
    ensures BitOf(b, j) ==> BitOf(WithBit(b, i), j)
    ensures i != j ==> (BitOf(WithBit(b, i), j) <==> BitOf(b, j))
  {
    if i > 0 {
      var up := WithBit(b / 2, i - 1);
      assert (2 * up + b % 2) / 2 == up;
      WithBitSets(b / 2, i - 1, if j > 0 then j - 1 else 0);
    } else {
      assert (b - b % 2 + 1) / 2 == b / 2;
    }
  }

  lemma {:induction false} WithBitFits(b: nat, i: nat, width: nat)
    requires i < width && b < Pow(2, width)
    ensures WithBit(b, i) < Pow(2, width)
  {
    var half: nat := Pow(2, width - 1);
    assert Pow(2, width) == 2 * half;
    hide Pow;
    if i > 0 {
      WithBitFits(b / 2, i - 1, width - 1);
    }
  }

  function ByteWithBit(b: byte, i: nat): (r: byte)
    requires i < 8
    ensures r as nat == WithBit(b, i)
  {
    PowerOfByte();
    WithBitFits(b, i, 8);
    WithBit(b, i)
  }

  lemma PowerOfByte()
    ensures Pow(2, 8) == 256
  {
    assert Pow(2, 2) == 4 && Pow(2, 4) == 16 && Pow(2, 6) == 64;
  }

  predicate BitAt(bytes: Bytes, pos: nat)
    requires pos < 8 * |bytes|
  {
    BitOf(bytes[pos / 8], pos % 8)
  }

  // ----- Probes

  function Hash32(p: Policy, key: Bytes): nat {
    p.hash(key) % TWO32
  }

  // Rotate right by 17 bits.
  function Delta(h: nat): nat {
    h / 0x2_0000 + h % 0x2_0000 * 0x8000
  }

  // The hash after j additions of the delta.
  function Probe(h: nat, delta: nat, j: nat): nat {
    if j == 0 then h else (Probe(h, delta, j - 1) + delta) % TWO32
  }

  predicate AllProbesSet(table: Bytes, h: nat, probes: nat)
    requires table != []
  {
    forall j :: 0 <= j < probes ==> BitAt(table, Probe(h, Delta(h), j) % (8 * |table|))
  }

  ghost predicate AllKeysSet(table: Bytes, p: Policy, keys: seq<Bytes>)
    requires table != []
  {
    forall n :: 0 <= n < |keys| ==> AllProbesSet(table, Hash32(p, keys[n]), p.probes)
  }

  // One of the probes of a hash hits the bit.
  ghost predicate Hits(h: nat, probes: nat, bits: nat, pos: nat)
    requires bits > 0
  {
    exists j :: 0 <= j < probes && Probe(h, Delta(h), j) % bits == pos
  }

  ghost predicate HitBySome(p: Policy, keys: seq<Bytes>, bits: nat, pos: nat)
    requires bits > 0
  {
    exists n :: 0 <= n < |keys| && Hits(Hash32(p, keys[n]), p.probes, bits, pos)
  }

  // Every bit that is set was hit by a key.
  ghost predicate OnlyHits(table: Bytes, p: Policy, keys: seq<Bytes>)
    requires table != []
  {
    forall pos: nat :: pos < 8 * |table| && BitAt(table, pos) ==> HitBySome(p, keys, 8 * |table|, pos)
  }

  // The rotation by 17 bits: the high 15 go to the bottom, the low 17 to the top.
  lemma DeltaRotates(high: nat, low: nat)
    requires high < 0x8000 && low < 0x2_0000
    ensures Delta(high * 0x2_0000 + low) == low * 0x8000 + high
  {
  }

  // What BloomFilterPolicy::KeyMayMatch answers.
  predicate Matches(p: Policy, key: Bytes, filter: Bytes) {
    && |filter| >= 2
    && var k := filter[|filter| - 1] as nat;
       k > 30 || AllProbesSet(filter[..|filter| - 1], Hash32(p, key), k)
  }

  method PolicyMayMatch(p: Policy, key: Bytes, filter: Bytes) returns (may: bool)
    ensures may == Matches(p, key, filter)
  {
    var len := |filter|;
    if len < 2 {
      return false;
    }
    var table := filter[..len - 1];
    var bits := (len - 1) * 8;
    var k := filter[len - 1] as nat;
    if k > 30 {
      return true;
    }
    var h := Hash32(p, key);
    ghost var h0 := h;
    var delta := Delta(h);
    for j: nat := 0 to k
      invariant h == Probe(h0, delta, j)
      invariant AllProbesSet(table, h0, j)
    {
      var bitpos := h % bits;
      if !BitOf(table[bitpos / 8], bitpos % 8) {
        assert !BitAt(table, Probe(h0, Delta(h0), j) % (8 * |table|));
        return false;
      }
      h := (h + delta) % TWO32;
    }
    return true;
  }

  /** Builds the filter of some keys: every one of them matches it. */
  method CreateFilter(p: Policy, keys: seq<Bytes>) returns (filter: Bytes)
    requires PolicyOk(p)
    ensures |filter| == (if |keys| * p.bitsPerKey < 64 then 64 else |keys| * p.bitsPerKey + 7) / 8 + 1
    ensures filter[|filter| - 1] == p.probes && OnlyHits(filter[..|filter| - 1], p, keys)
    ensures forall key :: key in keys ==> Matches(p, key, filter)
  {
    var wanted := |keys| * p.bitsPerKey;
    if wanted < 64 {
      wanted := 64;
    }
    var bytes := (wanted + 7) / 8;
    var bits := bytes * 8;
    var table: Bytes := seq(bytes, _ => 0);
    NoBits(table, p);
    for i: nat := 0 to |keys|
      invariant |table| == bytes && AllKeysSet(table, p, keys[..i]) && OnlyHits(table, p, keys[..i])
    {
      table := AddToFilter(p, table, keys[..i], keys[i]);
      assert keys[..i + 1] == keys[..i] + [keys[i]];
    }
    filter := table + [p.probes];
    assert filter[..|filter| - 1] == table && keys[..|keys|] == keys;
    forall key | key in keys
      ensures Matches(p, key, filter)
    {
      var n :| 0 <= n < |keys| && keys[n] == key;
      assert AllProbesSet(table, Hash32(p, keys[n]), p.probes);
    }
  }

  // Sets the bits of one key and loses none.
  method AddToFilter(p: Policy, before: Bytes, ghost done: seq<Bytes>, key: Bytes) returns (table: Bytes)
    requires before != [] && AllKeysSet(before, p, done) && OnlyHits(before, p, done)
    ensures |table| == |before| && AllKeysSet(table, p, done + [key]) && OnlyHits(table, p, done + [key])
  {
    hide BitAt, ByteWithBit, AllKeysSet, OnlyHits, AddedBits;
    table := before;
    var bits := |table| * 8;
    var h := Hash32(p, key);
    ghost var h0 := h;
    var delta := Delta(h);
    NothingAdded(before, h0);
    for j: nat := 0 to p.probes
      invariant |table| == |before| && h == Probe(h0, delta, j)
      invariant AllProbesSet(table, h0, j) && AllKeysSet(table, p, done) && AddedBits(before, table, h0, j)
    {
      var bitpos := h % bits;
      ghost var was := table;
      table := table[bitpos / 8 := ByteWithBit(table[bitpos / 8], bitpos % 8)];
      BitAdded(before, was, table, bitpos, h0, j);
      BitKept(was, table, bitpos);
      ProbesKept(was, table, bitpos, h0, j);
      KeysKept(was, table, bitpos, p, done);
      h := (h + delta) % TWO32;
    }
    OneMoreKey(table, p, done, key);
    OnlyHitsMore(before, table, p, done, key);
  }

  // The bits that were not set before were hit by one of the first j probes.
  ghost predicate AddedBits(before: Bytes, table: Bytes, h: nat, j: nat)
    requires |table| == |before| > 0
  {
    forall pos: nat :: pos < 8 * |table| && BitAt(table, pos) ==> BitAt(before, pos) || Hits(h, j, 8 * |table|, pos)
  }

  lemma NothingAdded(before: Bytes, h: nat)
    requires before != []
    ensures AddedBits(before, before, h, 0)
  {
  }

  lemma BitAdded(before: Bytes, was: Bytes, table: Bytes, bitpos: nat, h: nat, j: nat)
    requires |was| == |before| > 0 && bitpos == Probe(h, Delta(h), j) % (8 * |was|)
    requires table == was[bitpos / 8 := ByteWithBit(was[bitpos / 8], bitpos % 8)] && AddedBits(before, was, h, j)
    ensures AddedBits(before, table, h, j + 1)
  {
    hide Probe, Delta;
    forall pos: nat | pos < 8 * |table| && BitAt(table, pos)
      ensures BitAt(before, pos) || Hits(h, j + 1, 8 * |table|, pos)
    {
      if pos != bitpos {
        OtherBit(was, table, bitpos, pos);
      }
    }
  }

  lemma OtherBit(was: Bytes, table: Bytes, bitpos: nat, pos: nat)
    requires bitpos < 8 * |was| && pos < 8 * |was| && pos != bitpos
    requires table == was[bitpos / 8 := ByteWithBit(was[bitpos / 8], bitpos % 8)]
    ensures BitAt(table, pos) <==> BitAt(was, pos)
  {
    if pos / 8 == bitpos / 8 {
      WithBitSets(was[bitpos / 8], bitpos % 8, pos % 8);
    }
  }

  lemma OnlyHitsMore(before: Bytes, table: Bytes, p: Policy, done: seq<Bytes>, key: Bytes)
    requires |table| == |before| > 0 && OnlyHits(before, p, done)
    requires AddedBits(before, table, Hash32(p, key), p.probes)
    ensures OnlyHits(table, p, done + [key])
  {
    hide Hits, BitAt;
    var all := done + [key];
    forall pos: nat | pos < 8 * |table| && BitAt(table, pos)
      ensures HitBySome(p, all, 8 * |table|, pos)
    {
      if BitAt(before, pos) {
        var n :| 0 <= n < |done| && Hits(Hash32(p, done[n]), p.probes, 8 * |table|, pos);
        assert all[n] == done[n];
      } else {
        assert all[|done|] == key;
      }
    }
  }

  lemma NoBits(table: Bytes, p: Policy)
    requires table != [] && forall i :: 0 <= i < |table| ==> table[i] == 0
    ensures OnlyHits(table, p, [])
  {
    forall pos: nat | pos < 8 * |table|
      ensures !BitAt(table, pos)
    {
      ZeroHasNoBits(pos % 8);
    }
  }

  lemma {:induction false} ZeroHasNoBits(i: nat)
    ensures !BitOf(0, i)
  {
    if i > 0 {
      ZeroHasNoBits(i - 1);
    }
  }

  lemma OneMoreKey(table: Bytes, p: Policy, done: seq<Bytes>, key: Bytes)
    requires table != [] && AllKeysSet(table, p, done) && AllProbesSet(table, Hash32(p, key), p.probes)
    ensures AllKeysSet(table, p, done + [key])
  {
  }

  lemma KeysKept(was: Bytes, table: Bytes, bitpos: nat, p: Policy, keys: seq<Bytes>)
    requires bitpos < 8 * |was| && AllKeysSet(was, p, keys)
    requires table == was[bitpos / 8 := ByteWithBit(was[bitpos / 8], bitpos % 8)]
    ensures AllKeysSet(table, p, keys)
  {
    forall n | 0 <= n < |keys|
      ensures AllProbesSet(table, Hash32(p, keys[n]), p.probes)
    {
      ProbesKept(was, table, bitpos, Hash32(p, keys[n]), p.probes);
    }
  }

  lemma BitKept(was: Bytes, table: Bytes, bitpos: nat)
    requires bitpos < 8 * |was|
    requires table == was[bitpos / 8 := ByteWithBit(was[bitpos / 8], bitpos % 8)]
    ensures BitAt(table, bitpos)
  {
    WithBitSets(was[bitpos / 8], bitpos % 8, bitpos % 8);
  }

  lemma ProbesKept(was: Bytes, table: Bytes, bitpos: nat, h: nat, probes: nat)
    requires bitpos < 8 * |was| && AllProbesSet(was, h, probes)
    requires table == was[bitpos / 8 := ByteWithBit(was[bitpos / 8], bitpos % 8)]
    ensures AllProbesSet(table, h, probes)
  {
    forall j | 0 <= j < probes
      ensures BitAt(table, Probe(h, Delta(h), j) % (8 * |table|))
    {
      var pos: nat := Probe(h, Delta(h), j) % (8 * |table|);
      assert BitAt(was, pos);
      WithBitSets(was[bitpos / 8], bitpos % 8, pos % 8);
    }
  }

  // Each probe of the hash is a probe of some key.
  ghost predicate AllHit(p: Policy, keys: seq<Bytes>, bits: nat, h: nat)
    requires bits > 0
  {
    forall j :: 0 <= j < p.probes ==> HitBySome(p, keys, bits, Probe(h, Delta(h), j) % bits)
  }

  /** A filter that CreateFilter built matches a key exactly when each probe of the key is a probe of some key it was
      built from. */
  lemma MatchesExactlyWhen(p: Policy, keys: seq<Bytes>, filter: Bytes, key: Bytes)
    requires PolicyOk(p) && |filter| >= 2 && filter[|filter| - 1] == p.probes
    requires OnlyHits(filter[..|filter| - 1], p, keys) && forall k :: k in keys ==> Matches(p, k, filter)
    ensures Matches(p, key, filter) <==> AllHit(p, keys, 8 * (|filter| - 1), Hash32(p, key))
  {
    hide Delta, BitAt, HitBySome;
    var table, bits, h := filter[..|filter| - 1], 8 * (|filter| - 1), Hash32(p, key);
    forall j | 0 <= j < p.probes
      ensures BitAt(table, Probe(h, Delta(h), j) % bits) <==> HitBySome(p, keys, bits, Probe(h, Delta(h), j) % bits)
    {
      var pos := Probe(h, Delta(h), j) % bits;
      if HitBySome(p, keys, bits, pos) {
        BitIsSet(p, keys, filter, pos);
      }
    }
    if AllHit(p, keys, bits, h) {
      assert AllProbesSet(table, h, p.probes);
    }
    if AllProbesSet(table, h, p.probes) {
      assert AllHit(p, keys, bits, h);
    }
  }

  lemma BitIsSet(p: Policy, keys: seq<Bytes>, filter: Bytes, pos: nat)
    requires PolicyOk(p) && |filter| >= 2 && filter[|filter| - 1] == p.probes
    requires forall k :: k in keys ==> Matches(p, k, filter)
    requires pos < 8 * (|filter| - 1) && HitBySome(p, keys, 8 * (|filter| - 1), pos)
    ensures BitAt(filter[..|filter| - 1], pos)
  {
    hide Delta, BitAt;
    var table := filter[..|filter| - 1];
    var n :| 0 <= n < |keys| && Hits(Hash32(p, keys[n]), p.probes, 8 * (|filter| - 1), pos);
    assert keys[n] in keys && AllProbesSet(table, Hash32(p, keys[n]), p.probes);
  }

  // ----- The filter block

  const FILTER_BASE_LG: byte := 11
  const FILTER_BASE: nat := 2048

  function Flatten(parts: seq<Bytes>): Bytes {
    if parts == [] then [] else Flatten(parts[..|parts| - 1]) + parts[|parts| - 1]
  }

  // Where each part starts in the whole.
  ghost function Starts(parts: seq<Bytes>): seq<nat> {
    seq(|parts|, i requires 0 <= i < |parts| => |Flatten(parts[..i])|)
  }

  lemma {:induction false} FlattenPrefix(parts: seq<Bytes>, i: nat)
    requires i <= |parts|
    ensures Flatten(parts[..i]) <= Flatten(parts)
  {
    if i == |parts| {
      assert parts[..i] == parts;
    } else {
      var n := |parts| - 1;
      assert parts[..n][..i] == parts[..i];
      FlattenPrefix(parts[..n], i);
    }
  }

  lemma PartOfFlatten(parts: seq<Bytes>, i: nat)
    requires i < |parts|
    ensures |Flatten(parts[..i])| + |parts[i]| == |Flatten(parts[..i + 1])| <= |Flatten(parts)|
    ensures Flatten(parts)[|Flatten(parts[..i])|..|Flatten(parts[..i + 1])|] == parts[i]
  {
    assert parts[..i + 1][..i] == parts[..i];
    FlattenPrefix(parts, i + 1);
    assert Flatten(parts)[..|Flatten(parts[..i + 1])|] == Flatten(parts[..i]) + parts[i];
  }

  lemma StartsSnoc(parts: seq<Bytes>, part: Bytes)
    ensures Flatten(parts + [part]) == Flatten(parts) + part
    ensures Starts(parts + [part]) == Starts(parts) + [|Flatten(parts)|]
  {
    var all := parts + [part];
    assert all[..|parts|] == parts;
    assert forall i :: 0 <= i <= |parts| ==> all[..i] == parts[..i];
    assert parts[..|parts|] == parts;
  }

  // Each filter matches the keys it covers.
  ghost predicate Covered(p: Policy, filters: seq<Bytes>, covers: seq<seq<Bytes>>) {
    && |covers| == |filters|
    && forall i, key :: 0 <= i < |filters| && key in covers[i] ==> Matches(p, key, filters[i])
  }

  lemma CoveredSnoc(p: Policy, filters: seq<Bytes>, covers: seq<seq<Bytes>>, filter: Bytes, cover: seq<Bytes>)
    requires Covered(p, filters, covers) && forall key :: key in cover ==> Matches(p, key, filter)
    ensures Covered(p, filters + [filter], covers + [cover])
  {
  }

  ghost predicate EncodesFilters(block: Bytes, filters: seq<Bytes>) {
    && Fit32(Starts(filters)) && |block| < TWO32 && |Flatten(filters)| < TWO32
    && block == Flatten(filters) + Fixed32s(Starts(filters)) + Fixed32(|Flatten(filters)|) + [FILTER_BASE_LG]
  }

  class FilterBlockBuilder {
    const policy: Policy
    var keys: Bytes
    var start: seq<nat>
    var result: Bytes
    var filterOffsets: seq<nat>
    // The keys since the last filter, the filters, and the keys each was made of.
    ghost var pending: seq<Bytes>
    ghost var filters: seq<Bytes>
    ghost var covers: seq<seq<Bytes>>

    ghost predicate Ok()
      reads this
    {
      && PolicyOk(policy)
      && keys == Flatten(pending) && start == Starts(pending)
      && result == Flatten(filters) && filterOffsets == Starts(filters)
      && Covered(policy, filters, covers)
    }

    constructor (policy: Policy)
      requires PolicyOk(policy)
      ensures Ok() && pending == [] && filters == [] && this.policy == policy
    {
      this.policy := policy;
      keys, start, result, filterOffsets := [], [], [], [];
      pending, filters, covers := [], [], [];
    }

    /** Ends filters until the next one is the filter of blocks at this offset. */
    method StartBlock(blockOffset: nat)
      requires Ok() && blockOffset / FILTER_BASE >= |filters|
      modifies this
      ensures Ok() && |filters| == blockOffset / FILTER_BASE
      ensures old(filters) <= filters && old(covers) <= covers
      ensures pending == if |filters| > old(|filters|) then [] else old(pending)
      ensures |filters| > old(|filters|) ==> covers[old(|filters|)] == old(pending)
    {
      var filterIndex := blockOffset / FILTER_BASE;
      while filterIndex > |filterOffsets|
        invariant Ok() && |filters| <= filterIndex
        invariant old(filters) <= filters && old(covers) <= covers
        invariant pending == if |filters| > old(|filters|) then [] else old(pending)
        invariant |filters| > old(|filters|) ==> covers[old(|filters|)] == old(pending)
        decreases filterIndex - |filterOffsets|
      {
        GenerateFilter();
      }
    }

    method AddKey(key: Bytes)
      requires Ok()
      modifies `keys, `start, `pending
      ensures Ok() && pending == old(pending) + [key]
    {
      StartsSnoc(pending, key);
      start := start + [|keys|];
      keys := keys + key;
      pending := pending + [key];
    }

    method GenerateFilter()
      requires Ok()
      modifies this
      ensures Ok() && pending == [] && covers == old(covers) + [old(pending)]
      ensures |filters| == old(|filters|) + 1 && old(filters) <= filters
    {
      assert Flatten([]) == [] && Starts([]) == [];
      assert |start| == |pending|;
      hide Flatten, Matches, Covered, Starts;
      if |start| == 0 {
        StartsSnoc(filters, []);
        CoveredSnoc(policy, filters, covers, [], pending);
        filterOffsets := filterOffsets + [|result|];
        filters, covers := filters + [[]], covers + [pending];
        return;
      }
      var tmpKeys := KeyList(keys, start + [|keys|], pending);
      var filter := CreateFilter(policy, tmpKeys);
      StartsSnoc(filters, filter);
      CoveredSnoc(policy, filters, covers, filter, pending);
      filterOffsets := filterOffsets + [|result|];
      result := result + filter;
      filters, covers := filters + [filter], covers + [pending];
      keys, start, pending := [], [], [];
    }

    // The keys that stand behind each other, given where each starts and the last one ends.
    static method KeyList(keys: Bytes, ends: seq<nat>, ghost pending: seq<Bytes>) returns (tmpKeys: seq<Bytes>)
      requires keys == Flatten(pending) && ends == Starts(pending) + [|keys|]
      ensures tmpKeys == pending
    {
      tmpKeys := [];
      assert pending[..|pending|] == pending;
      for i: nat := 0 to |ends| - 1
        invariant tmpKeys == pending[..i]
      {
        PartOfFlatten(pending, i);
        tmpKeys := tmpKeys + [keys[ends[i]..ends[i + 1]]];
      }
    }

    /** The finished block: the filters, where they start, and the encoding parameter.  Offsets are kept to 32 bits,
        which is enough for any block below that size. */
    method Finish() returns (block: Bytes)
      requires Ok()
      modifies this
      ensures Ok() && covers == if old(pending) == [] then old(covers) else old(covers) + [old(pending)]
      ensures |block| < TWO32 ==> EncodesFilters(block, filters)
    {
      hide Flatten, Covered, Fixed32s, Fit32;
      if start != [] {
        GenerateFilter();
      }
      block := PutOffsets(result, filterOffsets);
      var arrayOffset := |result|;
      block := block + Fixed32(arrayOffset % TWO32);
      block := block + [FILTER_BASE_LG];
      StartsFit(filters);
    }

    static method PutOffsets(result: Bytes, offsets: seq<nat>) returns (block: Bytes)
      ensures |block| >= |result| && (Fit32(offsets) ==> block == result + Fixed32s(offsets))
    {
      block := result;
      for i: nat := 0 to |offsets|
        invariant |block| >= |result|
        invariant Fit32(offsets) ==> block == result + Fixed32s(offsets[..i])
      {
        assert offsets[..i + 1][..i] == offsets[..i];
        block := block + Fixed32(offsets[i] % TWO32);
      }
      assert offsets[..|offsets|] == offsets;
    }
  }

  lemma StartsFit(parts: seq<Bytes>)
    ensures |Flatten(parts)| < TWO32 ==> Fit32(Starts(parts))
  {
    forall i | 0 <= i < |parts|
      ensures |Flatten(parts[..i])| <= |Flatten(parts)|
    {
      FlattenPrefix(parts, i);
    }
  }

  class FilterBlockReader {
    const policy: Policy
    const data: Bytes
    // Where the offsets start, how many filters there are, and the encoding parameter; no filters in a block too short.
    const offset: nat
    const num: nat
    const baseLg: nat

    ghost predicate Ok() {
      offset <= |data| && (num > 0 ==> offset + 4 * num + 5 <= |data|)
    }

    constructor (policy: Policy, contents: Bytes)
      ensures Ok() && data == contents && this.policy == policy
      ensures forall filters :: EncodesFilters(contents, filters) ==>
                num == |filters| && offset == |Flatten(filters)| && baseLg == 11
    {
      this.policy, data := policy, contents;
      var n := |contents|;
      var lastWord := if n < 5 then 0 else DecodeFixed32(contents[n - 5..n - 1]);
      offset, num, baseLg := 0, 0, 0;
      if n >= 5 {
        baseLg := contents[n - 1];
        if lastWord <= n - 5 {
          offset, num := lastWord, (n - 5 - lastWord) / 4;
        }
      }
      forall filters | EncodesFilters(contents, filters)
        ensures n >= 5 && lastWord == |Flatten(filters)| && n - 5 - lastWord == 4 * |filters| && contents[n - 1] == 11
      {
        FilterTrailer(contents, filters);
      }
    }

    /** Whether some key of the blocks at this offset may be the given one. */
    method KeyMayMatch(blockOffset: nat, key: Bytes, ghost filters: seq<Bytes>) returns (may: bool)
      requires Ok()
      requires EncodesFilters(data, filters) ==> num == |filters| && offset == |Flatten(filters)| && baseLg == 11
      ensures EncodesFilters(data, filters) ==>
                may == (blockOffset / FILTER_BASE < |filters| ==>
                          Matches(policy, key, filters[blockOffset / FILTER_BASE]))
    {
      BaseIsPower();
      var index: nat := blockOffset / Power2(baseLg);
      if index < num {
        var from := DecodeFixed32(data[offset + index * 4..offset + index * 4 + 4]);
        var limit := DecodeFixed32(data[offset + index * 4 + 4..offset + index * 4 + 8]);
        if EncodesFilters(data, filters) {
          FilterAt(data, filters, index);
        }
        if from <= limit && limit <= offset {
          may := PolicyMayMatch(policy, key, data[from..limit]);
          return;
        } else if from == limit {
          return false;
        }
      }
      return true;
    }
  }

  function Power2(n: nat): (p: nat)
    ensures p > 0
  {
    if n == 0 then 1 else 2 * Power2(n - 1)
  }

  lemma BaseIsPower()
    ensures Power2(11) == FILTER_BASE
  {
    assert Power2(3) == 8 && Power2(6) == 64 && Power2(9) == 512;
  }

  lemma FilterTrailer(block: Bytes, filters: seq<Bytes>)
    requires EncodesFilters(block, filters)
    ensures var n := |block|;
            && n == |Flatten(filters)| + 4 * |filters| + 5 && block[n - 1] == 11
            && block[n - 5..n - 1] == Fixed32(|Flatten(filters)|)
  {
    Fixed32sAt(Starts(filters), 0);
  }

  // Behind the last offset comes the end of all filters.
  lemma WordAt(block: Bytes, filters: seq<Bytes>, i: nat)
    requires EncodesFilters(block, filters) && i <= |filters|
    ensures var at := |Flatten(filters)| + i * 4;
            at + 4 <= |block| && DecodeFixed32(block[at..at + 4]) == |Flatten(filters[..i])|
  {
    var all, points := Flatten(filters), Starts(filters);
    var tail := Fixed32(|all|) + [FILTER_BASE_LG];
    assert filters[..|filters|] == filters;
    assert i < |filters| ==> points[i] == |Flatten(filters[..i])|;
    Fixed32sAt(points, i);
    hide Flatten, Fixed32s, Starts, FromFixed;
    assert block == all + Fixed32s(points) + tail;
    if i < |filters| {
      FourBytesAt(all, Fixed32s(points), tail, i * 4);
    } else {
      FirstFour(all + Fixed32s(points), Fixed32(|all|), [FILTER_BASE_LG]);
      assert all + Fixed32s(points) + tail == all + Fixed32s(points) + Fixed32(|all|) + [FILTER_BASE_LG];
    }
  }

  lemma FirstFour(a: Bytes, word: Bytes, c: Bytes)
    requires |word| == 4
    ensures (a + word + c)[|a|..|a| + 4] == word
  {
  }

  lemma FiltersFirst(block: Bytes, filters: seq<Bytes>)
    requires EncodesFilters(block, filters)
    ensures Flatten(filters) <= block
  {
  }

  // The two words at the place of an offset are where the filter starts and ends.
  lemma FilterAt(block: Bytes, filters: seq<Bytes>, i: nat)
    requires EncodesFilters(block, filters) && i < |filters|
    ensures var at := |Flatten(filters)| + i * 4;
            && at + 8 <= |block|
            && var (from, limit) := (DecodeFixed32(block[at..at + 4]), DecodeFixed32(block[at + 4..at + 8]));
               from <= limit <= |Flatten(filters)| && block[from..limit] == filters[i]
  {
    hide Flatten, Fixed32s, EncodesFilters, Starts, DecodeFixed32;
    WordAt(block, filters, i);
    WordAt(block, filters, i + 1);
    PartOfFlatten(filters, i);
    FiltersFirst(block, filters);
    var all := Flatten(filters);
    var from: nat, limit: nat := |Flatten(filters[..i])|, |Flatten(filters[..i + 1])|;
    assert block[from..limit] == all[from..limit];
  }

  lemma FourBytesAt(a: Bytes, b: Bytes, c: Bytes, i: nat)
    requires i + 4 <= |b|
    ensures (a + b + c)[|a| + i..|a| + i + 4] == b[i..i + 4]
  {
  }
}
