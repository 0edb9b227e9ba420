/** Reading table files (table/table.cc, table/two_level_iterator.cc). */
module TableReader {
  import opened Wrappers
  import opened DbFormat
  import opened Coding
  import opened Comparator
  import opened Block
  import opened Filter
  import opened TableFormat
  import opened TableWriter
  import opened InternalIterator

  // `at` is the first position whose key is not below the target.
  ghost predicate LowerBound(kvs: seq<KeyValue>, target: Bytes, at: nat)
    requires Ascending(kvs) && IsInternal(target)
  {
    && at <= |kvs|
    && (forall j :: 0 <= j < at ==> KeyLess(kvs[j].key, target))
    && forall j :: at <= j < |kvs| ==> !KeyLess(kvs[j].key, target)
  }

  lemma LowerBoundByNeighbours(kvs: seq<KeyValue>, target: Bytes, at: nat)
    requires Ascending(kvs) && IsInternal(target) && at <= |kvs|
    requires at > 0 ==> KeyLess(kvs[at - 1].key, target)
    requires at < |kvs| ==> !KeyLess(kvs[at].key, target)
    ensures LowerBound(kvs, target, at)
  {
    hide KeyLess;
    forall j | 0 <= j < at
      ensures KeyLess(kvs[j].key, target)
    {
      KeyLessTransitive(kvs[j].key, kvs[at - 1].key, target);
    }
    forall j | at <= j < |kvs|
      ensures !KeyLess(kvs[j].key, target)
    {
      KeyLessTransitive(kvs[at].key, kvs[j].key, target);
    }
  }

  // ----- Entries by block

  // The position of the first entry of block i.
  function StartOf(blocks: seq<StoredBlock>, i: nat): nat
    requires i <= |blocks|
  {
    |AllKvs(blocks[..i])|
  }

  lemma {:induction false} AllKvsPrefix(blocks: seq<StoredBlock>, i: nat)
    requires i <= |blocks|
    ensures AllKvs(blocks[..i]) <= AllKvs(blocks)
  {
    if i == |blocks| {
      assert blocks[..i] == blocks;
    } else {
      var n := |blocks| - 1;
      assert blocks[..n][..i] == blocks[..i];
      AllKvsPrefix(blocks[..n], i);
    }
  }

  lemma BlockInAll(blocks: seq<StoredBlock>, i: nat)
    requires i < |blocks|
    ensures StartOf(blocks, i + 1) == StartOf(blocks, i) + |blocks[i].layout.kvs| <= |AllKvs(blocks)|
    ensures forall p :: 0 <= p < |blocks[i].layout.kvs| ==>
              AllKvs(blocks)[StartOf(blocks, i) + p] == blocks[i].layout.kvs[p]
  {
    assert blocks[..i + 1][..i] == blocks[..i];
    AllKvsPrefix(blocks, i + 1);
    assert AllKvs(blocks)[..StartOf(blocks, i + 1)] == AllKvs(blocks[..i]) + blocks[i].layout.kvs;
  }

  lemma AllStarts(blocks: seq<StoredBlock>)
    ensures StartOf(blocks, 0) == 0 && StartOf(blocks, |blocks|) == |AllKvs(blocks)|
  {
    assert blocks[..0] == [] && blocks[..|blocks|] == blocks;
  }

  // What readers know about the blocks and the index of a table.
  ghost predicate Organised(blocks: seq<StoredBlock>, index: seq<KeyValue>) {
    && Ascending(AllKvs(blocks)) && Indexed(blocks, index)
    && forall i :: 0 <= i < |blocks| ==> blocks[i].layout.kvs != []
  }

  lemma BlockAscends(blocks: seq<StoredBlock>, i: nat)
    requires i < |blocks| && Ascending(AllKvs(blocks))
    ensures Ascending(blocks[i].layout.kvs)
  {
    hide Ascending, KeyLess, AllKvs;
    BlockInAll(blocks, i);
    SliceAscends(AllKvs(blocks), blocks[i].layout.kvs, StartOf(blocks, i));
  }

  lemma SliceAscends(all: seq<KeyValue>, kvs: seq<KeyValue>, s: nat)
    requires Ascending(all) && s + |kvs| <= |all|
    requires forall p :: 0 <= p < |kvs| ==> all[s + p] == kvs[p]
    ensures Ascending(kvs)
  {
    hide KeyLess, IsInternal;
    forall p | 0 <= p < |kvs|
      ensures IsInternal(kvs[p].key)
    {
      assert all[s + p] == kvs[p];
    }
    forall p, q | 0 <= p < q < |kvs|
      ensures KeyLess(kvs[p].key, kvs[q].key)
    {
      assert all[s + p] == kvs[p] && all[s + q] == kvs[q];
    }
  }

  // Keys of block i do not exceed its index key, which is below those of the next block.
  lemma AroundIndexKey(blocks: seq<StoredBlock>, index: seq<KeyValue>, i: nat)
    requires Organised(blocks, index) && i < |blocks|
    ensures IsInternal(index[i].key) && IsInternal(Last(blocks[i].layout.kvs))
    ensures !KeyLess(index[i].key, Last(blocks[i].layout.kvs))
    ensures i + 1 < |blocks| ==>
              && IsInternal(blocks[i + 1].layout.kvs[0].key)
              && Separates(Last(blocks[i].layout.kvs), index[i].key, blocks[i + 1].layout.kvs[0].key)
              && KeyLess(index[i].key, blocks[i + 1].layout.kvs[0].key)
  {
    hide KeyLess, AllKvs, Separates, Ascending;
    assert IndexEntry(blocks, [], index, i);
    if i + 1 < |blocks| {
      SeparatorOrder(Last(blocks[i].layout.kvs), index[i].key, blocks[i + 1].layout.kvs[0].key);
    }
  }

  /** The index is in order, so it can be searched. */
  lemma IndexAscends(blocks: seq<StoredBlock>, index: seq<KeyValue>)
    requires Organised(blocks, index)
    ensures Ascending(index)
  {
    forall i | 0 <= i < |index|
      ensures IsInternal(index[i].key)
    {
      AroundIndexKey(blocks, index, i);
    }
    forall i, j | 0 <= i < j < |index|
      ensures KeyLess(index[i].key, index[j].key)
    {
      IndexKeysAscend(blocks, index, i, j);
    }
  }

  lemma {:induction false} IndexKeysAscend(blocks: seq<StoredBlock>, index: seq<KeyValue>, i: nat, j: nat)
    requires Organised(blocks, index) && i < j < |index|
    ensures IsInternal(index[i].key) && IsInternal(index[j].key) && KeyLess(index[i].key, index[j].key)
    decreases j
  {
    hide KeyLess, AllKvs, Separates, IndexEntry;
    AroundIndexKey(blocks, index, j - 1);
    AroundIndexKey(blocks, index, j);
    FirstBeforeLast(blocks, j);
    var first, last := blocks[j].layout.kvs[0].key, Last(blocks[j].layout.kvs);
    KeyLessTransitive(index[j - 1].key, first, last);
    KeyLessTransitive(index[j - 1].key, last, index[j].key);
    if i < j - 1 {
      IndexKeysAscend(blocks, index, i, j - 1);
      KeyLessTransitive(index[i].key, index[j - 1].key, index[j].key);
    }
  }

  lemma FirstBeforeLast(blocks: seq<StoredBlock>, i: nat)
    requires i < |blocks| && Ascending(AllKvs(blocks)) && blocks[i].layout.kvs != []
    ensures IsInternal(blocks[i].layout.kvs[0].key) && IsInternal(Last(blocks[i].layout.kvs))
    ensures !KeyLess(Last(blocks[i].layout.kvs), blocks[i].layout.kvs[0].key)
  {
    hide Ascending, KeyLess, AllKvs, IsInternal;
    BlockAscends(blocks, i);
    FirstLast(blocks[i].layout.kvs);
  }

  lemma FirstLast(kvs: seq<KeyValue>)
    requires Ascending(kvs) && kvs != []
    ensures IsInternal(kvs[0].key) && IsInternal(Last(kvs)) && !KeyLess(Last(kvs), kvs[0].key)
  {
    hide KeyLess, IsInternal;
    var last := kvs[|kvs| - 1].key;
    KeyLessTransitive(kvs[0].key, last, kvs[0].key);
    KeyLessTransitive(kvs[0].key, kvs[0].key, kvs[0].key);
  }

  // Searching the index and then one block finds the place in the whole table.
  lemma PlaceInTable(blocks: seq<StoredBlock>, index: seq<KeyValue>, target: Bytes, i: nat, p: nat)
    requires Organised(blocks, index) && Ascending(index) && IsInternal(target)
    requires LowerBound(index, target, i) && i < |blocks|
    requires Ascending(blocks[i].layout.kvs) && LowerBound(blocks[i].layout.kvs, target, p)
    ensures LowerBound(AllKvs(blocks), target, StartOf(blocks, i) + p)
    ensures p == |blocks[i].layout.kvs| && i + 1 < |blocks| ==>
              var next := blocks[i + 1].layout.kvs[0].key;
              IsInternal(next) && ExtractUserKey(next) != ExtractUserKey(target)
  {
    hide KeyLess, AllKvs, Separates, IndexEntry;
    var all, kvs := AllKvs(blocks), blocks[i].layout.kvs;
    var at: nat := StartOf(blocks, i) + p;
    BlockInAll(blocks, i);
    if p < |kvs| {
      assert all[StartOf(blocks, i) + p] == kvs[p];
    }
    if p > 0 {
      assert all[StartOf(blocks, i) + (p - 1)] == kvs[p - 1];
    }
    if p == 0 && i > 0 {
      BlockInAll(blocks, i - 1);
      AroundIndexKey(blocks, index, i - 1);
      var before := blocks[i - 1].layout.kvs;
      var last := Last(before);
      assert all[StartOf(blocks, i - 1) + (|before| - 1)] == before[|before| - 1];
      KeyLessTransitive(last, index[i - 1].key, target);
    }
    if p == |kvs| && i + 1 < |blocks| {
      BlockInAll(blocks, i + 1);
      AroundIndexKey(blocks, index, i);
      var next := blocks[i + 1].layout.kvs[0].key;
      assert all[StartOf(blocks, i + 1) + 0] == blocks[i + 1].layout.kvs[0];
      assert kvs[p - 1].key == Last(kvs);
      PastSeparator(Last(kvs), index[i].key, next, target);
    }
    AllStarts(blocks);
    LowerBoundByNeighbours(all, target, at);
  }

  // A target between the last key of a block and its separator is below the next block, and of another user key.
  lemma PastSeparator(last: Bytes, sep: Bytes, next: Bytes, target: Bytes)
    requires IsInternal(last) && IsInternal(next) && IsInternal(target) && Separates(last, sep, next)
    requires KeyLess(last, target) && !KeyLess(sep, target)
    ensures !KeyLess(next, target) && ExtractUserKey(next) != ExtractUserKey(target)
  {
    var (s, n, u) := (ExtractUserKey(sep), ExtractUserKey(next), ExtractUserKey(target));
    BytesLessTotal(s, u);
    if BytesLess(u, s) {
      BytesLessTransitive(u, s, n);
    }
    BytesLessTotal(u, n);
  }

  lemma PastTheEnd(blocks: seq<StoredBlock>, index: seq<KeyValue>, target: Bytes)
    requires Organised(blocks, index) && Ascending(index) && IsInternal(target)
    requires LowerBound(index, target, |blocks|)
    ensures LowerBound(AllKvs(blocks), target, |AllKvs(blocks)|)
  {
    hide KeyLess, AllKvs, Separates, IndexEntry;
    AllStarts(blocks);
    var n := |blocks|;
    if n > 0 {
      BlockInAll(blocks, n - 1);
      AroundIndexKey(blocks, index, n - 1);
      var kvs := blocks[n - 1].layout.kvs;
      assert AllKvs(blocks)[StartOf(blocks, n - 1) + (|kvs| - 1)] == kvs[|kvs| - 1];
      KeyLessTransitive(Last(blocks[n - 1].layout.kvs), index[n - 1].key, target);
    }
    LowerBoundByNeighbours(AllKvs(blocks), target, |AllKvs(blocks)|);
  }

  // ----- Opening a table

  // InternalFilterPolicy: the user policy on the user part of internal keys.
  function InternalPolicy(p: Policy): Policy {
    p.(hash := (k: Bytes) => UserHash(p, k))
  }

  function UserHash(p: Policy, k: Bytes): nat {
    if IsInternal(k) then p.hash(ExtractUserKey(k)) else p.hash(k)
  }

  predicate SameUser(a: Bytes, b: Bytes) {
    IsInternal(a) && IsInternal(b) && ExtractUserKey(a) == ExtractUserKey(b)
  }

  lemma SameUserSameAnswer(p: Policy, a: Bytes, b: Bytes, filter: Bytes)
    requires SameUser(a, b)
    ensures Matches(InternalPolicy(p), a, filter) == Matches(InternalPolicy(p), b, filter)
  {
  }

  class Table {
    const file: Bytes
    const verify: bool
    const indexContents: Bytes
    const filter: FilterBlockReader?
    ghost const t: TableLayout
    ghost const policy: Option<Policy>
    ghost const filterKey: Bytes

    ghost function Entries(): seq<KeyValue> {
      AllKvs(t.blocks)
    }

    ghost predicate Ok() {
      && IsTable(file, if policy.None? then None else Some(InternalPolicy(policy.value)), filterKey, t, Entries())
      && indexContents == t.index.raw
      && (filter != null ==>
            && policy.Some? && filter.policy == InternalPolicy(policy.value)
            && filter.Ok() && filter.data == t.filter.value.raw
            && filter.num == |t.filter.value.filters| && filter.offset == |Flatten(t.filter.value.filters)|
            && filter.baseLg == 11)
    }

    /** Table::Open and ReadMeta on a file that is a table. */
    constructor Open(file: Bytes, policy: Option<Policy>, filterKey: Bytes, verify: bool, ghost t: TableLayout)
      requires IsTable(file, if policy.None? then None else Some(InternalPolicy(policy.value)), filterKey, t,
                       AllKvs(t.blocks))
      requires IsInternal(filterKey)
      ensures Ok() && this.t == t && this.policy == policy && (filter != null <==> policy.Some?)
    {
      hide Encodes, AllKvs, InFile, Ascending, Indexed, FilterStored, DataBlocksOk, EncodeFooter, DecodeFooter;
      var footer := DecodeFooter(file[|file| - FOOTER_LENGTH..]);
      FooterOfTable(file, if policy.None? then None else Some(InternalPolicy(policy.value)), filterKey, t);
      // On a table neither the footer nor a block read fails, so the source's error returns are not taken.
      assert footer.Some?;
      var index := ReadBlock(file, footer.value.index, verify);
      ReadStored(file, t.index.Handle(), t.index.raw, verify);
      var reader: FilterBlockReader? := null;
      if policy.Some? {
        reader := ReadMeta(file, InternalPolicy(policy.value), filterKey, verify, footer.value.metaindex, t);
      }
      this.file, this.verify, indexContents, filter := file, verify, index.value, reader;
      this.t, this.policy, this.filterKey := t, policy, filterKey;
    }

    // Finds the filters through the metaindex block, which has no other entry, so that it does not matter which
    // comparator seeks it.
    static method ReadMeta(file: Bytes, policy: Policy, filterKey: Bytes, verify: bool, h: BlockHandle,
                           ghost t: TableLayout) returns (reader: FilterBlockReader)
      requires IsTable(file, Some(policy), filterKey, t, AllKvs(t.blocks)) && IsInternal(filterKey)
      requires h == t.metaindex.Handle()
      ensures fresh(reader) && reader.Ok() && reader.policy == policy && reader.data == t.filter.value.raw
      ensures reader.num == |t.filter.value.filters| && reader.offset == |Flatten(t.filter.value.filters)|
      ensures reader.baseLg == 11
    {
      hide Encodes, AllKvs, InFile, Indexed, DataBlocksOk, EncodeFooter, DecodeFooter, KeyLess, EncodesFilters;
      hide DecodeHandle, Flatten;
      ReadStored(file, h, t.metaindex.raw, verify);
      var contents := ReadBlock(file, h, verify);
      var iter := new BlockIter(contents.value, t.metaindex.layout);
      KeyLessTransitive(filterKey, filterKey, filterKey);
      iter.Seek(filterKey);
      iter.ValidMeansAt();
      assert iter.Valid() && iter.key == filterKey;
      var value := iter.data[iter.valueStart..iter.valueStart + iter.valueLength];
      var filterHandle := DecodeHandle(value);
      HandleFits(file, t.filter.value.Handle(), t.filter.value.raw);
      HandleRoundTrip(t.filter.value.Handle(), []);
      assert value + [] == value;
      ReadStored(file, t.filter.value.Handle(), t.filter.value.raw, verify);
      var block := ReadBlock(file, filterHandle.value.value, verify);
      reader := new FilterBlockReader(policy, block.value);
    }

    // Index entry i holds the handle of block i, which no other entry holds.
    lemma EntryLeads(i: nat, j: nat)
      requires Ok() && i < |t.blocks|
      ensures i < |t.index.layout.kvs| && t.index.layout.kvs[i].value == t.blocks[i].Handle().Encode()
      ensures j < |t.blocks| && t.blocks[i].Handle().Encode() == t.blocks[j].Handle().Encode() ==> i == j
    {
      hide IsTable, Encodes, AllKvs, BlockHandle.Encode, DecodeHandle, ReadBlock;
      ghost var wrapped := if policy.None? then None else Some(InternalPolicy(policy.value));
      BlockOfEntry(file, wrapped, filterKey, t, i, verify);
      if j < |t.blocks| && t.blocks[i].Handle().Encode() == t.blocks[j].Handle().Encode() {
        HandlesDiffer(file, wrapped, filterKey, t, i, j);
      }
    }

    /** An iterator over the block that index entry i leads to. */
    method BlockReader(indexValue: Bytes, ghost i: nat) returns (iter: BlockIter)
      requires Ok() && i < |t.blocks| && indexValue == t.index.layout.kvs[i].value
      ensures fresh(iter) && iter.Ok() && iter.layout == t.blocks[i].layout && iter.at == |iter.layout.kvs|
      ensures Ascending(iter.layout.kvs)
    {
      hide IsTable, Encodes, AllKvs, Ascending, ReadBlock, DecodeHandle, Organised;
      ghost var wrapped := if policy.None? then None else Some(InternalPolicy(policy.value));
      BlockOfEntry(file, wrapped, filterKey, t, i, verify);
      TableBlockAscends(file, wrapped, filterKey, t, i);
      var handle := DecodeHandle(indexValue);
      var contents := ReadBlock(file, handle.value.value, verify);
      iter := new BlockIter(contents.value, t.blocks[i].layout);
    }

    /** Reads the one block the index leads to, unless the filter rules it out.  If an entry of the sought user key
        is at or behind the sought key, the first such entry is found; and nothing else than the first entry at or
        behind the sought key ever is. */
    method InternalGet(k: Bytes) returns (found: Option<KeyValue>)
      requires Ok() && IsInternal(k)
      ensures Ascending(Entries()) && Answers(Entries(), k, found)
    {
      hide IsTable, Encodes, AllKvs, Ascending, Organised, LowerBound, KeyLess, DecodeHandle, Matches, EncodesFilters;
      hide Answers;
      ghost var wrapped := if policy.None? then None else Some(InternalPolicy(policy.value));
      TableOrganised(file, wrapped, filterKey, t);
      var iiter := new BlockIter(indexContents, t.index.layout);
      iiter.Seek(k);
      SoughtIsLowerBound(t.index.layout.kvs, k, iiter.at);
      iiter.ValidMeansAt();
      found := None;
      if !iiter.Valid() {
        NothingFound(t.blocks, t.index.layout.kvs, k);
        return;
      }
      ghost var i := iiter.at;
      var handleValue := iiter.data[iiter.valueStart..iiter.valueStart + iiter.valueLength];
      var may := AskFilter(handleValue, k, i);
      if may {
        var blockIter := BlockReader(handleValue, i);
        blockIter.Seek(k);
        SoughtIsLowerBound(t.blocks[i].layout.kvs, k, blockIter.at);
        blockIter.ValidMeansAt();
        if blockIter.Valid() {
          found := Some(KeyValue(blockIter.key,
                                 blockIter.data[blockIter.valueStart..blockIter.valueStart + blockIter.valueLength]));
        }
        Found(t.blocks, t.index.layout.kvs, k, i, blockIter.at, found);
      } else {
        TableBlockAscends(file, wrapped, filterKey, t, i);
        RuledOut(t.blocks, t.index.layout.kvs, k, i);
      }
    }

    // Without a filter every block may have the key.
    method AskFilter(handleValue: Bytes, k: Bytes, ghost i: nat) returns (may: bool)
      requires Ok() && IsInternal(k) && i < |t.blocks|
      requires i < |t.index.layout.kvs| && handleValue == t.index.layout.kvs[i].value
      ensures !may ==> forall kv :: kv in t.blocks[i].layout.kvs ==> !SameUser(kv.key, k)
    {
      hide Encodes, AllKvs, Ascending, DecodeHandle, Matches, EncodesFilters, InFile, Indexed, DataBlocksOk;
      hide EncodeFooter, Flatten, Covered, BlocksCovered, InternalPolicy;
      may := true;
      if filter != null {
        ghost var wrapped := Some(InternalPolicy(policy.value));
        BlockOfEntry(file, wrapped, filterKey, t, i, verify);
        var handle := DecodeHandle(handleValue);
        may := filter.KeyMayMatch(handle.value.value.offset, k, t.filter.value.filters);
        forall kv | kv in t.blocks[i].layout.kvs && SameUser(kv.key, k)
          ensures may
        {
          FilterAdmits(file, policy.value, t.filter.value, t.blocks, i, kv, k);
        }
      }
    }
  }

  // The answer to a search for k: the first entry at or behind k, or nothing unless that entry is of k's user.
  ghost predicate Answers(entries: seq<KeyValue>, k: Bytes, found: Option<KeyValue>)
    requires Ascending(entries) && IsInternal(k)
  {
    exists at: nat :: LowerBound(entries, k, at)
      && (found.Some? ==> at < |entries| && found.value == entries[at])
      && (at < |entries| && SameUser(entries[at].key, k) ==> found == Some(entries[at]))
  }

  lemma SoughtIsLowerBound(kvs: seq<KeyValue>, k: Bytes, at: nat)
    requires Ascending(kvs) && IsInternal(k) && at <= |kvs|
    requires forall j :: 0 <= j < at ==> KeyLess(kvs[j].key, k)
    requires forall j :: at <= j < |kvs| ==> !KeyLess(kvs[j].key, k)
    ensures LowerBound(kvs, k, at)
  {
    hide Ascending, KeyLess;
  }

  lemma LowerBoundExists(kvs: seq<KeyValue>, k: Bytes) returns (at: nat)
    requires Ascending(kvs) && IsInternal(k)
    ensures LowerBound(kvs, k, at)
  {
    hide KeyLess;
    at := 0;
    while at < |kvs| && KeyLess(kvs[at].key, k)
      invariant at <= |kvs| && (at > 0 ==> KeyLess(kvs[at - 1].key, k))
    {
      at := at + 1;
    }
    LowerBoundByNeighbours(kvs, k, at);
  }

  lemma NothingFound(blocks: seq<StoredBlock>, index: seq<KeyValue>, k: Bytes)
    requires Organised(blocks, index) && Ascending(index) && IsInternal(k) && LowerBound(index, k, |index|)
    ensures Answers(AllKvs(blocks), k, None)
  {
    hide LowerBound, KeyLess, AllKvs, Ascending, IndexEntry;
    PastTheEnd(blocks, index, k);
  }

  lemma Found(blocks: seq<StoredBlock>, index: seq<KeyValue>, k: Bytes, i: nat, p: nat, found: Option<KeyValue>)
    requires Organised(blocks, index) && Ascending(index) && IsInternal(k)
    requires LowerBound(index, k, i) && i < |blocks|
    requires Ascending(blocks[i].layout.kvs) && LowerBound(blocks[i].layout.kvs, k, p) && p <= |blocks[i].layout.kvs|
    requires var kvs := blocks[i].layout.kvs;
             || found == (if p < |kvs| then Some(kvs[p]) else None)
             || (found == None && (p < |kvs| ==> !SameUser(kvs[p].key, k)))
    ensures Answers(AllKvs(blocks), k, found)
  {
    hide LowerBound, KeyLess, AllKvs, Ascending, IndexEntry;
    PlaceInTable(blocks, index, k, i, p);
    BlockInAll(blocks, i);
    var kvs := blocks[i].layout.kvs;
    var at: nat := StartOf(blocks, i) + p;
    if p < |kvs| {
      assert AllKvs(blocks)[StartOf(blocks, i) + p] == kvs[p];
    } else if i + 1 < |blocks| {
      BlockInAll(blocks, i + 1);
      assert AllKvs(blocks)[StartOf(blocks, i + 1) + 0] == blocks[i + 1].layout.kvs[0];
    } else {
      AllStarts(blocks);
    }
  }

  lemma RuledOut(blocks: seq<StoredBlock>, index: seq<KeyValue>, k: Bytes, i: nat)
    requires Organised(blocks, index) && Ascending(index) && IsInternal(k)
    requires LowerBound(index, k, i) && i < |blocks|
    requires Ascending(blocks[i].layout.kvs) && forall kv :: kv in blocks[i].layout.kvs ==> !SameUser(kv.key, k)
    ensures Answers(AllKvs(blocks), k, None)
  {
    hide KeyLess, AllKvs, Ascending, IndexEntry, SameUser;
    var p := LowerBoundExists(blocks[i].layout.kvs, k);
    Found(blocks, index, k, i, p, None);
  }

  // Block i is covered by a filter that matches its keys, and so every key of the same user.
  lemma FilterAdmits(file: Bytes, p: Policy, f: FilterPart, blocks: seq<StoredBlock>, i: nat, kv: KeyValue, k: Bytes)
    requires FilterStored(file, InternalPolicy(p), f, blocks) && i < |blocks|
    requires kv in blocks[i].layout.kvs && SameUser(kv.key, k)
    ensures var n := blocks[i].offset / FILTER_BASE;
            n < |f.filters| && Matches(InternalPolicy(p), k, f.filters[n])
  {
    hide InFile, EncodesFilters, Matches, InternalPolicy;
    assert KeyCovered(f.covers, [], blocks[i].offset, kv.key);
    SameUserSameAnswer(p, kv.key, k, f.filters[blocks[i].offset / FILTER_BASE]);
  }

  lemma TableOrganised(file: Bytes, policy: Option<Policy>, filterKey: Bytes, t: TableLayout)
    requires IsTable(file, policy, filterKey, t, AllKvs(t.blocks))
    ensures Organised(t.blocks, t.index.layout.kvs) && Ascending(t.index.layout.kvs)
    ensures Encodes(t.index.raw, t.index.layout)
    ensures Ascending(AllKvs(t.blocks)) && |t.index.layout.kvs| == |t.blocks|
  {
    hide Encodes, InFile, AllKvs, Ascending, IndexEntry, FilterStored, EncodeFooter;
    IndexAscends(t.blocks, t.index.layout.kvs);
  }

  lemma TableBlockAscends(file: Bytes, policy: Option<Policy>, filterKey: Bytes, t: TableLayout, i: nat)
    requires IsTable(file, policy, filterKey, t, AllKvs(t.blocks)) && i < |t.blocks|
    ensures Ascending(t.blocks[i].layout.kvs)
  {
    hide Encodes, InFile, AllKvs, Ascending, FilterStored, EncodeFooter, IndexEntry;
    BlockAscends(t.blocks, i);
  }

  // The handle in index entry i leads to block i.
  lemma BlockOfEntry(file: Bytes, policy: Option<Policy>, filterKey: Bytes, t: TableLayout, i: nat, verify: bool)
    requires IsTable(file, policy, filterKey, t, AllKvs(t.blocks)) && i < |t.blocks|
    ensures i < |t.index.layout.kvs| && t.index.layout.kvs[i].value == t.blocks[i].Handle().Encode()
    ensures DecodeHandle(t.blocks[i].Handle().Encode()) == Some(Parsed(t.blocks[i].Handle(), []))
    ensures ReadBlock(file, t.blocks[i].Handle(), verify) == Some(t.blocks[i].raw)
    ensures Encodes(t.blocks[i].raw, t.blocks[i].layout)
  {
    hide Encodes, InFile, AllKvs, Ascending, FilterStored, EncodeFooter, KeyLess, Separates, DecodeHandle, ReadBlock;
    var h := t.blocks[i].Handle();
    assert IndexEntry(t.blocks, [], t.index.layout.kvs, i);
    assert t.blocks[i].Ok(file);
    HandleFits(file, h, t.blocks[i].raw);
    HandleRoundTrip(h, []);
    assert h.Encode() + [] == h.Encode();
    ReadStored(file, h, t.blocks[i].raw, verify);
  }

  lemma HandleFits(file: Bytes, h: BlockHandle, raw: Bytes)
    requires InFile(file, h, raw) && |file| < TWO64
    ensures h.Fits()
  {
  }

  lemma FooterOfTable(file: Bytes, policy: Option<Policy>, filterKey: Bytes, t: TableLayout)
    requires IsTable(file, policy, filterKey, t, AllKvs(t.blocks))
    ensures |file| >= FOOTER_LENGTH
    ensures DecodeFooter(file[|file| - FOOTER_LENGTH..]) == Some(Footer(t.metaindex.Handle(), t.index.Handle()))
  {
    hide Encodes, AllKvs, Ascending, Indexed, FilterStored, DataBlocksOk, EncodeFooter, DecodeFooter, Trailer;
    HandleFits(file, t.metaindex.Handle(), t.metaindex.raw);
    HandleFits(file, t.index.Handle(), t.index.raw);
    FooterRoundTrip(Footer(t.metaindex.Handle(), t.index.Handle()));
  }

  // ----- The entries as other modules see them

  function ToEntry(kv: KeyValue): Entry
    requires IsInternal(kv.key)
  {
    Entry(Decoded(kv.key), kv.value)
  }

  function ToRun(kvs: seq<KeyValue>): seq<Entry>
    requires forall i :: 0 <= i < |kvs| ==> IsInternal(kvs[i].key)
  {
    seq(|kvs|, i requires 0 <= i < |kvs| => ToEntry(kvs[i]))
  }

  lemma RunIsSorted(kvs: seq<KeyValue>)
    requires Ascending(kvs)
    ensures Sorted(ToRun(kvs))
  {
    hide KeyLess, Decoded;
    forall i, j | 0 <= i < j < |kvs|
      ensures Less(Decoded(kvs[i].key), Decoded(kvs[j].key))
    {
      KeyLessIsLess(kvs[i].key, kvs[j].key);
    }
  }

  /** Seeking in a table leads where it leads a Cursor over the table's run. */
  lemma TableSeekIsCursorSeek(kvs: seq<KeyValue>, target: Bytes, at: nat)
    requires Ascending(kvs) && IsInternal(target) && LowerBound(kvs, target, at)
    ensures Sorted(ToRun(kvs)) && IsLowerBound(ToRun(kvs), Decoded(target), at)
  {
    hide KeyLess, Decoded;
    RunIsSorted(kvs);
    forall j | 0 <= j < |kvs|
      ensures Less(ToRun(kvs)[j].key, Decoded(target)) <==> KeyLess(kvs[j].key, target)
    {
      KeyLessIsLess(kvs[j].key, target);
    }
  }

  /** What a table lookup finds is the newest entry of the user key that a read at the snapshot may see. */
  lemma TableGetIsNewest(kvs: seq<KeyValue>, user: Bytes, snapshot: nat, found: Option<KeyValue>)
    requires Ascending(kvs) && snapshot <= MAX_SEQUENCE && AllParse(ToRun(kvs))
    requires Answers(kvs, AppendInternalKey(user, snapshot, TYPE_FOR_SEEK), found)
    ensures found.Some? ==> IsInternal(found.value.key)
    ensures Newest(ToRun(kvs), Rank(user), snapshot)
         == if found.Some? && ExtractUserKey(found.value.key) == user then Some(ToEntry(found.value)) else None
  {
    hide KeyLess, Newest, AllParse;
    var k := AppendInternalKey(user, snapshot, TYPE_FOR_SEEK);
    InternalKeyRoundTrip(user, snapshot, TYPE_FOR_SEEK);
    var at: nat :| LowerBound(kvs, k, at)
      && (found.Some? ==> at < |kvs| && found.value == kvs[at])
      && (at < |kvs| && SameUser(kvs[at].key, k) ==> found == Some(kvs[at]));
    var run := ToRun(kvs);
    RunIsSorted(kvs);
    LookupKeyDecodes(user, snapshot);
    forall j | 0 <= j < |kvs|
      ensures Less(run[j].key, LookupKey(Rank(user), snapshot)) <==> KeyLess(kvs[j].key, k)
    {
      KeyLessIsLess(kvs[j].key, k);
    }
    SeekFindsNewest(run, Rank(user), snapshot, at);
    if at < |kvs| {
      RankOrder(ExtractUserKey(kvs[at].key), user);
    }
  }

  lemma LookupKeyDecodes(user: Bytes, snapshot: nat)
    requires snapshot <= MAX_SEQUENCE
    ensures Decoded(AppendInternalKey(user, snapshot, TYPE_FOR_SEEK)) == LookupKey(Rank(user), snapshot)
  {
    InternalKeyRoundTrip(user, snapshot, TYPE_FOR_SEEK);
  }

  // ----- Iterating over a table

  // Different index entries have different values, so the value tells which block a data iterator is over.
  lemma HandlesDiffer(file: Bytes, policy: Option<Policy>, filterKey: Bytes, t: TableLayout, i: nat, j: nat)
    requires IsTable(file, policy, filterKey, t, AllKvs(t.blocks)) && i < |t.blocks| && j < |t.blocks|
    requires t.blocks[i].Handle().Encode() == t.blocks[j].Handle().Encode()
    ensures i == j
  {
    hide Encodes, InFile, AllKvs, Ascending, FilterStored, EncodeFooter, Indexed, DecodeHandle;
    BlockOfEntry(file, policy, filterKey, t, i, false);
    BlockOfEntry(file, policy, filterKey, t, j, false);
    assert t.blocks[i].offset == t.blocks[j].offset;
  }

  class TwoLevelIterator {
    const table: Table
    const indexIter: BlockIter
    var dataIter: BlockIter?
    var dataBlockHandle: Bytes

    ghost predicate IndexOk()
      reads this, indexIter
    {
      table.Ok() && indexIter.Ok() && indexIter.layout == table.t.index.layout && Ascending(indexIter.layout.kvs)
      && |indexIter.layout.kvs| == |table.t.blocks|
    }

    // The data iterator, if there is one, is over some block, whose handle is kept.
    ghost predicate DataOk(i: nat)
      reads this, dataIter
    {
      dataIter != null ==>
        && dataIter != indexIter && dataIter.Ok() && i < |table.t.blocks|
        && dataIter.layout == table.t.blocks[i].layout && Ascending(dataIter.layout.kvs)
        && dataBlockHandle == table.t.blocks[i].Handle().Encode()
    }

    ghost predicate Ok()
      reads this, indexIter, dataIter
    {
      IndexOk() && DataOk(indexIter.at) && (dataIter != null ==> dataIter.at < |dataIter.layout.kvs|)
    }

    predicate Valid()
      reads this, dataIter
    {
      dataIter != null && dataIter.Valid()
    }

    // The entry of the table the iterator is at.
    ghost function At(): nat
      reads this, indexIter, dataIter
    {
      if dataIter == null || indexIter.at > |table.t.blocks| then |table.Entries()|
      else StartOf(table.t.blocks, indexIter.at) + dataIter.at
    }

    /** The iterator is valid exactly at the entries of the table, and shows the key and the value of its entry. */
    lemma ValidMeansAt()
      requires Ok()
      ensures Valid() <==> At() < |table.Entries()|
      ensures Valid() ==>
                && dataIter.key == table.Entries()[At()].key
                && dataIter.valueStart + dataIter.valueLength <= |dataIter.data|
                && dataIter.data[dataIter.valueStart..dataIter.valueStart + dataIter.valueLength] == table.Entries()[At()].value
    {
      hide IsTable, Encodes, Organised, AllKvs, Ascending, BlockIter.Ok, BlockIter.Valid, Table.Ok, StartOf;
      if dataIter != null {
        dataIter.ValidMeansAt();
        BlockInAll(table.t.blocks, indexIter.at);
      }
    }

    constructor (table: Table)
      requires table.Ok()
      ensures Ok() && this.table == table && dataIter == null && fresh(indexIter)
    {
      hide IsTable, Encodes, Organised, AllKvs, Ascending;
      TableOrganised(table.file, if table.policy.None? then None else Some(InternalPolicy(table.policy.value)),
                     table.filterKey, table.t);
      this.table := table;
      indexIter := new BlockIter(table.indexContents, table.t.index.layout);
      dataIter, dataBlockHandle := null, [];
    }

    /** Makes the data iterator one over the block that the index is at, keeping it if it already is. */
    method InitDataBlock(ghost was: nat)
      requires IndexOk() && DataOk(was)
      modifies `dataIter, `dataBlockHandle
      ensures IndexOk() && DataOk(indexIter.at) && (dataIter != null <==> indexIter.at < |table.t.blocks|)
      ensures dataIter != null && dataIter != old(dataIter) ==> fresh(dataIter) && dataIter.at == |dataIter.layout.kvs|
    {
      hide IsTable, Encodes, Organised, AllKvs, Ascending, BlockIter.Ok, BlockIter.Valid, Table.Ok, BlockHandle.Encode;
      indexIter.ValidMeansAt();
      if !indexIter.Valid() {
        dataIter := null;
      } else {
        ghost var i := indexIter.at;
        table.EntryLeads(i, was);
        var handle := indexIter.data[indexIter.valueStart..indexIter.valueStart + indexIter.valueLength];
        if dataIter != null && handle == dataBlockHandle {
          // The data iterator is over this very block already.
          assert i == was;
        } else {
          var iter := table.BlockReader(handle, i);
          dataIter := iter;
          dataBlockHandle := handle;
        }
      }
    }

    // Both iterators are where they should be, though the data iterator may have run off its block.
    ghost predicate Moving()
      reads this, indexIter, dataIter
    {
      IndexOk() && DataOk(indexIter.at) && (dataIter != null <==> indexIter.at < |table.t.blocks|)
    }

    /** Goes on to the next block that has entries, if the data iterator has run off the end of its block. */
    method SkipEmptyDataBlocksForward()
      requires Moving()
      modifies this, indexIter, dataIter
      ensures Ok() && At() == old(At()) && Moving()
    {
      hide IsTable, Encodes, Organised, AllKvs, Ascending, BlockIter.Ok, BlockIter.Valid, Table.Ok;
      while !(dataIter != null && dataIter.Valid())
        invariant Moving() && At() == old(At()) && (dataIter == old(dataIter) || dataIter == null || fresh(dataIter))
        decreases |table.t.blocks| - indexIter.at, dataIter != null
      {
        DataValid();
        indexIter.ValidMeansAt();
        if !indexIter.Valid() {
          dataIter := null;
          return;
        }
        BlockEnds(indexIter.at);
        NextBlock();
      }
      DataValid();
    }

    method NextBlock()
      requires Moving() && indexIter.at < |table.t.blocks|
      modifies this, indexIter, dataIter
      ensures Moving() && indexIter.at == old(indexIter.at) + 1 && (dataIter != null ==> dataIter.at == 0)
      ensures dataIter == old(dataIter) || dataIter == null || fresh(dataIter)
    {
      hide IsTable, Encodes, Organised, AllKvs, Ascending, BlockIter.Ok, BlockIter.Valid, Table.Ok;
      ghost var was := indexIter.at;
      indexIter.ValidMeansAt();
      indexIter.Next();
      InitDataBlock(was);
      if dataIter != null {
        dataIter.SeekToFirst();
      }
    }

    lemma DataValid()
      requires Moving()
      ensures Valid() <==> dataIter != null && dataIter.at < |dataIter.layout.kvs|
      ensures Valid() ==> Ok()
      ensures dataIter != null ==> dataIter.at <= |dataIter.layout.kvs|
    {
      hide IsTable, Encodes, Organised, AllKvs, Ascending;
      if dataIter != null {
        dataIter.ValidMeansAt();
      }
    }

    lemma BlockEnds(i: nat)
      requires table.Ok() && i < |table.t.blocks|
      ensures StartOf(table.t.blocks, i + 1) == StartOf(table.t.blocks, i) + |table.t.blocks[i].layout.kvs|
      ensures i + 1 == |table.t.blocks| ==> StartOf(table.t.blocks, i + 1) == |table.Entries()|
      ensures table.t.blocks[i].layout.kvs != []
    {
      hide Encodes, AllKvs, Ascending, InFile, Indexed, FilterStored;
      BlockInAll(table.t.blocks, i);
      AllStarts(table.t.blocks);
    }

    /** Goes back to the last entry of the block before, if the data iterator has run off the start of its block. */
    method SkipEmptyDataBlocksBackward()
      requires Moving()
      modifies this, indexIter, dataIter
      ensures Ok() && Moving()
      ensures At() == if old(Valid()) then old(At())
                      else if old(indexIter.at) == 0 || old(dataIter) == null then |table.Entries()|
                      else StartOf(table.t.blocks, old(indexIter.at)) - 1
    {
      hide IsTable, Encodes, Organised, AllKvs, Ascending, BlockIter.Ok, BlockIter.Valid, Table.Ok;
      DataValid();
      while !(dataIter != null && dataIter.Valid())
        invariant Moving() && (dataIter == old(dataIter) || dataIter == null || fresh(dataIter))
        invariant old(Valid()) ==> Valid() && At() == old(At())
        invariant dataIter != null ==> dataIter.at <= |dataIter.layout.kvs|
        invariant Valid() <==> dataIter != null && dataIter.at < |dataIter.layout.kvs|
        invariant !Valid() ==> dataIter == null || indexIter.at == old(indexIter.at)
        invariant !Valid() && dataIter == null ==> old(indexIter.at) == 0 || old(dataIter) == null
        invariant Valid() && !old(Valid()) ==>
                    0 < old(indexIter.at) && old(dataIter) != null && At() == StartOf(table.t.blocks, old(indexIter.at)) - 1
        decreases dataIter != null, indexIter.at
      {
        indexIter.ValidMeansAt();
        if !indexIter.Valid() {
          dataIter := null;
          return;
        }
        ghost var i := indexIter.at;
        if i > 0 {
          BlockEnds(i - 1);
        }
        PreviousBlock();
        DataValid();
      }
    }

    method PreviousBlock()
      requires Moving() && indexIter.at < |table.t.blocks|
      modifies this, indexIter, dataIter
      ensures Moving()
      ensures if old(indexIter.at) == 0 then dataIter == null
              else dataIter != null && indexIter.at == old(indexIter.at) - 1
                   && dataIter.at == |dataIter.layout.kvs| - 1 && |dataIter.layout.kvs| > 0
      ensures dataIter == old(dataIter) || dataIter == null || fresh(dataIter)
    {
      hide IsTable, Encodes, Organised, AllKvs, Ascending, BlockIter.Ok, BlockIter.Valid, Table.Ok;
      ghost var was := indexIter.at;
      indexIter.ValidMeansAt();
      indexIter.Prev();
      InitDataBlock(was);
      if dataIter != null {
        BlockEnds(indexIter.at);
        dataIter.SeekToLast();
      }
    }

    method SeekToFirst()
      requires Ok()
      modifies this, indexIter, dataIter
      ensures Ok() && At() == 0
    {
      hide IsTable, Encodes, Organised, AllKvs, Ascending, BlockIter.Ok, BlockIter.Valid, Table.Ok;
      ghost var was := indexIter.at;
      indexIter.SeekToFirst();
      InitDataBlock(was);
      if dataIter != null {
        dataIter.SeekToFirst();
      }
      NoBlocks();
      SkipEmptyDataBlocksForward();
    }

    method SeekToLast()
      requires Ok()
      modifies this, indexIter, dataIter
      ensures Ok() && At() == if table.Entries() == [] then 0 else |table.Entries()| - 1
    {
      hide IsTable, Encodes, Organised, AllKvs, Ascending, BlockIter.Ok, BlockIter.Valid, Table.Ok;
      ghost var was := indexIter.at;
      indexIter.SeekToLast();
      InitDataBlock(was);
      if dataIter != null {
        BlockEnds(indexIter.at);
        dataIter.SeekToLast();
      }
      NoBlocks();
      DataValid();
      SkipEmptyDataBlocksBackward();
    }

    lemma NoBlocks()
      requires table.Ok()
      ensures StartOf(table.t.blocks, 0) == 0
      ensures StartOf(table.t.blocks, |table.t.blocks|) == |table.Entries()|
    {
      hide IsTable, AllKvs;
      AllStarts(table.t.blocks);
    }

    /** Finds the first entry of the table that is not below the target. */
    method Seek(target: Bytes)
      requires Ok() && IsInternal(target)
      modifies this, indexIter, dataIter
      ensures Ok() && Ascending(table.Entries()) && LowerBound(table.Entries(), target, At())
    {
      hide IsTable, Encodes, Organised, AllKvs, Ascending, BlockIter.Ok, BlockIter.Valid, Table.Ok, KeyLess, LowerBound;
      ghost var was := indexIter.at;
      indexIter.Seek(target);
      SoughtIsLowerBound(indexIter.layout.kvs, target, indexIter.at);
      InitDataBlock(was);
      if dataIter != null {
        dataIter.Seek(target);
        SoughtIsLowerBound(dataIter.layout.kvs, target, dataIter.at);
      }
      SoughtInTable(target);
      SkipEmptyDataBlocksForward();
    }

    lemma SoughtInTable(target: Bytes)
      requires Moving() && IsInternal(target) && LowerBound(indexIter.layout.kvs, target, indexIter.at)
      requires dataIter != null ==> LowerBound(dataIter.layout.kvs, target, dataIter.at)
      ensures Ascending(table.Entries()) && LowerBound(table.Entries(), target, At())
    {
      hide IsTable, Encodes, AllKvs, Ascending, BlockIter.Ok, BlockIter.Valid, KeyLess, LowerBound, Organised;
      TableOrganised(table.file, if table.policy.None? then None else Some(InternalPolicy(table.policy.value)),
                     table.filterKey, table.t);
      BoundInRange(indexIter.layout.kvs, target, indexIter.at);
      if dataIter != null {
        PlaceInTable(table.t.blocks, table.t.index.layout.kvs, target, indexIter.at, dataIter.at);
      } else {
        PastTheEnd(table.t.blocks, table.t.index.layout.kvs, target);
      }
    }

    static lemma BoundInRange(kvs: seq<KeyValue>, target: Bytes, at: nat)
      requires Ascending(kvs) && IsInternal(target) && LowerBound(kvs, target, at)
      ensures at <= |kvs|
    {
    }

    method Next()
      requires Ok() && Valid()
      modifies this, indexIter, dataIter
      ensures Ok() && At() == old(At()) + 1
    {
      hide IsTable, Encodes, Organised, AllKvs, Ascending, BlockIter.Ok, BlockIter.Valid, Table.Ok;
      dataIter.Next();
      SkipEmptyDataBlocksForward();
    }

    method Prev()
      requires Ok() && Valid()
      modifies this, indexIter, dataIter
      ensures Ok() && At() == if old(At()) == 0 then |table.Entries()| else old(At()) - 1
    {
      hide IsTable, Encodes, Organised, AllKvs, Ascending, BlockIter.Ok, BlockIter.Valid, Table.Ok;
      NoBlocks();
      if indexIter.at > 0 {
        BlockEnds(indexIter.at - 1);
      }
      dataIter.Prev();
      DataValid();
      SkipEmptyDataBlocksBackward();
    }
  }
}
