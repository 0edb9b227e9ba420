/** Building table files, with delayed index entries (table/table_builder.cc). */
module TableWriter {
  import opened Wrappers
  import opened DbFormat
  import opened Coding
  import opened Comparator
  import opened Block
  import opened Filter
  import opened TableFormat

  // A block of a table file: what it was built from, its bytes and where they are stored.
  datatype StoredBlock = StoredBlock(layout: Layout, raw: Bytes, offset: nat) {
    function Handle(): BlockHandle {
      BlockHandle(offset, |raw|)
    }

    ghost predicate Ok(file: Bytes) {
      Encodes(raw, layout) && InFile(file, Handle(), raw)
    }
  }

  ghost predicate DataBlocksOk(file: Bytes, blocks: seq<StoredBlock>) {
    && (forall i :: 0 <= i < |blocks| ==> blocks[i].Ok(file) && blocks[i].layout.kvs != [])
    && forall i, j :: 0 <= i < j < |blocks| ==> blocks[i].offset < blocks[j].offset
  }

  function AllKvs(blocks: seq<StoredBlock>): seq<KeyValue> {
    if blocks == [] then [] else AllKvs(blocks[..|blocks| - 1]) + blocks[|blocks| - 1].layout.kvs
  }

  function Last(kvs: seq<KeyValue>): Bytes
    requires kvs != []
  {
    kvs[|kvs| - 1].key
  }

  // The first key behind block i, in the next block or among the entries not yet in one.
  function NextFirst(blocks: seq<StoredBlock>, tail: seq<KeyValue>, i: nat): Option<Bytes>
    requires i < |blocks|
  {
    if i + 1 < |blocks| then
      if blocks[i + 1].layout.kvs != [] then Some(blocks[i + 1].layout.kvs[0].key) else None
    else if tail != [] then Some(tail[0].key) else None
  }

  // Index entry i leads to block i and separates it from what follows.
  ghost predicate IndexEntry(blocks: seq<StoredBlock>, tail: seq<KeyValue>, index: seq<KeyValue>, i: nat)
    requires i < |blocks| && i < |index|
  {
    && index[i].value == blocks[i].Handle().Encode()
    && IsInternal(index[i].key) && blocks[i].layout.kvs != [] && IsInternal(Last(blocks[i].layout.kvs))
    && var next := NextFirst(blocks, tail, i);
       if next.Some? then IsInternal(next.value) && Separates(Last(blocks[i].layout.kvs), index[i].key, next.value)
       else !KeyLess(index[i].key, Last(blocks[i].layout.kvs))
  }

  // What TableBuilder has put into the file and the index, with `tail` still in the data block.
  ghost predicate Built(file: Bytes, blocks: seq<StoredBlock>, index: seq<KeyValue>, tail: seq<KeyValue>,
                        lastKey: Bytes, pending: bool, pendingHandle: BlockHandle) {
    && DataBlocksOk(file, blocks) && Ascending(AllKvs(blocks) + tail)
    && |blocks| == |index| + (if pending then 1 else 0)
    && (pending ==> tail == [] && pendingHandle == blocks[|blocks| - 1].Handle())
    && (blocks != [] && !pending ==> tail != [])
    && (forall i :: 0 <= i < |index| ==> IndexEntry(blocks, tail, index, i))
    && (tail != [] ==> lastKey == Last(tail))
    && (pending ==> lastKey == Last(blocks[|blocks| - 1].layout.kvs))
  }

  // The filter that covers the blocks at this offset has the key, or will have it.
  ghost predicate KeyCovered(covers: seq<seq<Bytes>>, pendingKeys: seq<Bytes>, offset: nat, key: Bytes) {
    var i := offset / FILTER_BASE;
    if i < |covers| then key in covers[i] else i == |covers| && key in pendingKeys
  }

  ghost predicate BlocksCovered(covers: seq<seq<Bytes>>, pendingKeys: seq<Bytes>, blocks: seq<StoredBlock>) {
    forall i, kv :: 0 <= i < |blocks| && kv in blocks[i].layout.kvs ==>
      KeyCovered(covers, pendingKeys, blocks[i].offset, kv.key)
  }

  ghost predicate TailCovered(covers: seq<seq<Bytes>>, pendingKeys: seq<Bytes>, offset: nat, tail: seq<KeyValue>) {
    forall kv :: kv in tail ==> KeyCovered(covers, pendingKeys, offset, kv.key)
  }

  lemma {:induction false} AllKvsMembers(blocks: seq<StoredBlock>, kv: KeyValue)
    ensures kv in AllKvs(blocks) <==> exists i :: 0 <= i < |blocks| && kv in blocks[i].layout.kvs
  {
    if blocks != [] {
      var n := |blocks| - 1;
      AllKvsMembers(blocks[..n], kv);
      assert forall i :: 0 <= i < n ==> blocks[..n][i] == blocks[i];
      if kv in AllKvs(blocks[..n]) {
        var i :| 0 <= i < n && kv in blocks[..n][i].layout.kvs;
        assert kv in blocks[i].layout.kvs;
      }
      if i :| 0 <= i < |blocks| && kv in blocks[i].layout.kvs {
        assert i < n ==> kv in blocks[..n][i].layout.kvs;
      }
    }
  }

  lemma AllKvsSnoc(blocks: seq<StoredBlock>, b: StoredBlock)
    ensures AllKvs(blocks + [b]) == AllKvs(blocks) + b.layout.kvs
  {
    assert (blocks + [b])[..|blocks|] == blocks;
  }

  // ----- The steps of the builder

  lemma StillOk(file: Bytes, longer: Bytes, blocks: seq<StoredBlock>)
    requires DataBlocksOk(file, blocks) && file <= longer
    ensures DataBlocksOk(longer, blocks)
  {
    hide Encodes, InFile;
    forall i | 0 <= i < |blocks|
      ensures blocks[i].Ok(longer) && blocks[i].layout.kvs != []
    {
      StillInFile(file, longer, blocks[i].Handle(), blocks[i].raw);
    }
  }

  // The key that a new one must be above.
  ghost predicate MayFollow(blocks: seq<StoredBlock>, tail: seq<KeyValue>, key: Bytes) {
    IsInternal(key) && forall kv :: kv in AllKvs(blocks) + tail ==> IsInternal(kv.key) && KeyLess(kv.key, key)
  }

  lemma AscendingSnoc(kvs: seq<KeyValue>, kv: KeyValue)
    requires Ascending(kvs) && IsInternal(kv.key)
    requires forall e :: e in kvs ==> KeyLess(e.key, kv.key)
    ensures Ascending(kvs + [kv])
  {
  }

  // The index entry of the last block, once the first key behind it is known.
  lemma IndexCatchesUp(file: Bytes, blocks: seq<StoredBlock>, index: seq<KeyValue>, lastKey: Bytes, h: BlockHandle,
                       sep: Bytes, kv: KeyValue)
    requires Built(file, blocks, index, [], lastKey, true, h) && MayFollow(blocks, [], kv.key)
    requires IsInternal(lastKey) && Separates(lastKey, sep, kv.key)
    ensures Built(file, blocks, index + [KeyValue(sep, h.Encode())], [kv], kv.key, false, h)
  {
    hide Encodes, InFile, KeyLess;
    var index' := index + [KeyValue(sep, h.Encode())];
    assert AllKvs(blocks) + [] == AllKvs(blocks);
    AscendingSnoc(AllKvs(blocks), kv);
    forall i | 0 <= i < |index'|
      ensures IndexEntry(blocks, [kv], index', i)
    {
      assert i < |index| ==> IndexEntry(blocks, [], index, i);
    }
  }

  lemma EntryAdded(file: Bytes, blocks: seq<StoredBlock>, index: seq<KeyValue>, tail: seq<KeyValue>, lastKey: Bytes,
                   h: BlockHandle, kv: KeyValue)
    requires Built(file, blocks, index, tail, lastKey, false, h) && MayFollow(blocks, tail, kv.key)
    ensures Built(file, blocks, index, tail + [kv], kv.key, false, h)
  {
    hide Encodes, InFile, KeyLess, Separates;
    assert AllKvs(blocks) + (tail + [kv]) == AllKvs(blocks) + tail + [kv];
    AscendingSnoc(AllKvs(blocks) + tail, kv);
    forall i | 0 <= i < |index|
      ensures IndexEntry(blocks, tail + [kv], index, i)
    {
      assert IndexEntry(blocks, tail, index, i);
    }
  }

  lemma DataBlockWritten(file: Bytes, blocks: seq<StoredBlock>, layout: Layout, raw: Bytes)
    requires DataBlocksOk(file, blocks) && layout.kvs != [] && Encodes(raw, layout)
    ensures DataBlocksOk(file + raw + Trailer(raw), blocks + [StoredBlock(layout, raw, |file|)])
  {
    hide Encodes, InFile, Trailer;
    var b := StoredBlock(layout, raw, |file|);
    var file' := file + raw + Trailer(raw);
    assert file <= file';
    StillOk(file, file', blocks);
    JustWritten(file, raw);
    forall i | 0 <= i < |blocks|
      ensures blocks[i].offset < b.offset
    {
      OffsetInFile(file, blocks[i].Handle(), blocks[i].raw);
    }
  }

  lemma BlockWritten(file: Bytes, blocks: seq<StoredBlock>, index: seq<KeyValue>, tail: seq<KeyValue>, lastKey: Bytes,
                     h: BlockHandle, layout: Layout, raw: Bytes)
    requires Built(file, blocks, index, tail, lastKey, false, h) && tail != []
    requires layout.kvs == tail && Encodes(raw, layout)
    ensures var b := StoredBlock(layout, raw, |file|);
            Built(file + raw + Trailer(raw), blocks + [b], index, [], lastKey, true, b.Handle())
  {
    hide Encodes, InFile, KeyLess, Separates, Trailer, DataBlocksOk, Ascending;
    var b := StoredBlock(layout, raw, |file|);
    DataBlockWritten(file, blocks, layout, raw);
    AllKvsSnoc(blocks, b);
    assert AllKvs(blocks + [b]) + [] == AllKvs(blocks) + tail;
    forall i | 0 <= i < |index|
      ensures IndexEntry(blocks + [b], [], index, i)
    {
      assert IndexEntry(blocks, tail, index, i);
    }
  }

  lemma MoreKeysCovered(covers: seq<seq<Bytes>>, pendingKeys: seq<Bytes>, blocks: seq<StoredBlock>, offset: nat,
                        tail: seq<KeyValue>, kv: KeyValue)
    requires BlocksCovered(covers, pendingKeys, blocks) && TailCovered(covers, pendingKeys, offset, tail)
    requires |covers| == offset / FILTER_BASE
    ensures BlocksCovered(covers, pendingKeys + [kv.key], blocks)
    ensures TailCovered(covers, pendingKeys + [kv.key], offset, tail + [kv])
  {
    forall i, e | 0 <= i < |blocks| && e in blocks[i].layout.kvs
      ensures KeyCovered(covers, pendingKeys + [kv.key], blocks[i].offset, e.key)
    {
      assert KeyCovered(covers, pendingKeys, blocks[i].offset, e.key);
    }
    forall e | e in tail
      ensures KeyCovered(covers, pendingKeys + [kv.key], offset, e.key)
    {
      assert KeyCovered(covers, pendingKeys, offset, e.key);
    }
  }

  // Ending filters after a block keeps every key where its block's offset points.
  lemma CoverageMovesOn(covers: seq<seq<Bytes>>, pendingKeys: seq<Bytes>, covers': seq<seq<Bytes>>,
                        pendingKeys': seq<Bytes>, blocks: seq<StoredBlock>, b: StoredBlock)
    requires BlocksCovered(covers, pendingKeys, blocks)
    requires TailCovered(covers, pendingKeys, b.offset, b.layout.kvs)
    requires covers <= covers' && pendingKeys' == if |covers'| > |covers| then [] else pendingKeys
    requires |covers'| > |covers| ==> covers'[|covers|] == pendingKeys
    ensures BlocksCovered(covers', pendingKeys', blocks + [b])
  {
    forall i, e | 0 <= i < |blocks + [b]| && e in (blocks + [b])[i].layout.kvs
      ensures KeyCovered(covers', pendingKeys', (blocks + [b])[i].offset, e.key)
    {
      assert i < |blocks| ==> KeyCovered(covers, pendingKeys, blocks[i].offset, e.key);
      assert i == |blocks| ==> KeyCovered(covers, pendingKeys, b.offset, e.key);
    }
  }

  // ----- The finished file

  datatype FilterPart = FilterPart(raw: Bytes, offset: nat, filters: seq<Bytes>, covers: seq<seq<Bytes>>) {
    function Handle(): BlockHandle {
      BlockHandle(offset, |raw|)
    }
  }

  datatype TableLayout = TableLayout(blocks: seq<StoredBlock>, index: StoredBlock, metaindex: StoredBlock,
                                     filter: Option<FilterPart>)

  ghost predicate Indexed(blocks: seq<StoredBlock>, index: seq<KeyValue>) {
    |index| == |blocks| && forall i :: 0 <= i < |index| ==> IndexEntry(blocks, [], index, i)
  }

  ghost predicate FilterStored(file: Bytes, policy: Policy, f: FilterPart, blocks: seq<StoredBlock>) {
    && InFile(file, f.Handle(), f.raw) && EncodesFilters(f.raw, f.filters)
    && Covered(policy, f.filters, f.covers) && BlocksCovered(f.covers, [], blocks)
  }

  // What the metaindex block says about the filters.
  function MetaEntries(filterKey: Bytes, filter: Option<FilterPart>): seq<KeyValue> {
    if filter.None? then [] else [KeyValue(filterKey, filter.value.Handle().Encode())]
  }

  /** The file is a table of these entries. */
  ghost predicate IsTable(file: Bytes, policy: Option<Policy>, filterKey: Bytes, t: TableLayout,
                          entries: seq<KeyValue>) {
    && entries == AllKvs(t.blocks) && Ascending(entries)
    && DataBlocksOk(file, t.blocks) && t.index.Ok(file) && t.metaindex.Ok(file)
    && Indexed(t.blocks, t.index.layout.kvs)
    && (policy.Some? <==> t.filter.Some?) && t.metaindex.layout.kvs == MetaEntries(filterKey, t.filter)
    && (policy.Some? ==> FilterStored(file, policy.value, t.filter.value, t.blocks))
    && FOOTER_LENGTH <= |file| < TWO64
    && file[|file| - FOOTER_LENGTH..] == EncodeFooter(Footer(t.metaindex.Handle(), t.index.Handle()))
  }

  // The last filter has been made: no key is still waiting for one.
  lemma CoverageEnds(covers: seq<seq<Bytes>>, pendingKeys: seq<Bytes>, covers': seq<seq<Bytes>>,
                     blocks: seq<StoredBlock>)
    requires BlocksCovered(covers, pendingKeys, blocks)
    requires covers' == if pendingKeys == [] then covers else covers + [pendingKeys]
    ensures BlocksCovered(covers', [], blocks)
  {
    forall i, e | 0 <= i < |blocks| && e in blocks[i].layout.kvs
      ensures KeyCovered(covers', [], blocks[i].offset, e.key)
    {
      assert KeyCovered(covers, pendingKeys, blocks[i].offset, e.key);
    }
  }

  // The index entry of the last block.
  lemma IndexEnds(file: Bytes, blocks: seq<StoredBlock>, index: seq<KeyValue>, lastKey: Bytes, pending: bool,
                  h: BlockHandle, sep: Bytes)
    requires Built(file, blocks, index, [], lastKey, pending, h)
    requires pending ==> IsInternal(sep) && IsInternal(lastKey) && !KeyLess(sep, lastKey)
    ensures Indexed(blocks, if pending then index + [KeyValue(sep, h.Encode())] else index)
  {
    hide Encodes, InFile, KeyLess, Separates;
    assert AllKvs(blocks) + [] == AllKvs(blocks);
    if pending {
      var index' := index + [KeyValue(sep, h.Encode())];
      forall i | 0 <= i < |index'|
        ensures IndexEntry(blocks, [], index', i)
      {
        assert i < |index| ==> IndexEntry(blocks, [], index, i);
        if i == |index| {
          assert blocks[i].Ok(file) && blocks[i].layout.kvs != [];
        }
      }
    }
  }

  // ----- The builder

  ghost predicate OneMoreBlock(before: seq<StoredBlock>, after: seq<StoredBlock>) {
    |after| == |before| + 1 && after[..|before|] == before
  }

  class TableBuilder {
    const blockSize: nat
    // The key under which the metaindex block holds the place of the filters.
    const filterKey: Bytes
    const dataBlock: BlockBuilder
    const indexBlock: BlockBuilder
    const filterBlock: FilterBlockBuilder?
    var file: Bytes
    var offset: nat
    var lastKey: Bytes
    var numEntries: nat
    var closed: bool
    var pendingIndexEntry: bool
    var pendingHandle: BlockHandle
    ghost var blocks: seq<StoredBlock>

    // The filter block covers the blocks written and these entries of the next one.
    ghost predicate FiltersOk(tail: seq<KeyValue>)
      reads this, filterBlock
    {
      filterBlock != null ==>
        && filterBlock.Ok() && |filterBlock.filters| == offset / FILTER_BASE
        && BlocksCovered(filterBlock.covers, filterBlock.pending, blocks)
        && TailCovered(filterBlock.covers, filterBlock.pending, offset, tail)
    }

    // The file and the index are as they should be when these entries are in the data block.
    ghost predicate IndexOk(tail: seq<KeyValue>)
      reads this, indexBlock
    {
      && offset == |file| && indexBlock.Ok() && !indexBlock.finished
      && Built(file, blocks, indexBlock.layout.kvs, tail, lastKey, pendingIndexEntry, pendingHandle)
    }

    ghost predicate DataOk(tail: seq<KeyValue>)
      reads this, dataBlock
    {
      dataBlock.Ok() && !dataBlock.finished && dataBlock.layout.kvs == tail
    }

    ghost predicate Ok()
      reads this, dataBlock, indexBlock, filterBlock
    {
      && dataBlock != indexBlock
      && DataOk(dataBlock.layout.kvs) && IndexOk(dataBlock.layout.kvs) && FiltersOk(dataBlock.layout.kvs)
    }

    ghost function Entries(): seq<KeyValue>
      reads this, dataBlock
    {
      AllKvs(blocks) + dataBlock.layout.kvs
    }

    constructor (restartInterval: nat, blockSize: nat, policy: Option<Policy>, filterKey: Bytes)
      requires restartInterval >= 1 && (policy.Some? ==> PolicyOk(policy.value))
      ensures Ok() && fresh(dataBlock) && fresh(indexBlock) && (filterBlock != null ==> fresh(filterBlock))
      ensures Entries() == [] && !closed && (filterBlock != null <==> policy.Some?)
      ensures filterBlock != null ==> filterBlock.policy == policy.value
    {
      this.blockSize, this.filterKey := blockSize, filterKey;
      dataBlock := new BlockBuilder(restartInterval);
      indexBlock := new BlockBuilder(1);
      var filters: FilterBlockBuilder? := null;
      if policy.Some? {
        filters := new FilterBlockBuilder(policy.value);
        filters.StartBlock(0);
      }
      filterBlock := filters;
      file, offset, lastKey, numEntries, closed := [], 0, [], 0, false;
      pendingIndexEntry, pendingHandle := false, BlockHandle(0, 0);
      blocks := [];
    }

    /** Adds one entry; the index entry of the block before waits until then for a short separator. */
    method Add(key: Bytes, value: Bytes)
      requires Ok() && !closed && MayFollow(blocks, dataBlock.layout.kvs, key)
      requires dataBlock.CurrentSizeEstimate() + |key| + |value| + 19 < TWO32
      modifies this, dataBlock, indexBlock, filterBlock
      ensures Ok() && !closed
      ensures Entries() == old(Entries()) + [KeyValue(key, value)]
      ensures (blocks == old(blocks) && dataBlock.CurrentSizeEstimate() < blockSize)
           || (OneMoreBlock(old(blocks), blocks) && |blocks[|blocks| - 1].raw| >= blockSize && dataBlock.layout.kvs == [])
    {
      hide Built, MayFollow, BlocksCovered, TailCovered, BlockBuilder.Ok, FilterBlockBuilder.Ok, AllKvs;
      ghost var tail := dataBlock.layout.kvs;
      CatchUpIndex(key, value, tail);
      NoteKey(key, value, tail);
      numEntries := numEntries + 1;
      dataBlock.Add(key, value);
      if dataBlock.CurrentSizeEstimate() >= blockSize {
        Flush();
      }
    }

    // The part of Add that ends the index entry of the block before and remembers the key.
    method CatchUpIndex(key: Bytes, value: Bytes, ghost tail: seq<KeyValue>)
      requires IndexOk(tail) && MayFollow(blocks, tail, key)
      modifies `lastKey, `pendingIndexEntry, indexBlock
      ensures IndexOk(tail + [KeyValue(key, value)]) && !pendingIndexEntry
    {
      hide Built, MayFollow, BlockBuilder.Ok, KeyLess, Separates;
      ghost var kv := KeyValue(key, value);
      if pendingIndexEntry {
        PendingFacts(file, blocks, indexBlock.layout.kvs, tail, lastKey, pendingHandle, key);
        var sep := FindShortestInternalSeparator(lastKey, key);
        assert tail + [kv] == [kv];
        IndexCatchesUp(file, blocks, indexBlock.layout.kvs, lastKey, pendingHandle, sep, kv);
        lastKey := sep;
        indexBlock.Add(lastKey, pendingHandle.Encode());
        pendingIndexEntry := false;
      } else {
        EntryAdded(file, blocks, indexBlock.layout.kvs, tail, lastKey, pendingHandle, kv);
      }
      lastKey := key;
    }

    // The part of Add that passes the key to the filters.
    method NoteKey(key: Bytes, value: Bytes, ghost tail: seq<KeyValue>)
      requires FiltersOk(tail)
      modifies filterBlock
      ensures FiltersOk(tail + [KeyValue(key, value)])
    {
      hide BlocksCovered, TailCovered;
      if filterBlock != null {
        CoversPerFilter(filterBlock);
        MoreKeysCovered(filterBlock.covers, filterBlock.pending, blocks, offset, tail, KeyValue(key, value));
        filterBlock.AddKey(key);
      }
    }

    static lemma CoversPerFilter(f: FilterBlockBuilder)
      requires f.Ok()
      ensures |f.covers| == |f.filters|
    {
    }

    /** Writes the data block, if it has entries. */
    method Flush()
      requires Ok() && !closed && dataBlock.CurrentSizeEstimate() < TWO32
      modifies this, dataBlock, filterBlock
      ensures Ok() && !closed && Entries() == old(Entries()) && dataBlock.layout.kvs == []
      ensures lastKey == old(lastKey)
      ensures if old(dataBlock.layout.kvs) == [] then blocks == old(blocks)
              else && OneMoreBlock(old(blocks), blocks)
                   && |blocks[|blocks| - 1].raw| == old(dataBlock.CurrentSizeEstimate())
    {
      hide Built, BlocksCovered, TailCovered, Encodes, Trailer, BlockBuilder.Ok, FilterBlockBuilder.Ok, AllKvs, LayoutOk;
      dataBlock.EmptyHasNoEntries();
      if dataBlock.Empty() {
        return;
      }
      WriteDataBlock();
    }

    // The part of Flush that writes the block.
    method WriteDataBlock()
      requires Ok() && !closed && dataBlock.CurrentSizeEstimate() < TWO32 && dataBlock.layout.kvs != []
      modifies this, dataBlock, filterBlock
      ensures Ok() && !closed && Entries() == old(Entries()) && dataBlock.layout.kvs == []
      ensures lastKey == old(lastKey)
      ensures OneMoreBlock(old(blocks), blocks)
      ensures |blocks[|blocks| - 1].raw| == old(dataBlock.CurrentSizeEstimate())
    {
      hide Built, BlocksCovered, TailCovered, Encodes, Trailer, BlockBuilder.Ok, FilterBlockBuilder.Ok, AllKvs, LayoutOk;
      ghost var layout := dataBlock.layout;
      ghost var before := file;
      NothingPending(file, blocks, indexBlock.layout.kvs, layout.kvs, lastKey, pendingIndexEntry, pendingHandle);
      var handle, raw := WriteBlock(dataBlock);
      ghost var b := StoredBlock(layout, raw, |before|);
      BlockWritten(before, blocks, indexBlock.layout.kvs, layout.kvs, lastKey, pendingHandle, layout, raw);
      AllKvsSnoc(blocks, b);
      pendingHandle := handle;
      pendingIndexEntry := true;
      EndFilters(|before|, b);
      blocks := blocks + [b];
    }

    // The part of Flush that ends the filters up to the new offset.
    method EndFilters(ghost was: nat, ghost b: StoredBlock)
      requires was <= offset && b.offset == was
      requires filterBlock != null ==>
        && filterBlock.Ok() && |filterBlock.filters| == was / FILTER_BASE
        && BlocksCovered(filterBlock.covers, filterBlock.pending, blocks)
        && TailCovered(filterBlock.covers, filterBlock.pending, was, b.layout.kvs)
      modifies filterBlock
      ensures filterBlock != null ==>
        && filterBlock.Ok() && |filterBlock.filters| == offset / FILTER_BASE
        && BlocksCovered(filterBlock.covers, filterBlock.pending, blocks + [b])
        && TailCovered(filterBlock.covers, filterBlock.pending, offset, [])
    {
      if filterBlock != null {
        hide BlocksCovered;
        ghost var covers, keys := filterBlock.covers, filterBlock.pending;
        CoversPerFilter(filterBlock);
        filterBlock.StartBlock(offset);
        CoversPerFilter(filterBlock);
        CoverageMovesOn(covers, keys, filterBlock.covers, filterBlock.pending, blocks, b);
      }
    }

    /** Writes what is left, then the filters, the metaindex, the index and the footer. */
    method Finish() returns (ghost t: TableLayout)
      requires Ok() && !closed && dataBlock.CurrentSizeEstimate() < TWO32
      requires |filterKey| + 64 < TWO32 && indexBlock.CurrentSizeEstimate() + |lastKey| + 64 < TWO32
      modifies this, dataBlock, indexBlock, filterBlock
      ensures closed && AllKvs(t.blocks) == old(Entries())
      ensures |file| < TWO64 && (t.filter.Some? ==> |t.filter.value.raw| < TWO32) ==>
                IsTable(file, if filterBlock == null then None else Some(filterBlock.policy), filterKey, t, old(Entries()))
    {
      hide Built, BlocksCovered, TailCovered, BlockBuilder.Ok, FilterBlockBuilder.Ok, AllKvs, Encodes, Trailer, IsTable;
      IntervalPositive(dataBlock);
      Flush();
      assert AllKvs(blocks) + [] == AllKvs(blocks);
      closed := true;
      t := WriteMeta();
    }

    static lemma IntervalPositive(b: BlockBuilder)
      requires b.Ok()
      ensures b.restartInterval >= 1
    {
    }

    // The part of Finish behind the last data block.
    method WriteMeta() returns (ghost t: TableLayout)
      requires IndexOk([]) && FiltersOk([]) && dataBlock.restartInterval >= 1
      requires |filterKey| + 64 < TWO32 && indexBlock.CurrentSizeEstimate() + |lastKey| + 64 < TWO32
      modifies `file, `offset, `lastKey, `pendingIndexEntry, indexBlock, filterBlock
      ensures t.blocks == blocks
      ensures |file| < TWO64 && (t.filter.Some? ==> |t.filter.value.raw| < TWO32) ==>
                IsTable(file, if filterBlock == null then None else Some(filterBlock.policy), filterKey, t, AllKvs(blocks))
    {
      hide Built, BlocksCovered, TailCovered, BlockBuilder.Ok, FilterBlockBuilder.Ok, AllKvs, Encodes, Trailer, IsTable;
      hide InFile, Indexed, FilterStored, EncodeFooter, Covered, EncodesFilters;
      ghost var flushed := file;
      ghost var (index0, lastKey0, pending0, handle0) :=
        (indexBlock.layout.kvs, lastKey, pendingIndexEntry, pendingHandle);
      var filterHandle, part := FinishFilters();
      ghost var filtered := file;
      var metaHandle, meta := FinishMetaindex(filterHandle);
      ghost var described := file;
      var indexHandle, index := FinishIndex(flushed);
      ghost var indexed := file;
      var footer := EncodeFooter(Footer(metaHandle, indexHandle));
      file := file + footer;
      offset := offset + |footer|;
      t := TableLayout(blocks, index, meta, part);
      if |file| < TWO64 && (part.Some? ==> |part.value.raw| < TWO32) {
        Assembled(if filterBlock == null then None else Some(filterBlock.policy), filterKey, t, flushed, filtered,
                  described, indexed, file, index0, lastKey0, pending0, handle0);
      }
    }

    // The part of Finish that writes the filter block.
    method FinishFilters() returns (handle: BlockHandle, ghost part: Option<FilterPart>)
      requires FiltersOk([]) && offset == |file|
      modifies `file, `offset, filterBlock
      ensures offset == |file| && old(file) <= file && (part.Some? <==> filterBlock != null)
      ensures part.Some? ==> handle == part.value.Handle()
      ensures part.Some? && |part.value.raw| < TWO32 ==> FilterStored(file, filterBlock.policy, part.value, blocks)
    {
      hide BlocksCovered, Trailer, Covered, EncodesFilters, InFile;
      handle, part := BlockHandle(0, 0), None;
      if filterBlock != null {
        ghost var covers, keys := filterBlock.covers, filterBlock.pending;
        ghost var before := file;
        var raw := filterBlock.Finish();
        CoverageEnds(covers, keys, filterBlock.covers, blocks);
        handle := WriteRawBlock(raw);
        JustWritten(before, raw);
        part := Some(FilterPart(raw, |before|, filterBlock.filters, filterBlock.covers));
      }
    }

    // The part of Finish that writes the metaindex block.
    method FinishMetaindex(filterHandle: BlockHandle) returns (handle: BlockHandle, ghost meta: StoredBlock)
      requires offset == |file| && dataBlock.restartInterval >= 1 && |filterKey| + 64 < TWO32
      modifies `file, `offset
      ensures offset == |file| && old(file) <= file && meta.Ok(file) && handle == meta.Handle()
      ensures meta.layout.kvs == if filterBlock == null then [] else [KeyValue(filterKey, filterHandle.Encode())]
    {
      hide BlockBuilder.Ok, Encodes, Trailer, InFile;
      ghost var before := file;
      var block := new BlockBuilder(dataBlock.restartInterval);
      if filterBlock != null {
        block.Add(filterKey, filterHandle.Encode());
      }
      ghost var layout := block.layout;
      var h, raw := WriteBlock(block);
      JustWritten(before, raw);
      handle, meta := h, StoredBlock(layout, raw, |before|);
    }

    // The part of Finish that ends the index and writes it.
    method FinishIndex(ghost flushed: Bytes) returns (handle: BlockHandle, ghost index: StoredBlock)
      requires offset == |file| && indexBlock.Ok() && !indexBlock.finished
      requires indexBlock.CurrentSizeEstimate() + |lastKey| + 64 < TWO32
      requires Built(flushed, blocks, indexBlock.layout.kvs, [], lastKey, pendingIndexEntry, pendingHandle)
      modifies `file, `offset, `lastKey, `pendingIndexEntry, indexBlock
      ensures offset == |file| && old(file) <= file && index.Ok(file) && handle == index.Handle()
      ensures Indexed(blocks, index.layout.kvs)
    {
      hide BlockBuilder.Ok, Encodes, Trailer, InFile, Built, Indexed;
      EndIndex(flushed);
      ghost var before := file;
      ghost var layout := indexBlock.layout;
      var h, raw := WriteBlock(indexBlock);
      JustWritten(before, raw);
      handle, index := h, StoredBlock(layout, raw, |before|);
    }

    method EndIndex(ghost flushed: Bytes)
      requires indexBlock.Ok() && !indexBlock.finished
      requires indexBlock.CurrentSizeEstimate() + |lastKey| + 64 < TWO32
      requires Built(flushed, blocks, indexBlock.layout.kvs, [], lastKey, pendingIndexEntry, pendingHandle)
      modifies `lastKey, `pendingIndexEntry, indexBlock
      ensures indexBlock.Ok() && !indexBlock.finished && Indexed(blocks, indexBlock.layout.kvs)
      ensures indexBlock.CurrentSizeEstimate() < TWO32
    {
      hide BlockBuilder.Ok, Built, Indexed, KeyLess;
      if pendingIndexEntry {
        LastKeyIsInternal(flushed, blocks, indexBlock.layout.kvs, lastKey, pendingHandle);
        var sep := FindShortInternalSuccessor(lastKey);
        IndexEnds(flushed, blocks, indexBlock.layout.kvs, lastKey, true, pendingHandle, sep);
        lastKey := sep;
        indexBlock.Add(lastKey, pendingHandle.Encode());
        pendingIndexEntry := false;
      } else {
        IndexEnds(flushed, blocks, indexBlock.layout.kvs, lastKey, false, pendingHandle, []);
      }
    }

    method WriteBlock(block: BlockBuilder) returns (handle: BlockHandle, ghost raw: Bytes)
      requires block.Ok() && !block.finished && block.CurrentSizeEstimate() < TWO32 && offset == |file|
      modifies `file, `offset, block
      ensures block.Ok() && !block.finished && block.layout.kvs == []
      ensures Encodes(raw, old(block.layout)) && |raw| == old(block.CurrentSizeEstimate())
      ensures offset == |file| && file == old(file) + raw + Trailer(raw) && handle == BlockHandle(old(|file|), |raw|)
    {
      hide Encodes;
      var contents := block.Finish();
      handle := WriteRawBlock(contents);
      block.Reset();
      raw := contents;
    }

    method WriteRawBlock(raw: Bytes) returns (handle: BlockHandle)
      requires offset == |file|
      modifies `file, `offset
      ensures offset == |file| && file == old(file) + raw + Trailer(raw) && handle == BlockHandle(old(|file|), |raw|)
    {
      hide Trailer;
      handle := BlockHandle(offset, |raw|);
      file := file + raw;
      file := file + Trailer(raw);
      offset := offset + |raw| + BLOCK_TRAILER_SIZE;
    }
  }

  lemma LastKeyIsInternal(file: Bytes, blocks: seq<StoredBlock>, index: seq<KeyValue>, lastKey: Bytes, h: BlockHandle)
    requires Built(file, blocks, index, [], lastKey, true, h)
    ensures IsInternal(lastKey)
  {
    hide Encodes, InFile, IndexEntry, KeyLess, AllKvs;
    var b := blocks[|blocks| - 1];
    assert b.Ok(file) && b.layout.kvs != [];
    var kv := b.layout.kvs[|b.layout.kvs| - 1];
    AllKvsMembers(blocks, kv);
    assert kv in AllKvs(blocks) + [];
  }

  lemma Assembled(policy: Option<Policy>, filterKey: Bytes, t: TableLayout, flushed: Bytes, filtered: Bytes,
                  described: Bytes, indexed: Bytes, file: Bytes, index: seq<KeyValue>, lastKey: Bytes, pending: bool,
                  h: BlockHandle)
    requires Built(flushed, t.blocks, index, [], lastKey, pending, h)
    requires flushed <= filtered <= described <= indexed
    requires file == indexed + EncodeFooter(Footer(t.metaindex.Handle(), t.index.Handle())) && |file| < TWO64
    requires policy.Some? <==> t.filter.Some?
    requires policy.Some? ==> FilterStored(filtered, policy.value, t.filter.value, t.blocks)
    requires t.metaindex.Ok(described) && t.metaindex.layout.kvs == MetaEntries(filterKey, t.filter)
    requires t.index.Ok(indexed) && Indexed(t.blocks, t.index.layout.kvs)
    ensures IsTable(file, policy, filterKey, t, AllKvs(t.blocks))
  {
    hide Encodes, InFile, IndexEntry, Ascending, EncodesFilters, Covered, BlocksCovered, EncodeFooter, AllKvs;
    assert flushed <= file && filtered <= file && described <= file && indexed <= file;
    assert AllKvs(t.blocks) + [] == AllKvs(t.blocks);
    StillOk(flushed, file, t.blocks);
    StillInFile(described, file, t.metaindex.Handle(), t.metaindex.raw);
    StillInFile(indexed, file, t.index.Handle(), t.index.raw);
    if policy.Some? {
      StillInFile(filtered, file, t.filter.value.Handle(), t.filter.value.raw);
    }
  }

  lemma NothingPending(file: Bytes, blocks: seq<StoredBlock>, index: seq<KeyValue>, tail: seq<KeyValue>,
                       lastKey: Bytes, pending: bool, h: BlockHandle)
    requires Built(file, blocks, index, tail, lastKey, pending, h) && tail != []
    ensures !pending
  {
  }

  lemma PendingFacts(file: Bytes, blocks: seq<StoredBlock>, index: seq<KeyValue>, tail: seq<KeyValue>, lastKey: Bytes,
                     h: BlockHandle, key: Bytes)
    requires Built(file, blocks, index, tail, lastKey, true, h) && MayFollow(blocks, tail, key)
    ensures tail == [] && IsInternal(lastKey) && IsInternal(key) && |lastKey| < TWO32 && KeyLess(lastKey, key)
  {
    hide Encodes, InFile, IndexEntry, Ascending, KeyLess, AllKvs;
    var b := blocks[|blocks| - 1];
    assert b.Ok(file) && b.layout.kvs != [];
    var kv := b.layout.kvs[|b.layout.kvs| - 1];
    AllKvsMembers(blocks, kv);
    assert kv in AllKvs(blocks) + tail;
    KeyIsShort(b.raw, b.layout, |b.layout.kvs| - 1);
  }

  lemma KeyIsShort(raw: Bytes, l: Layout, i: nat)
    requires Encodes(raw, l) && i < |l.kvs|
    ensures |l.kvs[i].key| < TWO32
  {
    assert SharesPrefix(l.kvs, l.shared, i);
  }
}
