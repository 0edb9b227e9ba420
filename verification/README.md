# A storage engine, a message codec and a card game, verified

This project models three parts of the CardCrucible repository and proves what they promise: the
LevelDB storage engine that the app links, the nanopb codec for protocol buffers, and the app's own
War card game. Code that works by changing things in place is modelled by classes and loops, and
every such method is proved against a specification; what the code is for is then proved about the
specifications, for all inputs, all runs and all reachable states.

`dafny verify dfyconfig.toml` checks everything.

## What is modelled

**Reads of the storage engine.** A read at a snapshot means the entry of greatest sequence number at
or below the snapshot (`DbFormat.dfy`). Everything below refines that one definition.

- `PointLookup.dfy`: `DBImpl::Get` and `Version::Get` with their one-file-per-level search.
- `DbIter.dfy`: the bidirectional user iterator; `MergingIterator.dfy`: the merging cursor under it;
  `InternalIterator.dfy`: the sorted cursor both build on.
- `Compaction.dfy`: the drop rules and the moving cursors of `IsBaseLevelForKey`;
  `InputSelection.dfy`: which files take part; `CompactionSafety.dfy`: the two together.
- `VersionFiles.dfy`, `VersionBuilder.dfy`: file metadata, replaying version edits, the manifest.
- `GroupCommit.dfy`: the queue of writers with one leader, as a state machine over its atomic steps.
- `SkipList.dfy`: one writer, store by store, and readers whose loads interleave with it.

User keys are real numbers in these modules, because the engine only compares them; `Comparator.RankOrder`
shows that byte strings under the bytewise order embed in them.

**Formats of the storage engine**, all over bytes: `Coding.dfy`, `Comparator.dfy`, `Block.dfy`,
`Filter.dfy`, `TableFormat.dfy`, `TableWriter.dfy`, `TableReader.dfy`, `Log.dfy`, `Crc32c.dfy`,
`Checksum.dfy`, `WriteBatches.dfy`, `VersionEditCodec.dfy`.

**The cache of the storage engine**, node by node: `CacheHandle.dfy` (its entries and their links),
`HandleChain.dfy` (the linked buckets), `HandleTable.dfy` (the hash table that resizes), `LruRing.dfy`
(the circular lists), `LruCache.dfy` (one shard over them).

**nanopb.** `PbFormat.dfy` (descriptors, message memory, the field iterator), `PbEncode.dfy` (the
encoder with its sizing pass), `PbDecode.dfy` (what any input decodes to), `PbIStream.dfy` (the
decoder's methods), `PbRoundTrip.dfy` (decoding undoes encoding), `PbUnknown.dfy` (fields the receiver
does not know), `PbMerge.dfy` (decoding into a message that is there), `PbRefusals.dfy` (what the decoder
refuses). The configuration is the one the pods build:
32-bit sizes, 64-bit integers, allocation enabled.

**War.** `War.dfy`: placing cards, nested wars, the draw, dealing, one round.

## What is proved

1. A compaction of the inputs `SetupOtherInputs` chooses changes a read that it must respect in exactly
   one case (`ReadsChangeExactlyWhenLost`): nothing ahead of the inputs answers, their newest entry of the
   key is a deletion with no deeper level below, and the lower files behind them hold a value of the key.
   The case occurs, because only the upper inputs are extended by boundary files
   (`version_set.cc:1407-1411`): `CutUserKeyComesBack` gives the files. Without a user key across that
   border no read changes (`ChosenCompactionPreservesReads`), and the installed version is in order again
   (`NewVersionIsInOrder`), so this holds for one compaction after another. What is obsolete does go
   (`KeptExactlyWhen`): an entry stays exactly when no earlier one of its user key is at or below the oldest
   snapshot and it is not a deletion at or below it without deeper data.
2. In every interleaving of concurrent writes each batch is committed at most once, in queue order,
   with consecutive sequence numbers, and a call told success has been applied and, if it asked, synced.
   A group is as long as the size limits allow (`GroupIsLongest`), and after a failed sync nothing is written
   any more (`NothingAfterFailedSync`).
   No signal is lost: the front writer is always awake (`NobodySleepsOn`), so some step of an awake writer
   is possible until every call has returned, and each such step leaves less to do (`CallsReturn`).
3. The user iterator is a cursor over the map from user keys to their newest visible values, through
   every change of direction; the merging iterator under it moves like a cursor over the sorted union of
   its children (`ActsAsCursor`).
4. After every single pointer store of an insertion the skip list is well formed, and a concurrent
   reader finds what was there when it began.
5. A lookup answers what a read of all entries of memtables and files together gives (`AnswerIsRead`): the
   value of the newest visible entry, and not found exactly when that is a deletion or there is none.
6. A table holds exactly the entries added; a lookup through shortened separators and Bloom filters
   misses none; the two-level iterator is a cursor over them and shows their keys and values. Entries and
   restart interval determine the bytes of a block (`OnlyOneLayout`), and a key matches a Bloom filter exactly
   when each of its probes is a probe of some key in it (`MatchesExactlyWhen`).
7. Any byte prefix of a log reads back as exactly the records that are complete in it, and the records in
   front of a damage or a cut read back whatever follows (`IntactRecordsReadBack`). From any file at all, a
   reader that checks checksums returns only records whose fragments stand in it with their checksums
   (`OnlyWrittenIsRead`), and a fragment whose checksum does not match is reported (`DamageIsReported`).
8. Through its linked chains and circular lists the LRU cache is a finite map with an exact split of its
   entries, and runs each deleter once. Over any run the entries that may be evicted stand in the order of
   their last releases (`OldestReleaseFirst`).
9. Replaying a manifest gives the version that installing its edits one by one gave if and only if, at
   every level, no file is added twice without being deleted for good in between
   (`ReplayIsHistoryExactlyWhen`). `FileAddedTwice` shows the difference otherwise. Recovering what a
   successful `LogAndApply` leaves gives back version, log numbers, last sequence and compaction pointers, and
   goes on with unused file numbers (`ManifestRoundTrip`, `PointersRoundTrip`).
10. The strided CRC (CRC32C, section 12.1 of RFC 3720) equals the byte-wise fold.
11. Encoders and decoders of records, batches, edits, blocks and footers undo each other, and lemmas with
    bytes written out fix the formats (`FragmentBytes`, `KnownBlock`, `KnownBatch`, `KnownFields`,
    `MagicBytes`, `TrailerBytes`).
12. In nanopb the sizing pass counts exactly the bytes the writing pass emits, at every depth, so its
    error "submsg size changed" is never raised. Decoding the output restores the message, up to the
    contents of absent fields and whatever the struct held before, if and only if every string that was
    sent is terminated inside its buffer and every proto3 field that was left out has a zero default, at
    any depth (`RoundTrip`); it fails exactly when a string is not terminated. `BothConditionsMatter` shows
    both cases. A message from a sender that knows more fields decodes to what the known ones say
    (`UnknownFieldsDoNotMatter`, `NewerSenderRoundTrip`). Decoding into a message that is there updates only what
    is sent (`NotSentIsKept`), the last value wins (`LastValueWins`), and for any two inputs one behind the
    other merges like one after the other, with one exception (`MergesInOneGo`). A message is refused exactly when it cannot be read to
    its end, leaves an array half filled, or lacks a required field (`AcceptedExactlyWhen`). Some of what is
    accepted is a surprise: a four-byte signed field cuts a longer number to 32 bits (`SignedAccepts`), and
    the 32-bit varint reader ignores bits 32 to 34 of a longer one (`Decode32Exactly`).
13. A deal gives the k-th of n players cards k, k + n, k + 2n and so on of the deck (`DealCards`). A round of
    War conserves the cards and leaves nothing in the hands of players who are out; a sole highest card takes
    all cards put down; the recursion of wars ends. A round does not end if and only if at least two players have the longest hand
    and, at its places 0, 2, 4 and so on and at its last one, all hands that long show the same rank
    (`NeverEnds`, `StartRound`); two players with one card each of one rank are such a case
    (`TwoEqualCards`). The suit tie-break never picks a winner, because the comparison at `War.swift:204`
    skips players who are out, and after a draw all of them are.

Where a comment promises more than the code does, as for the tie-break by suits, the model follows the code.

## Model

| member | source | states |
|---|---|---|
| `DbFormat.NewestIsMaximal` | CardCrucible/Pods/leveldb-library/db/dbformat.h:47-60 | The reference read: it finds an entry of the user key at or below the snapshot with the greatest sequence, or there is none |
| `DbFormat.SeekFindsNewest` | CardCrucible/Pods/leveldb-library/db/dbformat.cc:121-139 | Seeking a sorted run to the lookup key lands on the newest visible entry, or on another user key when there is none |
| `DbFormat.SearchInOrderIsNewest` | CardCrucible/Pods/leveldb-library/db/db_impl.cc:1122-1134 | Sources ordered newer first: stopping at the first one that answers gives the newest entry of all of them together |
| `DbFormat.NewestFirst` | CardCrucible/Pods/leveldb-library/db/dbformat.cc:51-67 | Internal keys ascend by user key, then descend by sequence number, then by type |
| `Compaction.Compaction.IsBaseLevelForKey` | CardCrucible/Pods/leveldb-library/db/version_set.cc:1533-1552 | For keys asked about in ascending order the moving cursors answer exactly what a scan of all deeper files answers |
| `Compaction.Compaction.DoCompactionWork` | CardCrucible/Pods/leveldb-library/db/db_impl.cc:878-999 | The output files hold exactly the entries the drop rules keep, in order, and each file's bounds are its first and last key |
| `Compaction.Compaction.AddToOutput` | CardCrucible/Pods/leveldb-library/db/db_impl.cc:951-975 | An entry goes to the end of the open output, and the bounds of every output stay right |
| `Compaction.KeptSorted` | CardCrucible/Pods/leveldb-library/db/db_impl.cc:951-975 | The outputs stay in internal-key order, so they can be installed as disjoint files |
| `Compaction.KeptNewest` | CardCrucible/Pods/leveldb-library/db/db_impl.cc:914-941 | At every point of the loop a reader at a permitted snapshot gets the same newest entry from the kept entries, or loses only a deletion no deeper level needs |
| `Compaction.PrecedingEntry` | CardCrucible/Pods/leveldb-library/db/db_impl.cc:914-932 | last_sequence_for_key says whether some earlier entry of the user key already answers every permitted snapshot |
| `Compaction.DroppedExactlyWhen` | CardCrucible/Pods/leveldb-library/db/db_impl.cc:930-957 | An entry of a sorted run goes if and only if it parses and either an earlier entry of its user key, with none unparsable in between, is at or below smallest_snapshot, or it is a deletion at or below it and no deeper file holds the user key |
| `Compaction.KeptExactlyWhen` | CardCrucible/Pods/leveldb-library/db/db_impl.cc:930-975 | So the entries that stay are exactly the others |
| `Compaction.OneOldEntry` | CardCrucible/Pods/leveldb-library/db/db_impl.cc:946-948 | Of the entries of one user key at or below smallest_snapshot at most one stays |
| `Compaction.CompactionPreservesReads` | CardCrucible/Pods/leveldb-library/db/db_impl.cc:890-999 | For every key and every snapshot not below smallest_snapshot, a read through the kept entries and what lies deeper gives the value it gave through all inputs |
| `Compaction.ReadsChangeExactlyWhen` | CardCrucible/Pods/leveldb-library/db/db_impl.cc:890-999 | With older entries of the two levels left outside the inputs, some read at a permitted snapshot changes if and only if nothing ahead of the inputs answers, their newest entry is a deletion with no deeper level below, and what is left behind holds a value |
| `Compaction.ResurrectedRead` | CardCrucible/Pods/leveldb-library/db/db_impl.cc:914-936 | What such a read gives: nothing before the compaction, the old value after it |
| `CompactionSafety.LeftBehindIsNewer` | CardCrucible/Pods/leveldb-library/db/version_set.cc:1378-1401 | With no boundary file left, every file the selection leaves behind at the upper level holds only newer entries of the inputs' user keys |
| `CompactionSafety.MergeInPlace` | CardCrucible/Pods/leveldb-library/db/db_impl.cc:878-999 | Replacing the inputs of both levels by their merged run changes no read, wherever the remaining files stand |
| `CompactionSafety.MergedReads` | CardCrucible/Pods/leveldb-library/db/version_set.cc:1403-1462 | From what SetupOtherInputs leaves: the merged inputs read like the files they replace, and what stays behind them is older |
| `CompactionSafety.ReadsChangeExactlyWhenLost` | CardCrucible/Pods/leveldb-library/db/version_set.cc:1403-1462 | Selection, merge and drop rules together, over the whole version: some permitted read of a user key changes if and only if nothing ahead of the inputs answers, their newest entry of it is a deletion with no deeper level below, and the lower files behind them hold a value of it |
| `CompactionSafety.ChosenCompactionPreservesReads` | CardCrucible/Pods/leveldb-library/db/version_set.cc:1403-1462 | Hence whenever the lower inputs end between user keys, every permitted read over the whole version is unchanged |
| `CompactionSafety.CutUserKeyComesBack` | CardCrucible/Pods/leveldb-library/db/version_set.cc:1407-1411 | Counterexample on real files: only the upper inputs are extended by boundary files, so of two lower files that share a user key the first alone is chosen, and the deletion it ends with is dropped in front of the old value |
| `CompactionSafety.NewLevelIsOk` | CardCrucible/Pods/leveldb-library/db/version_set.cc:698-738 | With the outputs in place of the lower inputs the level is sorted and without overlap again |
| `CompactionSafety.NewVersionIsInOrder` | CardCrucible/Pods/leveldb-library/db/version_set.cc:1403-1462 | The installed version lists newer entries first and no entry twice, so the theorems apply to the next compaction |
| `CompactionSafety.NewVersionReads` | CardCrucible/Pods/leveldb-library/db/version_set.cc:324-417 | Reading through the installed output files is reading through the entries that were kept |
| `CompactionSafety.NewestOfSameEntries` | CardCrucible/Pods/leveldb-library/db/dbformat.h:47-60 | A read depends on which entries there are, not on where they stand |
| `InputSelection.GetOverlappingInputs` | CardCrucible/Pods/leveldb-library/db/version_set.cc:519-559 | Ends despite its restarts; at level 0 the result is what overlaps the least range around the query that is closed under overlap, elsewhere exactly what overlaps it |
| `InputSelection.RangeWidens` | CardCrucible/Pods/leveldb-library/db/version_set.cc:537-555 | Each restart widens the range only as far as every closed range must reach |
| `InputSelection.SelectionIsClosed` | CardCrucible/Pods/leveldb-library/db/version_set.cc:537-555 | A level-0 file overlapping a selected one is selected too |
| `InputSelection.FindLargestKey` | CardCrucible/Pods/leveldb-library/db/version_set.cc:1326-1341 | The largest of the files' largest keys, and none exactly for no files |
| `InputSelection.FindSmallestBoundaryFile` | CardCrucible/Pods/leveldb-library/db/version_set.cc:1344-1361 | The boundary file with the smallest key, and none exactly when there is no boundary file |
| `InputSelection.AddBoundaryInputs` | CardCrucible/Pods/leveldb-library/db/version_set.cc:1378-1401 | Ends, keeps what was chosen, adds boundary files one after the other, and leaves no file whose smallest key continues the user key of the largest one |
| `InputSelection.ChainedContiguous` | CardCrucible/Pods/leveldb-library/db/version_set.cc:1378-1401 | On a sorted level boundary files extend a gapless selection to a gapless one |
| `InputSelection.NextBoundaryFollows` | CardCrucible/Pods/leveldb-library/db/version_set.cc:1344-1361 | The next boundary file of a slice of a sorted level is the file right behind it |
| `InputSelection.ClosedHasNoBoundary` | CardCrucible/Pods/leveldb-library/db/version_set.cc:519-559 | A level-0 selection closed under overlap never has a boundary file |
| `InputSelection.GetRange` | CardCrucible/Pods/leveldb-library/db/version_set.cc:1205-1225 | The smallest and largest key over all inputs |
| `InputSelection.SelectedMonotone` | CardCrucible/Pods/leveldb-library/db/version_set.cc:519-559 | A wider range selects at least as many files, and the same ones if it does not select more |
| `InputSelection.SelectedIsSlice` | CardCrucible/Pods/leveldb-library/db/version_set.cc:519-559 | On a sorted level the files overlapping a range are consecutive |
| `InputSelection.BoundariesKeepChosen` | CardCrucible/Pods/leveldb-library/db/version_set.cc:1378-1401 | Boundary files leave a well-chosen input set well chosen, and at level 0 there are none |
| `InputSelection.OverlappingIsChosen` | CardCrucible/Pods/leveldb-library/db/version_set.cc:1403-1440 | What overlaps the range of a choice is a choice again and contains it |
| `InputSelection.GrownIsChosen` | CardCrucible/Pods/leveldb-library/db/version_set.cc:1413-1440 | The expanded upper inputs are still well chosen and contain the original ones |
| `InputSelection.SetupOtherInputs` | CardCrucible/Pods/leveldb-library/db/version_set.cc:1403-1462 | The final inputs contain the given ones, have no boundary file left at the upper level, and take in every lower file that overlaps them; the upper side grows exactly when that takes in more files, stays below the byte limit and costs no more lower files |
| `VersionBuilder.MergeMembers` | CardCrucible/Pods/leveldb-library/db/version_set.cc:695-738 | A saved level holds exactly the base and added files that are not deleted |
| `VersionBuilder.MergeSorted` | CardCrucible/Pods/leveldb-library/db/version_set.cc:695-738 | A saved level is in order of (smallest key, number) |
| `VersionBuilder.OnceIsEach` | CardCrucible/Pods/leveldb-library/db/version_set.cc:650-738 | When no file is added twice, gathering all edits and saving once gives the level that saving after each edit gives |
| `VersionBuilder.OnceIsEachExactlyWhen` | CardCrucible/Pods/leveldb-library/db/version_set.cc:924-970 | Into the empty version, gathering all edits and saving once gives what saving after each edit gives if and only if no file is added twice without being deleted for good in between |
| `VersionBuilder.SavedLevel` | CardCrucible/Pods/leveldb-library/db/version_set.cc:695-738 | Each saved level is (base minus deleted) plus added, in order |
| `VersionBuilder.FileAddedTwice` | CardCrucible/Pods/leveldb-library/db/version_set.cc:689-738 | Counterexample for two edits that add one file: recovery lists it once, the version it replays twice |
| `VersionBuilder.Builder.constructor` | CardCrucible/Pods/leveldb-library/db/version_set.cc:621-633 | A builder starts with nothing deleted and nothing added |
| `VersionBuilder.Builder.Apply` | CardCrucible/Pods/leveldb-library/db/version_set.cc:650-692 | One edit changes the gathered state of every level as that level's part of the edit says |
| `VersionBuilder.Builder.UpdatePointers` | CardCrucible/Pods/leveldb-library/db/version_set.cc:651-656 | Each level named in the edit gets the last compaction pointer given for it, the others keep theirs |
| `VersionBuilder.Builder.SaveTo` | CardCrucible/Pods/leveldb-library/db/version_set.cc:695-738 | The version saved is the merge of base and gathered changes at every level |
| `VersionBuilder.Builder.SaveOneLevel` | CardCrucible/Pods/leveldb-library/db/version_set.cc:701-717 | The upper-bound loop computes the ordered merge of one level |
| `VersionBuilder.Builder.UpperBound` | CardCrucible/Pods/leveldb-library/db/version_set.cc:708-712 | The first base file behind the given one in builder order |
| `VersionBuilder.ReplayIsHistory` | CardCrucible/Pods/leveldb-library/db/version_set.cc:924-970 | One builder fed every record of a well-formed manifest reaches the version that installing the records one by one reaches |
| `VersionBuilder.ReplayIsHistoryExactlyWhen` | CardCrucible/Pods/leveldb-library/db/version_set.cc:924-970 | Recovery reaches the version that installing the records one by one reached if and only if, at every level, no file was added twice without being deleted for good in between |
| `VersionBuilder.LevelAfterEdit` | CardCrucible/Pods/leveldb-library/db/version_set.cc:801-871 | A level after an edit is the same, replayed from all records or from a snapshot record and the edit |
| `VersionBuilder.VersionAfterEdit` | CardCrucible/Pods/leveldb-library/db/version_set.cc:801-871 | After an edit each level holds the files that were there and not deleted, and the added ones, in order |
| `VersionBuilder.Installed` | CardCrucible/Pods/leveldb-library/db/version_set.cc:801-871 | Appending an edit, with or without a snapshot in front, leaves a manifest that describes the new version |
| `VersionBuilder.RecoveredIsDescribed` | CardCrucible/Pods/leveldb-library/db/version_set.cc:924-1002 | What recovery rebuilds is described by the manifest it read |
| `VersionBuilder.VersionSet.constructor` | CardCrucible/Pods/leveldb-library/db/version_set.cc:757-775 | A new set has the empty version and no records |
| `VersionBuilder.VersionSet.NewFileNumber` | CardCrucible/Pods/leveldb-library/db/version_set.h:194-194 | The number handed out is above every number in the manifest |
| `VersionBuilder.VersionSet.WriteSnapshot` | CardCrucible/Pods/leveldb-library/db/version_set.cc:1088-1116 | One record that describes the whole current version and every compaction pointer |
| `VersionBuilder.VersionSet.ListPointers` | CardCrucible/Pods/leveldb-library/db/version_set.cc:1095-1102 | Lists the pointer of every level that has one |
| `VersionBuilder.VersionSet.SetLastSequence` | CardCrucible/Pods/leveldb-library/db/version_set.h:214-218 | The last sequence number only grows, and what the manifest records stays at or below it |
| `VersionBuilder.VersionSet.LogAndApply` | CardCrucible/Pods/leveldb-library/db/version_set.cc:801-871 | On success the current version is the edited one, the manifest describes it, and records the running last sequence and next file number; on failure nothing changes but the compaction pointers, which have moved already |
| `VersionBuilder.VersionSet.Recover` | CardCrucible/Pods/leveldb-library/db/version_set.cc:886-1002 | Succeeds exactly when every comparator fits and the three counters are present; then every level is what replay leads to, which is what installing the records one by one led to exactly when no file was added twice, and the counters are the last ones recorded |
| `VersionBuilder.ManifestRoundTrip` | CardCrucible/Pods/leveldb-library/db/version_set.cc:801-1002 | Recovering the manifest that a successful LogAndApply leaves gives back version, log numbers and last sequence, and goes on with file numbers above every one in use |
| `VersionBuilder.PointersRoundTrip` | CardCrucible/Pods/leveldb-library/db/version_set.cc:650-656 | The manifest restores the compaction pointers that moving them record by record led to, appended to or started from a snapshot |
| `VersionBuilder.PointedUnique` | CardCrucible/Pods/leveldb-library/db/version_set.cc:650-656 | The records determine the pointers |
| `VersionBuilder.VersionSet.ReadRecords` | CardCrucible/Pods/leveldb-library/db/version_set.cc:924-956 | Ends with the builder and the counters that all records leave, exactly when every record names this comparator |
| `InternalIterator.Cursor.Seek` | CardCrucible/Pods/leveldb-library/db/skiplist.h:223-226 | The cursor lands on the first entry not below the target |
| `InternalIterator.Cursor.Prev` | CardCrucible/Pods/leveldb-library/db/skiplist.h:212-221 | One entry back, or off the front |
| `DbIter.YieldIsInSnapshot` | CardCrucible/Pods/leveldb-library/db/db_iter.cc:168-198 | An entry a scan may stop at is a binding of the snapshot map |
| `DbIter.SnapshotIsYielded` | CardCrucible/Pods/leveldb-library/db/db_iter.cc:168-198 | Every binding of the snapshot map is yielded by some entry |
| `DbIter.ScanStopsAtYield` | CardCrucible/Pods/leveldb-library/db/db_iter.cc:168-198 | The forward scan stops at the first binding that is not hidden, passing only hidden ones |
| `DbIter.SeekBoundary` | CardCrucible/Pods/leveldb-library/db/db_iter.cc:269-281 | The lookup key separates the live entries by user key |
| `DbIter.GatherResult` | CardCrucible/Pods/leveldb-library/db/db_iter.cc:227-267 | The backward scan ends holding the greatest binding before its start, or there is none |
| `DbIter.DBIter.constructor` | CardCrucible/Pods/leveldb-library/db/db_iter.cc:50-60 | A new iterator shows nothing |
| `DbIter.DBIter.ShowsBinding` | CardCrucible/Pods/leveldb-library/db/db_iter.cc:63-71 | Whatever the direction, a valid iterator shows a key of the snapshot map with its value |
| `DbIter.DBIter.FindNextUserEntry` | CardCrucible/Pods/leveldb-library/db/db_iter.cc:168-198 | Leaves the internal cursor exactly where the forward scan stops |
| `DbIter.DBIter.FindPrevUserEntry` | CardCrucible/Pods/leveldb-library/db/db_iter.cc:227-267 | Leaves the internal cursor and the saved entry exactly where the backward scan ends |
| `DbIter.DBIter.ParseKey` | CardCrucible/Pods/leveldb-library/db/db_iter.cc:122-139 | Tells whether the key parses and records corruption |
| `DbIter.DBIter.Next` | CardCrucible/Pods/leveldb-library/db/db_iter.cc:141-166 | Moves to the next greater key of the snapshot map, from either direction |
| `DbIter.DBIter.Prev` | CardCrucible/Pods/leveldb-library/db/db_iter.cc:200-225 | Moves to the next smaller key of the snapshot map, from either direction |
| `DbIter.DBIter.Seek` | CardCrucible/Pods/leveldb-library/db/db_iter.cc:269-281 | Moves to the least key of the snapshot map not below the target |
| `DbIter.DBIter.SeekToFirst` | CardCrucible/Pods/leveldb-library/db/db_iter.cc:283-292 | Moves to the least key of the snapshot map |
| `DbIter.DBIter.SeekToLast` | CardCrucible/Pods/leveldb-library/db/db_iter.cc:294-299 | Moves to the greatest key of the snapshot map |
| `MergingIterator.MergingIterator.constructor` | CardCrucible/Pods/leveldb-library/table/merger.cc:16-25 | Over sorted cursors with pairwise distinct keys; shows nothing yet |
| `MergingIterator.MergingIterator.FindSmallest` | CardCrucible/Pods/leveldb-library/table/merger.cc:148-161 | Picks the least entry of the union not past the cut |
| `MergingIterator.MergingIterator.FindLargest` | CardCrucible/Pods/leveldb-library/table/merger.cc:163-176 | Picks the greatest entry of the union before the cut |
| `MergingIterator.MergingIterator.SeekToFirst` | CardCrucible/Pods/leveldb-library/table/merger.cc:31-37 | Shows the least entry of the union |
| `MergingIterator.MergingIterator.SeekToLast` | CardCrucible/Pods/leveldb-library/table/merger.cc:39-45 | Shows the greatest entry of the union |
| `MergingIterator.MergingIterator.Seek` | CardCrucible/Pods/leveldb-library/table/merger.cc:47-53 | Shows the least entry of the union not below the target |
| `MergingIterator.MergingIterator.Next` | CardCrucible/Pods/leveldb-library/table/merger.cc:55-79 | Shows the successor in the union, also when it has to turn round |
| `MergingIterator.MergingIterator.Prev` | CardCrucible/Pods/leveldb-library/table/merger.cc:81-108 | Shows the predecessor in the union, also when it has to turn round |
| `MergingIterator.MergingIterator.StepsThroughUnion` | CardCrucible/Pods/leveldb-library/table/merger.cc:55-108 | On the sorted union the two moves are one step right and one step left |
| `MergingIterator.MergingIterator.ActsAsCursor` | CardCrucible/Pods/leveldb-library/table/merger.cc:55-108 | Every move leads where it leads the cursor that the user iterator is proved over, on the sorted union |
| `MergingIterator.SortedUnion` | CardCrucible/Pods/leveldb-library/table/merger.cc:14-55 | Children without a common key have a sorted union |
| `GroupCommit.Extend` | CardCrucible/Pods/leveldb-library/db/db_impl.cc:1282-1303 | A group stops in front of a sync writer unless its leader syncs |
| `GroupCommit.BuildBatchGroup` | CardCrucible/Pods/leveldb-library/db/db_impl.cc:1260-1306 | The group batch is the concatenation of its members' batches in queue order |
| `GroupCommit.GroupIsLongest` | CardCrucible/Pods/leveldb-library/db/db_impl.cc:1263-1318 | The group ends in front of the first writer whose batch would take it over the size limit or who asks a leader that does not sync for a sync, or takes in the whole queue |
| `GroupCommit.InitInv` | CardCrucible/Pods/leveldb-library/db/db_impl.cc:1185-1258 | The protocol invariant holds at the start |
| `GroupCommit.StepKeepsInv` | CardCrucible/Pods/leveldb-library/db/db_impl.cc:1185-1258 | Every step of every writer keeps the invariant |
| `GroupCommit.RunKeepsInv` | CardCrucible/Pods/leveldb-library/db/db_impl.cc:1185-1258 | The invariant holds in every state of every interleaving |
| `GroupCommit.CommittedOnceInOrder` | CardCrucible/Pods/leveldb-library/db/db_impl.cc:1185-1258 | In every reachable state each call is finished or queued exactly once in arrival order, and without I/O errors log and memtable hold the finished batches in that order with consecutive sequence numbers |
| `GroupCommit.SuccessMeansApplied` | CardCrucible/Pods/leveldb-library/db/db_impl.cc:1192-1255 | A call told success has its whole batch in the memtable with consecutive numbers |
| `GroupCommit.SuccessMeansSynced` | CardCrucible/Pods/leveldb-library/db/db_impl.cc:1213-1224 | A sync call told success has its batch in a log record its leader synced |
| `GroupCommit.FailureMeansNotApplied` | CardCrucible/Pods/leveldb-library/db/db_impl.cc:1213-1236 | A call told failure was in no group that reached the memtable |
| `GroupCommit.SequencesIncrease` | CardCrucible/Pods/leveldb-library/db/db_impl.cc:1202-1237 | Sequence numbers in the memtable strictly increase in every reachable state, failures included |
| `GroupCommit.NothingAfterFailedSync` | CardCrucible/Pods/leveldb-library/db/db_impl.cc:1226-1232 | Once a sync has failed, log and memtable never change again and every later group is told failure |
| `GroupCommit.StepKeepsHalted` | CardCrucible/Pods/leveldb-library/db/db_impl.cc:1226-1232 | A failed sync records the background error, and with it recorded no step writes |
| `GroupCommit.SignalsSuffice` | CardCrucible/Pods/leveldb-library/db/db_impl.cc:1239-1253 | After a leader has signalled the members of its group and the new front writer, whoever still waits is behind that one |
| `GroupCommit.NobodySleepsOn` | CardCrucible/Pods/leveldb-library/db/db_impl.cc:1191-1253 | No signal is lost: in every reachable state the front writer is awake, and so is everybody who has been told a result |
| `GroupCommit.WaitingCallGoesOn` | CardCrucible/Pods/leveldb-library/db/db_impl.cc:1191-1255 | While a call has not returned, an awake writer can go on: the call itself once it is told its result, before that the front writer |
| `GroupCommit.FrontWriterGoesOn` | CardCrucible/Pods/leveldb-library/db/db_impl.cc:1191-1201 | The front writer leads, or is awake and can start to |
| `GroupCommit.CallsReturn` | CardCrucible/Pods/leveldb-library/db/db_impl.cc:1191-1255 | Every step of a leader and every return leaves less to do, and a wait that ends for no reason leaves as much, so without new calls all calls return |
| `GroupCommit.PopGroup` | CardCrucible/Pods/leveldb-library/db/db_impl.cc:1239-1249 | Popping a group removes exactly its members from the front of the queue and wakes each once |
| `GroupCommit.FinishKeepsInv` | CardCrucible/Pods/leveldb-library/db/db_impl.cc:1236-1255 | Finishing a group keeps the invariant |
| `SkipList.RaiseKeepsHeap` | CardCrucible/Pods/leveldb-library/db/skiplist.h:346-359 | Raising max_height before the new levels are linked keeps every level sorted and nested |
| `SkipList.PrepareKeepsHeap` | CardCrucible/Pods/leveldb-library/db/skiplist.h:362-367 | Storing the new node's own pointer is invisible and harmless |
| `SkipList.PublishKeepsHeap` | CardCrucible/Pods/leveldb-library/db/skiplist.h:362-367 | Publishing the node behind its predecessor keeps each level strictly sorted and nested in the one below |
| `SkipList.PrevIsStrict` | CardCrucible/Pods/leveldb-library/db/skiplist.h:262-281 | What the search returns per level is the last node below the key |
| `SkipList.SkipList.constructor` | CardCrucible/Pods/leveldb-library/db/skiplist.h:325-334 | An empty list |
| `SkipList.SkipList.FindGreaterOrEqual` | CardCrucible/Pods/leveldb-library/db/skiplist.h:262-281 | The least node not below the key, and on each level its predecessor |
| `SkipList.SkipList.FindLessThan` | CardCrucible/Pods/leveldb-library/db/skiplist.h:285-302 | The greatest node below the key |
| `SkipList.SkipList.FindLast` | CardCrucible/Pods/leveldb-library/db/skiplist.h:305-322 | The greatest node |
| `SkipList.SkipList.Contains` | CardCrucible/Pods/leveldb-library/db/skiplist.h:371-378 | Exactly the keys inserted |
| `SkipList.SkipList.Insert` | CardCrucible/Pods/leveldb-library/db/skiplist.h:337-368 | Adds the key, and after every single store the memory is a well-formed list that only grew |
| `SkipList.SkipList.NewNode` | CardCrucible/Pods/leveldb-library/db/skiplist.h:182-187 | A node nothing points to yet |
| `SkipList.SkipList.LinkLevel` | CardCrucible/Pods/leveldb-library/db/skiplist.h:362-367 | The two stores that link one level |
| `SkipList.WalkIsSortedLevel` | CardCrucible/Pods/leveldb-library/db/skiplist.h:262-281 | Walking a level visits exactly its later keys in strictly ascending order |
| `SkipList.LevelsNest` | CardCrucible/Pods/leveldb-library/db/skiplist.h:337-368 | In every observable state each level is a subsequence of the one below |
| `SkipList.HistoryGrows` | CardCrucible/Pods/leveldb-library/db/skiplist.h:337-368 | Later memory contains earlier memory, store by store |
| `SkipList.ReaderStepOk` | CardCrucible/Pods/leveldb-library/db/skiplist.h:262-281 | No single load of a reader goes wrong, whatever stores came between |
| `SkipList.ReaderStaysOk` | CardCrucible/Pods/leveldb-library/db/skiplist.h:262-281 | What a reader knows stays right through any interleaving |
| `SkipList.ReaderFindsWhatWasThere` | CardCrucible/Pods/leveldb-library/db/skiplist.h:262-281 | A reader whose steps interleave with inserts still finds a key that was there when it began, or one between it and the target |
| `PointLookup.FindFile` | CardCrucible/Pods/leveldb-library/db/version_set.cc:88-106 | Binary search: the first file whose largest key is not below the target |
| `PointLookup.SomeFileOverlapsRange` | CardCrucible/Pods/leveldb-library/db/version_set.cc:122-156 | For disjoint files the binary search answers like a scan |
| `PointLookup.GetFromRun` | CardCrucible/Pods/leveldb-library/db/version_set.cc:263-276 | Seek plus one look tells the newest visible entry of a run |
| `PointLookup.OneFilePerLevel` | CardCrucible/Pods/leveldb-library/db/version_set.cc:365-383 | No other file of a level holds an entry visible to the lookup but later pieces of the same user key, which are older |
| `PointLookup.LevelNewest` | CardCrucible/Pods/leveldb-library/db/version_set.cc:365-383 | The newest entry of a level is that of the one selected file |
| `PointLookup.SortInRange` | CardCrucible/Pods/leveldb-library/db/version_set.cc:349-364 | Sorting the level-0 files that cover the key is picking from the sorted ones |
| `PointLookup.SearchInRange` | CardCrucible/Pods/leveldb-library/db/version_set.cc:349-364 | Files that do not cover the key cannot answer |
| `PointLookup.Version.Get` | CardCrucible/Pods/leveldb-library/db/version_set.cc:326-421 | The search of level 0 newest first and one file per deeper level answers like searching every file in that order |
| `PointLookup.Version.SearchLevelZero` | CardCrucible/Pods/leveldb-library/db/version_set.cc:349-417 | Level 0 is searched newest file first among those that cover the key |
| `PointLookup.Get` | CardCrucible/Pods/leveldb-library/db/db_impl.cc:1122-1134 | Memtable, immutable memtable, then the version: Found(v) exactly when a read of all their entries gives v, and NotFound exactly when it gives none |
| `PointLookup.LookupFindsNewest` | CardCrucible/Pods/leveldb-library/db/db_impl.cc:1122-1134 | When newer sources hold newer entries, the lookup gives the entry of greatest sequence at or below the snapshot over everything |
| `PointLookup.AnswerIsRead` | CardCrucible/Pods/leveldb-library/db/db_impl.cc:1122-1134 | When newer sources hold newer entries, what the lookup answers is what a read of all entries together gives |
| `PointLookup.VersionAnswerIsRead` | CardCrucible/Pods/leveldb-library/db/version_set.cc:324-417 | The same for the files of a version alone |
| `PointLookup.GetIsRead` | CardCrucible/Pods/leveldb-library/db/version_set.cc:263-276 | In terms of the entries: the value of the newest one at or below the snapshot, and not found exactly when that is a deletion or there is none |
| `PointLookup.SourcesHoldEverything` | CardCrucible/Pods/leveldb-library/db/db_impl.cc:1122-1134 | The sources searched hold exactly the entries of the memtables and of all files |
| `HandleTable.PutKeepsTable` | CardCrucible/Pods/leveldb-library/util/cache.cc:78-91 | Chaining a new handle represents the map with its binding added |
| `HandleTable.RemoveKeepsTable` | CardCrucible/Pods/leveldb-library/util/cache.cc:94-102 | Unchaining a handle represents the map without its binding |
| `HandleTable.ChainMoved` | CardCrucible/Pods/leveldb-library/util/cache.cc:122-145 | Moving the chains one by one ends with a table that represents the same map |
| `HandleTable.FoundIsMapped` | CardCrucible/Pods/leveldb-library/util/cache.cc:114-120 | The first match in its bucket is what the map holds, and without one the map holds nothing |
| `HandleTable.RestApart` | CardCrucible/Pods/leveldb-library/util/cache.cc:130-141 | A handle still to be moved is on no chain of the new table |
| `HandleTable.HandleTable.constructor` | CardCrucible/Pods/leveldb-library/util/cache.cc:71-72 | The empty map |
| `HandleChain.Bucket.FindPointer` | CardCrucible/Pods/leveldb-library/util/cache.cc:114-120 | The place that points to the first matching handle of the chain, or to its end when there is none |
| `HandleChain.Bucket.Insert` | CardCrucible/Pods/leveldb-library/util/cache.cc:78-92 | The linked chain has the new handle in the place of the matching one, or at its end |
| `HandleChain.Bucket.Remove` | CardCrucible/Pods/leveldb-library/util/cache.cc:94-102 | The linked chain lacks exactly the matching handle |
| `HandleChain.Bucket.MoveFirst` | CardCrucible/Pods/leveldb-library/util/cache.cc:132-140 | The first handle of the old chain becomes the first one of the new chain; both are linked |
| `HandleChain.InsertAt` | CardCrucible/Pods/leveldb-library/util/cache.cc:78-82 | What happens in one bucket leaves the links of all others as they are |
| `HandleChain.MoveFirstAt` | CardCrucible/Pods/leveldb-library/util/cache.cc:130-140 | Moving a handle leaves the other buckets of both tables as they are |
| `HandleTable.HandleTable.Lookup` | CardCrucible/Pods/leveldb-library/util/cache.cc:74-76 | What the finite map holds |
| `HandleTable.HandleTable.Insert` | CardCrucible/Pods/leveldb-library/util/cache.cc:78-92 | Over linked buckets: updates the map and hands back the replaced handle |
| `HandleTable.HandleTable.Remove` | CardCrucible/Pods/leveldb-library/util/cache.cc:94-102 | Removes the binding and hands it back |
| `HandleTable.HandleTable.Resize` | CardCrucible/Pods/leveldb-library/util/cache.cc:122-145 | Every handle is relinked into a table of at least as many buckets as handles; the map is the same |
| `HandleTable.HandleTable.NewLength` | CardCrucible/Pods/leveldb-library/util/cache.cc:122-126 | The new length is the least power of two from 4 on that is not below the number of elements |
| `HandleTable.HandleTable.MoveChain` | CardCrucible/Pods/leveldb-library/util/cache.cc:131-140 | Relinks the handles of one old bucket into the new ones, first to last, until the bucket is empty |
| `LruRing.Remove` | CardCrucible/Pods/leveldb-library/util/cache.cc:239-242 | Unlinking an entry leaves the others of its list linked in order, and the other list as it is |
| `LruRing.Append` | CardCrucible/Pods/leveldb-library/util/cache.cc:244-250 | Linking an entry before the dummy head makes it the newest of the list; the other list stays as it is |
| `LruRing.HeadLinks` | CardCrucible/Pods/leveldb-library/util/cache.cc:153-160 | Behind the dummy head is the oldest entry, or the head itself exactly in an empty list |
| `LruCache.TakeRefOk` | CardCrucible/Pods/leveldb-library/util/cache.cc:217-223 | A first client moves the entry from the LRU list to in-use and keeps the lists in order |
| `LruCache.DropRefOk` | CardCrucible/Pods/leveldb-library/util/cache.cc:225-237 | The last client's release moves it back, newest |
| `LruCache.AttachDetachCommute` | CardCrucible/Pods/leveldb-library/util/cache.cc:266-303 | Linking the new entry before unlinking the replaced one has the effect of the other order |
| `LruCache.ReplaceOk` | CardCrucible/Pods/leveldb-library/util/cache.cc:266-303 | Inserting keeps the lists an exact split of the mapped handles with their charges summed |
| `LruCache.EvictOne` | CardCrucible/Pods/leveldb-library/util/cache.cc:291-303 | One eviction removes the oldest entry |
| `LruCache.EvictionIsOldestFirst` | CardCrucible/Pods/leveldb-library/util/cache.cc:291-303 | Victims are a prefix of the list in least-recently-released order, and eviction stops at the capacity or at an empty list |
| `LruCache.OldestReleaseFirst` | CardCrucible/Pods/leveldb-library/util/cache.cc:225-237 | Over any run of look-ups, releases, insertions, removals and evictions, the entries that may be evicted stand in the order of their last releases, so the victim is the one released longest ago |
| `LruCache.LRUCache.constructor` | CardCrucible/Pods/leveldb-library/util/cache.cc:197-203 | Empty |
| `LruCache.LRUCache.LRU_Remove` | CardCrucible/Pods/leveldb-library/util/cache.cc:239-242 | The entry leaves the list it is on; both rings stay linked |
| `LruCache.LRUCache.LRU_Append` | CardCrucible/Pods/leveldb-library/util/cache.cc:244-250 | The entry becomes the newest of the list of the given head; both rings stay linked |
| `LruCache.LRUCache.Ref` | CardCrucible/Pods/leveldb-library/util/cache.cc:217-223 | Adds a client reference; the first one moves the entry from one linked list to the other |
| `LruCache.LRUCache.Unref` | CardCrucible/Pods/leveldb-library/util/cache.cc:225-237 | Drops one reference; the deleter runs exactly at the last one |
| `LruCache.LRUCache.Lookup` | CardCrucible/Pods/leveldb-library/util/cache.cc:252-259 | The mapped handle, with one more client |
| `LruCache.LRUCache.Release` | CardCrucible/Pods/leveldb-library/util/cache.cc:261-264 | One client less |
| `LruCache.LRUCache.Insert` | CardCrucible/Pods/leveldb-library/util/cache.cc:266-303 | Replaces the entry of the key, then evicts oldest first down to the capacity; capacity 0 caches nothing |
| `LruCache.LRUCache.Link` | CardCrucible/Pods/leveldb-library/util/cache.cc:280-289 | Puts the new entry into list and table |
| `LruCache.LRUCache.Shrink` | CardCrucible/Pods/leveldb-library/util/cache.cc:295-302 | Evicts exactly what the eviction order says |
| `LruCache.LRUCache.FinishErase` | CardCrucible/Pods/leveldb-library/util/cache.cc:307-316 | Takes an entry out of cache and lists and drops the cache's reference |
| `LruCache.LRUCache.Erase` | CardCrucible/Pods/leveldb-library/util/cache.cc:318-321 | Unmaps the key; clients keep their handle until they release it |
| `LruCache.LRUCache.Prune` | CardCrucible/Pods/leveldb-library/util/cache.cc:323-333 | Drops every entry without clients and no other |
| `Coding.FixedRoundTrip` | CardCrucible/Pods/leveldb-library/util/coding.cc:9-33 | Little-endian bytes read back as the number |
| `Coding.FixedIsOnto` | CardCrucible/Pods/leveldb-library/util/coding.h:60-86 | Every byte string of the width is the encoding of what it decodes to |
| `Coding.VarintRoundTrip` | CardCrucible/Pods/leveldb-library/util/coding.cc:47-90 | A varint in range reads back, stops right behind itself and takes at most 5 or 10 bytes |
| `Coding.EncodeVarint32` | CardCrucible/Pods/leveldb-library/util/coding.cc:47-73 | The five unrolled branches write what the general loop writes |
| `Coding.EncodeVarint64` | CardCrucible/Pods/leveldb-library/util/coding.cc:81-90 | The loop writes the varint |
| `Coding.VarintLength` | CardCrucible/Pods/leveldb-library/util/coding.cc:103-110 | The length of the encoding |
| `Coding.ParseVarint32` | CardCrucible/Pods/leveldb-library/util/coding.h:90-98 | Fast path and fallback loop read what the specification reads, on every input |
| `Coding.LengthPrefixedRoundTrip` | CardCrucible/Pods/leveldb-library/util/coding.cc:98-101 | A length-prefixed string reads back, whatever follows |
| `Coding.LengthPrefixedCut` | CardCrucible/Pods/leveldb-library/util/coding.cc:181-190 | A string that is cut off, in its length or behind it, is not read |
| `Coding.Fixed32sAt` | CardCrucible/Pods/leveldb-library/table/block_builder.cc:62-70 | The k-th number of a run of fixed32s is at 4k |
| `Comparator.RankOrder` | CardCrucible/Pods/leveldb-library/util/comparator.cc:25-27 | Byte strings under the bytewise order embed in the reals, so results about ranks hold for them |
| `Comparator.BytesLessTransitive` | CardCrucible/Pods/leveldb-library/util/comparator.cc:25-27 | The bytewise order is transitive |
| `Comparator.BytesLessTotal` | CardCrucible/Pods/leveldb-library/util/comparator.cc:25-27 | The bytewise order is total and irreflexive |
| `Comparator.FindShortestSeparator` | CardCrucible/Pods/leveldb-library/util/comparator.cc:29-50 | Still separates the two and is shorter: cut and incremented exactly where the first byte in which they differ leaves room for one in between, and otherwise unchanged |
| `Comparator.FindShortSuccessor` | CardCrucible/Pods/leveldb-library/util/comparator.cc:52-64 | Not below the key and shorter: cut and incremented at the first byte that is not 0xff, and unchanged exactly for a run of 0xff |
| `Comparator.InternalKeyRoundTrip` | CardCrucible/Pods/leveldb-library/db/dbformat.cc:14-23 | Appending and parsing an internal key undo each other, except for unknown kinds |
| `Comparator.TrailerBytes` | CardCrucible/Pods/leveldb-library/db/dbformat.cc:13-22 | Behind the user key stand the type byte and seven bytes of sequence number, lowest first |
| `Comparator.KeyLessIsLess` | CardCrucible/Pods/leveldb-library/db/dbformat.cc:51-67 | The comparator on bytes is the order of the decoded keys, and only equal bytes compare equal |
| `Comparator.KeyLessTransitive` | CardCrucible/Pods/leveldb-library/db/dbformat.cc:51-67 | A strict weak order |
| `Comparator.SeparatorOrder` | CardCrucible/Pods/leveldb-library/db/dbformat.cc:69-86 | A separator is not below start and below limit in internal-key order |
| `Comparator.FindShortestInternalSeparator` | CardCrucible/Pods/leveldb-library/db/dbformat.cc:69-86 | Between the two keys; the shortened user key with the earliest tag exactly when its user key gets shorter, and otherwise the key itself |
| `Comparator.FindShortInternalSuccessor` | CardCrucible/Pods/leveldb-library/db/dbformat.cc:88-101 | Not below the key; the shortened user key with the earliest tag exactly when it gets shorter |
| `Block.BlockBuilder.constructor` | CardCrucible/Pods/leveldb-library/table/block_builder.cc:41-45 | An empty block |
| `Block.BlockBuilder.Reset` | CardCrucible/Pods/leveldb-library/table/block_builder.cc:47-54 | Back to an empty block |
| `Block.BlockBuilder.Add` | CardCrucible/Pods/leveldb-library/table/block_builder.cc:72-106 | The entry goes to the end, sharing with the key before it all they have in common unless a restart is due, and a restart is due exactly every interval |
| `Block.BlockBuilder.SharedWith` | CardCrucible/Pods/leveldb-library/table/block_builder.cc:79-90 | The longest common prefix |
| `Block.BlockBuilder.Finish` | CardCrucible/Pods/leveldb-library/table/block_builder.cc:62-70 | The bytes encode exactly the entries added, with restart points at entries that share nothing |
| `Block.FinishedEncodes` | CardCrucible/Pods/leveldb-library/table/block_builder.cc:62-70 | Entries, restart array and count together are an encoding |
| `Block.OnlyOneLayout` | CardCrucible/Pods/leveldb-library/table/block_builder.cc:72-106 | Entries and restart interval determine the restart points and what every entry shares, and so the bytes |
| `Block.CompressedGrows` | CardCrucible/Pods/leveldb-library/table/block_builder.cc:72-106 | Adding an entry as the builder does keeps it so |
| `Block.KnownEntry` | CardCrucible/Pods/leveldb-library/table/block_builder.cc:92-99 | The bytes of an entry: shared, non-shared and value length, then key delta and value |
| `Block.KnownBlock` | CardCrucible/Pods/leveldb-library/table/block_builder.cc:62-70 | The bytes of a whole block: entries, restart points, their number |
| `Block.HeaderPaths` | CardCrucible/Pods/leveldb-library/table/block.cc:54-74 | The fast path of DecodeEntry reads what the three varints would |
| `Block.DecodeEntryAt` | CardCrucible/Pods/leveldb-library/table/block.cc:54-74 | An encoded entry decodes to its lengths and the place of its key bytes and value |
| `Block.ParsedEntry` | CardCrucible/Pods/leveldb-library/table/block.cc:224-251 | Given the prefix the key before supplies, an entry decodes to its key and value |
| `Block.RestartInBlock` | CardCrucible/Pods/leveldb-library/table/block.cc:104-124 | The restart array holds the offsets of the restart entries |
| `Block.RestartKey` | CardCrucible/Pods/leveldb-library/table/block.cc:170-184 | A restart entry spells its key out, so it can be compared on its own |
| `Block.OffsetsAscend` | CardCrucible/Pods/leveldb-library/table/block.cc:142-161 | Entries take at least three bytes, so offsets order entries |
| `Block.BlockIter.constructor` | CardCrucible/Pods/leveldb-library/table/block.cc:254-266 | Over a finished block, positioned at no entry |
| `Block.BlockIter.ValidMeansAt` | CardCrucible/Pods/leveldb-library/table/block.cc:126-135 | A valid iterator shows the key and value of its entry |
| `Block.BlockIter.SeekToFirst` | CardCrucible/Pods/leveldb-library/table/block.cc:203-206 | The first entry |
| `Block.BlockIter.SeekToLast` | CardCrucible/Pods/leveldb-library/table/block.cc:208-213 | The last entry |
| `Block.BlockIter.Next` | CardCrucible/Pods/leveldb-library/table/block.cc:137-140 | The next entry |
| `Block.BlockIter.Prev` | CardCrucible/Pods/leveldb-library/table/block.cc:142-161 | The entry before, from every valid position: the inverse of Next |
| `Block.BlockIter.RestartBefore` | CardCrucible/Pods/leveldb-library/table/block.cc:146-154 | The last restart point in front of the entry, or there is none |
| `Block.BlockIter.ScanTo` | CardCrucible/Pods/leveldb-library/table/block.cc:156-160 | Parsing on from a restart point reaches the entry in front of the given one |
| `Block.BlockIter.Seek` | CardCrucible/Pods/leveldb-library/table/block.cc:163-201 | The first entry not below the target |
| `Block.BlockIter.FindRestart` | CardCrucible/Pods/leveldb-library/table/block.cc:166-191 | Binary search: everything before the restart point found is below the target |
| `Block.BlockIter.ScanToKey` | CardCrucible/Pods/leveldb-library/table/block.cc:193-201 | The linear scan stops at the first key not below the target |
| `Block.BlockIter.ParseNextKey` | CardCrucible/Pods/leveldb-library/table/block.cc:224-251 | Shows the next entry, or the end |
| `Block.BlockIter.SeekToRestartPoint` | CardCrucible/Pods/leveldb-library/table/block.cc:104-113 | In front of the entry of a restart point |
| `Crc32c.BitsAreLinear` | CardCrucible/Pods/leveldb-library/util/crc32c.cc:276-377 | Shifting out bits is linear over exclusive or |
| `Crc32c.ZerosAreLinear` | CardCrucible/Pods/leveldb-library/util/crc32c.cc:276-377 | Running over zero bytes is linear |
| `Crc32c.ByteStep` | CardCrucible/Pods/leveldb-library/util/crc32c.cc:286-291 | The table step equals eight bit steps |
| `Crc32c.FoldWord` | CardCrucible/Pods/leveldb-library/util/crc32c.cc:312-320 | A word in one go equals its four bytes one by one |
| `Crc32c.LaneStep` | CardCrucible/Pods/leveldb-library/util/crc32c.cc:293-310 | Advancing a lane by a stride and a word is folding that word behind all four lanes |
| `Crc32c.ByteTableBasis` | CardCrucible/Pods/leveldb-library/util/crc32c.cc:20-63 | The printed byte-table entries for single bits are those the defining equation gives |
| `Crc32c.TablesExist` | CardCrucible/Pods/leveldb-library/util/crc32c.cc:20-247 | The equations asked of the tables can be met |
| `Crc32c.StrideStepIsZeros` | CardCrucible/Pods/leveldb-library/util/crc32c.cc:293-300 | The four stride-table lookups equal sixteen zero bytes |
| `Crc32c.Swath` | CardCrucible/Pods/leveldb-library/util/crc32c.cc:302-310 | Four words into four lanes equal folding sixteen bytes |
| `Crc32c.Extend` | CardCrucible/Pods/leveldb-library/util/crc32c.cc:276-377 | Alignment, four-lane strides, words and tail together equal the fold of one byte after the other |
| `Crc32c.ExtendComposes` | CardCrucible/Pods/leveldb-library/util/crc32c.cc:276-377 | Extending over a concatenation is extending twice |
| `Crc32c.UnmaskInvertsMask` | CardCrucible/Pods/leveldb-library/util/crc32c.h:29-38 | Mask and Unmask invert each other on all 32-bit values |
| `Crc32c.CheckValue` | CardCrucible/Pods/leveldb-library/util/crc32c.h:19-20 | The checksum of the digits 1 to 9 is 0xe3069283, the check value of CRC32C |
| `Crc32c.MaskedBits` | CardCrucible/Pods/leveldb-library/util/crc32c.h:29-32 | Masks of single bits: the rotation by 15 and the constant |
| `Checksum.ExtendValue` | CardCrucible/Pods/leveldb-library/util/crc32c.h:20-20 | The value of a concatenation is the extension of the value |
| `Checksum.StoredMatches` | CardCrucible/Pods/leveldb-library/util/crc32c.h:29-38 | A stored checksum matches the bytes it was made from |
| `Checksum.MatchesOnlyStored` | CardCrucible/Pods/leveldb-library/util/crc32c.h:22-38 | A stored number matches some bytes exactly when it is the one stored for their checksum |
| `Log.Writer.constructor` | CardCrucible/Pods/leveldb-library/db/log_writer.cc:23-25 | An empty log |
| `Log.Writer.Reopen` | CardCrucible/Pods/leveldb-library/db/log_writer.cc:27-30 | Goes on at the end of any file; behind a whole log the file goes on holding its records |
| `Log.Writer.AddRecord` | CardCrucible/Pods/leveldb-library/db/log_writer.cc:34-80 | The file keeps what it has; behind whole records it goes on to hold those and this one, cut only at block boundaries |
| `Log.Writer.EmitFragment` | CardCrucible/Pods/leveldb-library/db/log_writer.cc:45-78 | One turn: fills up a block without room for a header, then emits what fits with the right type |
| `Log.Writer.EmitFragments` | CardCrucible/Pods/leveldb-library/db/log_writer.cc:39-79 | The loop ends and leaves the whole record spelled out in fragments |
| `Log.Writer.EmitPhysicalRecord` | CardCrucible/Pods/leveldb-library/db/log_writer.cc:82-108 | Header, checksum and payload |
| `Log.Reader.constructor` | CardCrucible/Pods/leveldb-library/db/log_reader.cc:18-29 | In front of the first block |
| `Log.Reader.ReadPhysicalRecord` | CardCrucible/Pods/leveldb-library/db/log_reader.cc:189-271 | Computes, for any file, what the specification of the physical reader says |
| `Log.Reader.FillBuffer` | CardCrucible/Pods/leveldb-library/db/log_reader.cc:192-205 | Reads the next block, or what the file still has |
| `Log.Reader.ReadRecord` | CardCrucible/Pods/leveldb-library/db/log_reader.cc:56-174 | Computes, for any file, what the specification of the logical reader says, resync aside |
| `Log.ReadNext` | CardCrucible/Pods/leveldb-library/db/log_reader.cc:189-271 | In a prefix of a log the next physical record is the next fragment if it lies wholly inside, else the end, and nothing is reported |
| `Log.ReadRest` | CardCrucible/Pods/leveldb-library/db/log_reader.cc:73-171 | Fragments join to exactly the record that was added, or the file ends first |
| `Log.ReadsRecords` | CardCrucible/Pods/leveldb-library/db/log_reader.cc:56-174 | From any record on, reading yields the complete records that follow, in order |
| `Log.CompleteUpTo` | CardCrucible/Pods/leveldb-library/db/log_reader.cc:56-174 | The complete records of a prefix are the first so many |
| `Log.PrefixRoundTrip` | CardCrucible/Pods/leveldb-library/db/log_reader.cc:56-174 | Reading any byte prefix of any log yields exactly the records whose last fragment lies inside, in order, with no corruption reported; the whole log yields all |
| `Log.FollowedReadsBack` | CardCrucible/Pods/leveldb-library/db/log_reader.cc:56-174 | Whatever follows a log in a file, its records are read back first, in order |
| `Log.IntactRecordsReadBack` | CardCrucible/Pods/leveldb-library/db/log_reader.cc:56-174 | The records in front of a damage or a cut read back, whatever has been appended since |
| `Log.FragmentBytes` | CardCrucible/Pods/leveldb-library/db/log_writer.cc:82-108 | The bytes of a fragment: masked checksum over type and data, length, type, data, numbers lowest byte first |
| `Log.OnlyWrittenIsRead` | CardCrucible/Pods/leveldb-library/db/log_reader.cc:243-270 | Whatever the file holds, a reader that checks checksums returns only records spelled by fragments that stand in the file with their checksums |
| `Log.DamageIsReported` | CardCrucible/Pods/leveldb-library/db/log_reader.cc:243-256 | A fragment whose checksum does not match, behind any number of good ones, makes the reader report a corruption |
| `Filter.NewPolicy` | CardCrucible/Pods/leveldb-library/util/bloom.cc:19-24 | 0.69 probes a bit and key, rounded down, from 1 to 30 |
| `Filter.CreateFilter` | CardCrucible/Pods/leveldb-library/util/bloom.cc:28-54 | Every key matches, no bit is set that no probe of a key hits, and the size is that of the policy |
| `Filter.MatchesExactlyWhen` | CardCrucible/Pods/leveldb-library/util/bloom.cc:28-80 | A key matches the filter exactly when each of its probes is a probe of some key the filter was built from |
| `Filter.DeltaRotates` | CardCrucible/Pods/leveldb-library/util/bloom.cc:47-47 | The step of the probes is the hash rotated by 17 bits |
| `Filter.AddToFilter` | CardCrucible/Pods/leveldb-library/util/bloom.cc:41-53 | Sets the bits of one key and loses none of the others |
| `Filter.PolicyMayMatch` | CardCrucible/Pods/leveldb-library/util/bloom.cc:56-80 | Decides matching on every filter, odd or damaged ones included |
| `Filter.FilterBlockBuilder.StartBlock` | CardCrucible/Pods/leveldb-library/table/filter_block.cc:21-27 | Afterwards the next filter is that of blocks at this offset; keys so far are covered by the first filter ended |
| `Filter.FilterBlockBuilder.AddKey` | CardCrucible/Pods/leveldb-library/table/filter_block.cc:29-33 | The key waits for the next filter |
| `Filter.FilterBlockBuilder.GenerateFilter` | CardCrucible/Pods/leveldb-library/table/filter_block.cc:51-75 | One more filter, made from exactly the waiting keys |
| `Filter.FilterBlockBuilder.KeyList` | CardCrucible/Pods/leveldb-library/table/filter_block.cc:60-68 | The flattened keys are taken apart again exactly |
| `Filter.FilterBlockBuilder.Finish` | CardCrucible/Pods/leveldb-library/table/filter_block.cc:35-49 | The block encodes all filters and their offsets |
| `Filter.FilterAt` | CardCrucible/Pods/leveldb-library/table/filter_block.cc:90-104 | The two words at the place of an index delimit that filter |
| `Filter.FilterBlockReader.constructor` | CardCrucible/Pods/leveldb-library/table/filter_block.cc:77-88 | Finds the number of filters, where the offsets start and the base |
| `Filter.FilterBlockReader.KeyMayMatch` | CardCrucible/Pods/leveldb-library/table/filter_block.cc:90-104 | Answers for the filter of the block's offset, and yes beyond the last one |
| `TableFormat.HandleRoundTrip` | CardCrucible/Pods/leveldb-library/table/format.cc:15-29 | A block handle decodes to itself, whatever follows |
| `TableFormat.FooterRoundTrip` | CardCrucible/Pods/leveldb-library/table/format.cc:31-62 | A footer decodes to itself |
| `TableFormat.MagicBytes` | CardCrucible/Pods/leveldb-library/table/format.cc:31-40 | The last eight bytes of every footer |
| `TableFormat.OtherMagic` | CardCrucible/Pods/leveldb-library/table/format.cc:42-50 | A file that ends otherwise is not read as a table |
| `TableFormat.ReadStored` | CardCrucible/Pods/leveldb-library/table/format.cc:64-139 | A stored block reads back as its contents, checksum checked or not |
| `TableFormat.ReadOnlyStored` | CardCrucible/Pods/leveldb-library/table/format.cc:85-95 | With checksums checked, a block is read exactly where it and its trailer stand |
| `TableFormat.ReadUnchecked` | CardCrucible/Pods/leveldb-library/table/format.cc:97-111 | Without, it is read exactly where its contents and the uncompressed type stand |
| `TableFormat.JustWritten` | CardCrucible/Pods/leveldb-library/table/table_builder.cc:177-194 | A block just appended is stored where its handle says |
| `TableWriter.IndexCatchesUp` | CardCrucible/Pods/leveldb-library/table/table_builder.cc:101-107 | The delayed index entry separates the block before from the key that follows |
| `TableWriter.BlockWritten` | CardCrucible/Pods/leveldb-library/table/table_builder.cc:125-139 | A flushed block joins those already stored |
| `TableWriter.CoverageMovesOn` | CardCrucible/Pods/leveldb-library/table/table_builder.cc:136-138 | Every key of a block stays covered by the filter its offset points to |
| `TableWriter.IndexEnds` | CardCrucible/Pods/leveldb-library/table/table_builder.cc:228-237 | The last index entry is not below the last key |
| `TableWriter.Assembled` | CardCrucible/Pods/leveldb-library/table/table_builder.cc:198-253 | Data, filters, metaindex, index and footer together are a table |
| `TableWriter.TableBuilder.constructor` | CardCrucible/Pods/leveldb-library/table/table_builder.cc:65-70 | Nothing written |
| `TableWriter.TableBuilder.Add` | CardCrucible/Pods/leveldb-library/table/table_builder.cc:94-123 | One more entry, in file, index and filters; the data block is written exactly when its estimated size reaches the block size |
| `TableWriter.TableBuilder.CatchUpIndex` | CardCrucible/Pods/leveldb-library/table/table_builder.cc:101-114 | Ends the index entry of the block before |
| `TableWriter.TableBuilder.Flush` | CardCrucible/Pods/leveldb-library/table/table_builder.cc:125-139 | Writes the pending entries as a block and loses none |
| `TableWriter.TableBuilder.Finish` | CardCrucible/Pods/leveldb-library/table/table_builder.cc:198-253 | The file is a table of exactly the entries added |
| `TableWriter.TableBuilder.FinishFilters` | CardCrucible/Pods/leveldb-library/table/table_builder.cc:204-208 | The stored filters cover every key of every block |
| `TableWriter.TableBuilder.FinishIndex` | CardCrucible/Pods/leveldb-library/table/table_builder.cc:228-239 | The index has one separating entry per block |
| `TableWriter.TableBuilder.WriteBlock` | CardCrucible/Pods/leveldb-library/table/table_builder.cc:141-175 | The block's bytes are stored where the handle says and the builder is empty again |
| `TableWriter.TableBuilder.WriteRawBlock` | CardCrucible/Pods/leveldb-library/table/table_builder.cc:177-194 | Contents, type and checksum are appended |
| `TableReader.IndexAscends` | CardCrucible/Pods/leveldb-library/table/table.cc:210-214 | Shortened separators keep the index in order, so it can be searched |
| `TableReader.AroundIndexKey` | CardCrucible/Pods/leveldb-library/db/dbformat.cc:69-86 | Keys of a block do not exceed its index key, which is below those of the next block |
| `TableReader.PlaceInTable` | CardCrucible/Pods/leveldb-library/table/two_level_iterator.cc:82-87 | Searching the index and then one block finds the place in the whole table |
| `TableReader.PastSeparator` | CardCrucible/Pods/leveldb-library/table/table.cc:216-244 | A target between the last key of a block and its separator has another user key than anything behind |
| `TableReader.FilterAdmits` | CardCrucible/Pods/leveldb-library/table/table.cc:222-230 | The filter of a block never rules out a user key the block holds |
| `TableReader.Table.Open` | CardCrucible/Pods/leveldb-library/table/table.cc:38-82 | Opens every table the builder finishes |
| `TableReader.Table.ReadMeta` | CardCrucible/Pods/leveldb-library/table/table.cc:84-111 | Finds exactly the filters that were stored |
| `TableReader.Table.BlockReader` | CardCrucible/Pods/leveldb-library/table/table.cc:155-208 | An iterator over the block that the index entry names |
| `TableReader.Table.InternalGet` | CardCrucible/Pods/leveldb-library/table/table.cc:216-244 | Reading one block, or none when the filter says no, never misses: it hands out the first entry not below the key if that has the sought user key |
| `TableReader.Table.AskFilter` | CardCrucible/Pods/leveldb-library/table/table.cc:222-230 | A no means that the block has no key of that user key |
| `TableReader.TableGetIsNewest` | CardCrucible/Pods/leveldb-library/table/table.cc:216-244 | A table lookup finds the newest entry of the user key a read at the snapshot may see |
| `TableReader.RunIsSorted` | CardCrucible/Pods/leveldb-library/table/table.cc:210-214 | A table is a sorted run in the sense of the read theorems |
| `TableReader.TableSeekIsCursorSeek` | CardCrucible/Pods/leveldb-library/table/two_level_iterator.cc:82-87 | Seeking in a table leads where it leads the cursor over its run |
| `TableReader.TwoLevelIterator.constructor` | CardCrucible/Pods/leveldb-library/table/two_level_iterator.cc:71-78 | Over a table, at no entry |
| `TableReader.TwoLevelIterator.ValidMeansAt` | CardCrucible/Pods/leveldb-library/table/two_level_iterator.cc:31-39 | Valid exactly at an entry of the table, showing the key and the value of that entry |
| `TableReader.TwoLevelIterator.InitDataBlock` | CardCrucible/Pods/leveldb-library/table/two_level_iterator.cc:146-161 | The data iterator is one over the block the index is at, kept if it already was |
| `TableReader.TwoLevelIterator.SkipEmptyDataBlocksForward` | CardCrucible/Pods/leveldb-library/table/two_level_iterator.cc:115-126 | Goes on to the next entry of the table, if there is one |
| `TableReader.TwoLevelIterator.SkipEmptyDataBlocksBackward` | CardCrucible/Pods/leveldb-library/table/two_level_iterator.cc:128-139 | Goes back to the entry before the block, if there is one |
| `TableReader.TwoLevelIterator.SeekToFirst` | CardCrucible/Pods/leveldb-library/table/two_level_iterator.cc:89-94 | The first entry of the table |
| `TableReader.TwoLevelIterator.SeekToLast` | CardCrucible/Pods/leveldb-library/table/two_level_iterator.cc:96-101 | The last entry of the table |
| `TableReader.TwoLevelIterator.Seek` | CardCrucible/Pods/leveldb-library/table/two_level_iterator.cc:82-87 | The first entry of the table not below the target |
| `TableReader.TwoLevelIterator.Next` | CardCrucible/Pods/leveldb-library/table/two_level_iterator.cc:103-107 | The next of the entries that were added |
| `TableReader.TwoLevelIterator.Prev` | CardCrucible/Pods/leveldb-library/table/two_level_iterator.cc:109-113 | The entry before: the inverse of Next |
| `WriteBatches.ReadsWhatWasWritten` | CardCrucible/Pods/leveldb-library/db/write_batch.cc:42-80 | Iterating encoded updates hands out exactly those updates, in order |
| `WriteBatches.IterateGivesUpdates` | CardCrucible/Pods/leveldb-library/db/write_batch.cc:42-80 | A well-formed batch iterates as its updates, with no error |
| `WriteBatches.CutBatch` | CardCrucible/Pods/leveldb-library/db/write_batch.cc:42-80 | A batch that is cut off hands out exactly the complete updates, and is reported as corrupt unless the cut is between two |
| `WriteBatches.OtherTypesAreBad` | CardCrucible/Pods/leveldb-library/db/write_batch.cc:71-73 | An update of any other type than 0 and 1 is corruption |
| `WriteBatches.KnownBatch` | CardCrucible/Pods/leveldb-library/db/write_batch.cc:86-109 | The bytes of a batch: sequence, count, and the two kinds of update |
| `WriteBatches.WriteBatch.constructor` | CardCrucible/Pods/leveldb-library/db/write_batch.cc:29-38 | An empty batch |
| `WriteBatches.WriteBatch.Put` | CardCrucible/Pods/leveldb-library/db/write_batch.cc:98-103 | The batch is the one before and this Put |
| `WriteBatches.WriteBatch.Delete` | CardCrucible/Pods/leveldb-library/db/write_batch.cc:105-109 | The batch is the one before and this Delete |
| `WriteBatches.WriteBatch.SetSequence` | CardCrucible/Pods/leveldb-library/db/write_batch.cc:94-96 | Only the sequence changes |
| `WriteBatches.WriteBatch.SetCount` | CardCrucible/Pods/leveldb-library/db/write_batch.cc:86-88 | Only the count changes |
| `WriteBatches.WriteBatch.Append` | CardCrucible/Pods/leveldb-library/db/write_batch.cc:144-149 | The updates of one batch after those of the other |
| `WriteBatches.WriteBatch.Iterate` | CardCrucible/Pods/leveldb-library/db/write_batch.cc:42-80 | Computes for any bytes the calls made before the first error and that error |
| `WriteBatches.InsertInto` | CardCrucible/Pods/leveldb-library/db/write_batch.cc:132-137 | Stores exactly the updates with consecutive sequence numbers |
| `WriteBatches.InsertedConcat` | CardCrucible/Pods/leveldb-library/db/write_batch.cc:116-149 | Inserting an appended batch is inserting one and then the other, numbers going on |
| `WriteBatches.InsertedAt` | CardCrucible/Pods/leveldb-library/db/write_batch.cc:116-137 | Update i gets sequence number i more than the batch, type 1 for a Put and 0 for a Delete |
| `WriteBatches.ReadsAddedEntry` | CardCrucible/Pods/leveldb-library/db/memtable.cc:75-137 | A lookup ending at an entry of its user key gives what Add stored, and ignores any other entry |
| `VersionEditCodec.FieldRoundTrip` | CardCrucible/Pods/leveldb-library/db/version_edit.cc:107-205 | Each tagged field reads back as itself, whatever follows |
| `VersionEditCodec.KnownFields` | CardCrucible/Pods/leveldb-library/db/version_edit.cc:14-85 | The bytes of every kind of field: its tag and what stands behind it |
| `VersionEditCodec.UnknownTagIsRefused` | CardCrucible/Pods/leveldb-library/db/version_edit.cc:195-199 | A tag that no field has is corruption |
| `VersionEditCodec.HighLevelIsRefused` | CardCrucible/Pods/leveldb-library/db/version_edit.cc:97-105 | So is a level that does not exist |
| `VersionEditCodec.EncodeTo` | CardCrucible/Pods/leveldb-library/db/version_edit.cc:41-85 | Writes the fields in their fixed order |
| `VersionEditCodec.DecodeFrom` | CardCrucible/Pods/leveldb-library/db/version_edit.cc:107-205 | Computes for any bytes the edit or the error |
| `VersionEditCodec.DecodeEncoded` | CardCrucible/Pods/leveldb-library/db/version_edit.cc:107-205 | Decoding encoded fields applies them in order |
| `VersionEditCodec.FieldsRebuild` | CardCrucible/Pods/leveldb-library/db/version_edit.cc:41-85 | Applying the fields of an edit to a fresh one rebuilds it |
| `VersionEditCodec.EditRoundTrip` | CardCrucible/Pods/leveldb-library/db/version_edit.cc:41-205 | Decoding an encoded edit into a fresh one gives it back |
| `PbFormat.FieldIter.constructor` | CardCrucible/Pods/nanopb/pb_common.c:8-18 | At the first field |
| `PbFormat.FieldIter.Begin` | CardCrucible/Pods/nanopb/pb_common.c:8-18 | At the first field, and whether there is one |
| `PbFormat.FieldIter.Next` | CardCrucible/Pods/nanopb/pb_common.c:20-72 | Position, data pointer and required index move on together, or wrap around to the start |
| `PbFormat.FieldIter.Find` | CardCrucible/Pods/nanopb/pb_common.c:74-94 | Finds a field exactly when one has the tag, from wherever it starts, and otherwise stays put |
| `PbFormat.FindIsUnique` | CardCrucible/Pods/nanopb/pb_common.c:74-94 | With distinct tags the wrapped search finds that very field |
| `PbFormat.UnionMemberIsFound` | CardCrucible/Pods/nanopb/pb_common.c:74-94 | A union member whose field number is unique is found from wherever the search starts |
| `PbFormat.OnlyUnionsShare` | CardCrucible/Pods/nanopb/pb_common.c:39-46 | Two fields live in one place only when both are members of a union |
| `PbEncode.FixedItems` | CardCrucible/Pods/nanopb/pb_encode.c:166-174 | The computed size of a fixed-width packed array is the size of its items |
| `PbEncode.VarintBytes` | CardCrucible/Pods/nanopb/pb_encode.c:599-619 | The bytes on the wire of numbers sent as varints |
| `PbEncode.ZigZagBytes` | CardCrucible/Pods/nanopb/pb_encode.c:621-630 | The bytes of signed numbers in zigzag form |
| `PbEncode.WordBytes` | CardCrucible/Pods/nanopb/pb_encode.c:632-658 | The bytes of fixed 32-bit and 64-bit numbers, with their wire types |
| `PbEncode.DataBytes` | CardCrucible/Pods/nanopb/pb_encode.c:843-902 | The bytes of strings and byte strings |
| `PbEncode.NestedBytes` | CardCrucible/Pods/nanopb/pb_encode.c:708-756 | The bytes of a submessage |
| `PbEncode.CheckDefault` | CardCrucible/Pods/nanopb/pb_encode.c:237-328 | Decides, at any depth, what proto3 leaves out |
| `PbEncode.DefaultIsEmpty` | CardCrucible/Pods/nanopb/pb_encode.c:237-328 | A message at its defaults encodes to nothing |
| `PbEncode.Length` | CardCrucible/Pods/nanopb/pb_encode.c:879-884 | The length up to the terminator, or of the whole buffer |
| `PbEncode.EmittedThen` | CardCrucible/Pods/nanopb/pb_encode.c:103-121 | Two emissions one after the other emit the concatenation |
| `PbEncode.OStream.Write` | CardCrucible/Pods/nanopb/pb_encode.c:103-121 | Emits the bytes, or counts them, or fails exactly when they do not fit |
| `PbEncode.OStream.EncodeVarint` | CardCrucible/Pods/nanopb/pb_encode.c:599-619 | Emits the base-128 varint |
| `PbEncode.OStream.EncodeSVarint` | CardCrucible/Pods/nanopb/pb_encode.c:621-630 | Emits the zigzag varint |
| `PbEncode.OStream.EncodeFixed` | CardCrucible/Pods/nanopb/pb_encode.c:632-658 | Emits little-endian words |
| `PbEncode.OStream.EncodeTag` | CardCrucible/Pods/nanopb/pb_encode.c:660-664 | Emits field number and wire type |
| `PbEncode.OStream.EncodeString` | CardCrucible/Pods/nanopb/pb_encode.c:700-706 | Emits length and bytes |
| `PbEncode.OStream.EncodeScalar` | CardCrucible/Pods/nanopb/pb_encode.c:760-888 | Emits the item by its type, or fails on a bad size |
| `PbEncode.OStream.EncodeByteString` | CardCrucible/Pods/nanopb/pb_encode.c:843-902 | Emits bytes, string or fixed-length bytes |
| `PbEncode.OStream.EncodeAny` | CardCrucible/Pods/nanopb/pb_encode.c:55-69 | Emits an item of any type |
| `PbEncode.OStream.EncodeTagAndItem` | CardCrucible/Pods/nanopb/pb_encode.c:666-698 | Emits a tag and the item behind it |
| `PbEncode.OStream.EncodeEach` | CardCrucible/Pods/nanopb/pb_encode.c:175-201 | Emits the items of a packed array |
| `PbEncode.OStream.PackedSize` | CardCrucible/Pods/nanopb/pb_encode.c:166-186 | The size counted is the size of what will be written |
| `PbEncode.OStream.EncodePackedArray` | CardCrucible/Pods/nanopb/pb_encode.c:160-201 | Emits tag, length and items, or only counts them |
| `PbEncode.OStream.EncodeUnpackedArray` | CardCrucible/Pods/nanopb/pb_encode.c:203-230 | Emits every item behind a tag |
| `PbEncode.OStream.EncodeArrayOf` | CardCrucible/Pods/nanopb/pb_encode.c:144-233 | Emits nothing for an empty array and fails beyond the capacity |
| `PbEncode.OStream.EncodeBasicField` | CardCrucible/Pods/nanopb/pb_encode.c:332-417 | Emits the field exactly when it is present |
| `PbEncode.OStream.Encode` | CardCrucible/Pods/nanopb/pb_encode.c:519-541 | Emits exactly the encoding of the message, in either mode, and fails exactly when there is none or it does not fit |
| `PbEncode.OStream.EncodeSubmessage` | CardCrucible/Pods/nanopb/pb_encode.c:708-756 | The writing pass emits as many bytes as the sizing pass counted, at every depth, so the error "submsg size changed" is never raised |
| `PbEncode.EncodedSize` | CardCrucible/Pods/nanopb/pb_encode.c:558-567 | The size reported is the length of what encoding emits |
| `PbDecode.BitOrAdds` | CardCrucible/Pods/nanopb/pb_decode.c:231-235 | Or-ing in shifted bits that do not overlap adds them |
| `PbIStream.IStream.Read` | CardCrucible/Pods/nanopb/pb_decode.c:102-137 | Consumes the bytes, or fails and consumes nothing |
| `PbIStream.IStream.ReadByte` | CardCrucible/Pods/nanopb/pb_decode.c:141-158 | Consumes one byte |
| `PbIStream.IStream.DecodeVarint32` | CardCrucible/Pods/nanopb/pb_decode.c:187-252 | Reads exactly the 32-bit varints the specification accepts, sign extensions included |
| `PbIStream.IStream.DecodeVarint` | CardCrucible/Pods/nanopb/pb_decode.c:255-275 | Reads at most ten bytes and agrees with the other varint reader of this model on every input |
| `PbIStream.IStream.DecodeSVarint` | CardCrucible/Pods/nanopb/pb_decode.c:1269-1281 | Reads a zigzag varint |
| `PbIStream.IStream.SkipVarint` | CardCrucible/Pods/nanopb/pb_decode.c:278-287 | Skips to the end of a varint |
| `PbIStream.IStream.SkipField` | CardCrucible/Pods/nanopb/pb_decode.c:321-331 | Skips one field by its wire type, or fails on an unknown one; what that means for every field the encoder writes is `PbUnknown.SkipsItem` |
| `PbIStream.IStream.DecodeTag` | CardCrucible/Pods/nanopb/pb_decode.c:298-319 | Field number and wire type; a zero ends the message |
| `PbIStream.IStream.MakeStringSubstream` | CardCrucible/Pods/nanopb/pb_decode.c:372-385 | A stream over the string, which the parent leaves out |
| `PbIStream.IStream.CloseStringSubstream` | CardCrucible/Pods/nanopb/pb_decode.c:387-400 | The parent goes on behind the string, whatever was left unread |
| `PbIStream.IStream.DecodeInteger` | CardCrucible/Pods/nanopb/pb_decode.c:1329-1412 | Integers that do not fit their field are refused |
| `PbIStream.IStream.DecodeNumber` | CardCrucible/Pods/nanopb/pb_decode.c:1318-1429 | Reads any packable type |
| `PbIStream.IStream.DecodeBytes` | CardCrucible/Pods/nanopb/pb_decode.c:1431-1466 | Refuses bytes beyond the buffer |
| `PbIStream.IStream.DecodeText` | CardCrucible/Pods/nanopb/pb_decode.c:1468-1501 | Refuses strings that leave no room for the terminator |
| `PbIStream.IStream.DecodeFixedLength` | CardCrucible/Pods/nanopb/pb_decode.c:1527-1549 | Exactly the fixed length, or nothing for zeros |
| `PbIStream.IStream.DecodeSubmessage` | CardCrucible/Pods/nanopb/pb_decode.c:1503-1525 | Decodes the substream, array entries from their defaults |
| `PbIStream.IStream.DecodePackedArray` | CardCrucible/Pods/nanopb/pb_decode.c:425-452 | Fills the array from the string and refuses what exceeds it |
| `PbIStream.IStream.DecodeArrayField` | CardCrucible/Pods/nanopb/pb_decode.c:424-464 | Packed or one entry at a time |
| `PbIStream.IStream.DecodeSingleField` | CardCrucible/Pods/nanopb/pb_decode.c:416-480 | Sets the has flag or the which tag with the value |
| `PbIStream.IStream.ReleaseUnion` | CardCrucible/Pods/nanopb/pb_decode.c:1128-1152 | Fails exactly when the union held an unknown member, and comes back to its field |
| `PbIStream.IStream.DecodeField` | CardCrucible/Pods/nanopb/pb_decode.c:987-1020 | One field arrives: counter of a fixed array, bit of a required field, value |
| `PbIStream.IStream.DecodeNext` | CardCrucible/Pods/nanopb/pb_decode.c:954-1020 | Known fields are decoded and unknown ones skipped |
| `PbIStream.IStream.DecodeFields` | CardCrucible/Pods/nanopb/pb_decode.c:940-1021 | Decodes to the end of the stream or a zero tag |
| `PbIStream.IStream.DecodeNoInit` | CardCrucible/Pods/nanopb/pb_decode.c:925-1073 | Computes what the specification says for every input, malformed ones included |
| `PbIStream.IStream.Decode` | CardCrucible/Pods/nanopb/pb_decode.c:1075-1087 | The same, from defaults |
| `PbIStream.CheckRequired` | CardCrucible/Pods/nanopb/pb_decode.c:1030-1070 | The word-wise bitmap comparison accepts exactly when every tracked required field was seen |
| `PbIStream.SetFieldToDefault` | CardCrucible/Pods/nanopb/pb_decode.c:836-906 | The default of one field, at any depth |
| `PbIStream.SetToDefaults` | CardCrucible/Pods/nanopb/pb_decode.c:908-919 | The defaults of all fields |
| `PbRoundTrip.DefaultsAreFresh` | CardCrucible/Pods/nanopb/pb_decode.c:836-919 | Whatever a struct held, setting defaults leaves nothing of its present fields |
| `PbRoundTrip.DefaultsAreSame` | CardCrucible/Pods/nanopb/pb_encode.c:237-328 | A submessage proto3 left out equals the defaults the decoder set up if and only if those are zero, at every depth |
| `PbRoundTrip.More32RoundTrip` | CardCrucible/Pods/nanopb/pb_decode.c:187-247 | Every 32-bit varint reads back through the overflow checks |
| `PbRoundTrip.SignedRoundTrip` | CardCrucible/Pods/nanopb/pb_decode.c:1329-1364 | A signed value of any width survives the cast to 64 bits and back |
| `PbRoundTrip.NumberRoundTrip` | CardCrucible/Pods/nanopb/pb_decode.c:1318-1429 | Every packable value in range reads back |
| `PbRoundTrip.TextRoundTrip` | CardCrucible/Pods/nanopb/pb_decode.c:1468-1501 | A string reads back if and only if it is terminated inside its buffer; otherwise decoding fails |
| `PbRoundTrip.PackedRoundTrip` | CardCrucible/Pods/nanopb/pb_decode.c:425-452 | A packed array reads back with its count |
| `PbRoundTrip.ItemRoundTrip` | CardCrucible/Pods/nanopb/pb_decode.c:1318-1548 | An item of any type reads back if and only if the strings in it are terminated; otherwise decoding fails |
| `PbRoundTrip.UnpackedSteps` | CardCrucible/Pods/nanopb/pb_decode.c:454-464 | An unpacked array arrives entry by entry, or decoding stops at the first entry with an unterminated string |
| `PbRoundTrip.SingleRoundTrip` | CardCrucible/Pods/nanopb/pb_decode.c:406-480 | A single value arrives in its fresh slot, or decoding fails at an unterminated string in it |
| `PbRoundTrip.RecoveredAll` | CardCrucible/Pods/nanopb/pb_decode.c:925-1073 | When all fields have arrived, each holds what was sent or, if it was left out, its default: unions included |
| `PbRoundTrip.MessageRoundTrip` | CardCrucible/Pods/nanopb/pb_decode.c:925-1073 | Into fresh memory, at any nesting depth, decoding gives what was sent among the defaults of what was left out; it fails if and only if a string that was sent is not terminated |
| `PbRoundTrip.GotIsSame` | CardCrucible/Pods/nanopb/pb_decode.c:925-1087 | What arrives is what was sent if and only if every proto3 field left out, at any depth, has a zero default |
| `PbRoundTrip.RoundTrip` | CardCrucible/Pods/nanopb/pb_decode.c:1075-1087 | pb_decode of what pb_encode wrote restores the message up to contents of absent fields, whatever the struct held before, if and only if its strings are terminated and the fields left out have zero defaults; it fails if and only if some string is not terminated |
| `PbRoundTrip.BothConditionsMatter` | CardCrucible/Pods/nanopb/pb_encode.c:346-350 | Counterexamples: a zero that was left out is not restored where the default is 5, and a string without a terminator is encoded and then refused |
| `PbUnknown.SkipsItem` | CardCrucible/Pods/nanopb/pb_decode.c:321-331 | Whatever an item of any type holds, its encoding is skipped to the last byte by the wire type it is sent with |
| `PbUnknown.UnknownIsSkipped` | CardCrucible/Pods/nanopb/pb_decode.c:982-986 | A value of a field the receiver does not know leaves no trace, wherever it stands |
| `PbUnknown.FieldUnknown` | CardCrucible/Pods/nanopb/pb_decode.c:982-986 | The same for whole fields, single, repeated or packed |
| `PbUnknown.ItemCarries` | CardCrucible/Pods/nanopb/pb_decode.c:411-480 | A known item is read to its end, and what it gives does not depend on what follows |
| `PbUnknown.UnknownFieldsDoNotMatter` | CardCrucible/Pods/nanopb/pb_decode.c:925-1073 | A message from a sender that knows more fields decodes to what the fields known to the receiver say, wherever the others stand |
| `PbUnknown.NewerSenderRoundTrip` | CardCrucible/Pods/nanopb/pb_decode.c:1075-1087 | pb_decode restores from a newer sender's message the fields it knows, under the two conditions of the round trip |
| `PbUnknown.OtherWireTypesAreRefused` | CardCrucible/Pods/nanopb/pb_decode.c:329-329 | An unknown field with a wire type that does not exist is refused |
| `PbUnknown.ZeroEnds` | CardCrucible/Pods/nanopb/pb_decode.c:310-314 | A zero where a tag should be ends the message |
| `PbMerge.DecodesOn` | CardCrucible/Pods/nanopb/pb_decode.c:943-1020 | Behind any input that was read to its end, decoding goes on with what follows as if the input had ended there |
| `PbMerge.MergesInOneGo` | CardCrucible/Pods/nanopb/pb_decode.h:70-80 | Two encodings behind each other, each acceptable by itself, merge like one after the other, except exactly when the second begins with the array without a counter that the first ended with |
| `PbMerge.ArrayCannotBeginAgain` | CardCrucible/Pods/nanopb/pb_decode.c:990-1007 | That exception, with its bytes |
| `PbMerge.OnlyArrivalsChange` | CardCrucible/Pods/nanopb/pb_decode.h:70-80 | Decoding changes a place in the struct only when a field that lives there arrives |
| `PbMerge.NotSentIsKept` | CardCrucible/Pods/nanopb/pb_decode.h:70-80 | Merging a message into another one updates only the fields it sends |
| `PbMerge.LastValueWins` | CardCrucible/Pods/nanopb/pb_decode.c:406-480 | Of two values of a field, or of two members of a union, the last one wins as if the first had never been sent |
| `PbMerge.SubmessagesMerge` | CardCrucible/Pods/nanopb/pb_decode.c:1503-1525 | A submessage that arrives in two parts is merged as if both had come in one |
| `PbMerge.ChunksMerge` | CardCrucible/Pods/nanopb/pb_decode.c:425-452 | The entries of an array may come packed in two parts |
| `PbMerge.PackedOrNot` | CardCrucible/Pods/nanopb/pb_decode.c:424-464 | Entries are taken in the same, or refused the same, whether they come packed or one by one behind their tags |
| `PbRefusals.UnsignedAccepts` | CardCrucible/Pods/nanopb/pb_decode.c:1366-1388 | An unsigned field takes exactly the numbers that fit it |
| `PbRefusals.ZigZagAccepts` | CardCrucible/Pods/nanopb/pb_decode.c:1390-1412 | So does a zigzag field |
| `PbRefusals.SignedAccepts` | CardCrucible/Pods/nanopb/pb_decode.c:1329-1364 | A plain signed field narrower than eight bytes cuts to 32 bits first and takes exactly what then fits, so one of four bytes refuses nothing |
| `PbRefusals.DataAccepts` | CardCrucible/Pods/nanopb/pb_decode.c:1431-1501 | Bytes, strings and fixed-length data are taken exactly when they fit |
| `PbRefusals.TooManyPacked` | CardCrucible/Pods/nanopb/pb_decode.c:423-450 | A packed array with more entries than there is room for is refused |
| `PbRefusals.Decode32Exactly` | CardCrucible/Pods/nanopb/pb_decode.c:187-247 | Every 64-bit number read as a 32-bit varint: it comes back, is cut to 32 bits, or is refused, exactly as the bits above the 31st say |
| `PbRefusals.AcceptedExactlyWhen` | CardCrucible/Pods/nanopb/pb_decode.c:1022-1070 | A message is accepted exactly when it can be read to its end, leaves no array without a counter half filled, and every required field among the first 64 has arrived |
| `War.DetermineHighestRank` | CardCrucible/CardCrucible/Models/Deck.swift:105-116 | The greatest rank that occurs |
| `War.DetermineHighCardHolders` | CardCrucible/CardCrucible/Games/War.swift:190-244 | Exactly the players still in whose last card has the highest rank |
| `War.DetermineHighSuitHolders` | CardCrucible/CardCrucible/Games/War.swift:195-218 | Exactly the players whose suit no player still in beats |
| `War.SuitsDecideNothing` | CardCrucible/CardCrucible/Games/War.swift:195-218 | After a draw everybody is out, so the suit comparison names them all and never picks a winner |
| `War.UndecidedMovesOn` | CardCrucible/CardCrucible/Games/War.swift:261-308 | After one comparison, complete or limited, the question whether anybody is ever set apart is the same for the hands that are left |
| `War.AllOutExactlyWhen` | CardCrucible/CardCrucible/Games/War.swift:261-308 | All who took part in a comparison end up out if and only if neither it nor a later one sets anybody apart |
| `War.RoundEndsExactlyWhen` | CardCrucible/CardCrucible/Games/War.swift:426-494 | After a round somebody is in unless the hands were ones for which it never ends |
| `War.TwoEqualCards` | CardCrucible/CardCrucible/Games/War.swift:426-494 | Two players with one card each of the same rank never end their round |
| `War.Moved` | CardCrucible/CardCrucible/Games/War.swift:146-174 | Moving cards from a hand to a pile keeps all cards |
| `War.War.constructor` | CardCrucible/CardCrucible/Games/War.swift:31-48 | The given table |
| `War.War.PlaceCards` | CardCrucible/CardCrucible/Games/War.swift:146-174 | Each player still in puts down the top card or is out; the cards lie in the order of the table, and none is lost |
| `War.TopsAt` | CardCrucible/CardCrucible/Games/War.swift:146-174 | The cards put down are the top cards of those who play, each at the place their turn gives |
| `War.War.GotoWar` | CardCrucible/CardCrucible/Games/War.swift:371-401 | Each holder gives two cards or is out with what is left; no card is lost, and no draw succeeds exactly when nobody has two |
| `War.War.LimitedWar` | CardCrucible/CardCrucible/Games/War.swift:320-368 | Each holder gives one card or is out; no card is lost |
| `War.War.FightWar` | CardCrucible/CardCrucible/Games/War.swift:261-308 | Ends, because each nested war takes a card from the hands or draws; one winner still in gets the whole prize under what is left of the hand, or the last ones in it are out |
| `War.War.TakeWar` | CardCrucible/CardCrucible/Games/War.swift:261-308 | A complete war, or else a limited one; everybody able gives two cards or one, of which the last is compared, and the others are out |
| `War.War.WinPrize` | CardCrucible/CardCrucible/Games/War.swift:288-302 | The winner gets all prize cards under the hand, and nothing else changes |
| `War.War.DealCards` | CardCrucible/CardCrucible/Games/War.swift:94-114 | Deals the whole deck round the table exactly when somebody is still in: of n players the k-th gets cards k, k + n, k + 2n and so on, in that order. Otherwise it would never end, and the result says so |
| `War.War.DealAround` | CardCrucible/CardCrucible/Games/War.swift:94-114 | The k-th player who is in gets the k-th card of the deck, as far as there is one |
| `War.InOfExactly` | CardCrucible/CardCrucible/Games/War.swift:98-105 | Those dealt to are exactly the players still in |
| `War.InOfInOrder` | CardCrucible/CardCrucible/Games/War.swift:98-105 | They take their turns in the order of the table |
| `War.NthExactly` | CardCrucible/CardCrucible/Games/War.swift:96-105 | Dealing one card a turn gives the k-th of n players every n-th card from the k-th on |
| `War.War.SetDeckCards` | CardCrucible/CardCrucible/Models/Deck.swift:59-65 | Setting deckCards takes effect only on an empty deck |
| `War.War.UpdateGameStatus` | CardCrucible/CardCrucible/Games/War.swift:406-422 | Over when exactly one player is left, or nobody plays |
| `War.War.StartRound` | CardCrucible/CardCrucible/Games/War.swift:426-494 | A sole highest top card wins: its player gets all cards put down, under the hand, and the others lose theirs. A round does not end exactly when, before it, two players at least have the longest hand and no place of it that is compared sets anybody apart; the cards over hands and deck are conserved when the deck starts empty, and what a full deck loses is said; players who are out hold nothing |
| `War.SoleHolder` | CardCrucible/CardCrucible/Games/War.swift:190-244 | A top card that outranks all others makes its player the only holder |
| `War.War.AfterDraw` | CardCrucible/CardCrucible/Games/War.swift:456-487 | The cards of a draw go back to the hands of those still in |

## Left out

- File system, threads, clocks and memory orders: files are byte sequences, locks make steps atomic, and loads and stores of the skip list are sequentially consistent.
- I/O errors while reading, and the partial writes of a log record that was not synced: reads of files succeed, and a record is written whole or not at all.
- Snappy compression, the block cache, cleanup callbacks, mmap and hardware CRC: they do not affect what a block or checksum says.
- Compaction scheduling, scores, seek statistics, grandparent overlap, trivial moves and output-file sizes: where such a heuristic decides something, its outcome is an arbitrary parameter.
- Memtable switches and shutdown inside the compaction loop: they do not touch the inputs or the drop rules.
- Properties, debug strings, repair and dump tools, the C interface: no property of their own.
- Compaction.Compaction.DoCompactionWork: the two size heuristics that close an output file are arbitrary functions of the position.
- PointLookup.Version.Get: reads each file as its run of entries; that a table file answers like its run is `TableReader.TableGetIsNewest`.
- VersionBuilder.VersionSet.LogAndApply: a failed write leaves no part of the edit in the manifest.
- VersionBuilder.VersionSet.Recover: the manifest's records are edits; a record that does not decode is left out.
- VersionBuilder.PointersRoundTrip: how the next compaction is chosen from the pointers is left out.
- PbUnknown.NewerSenderRoundTrip: submessages have the same fields on both sides; that further fields inside one are skipped too is `PbUnknown.UnknownFieldsDoNotMatter` for that submessage.
- PbMerge.LastValueWins: leaves out strings, because the bytes behind the terminator keep what an earlier value left there, and submessages outside of unions, which merge (`PbMerge.SubmessagesMerge`).
- PbRefusals.TooManyPacked: for arrays sent one entry at a time the same is a branch of `PbDecode.DecodeArray` and has no lemma of its own.
- HandleTable.HandleTable.Resize: a slot of the table's array is an object of its own, so the array is a sequence of slots; freeing the old array is left out.
- LruCache.LRUCache.Lookup: sharding by hash over sixteen caches is left out.
- MergingIterator.MergingIterator.constructor: the special cases for no child and one child, which return other iterators, are left out.
- Block.BlockIter.constructor: opens blocks that the builder finished; how a damaged block is reported is left out.
- TableReader.Table.Open: opens files that are tables; how a damaged table is reported is left out.
- TableReader.TwoLevelIterator.constructor: one level of blocks in one file; the concatenation of the files of a level uses the same class and is left out.
- Filter.CreateFilter: the hash function is a parameter, because no property depends on it.
- Log.Reader.ReadRecord: reads from offset 0; a later initial offset and the resynchronisation it needs are left out.
- Log.Writer.Reopen: what is appended behind a record that was cut off is in general taken for the rest of that record, so only the records in front of the cut are claimed to read back.
- Log.IntactRecordsReadBack: says nothing about the records behind a damage; which of them are found again depends on checksums.
- WriteBatches.ReadsAddedEntry: the memtable's arena is left out; its order is that of `Comparator.KeyLess`.
- VersionEditCodec.EditRoundTrip: decoding into an edit that is not fresh is left out, because Clear keeps compaction pointers.
- GroupCommit.BuildBatchGroup: the temporary batch the leader reuses is a value, so its clearing is left out.
- GroupCommit.WaitingCallGoesOn: making room is one step that succeeds or fails; the wait for background work inside it is left out.
- GroupCommit.FailureMeansNotApplied: inserting into the memtable cannot fail, because batches built through the interface are well formed and `WriteBatches.InsertInto` succeeds on those; a batch of foreign bytes could fail after some of its operations.
- nanopb callbacks, extensions and pointer fields: user code, or memory the model has no place for. Streams are over buffers.
- PbIStream.IStream.Decode: works on a value for the struct, so aliasing with other memory is not captured; it asks that the field number of a union member is not used twice in its message, because the tag recorded in the union would not say which member is meant.
- PbIStream.SetToDefaults: the counter written over the first entry of an array without one is left out; such entries are absent until they arrive.
- PbDecode.DecodeText: what a string buffer holds behind its terminator after a union changed its member is taken to be zeros.
- PbEncode.OStream.EncodeAny: a submessage field without descriptors is left out; the generator always writes them.
- PbRoundTrip.RoundTrip: asks that the encoding is shorter than 4 GiB, because the decoder reads lengths as 32-bit numbers, and that numbers fit the width of their fields, as C variables do.
- Wrap-around of size_t: buffer sizes are unbounded numbers.
- War.War.StartRound: players are values in a map that the game updates, so sharing a player between games is not captured.
- War.War.DealCards: shuffling, printing, identifiers, card images and the views are left out.
