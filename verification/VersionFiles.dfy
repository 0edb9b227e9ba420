/** Table files and the levels they form (FileMetaData and Version::files_). */
module VersionFiles {
  import opened Wrappers
  import opened DbFormat

  datatype FileMeta = FileMeta(number: nat, size: nat, smallest: InternalKey, largest: InternalKey,
                               entries: seq<Entry>)

  // A finished table: its bounds are the keys of its first and last entries.
  ghost predicate FileOk(f: FileMeta) {
    && Sorted(f.entries) && AllParse(f.entries)
    && |f.entries| > 0
    && f.smallest == f.entries[0].key
    && f.largest == f.entries[|f.entries| - 1].key
  }

  // Levels above zero: files follow each other without overlap in internal-key order.
  ghost predicate LevelOk(files: seq<FileMeta>) {
    && (forall i :: 0 <= i < |files| ==> FileOk(files[i]))
    && forall i, j :: 0 <= i < j < |files| ==> Less(files[i].largest, files[j].smallest)
  }

  predicate InUserRange(f: FileMeta, user: UserKey) {
    f.smallest.user <= user <= f.largest.user
  }

  // A range of user keys; an absent end is unbounded.
  datatype Range = Range(begin: Option<UserKey>, end: Option<UserKey>)

  predicate Overlaps(r: Range, f: FileMeta) {
    && !(r.begin.Some? && f.largest.user < r.begin.value)
    && !(r.end.Some? && f.smallest.user > r.end.value)
  }

  ghost predicate DistinctNumbers(files: seq<FileMeta>) {
    forall i, j :: 0 <= i < j < |files| ==> files[i].number != files[j].number
  }

  lemma EntriesInRange(f: FileMeta, e: Entry)
    requires FileOk(f) && e in f.entries
    ensures InUserRange(f, e.key.user)
    ensures !Less(e.key, f.smallest) && !Less(f.largest, e.key)
  {
    var i :| 0 <= i < |f.entries| && f.entries[i] == e;
    assert 0 < i ==> Less(f.entries[0].key, f.entries[i].key);
    assert i < |f.entries| - 1 ==> Less(f.entries[i].key, f.entries[|f.entries| - 1].key);
  }
}
