/** A positioned cursor over one sorted run of entries: the contract of leveldb::Iterator that the iterators built
    on top rely on.  Moving off either end leaves the cursor invalid, after which only seeks are legal. */
module InternalIterator {
  import opened DbFormat

  // `at` is the first position whose key is not below the target.
  ghost predicate IsLowerBound(es: seq<Entry>, target: InternalKey, at: nat) {
    && at <= |es|
    && (forall i :: 0 <= i < at ==> Less(es[i].key, target))
    && (forall i :: at <= i < |es| ==> !Less(es[i].key, target))
  }

  class Cursor {
    const entries: seq<Entry>
    var pos: nat

    ghost predicate Ok()
      reads this
    {
      Sorted(entries) && pos <= |entries|
    }

    constructor (entries: seq<Entry>)
      requires Sorted(entries)
      ensures Ok() && this.entries == entries && !Valid()
    {
      this.entries := entries;
      pos := |entries|;
    }

    predicate Valid()
      reads this
    {
      pos < |entries|
    }

    function Key(): InternalKey
      reads this
      requires Valid()
    {
      entries[pos].key
    }

    function Value(): Bytes
      reads this
      requires Valid()
    {
      entries[pos].value
    }

    method SeekToFirst()
      requires Ok()
      modifies this
      ensures Ok() && pos == 0
    {
      pos := 0;
    }

    method SeekToLast()
      requires Ok()
      modifies this
      ensures Ok() && pos == if entries == [] then 0 else |entries| - 1
    {
      pos := if entries == [] then 0 else |entries| - 1;
    }

    method Seek(target: InternalKey)
      requires Ok()
      modifies this
      ensures Ok() && IsLowerBound(entries, target, pos)
    {
      pos := 0;
      while pos < |entries| && Less(entries[pos].key, target)
        invariant pos <= |entries|
        invariant forall i :: 0 <= i < pos ==> Less(entries[i].key, target)
      {
        pos := pos + 1;
      }
      forall i | pos <= i < |entries|
        ensures !Less(entries[i].key, target)
      {
        assert pos < i ==> Less(entries[pos].key, entries[i].key);
      }
    }

    method Next()
      requires Ok() && Valid()
      modifies this
      ensures Ok() && pos == old(pos) + 1
    {
      pos := pos + 1;
    }

    method Prev()
      requires Ok() && Valid()
      modifies this
      ensures Ok() && pos == if old(pos) == 0 then |entries| else old(pos) - 1
    {
      pos := if pos == 0 then |entries| else pos - 1;
    }
  }
}
