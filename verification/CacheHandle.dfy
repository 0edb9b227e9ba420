/** The entries of the cache (util/cache.cc LRUHandle), which carry the links of a hash chain and of a list. */
module CacheHandle {
  import opened DbFormat

  datatype Id = Id(key: Bytes, hash: nat)

  // `deleted` counts the calls of the entry's deleter.
  class Handle {
    const key: Bytes
    const hash: nat
    const value: nat
    const charge: nat
    var nextHash: Handle?
    var next: Handle?
    var prev: Handle?
    var refs: nat
    var inCache: bool
    var deleted: nat

    constructor (key: Bytes, hash: nat, value: nat, charge: nat)
      ensures this.key == key && this.hash == hash && this.value == value && this.charge == charge
      ensures refs == 1 && !inCache && deleted == 0
    {
      this.key, this.hash, this.value, this.charge := key, hash, value, charge;
      nextHash, next, prev := null, null, null;
      refs, inCache, deleted := 1, false, 0;
    }

    function GetId(): Id {
      Id(key, hash)
    }
  }

  ghost predicate NoDuplicates(s: seq<Handle>) {
    forall i, j :: 0 <= i < j < |s| ==> s[i] != s[j]
  }

  function WithoutAt(s: seq<Handle>, i: nat): seq<Handle>
    requires i < |s|
  {
    s[..i] + s[i + 1..]
  }

  lemma WithoutAtDistinct(s: seq<Handle>, i: nat)
    requires NoDuplicates(s) && i < |s|
    ensures NoDuplicates(WithoutAt(s, i)) && s[i] !in WithoutAt(s, i)
    ensures forall h :: h in WithoutAt(s, i) ==> h in s
  {
    forall j, k | 0 <= j < k < |s| - 1
      ensures WithoutAt(s, i)[j] != WithoutAt(s, i)[k]
    {
      assert s[if j < i then j else j + 1] != s[if k < i then k else k + 1];
    }
  }
}
