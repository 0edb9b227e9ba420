/** The default comparator on byte strings and the comparator on encoded internal keys (util/comparator.cc,
    db/dbformat.cc). */
module Comparator {
  import opened Wrappers
  import opened DbFormat
  import opened Coding

  // Slice::compare(a, b) < 0.
  predicate BytesLess(a: Bytes, b: Bytes) {
    b != [] && (a == [] || a[0] < b[0] || (a[0] == b[0] && BytesLess(a[1..], b[1..])))
  }

  // The length of the common prefix decides the order.
  lemma {:induction false} LessByPrefix(a: Bytes, b: Bytes, n: nat)
    requires n <= |a| && n <= |b| && a[..n] == b[..n]
    ensures n == |a| ==> (BytesLess(a, b) <==> n < |b|)
    ensures n == |b| ==> !BytesLess(a, b)
    ensures n < |a| && n < |b| && a[n] != b[n] ==> (BytesLess(a, b) <==> a[n] < b[n])
  {
    if n > 0 {
      assert a[0] == a[..n][0] == b[..n][0] == b[0];
      assert a[1..][..n - 1] == a[..n][1..] && b[1..][..n - 1] == b[..n][1..];
      LessByPrefix(a[1..], b[1..], n - 1);
    }
  }

  lemma {:induction false} BytesLessTransitive(a: Bytes, b: Bytes, c: Bytes)
    requires BytesLess(a, b) && BytesLess(b, c)
    ensures BytesLess(a, c)
  {
    if a != [] && a[0] == b[0] == c[0] {
      BytesLessTransitive(a[1..], b[1..], c[1..]);
    }
  }

  lemma {:induction false} BytesLessTotal(a: Bytes, b: Bytes)
    ensures BytesLess(a, b) || a == b || BytesLess(b, a)
    ensures !(BytesLess(a, b) && BytesLess(b, a))
    ensures a == b ==> !BytesLess(a, b)
  {
    if a != [] && b != [] && a[0] == b[0] {
      BytesLessTotal(a[1..], b[1..]);
      assert a == [a[0]] + a[1..] && b == [b[0]] + b[1..];
    }
  }

  // The position of a byte string in the order, as a fraction in base 257.
  function Rank(b: Bytes): real {
    if b == [] then 0.0 else (b[0] as real + 1.0 + Rank(b[1..])) / 257.0
  }

  lemma {:induction false} RankBounds(b: Bytes)
    ensures 0.0 <= Rank(b) < 1.0
  {
    if b != [] {
      RankBounds(b[1..]);
    }
  }

  /** User keys under the bytewise comparator embed in the reals, so what is proved about ranks holds for them. */
  lemma {:induction false} RankOrder(a: Bytes, b: Bytes)
    ensures BytesLess(a, b) <==> Rank(a) < Rank(b)
    ensures a == b <==> Rank(a) == Rank(b)
  {
    if a != [] {
      RankBounds(a[1..]);
    }
    if b != [] {
      RankBounds(b[1..]);
    }
    if a != [] && b != [] {
      RankOrder(a[1..], b[1..]);
      DigitOrder(a[0], b[0], Rank(a[1..]), Rank(b[1..]));
      assert a == [a[0]] + a[1..] && b == [b[0]] + b[1..];
    }
  }

  lemma DigitOrder(x: int, y: int, p: real, q: real)
    requires 0.0 <= p < 1.0 && 0.0 <= q < 1.0
    ensures (x as real + 1.0 + p) / 257.0 < (y as real + 1.0 + q) / 257.0 <==> x < y || (x == y && p < q)
    ensures (x as real + 1.0 + p) / 257.0 == (y as real + 1.0 + q) / 257.0 <==> x == y && p == q
  {
    assert x < y ==> x as real + 1.0 <= y as real;
    assert y < x ==> y as real + 1.0 <= x as real;
  }

  // Cuts a key after position i and increments what is then its last byte.
  function CutAndBump(key: Bytes, i: nat): Bytes
    requires i < |key| && key[i] < 255
  {
    key[..i] + [key[i] + 1]
  }

  lemma BumpIsAbove(key: Bytes, i: nat)
    requires i < |key| && key[i] < 255
    ensures BytesLess(key, CutAndBump(key, i))
  {
    var bumped := CutAndBump(key, i);
    assert bumped[..i] == key[..i];
    LessByPrefix(key, bumped, i);
  }

  // The first byte in which the two differ leaves room for a byte between them.
  ghost predicate RoomAt(start: Bytes, limit: Bytes, i: nat) {
    && i < |start| && i < |limit| && start[..i] == limit[..i]
    && start[i] < 255 && start[i] + 1 < limit[i]
  }

  /** Shortens `start` to a key that still separates it from `limit`, or leaves it. */
  method FindShortestSeparator(start: Bytes, limit: Bytes) returns (key: Bytes)
    ensures key == start || (BytesLess(start, key) && BytesLess(key, limit) && |key| <= |start|)
    ensures !BytesLess(start, limit) ==> key == start
    ensures forall i: nat :: RoomAt(start, limit, i) ==> key == CutAndBump(start, i)
    ensures (forall i: nat :: !RoomAt(start, limit, i)) ==> key == start
  {
    key := start;
    var minLength: nat := if |start| < |limit| then |start| else |limit|;
    var diff: nat := 0;
    while diff < minLength && start[diff] == limit[diff]
      invariant diff <= minLength && start[..diff] == limit[..diff]
    {
      diff := diff + 1;
    }
    NoRoomBefore(start, limit, diff);
    if diff < minLength {
      LessByPrefix(start, limit, diff);
      if start[diff] < 255 && start[diff] + 1 < limit[diff] {
        assert RoomAt(start, limit, diff);
        key := CutAndBump(start, diff);
        BumpIsAbove(start, diff);
        assert key[..diff] == limit[..diff];
        LessByPrefix(key, limit, diff);
      }
    } else {
      LessByPrefix(start, limit, diff);
    }
  }

  // Where the two agree there is no room, and where they differ first nothing behind it matters.
  lemma NoRoomBefore(start: Bytes, limit: Bytes, n: nat)
    requires n <= |start| && n <= |limit| && start[..n] == limit[..n]
    requires n < |start| && n < |limit| ==> start[n] != limit[n]
    ensures forall i: nat :: RoomAt(start, limit, i) ==> i == n
  {
    assert forall j :: 0 <= j < n ==> start[..n][j] == start[j] && limit[..n][j] == limit[j];
    forall i: nat | RoomAt(start, limit, i)
      ensures i == n
    {
      assert forall j :: 0 <= j < i ==> start[..i][j] == start[j] && limit[..i][j] == limit[j];
    }
  }

  /** Shortens a key to one that is not below it; a run of 0xff bytes stays. */
  method FindShortSuccessor(start: Bytes) returns (key: Bytes)
    ensures key == start || (BytesLess(start, key) && |key| <= |start|)
    ensures key == start <==> forall i :: 0 <= i < |start| ==> start[i] == 255
    ensures forall i :: 0 <= i < |start| && start[i] != 255 && (forall j :: 0 <= j < i ==> start[j] == 255) ==>
              key == CutAndBump(start, i)
  {
    for i: nat := 0 to |start|
      invariant forall j :: 0 <= j < i ==> start[j] == 255
    {
      if start[i] != 255 {
        BumpIsAbove(start, i);
        BytesLessTotal(start, CutAndBump(start, i));
        return CutAndBump(start, i);
      }
    }
    return start;
  }

  // ----- Encoded internal keys: the user key and eight bytes of tag

  predicate IsInternal(k: Bytes) {
    |k| >= 8
  }

  function ExtractUserKey(k: Bytes): Bytes
    requires IsInternal(k)
  {
    k[..|k| - 8]
  }

  function TagOf(k: Bytes): nat
    requires IsInternal(k)
  {
    DecodeFixed64(k[|k| - 8..])
  }

  function PackSequenceAndType(sn: nat, kind: nat): (tag: nat)
    requires sn <= MAX_SEQUENCE && kind < 256
    ensures tag < TWO64
  {
    sn * 256 + kind
  }

  function AppendInternalKey(user: Bytes, sn: nat, kind: nat): (k: Bytes)
    requires sn <= MAX_SEQUENCE && kind < 256
    ensures IsInternal(k)
  {
    user + Fixed64(PackSequenceAndType(sn, kind))
  }

  datatype ParsedKey = ParsedKey(user: Bytes, sn: nat, kind: nat)

  // ParseInternalKey: what the key says, or nothing if it is too short or its type is unknown.
  function ParseInternalKey(k: Bytes): Option<ParsedKey> {
    if |k| < 8 then None
    else
      var num := TagOf(k);
      if num % 256 > TYPE_VALUE then None else Some(ParsedKey(ExtractUserKey(k), num / 256, num % 256))
  }

  lemma InternalKeyRoundTrip(user: Bytes, sn: nat, kind: nat)
    requires sn <= MAX_SEQUENCE && kind < 256
    ensures var k := AppendInternalKey(user, sn, kind);
            && ExtractUserKey(k) == user && TagOf(k) == PackSequenceAndType(sn, kind)
            && ParseInternalKey(k) == if kind <= TYPE_VALUE then Some(ParsedKey(user, sn, kind)) else None
  {
    var k := AppendInternalKey(user, sn, kind);
    assert k[..|k| - 8] == user && k[|k| - 8..] == Fixed64(PackSequenceAndType(sn, kind));
  }

  /** The eight bytes behind the user key: the type, and the sequence number with its lowest byte first. */
  lemma TrailerBytes(user: Bytes, sn: nat, kind: nat)
    requires sn <= MAX_SEQUENCE && kind < 256
    ensures var k := AppendInternalKey(user, sn, kind);
            |k| == |user| + 8 && k[..|user|] == user && k[|user|] == kind && k[|user| + 1..] == Fixed(sn, 7)
  {
    var k := AppendInternalKey(user, sn, kind);
    assert k[|user|..] == Fixed64(PackSequenceAndType(sn, kind)) == [kind] + Fixed(sn, 7);
    assert k[|user| + 1..] == k[|user|..][1..];
  }

  // InternalKeyComparator::Compare(a, b) < 0 on the encoded form.
  predicate KeyLess(a: Bytes, b: Bytes)
    requires IsInternal(a) && IsInternal(b)
  {
    var (u, v) := (ExtractUserKey(a), ExtractUserKey(b));
    BytesLess(u, v) || (!BytesLess(v, u) && TagOf(a) > TagOf(b))
  }

  // The internal key as other modules see it, with its user key as a rank.
  function Decoded(k: Bytes): InternalKey
    requires IsInternal(k)
  {
    InternalKey(Rank(ExtractUserKey(k)), TagOf(k) / 256, TagOf(k) % 256)
  }

  /** The comparator on encoded keys is the order of the keys they stand for, and only equal keys compare equal. */
  lemma KeyLessIsLess(a: Bytes, b: Bytes)
    requires IsInternal(a) && IsInternal(b)
    ensures KeyLess(a, b) <==> Less(Decoded(a), Decoded(b))
    ensures !KeyLess(a, b) && !KeyLess(b, a) <==> a == b
    ensures Packed(Decoded(a))
  {
    var (u, v) := (ExtractUserKey(a), ExtractUserKey(b));
    RankOrder(u, v);
    RankOrder(v, u);
    if u == v && TagOf(a) == TagOf(b) {
      assert a == u + a[|a| - 8..] && b == v + b[|b| - 8..];
    }
    assert Decoded(a).Tag() == TagOf(a) && Decoded(b).Tag() == TagOf(b);
  }

  lemma KeyLessTransitive(a: Bytes, b: Bytes, c: Bytes)
    requires IsInternal(a) && IsInternal(b) && IsInternal(c)
    ensures KeyLess(a, b) && KeyLess(b, c) ==> KeyLess(a, c)
    ensures !KeyLess(b, a) && KeyLess(b, c) ==> KeyLess(a, c)
    ensures KeyLess(a, b) && !KeyLess(c, b) ==> KeyLess(a, c)
    ensures !KeyLess(a, a)
  {
    KeyLessIsLess(a, b);
    KeyLessIsLess(b, c);
    KeyLessIsLess(a, c);
    KeyLessIsLess(b, a);
    KeyLessIsLess(c, b);
    KeyLessIsLess(a, a);
  }

  // The key is the first one, or its user key lies strictly between those of the two.
  predicate Separates(start: Bytes, key: Bytes, limit: Bytes)
    requires IsInternal(start) && IsInternal(limit)
  {
    && IsInternal(key) && KeyLess(start, limit)
    && (key == start || (BytesLess(ExtractUserKey(start), ExtractUserKey(key))
                         && BytesLess(ExtractUserKey(key), ExtractUserKey(limit))))
  }

  lemma SeparatorOrder(start: Bytes, key: Bytes, limit: Bytes)
    requires IsInternal(start) && IsInternal(limit) && Separates(start, key, limit)
    ensures !KeyLess(key, start) && KeyLess(key, limit)
  {
    BytesLessTotal(ExtractUserKey(start), ExtractUserKey(key));
    BytesLessTotal(ExtractUserKey(start), ExtractUserKey(start));
  }

  // Cutting the user key there leaves fewer bytes.
  ghost predicate ShortensAt(start: Bytes, limit: Bytes, i: nat)
    requires IsInternal(start) && IsInternal(limit)
  {
    RoomAt(ExtractUserKey(start), ExtractUserKey(limit), i) && i + 1 < |start| - 8
  }

  /** Shortens the user key of `start` and gives it the earliest tag, if that makes the key shorter. */
  method FindShortestInternalSeparator(start: Bytes, limit: Bytes) returns (key: Bytes)
    requires IsInternal(start) && IsInternal(limit) && KeyLess(start, limit)
    ensures IsInternal(key) && |key| <= |start| && Separates(start, key, limit)
    ensures !KeyLess(key, start) && KeyLess(key, limit)
    ensures forall i: nat :: ShortensAt(start, limit, i) ==>
              key == AppendInternalKey(CutAndBump(ExtractUserKey(start), i), MAX_SEQUENCE, TYPE_FOR_SEEK)
    ensures (forall i: nat :: !ShortensAt(start, limit, i)) ==> key == start
  {
    hide BytesLess, ShortensAt, RoomAt, CutAndBump, FromFixed, Fixed;
    var (userStart, userLimit) := (ExtractUserKey(start), ExtractUserKey(limit));
    var tmp := FindShortestSeparator(userStart, userLimit);
    if |tmp| < |userStart| && BytesLess(userStart, tmp) {
      ShortenedAt(start, limit, tmp);
      key := AppendInternalKey(tmp, MAX_SEQUENCE, TYPE_FOR_SEEK);
      InternalKeyRoundTrip(tmp, MAX_SEQUENCE, TYPE_FOR_SEEK);
      BytesLessTotal(userStart, tmp);
    } else {
      NotShortened(start, limit, tmp);
      key := start;
      KeyLessIsLess(start, start);
    }
  }

  lemma ShortenedAt(start: Bytes, limit: Bytes, tmp: Bytes)
    requires IsInternal(start) && IsInternal(limit) && |tmp| < |start| - 8
    requires forall i: nat :: RoomAt(ExtractUserKey(start), ExtractUserKey(limit), i) ==>
               tmp == CutAndBump(ExtractUserKey(start), i)
    requires (forall i: nat :: !RoomAt(ExtractUserKey(start), ExtractUserKey(limit), i)) ==> tmp == ExtractUserKey(start)
    ensures exists i: nat :: ShortensAt(start, limit, i)
    ensures forall i: nat :: ShortensAt(start, limit, i) ==> tmp == CutAndBump(ExtractUserKey(start), i)
  {
    var i: nat :| RoomAt(ExtractUserKey(start), ExtractUserKey(limit), i);
    assert ShortensAt(start, limit, i);
  }

  lemma NotShortened(start: Bytes, limit: Bytes, tmp: Bytes)
    requires IsInternal(start) && IsInternal(limit)
    requires |tmp| < |start| - 8 ==> !BytesLess(ExtractUserKey(start), tmp)
    requires forall i: nat :: RoomAt(ExtractUserKey(start), ExtractUserKey(limit), i) ==>
               tmp == CutAndBump(ExtractUserKey(start), i)
    ensures forall i: nat :: !ShortensAt(start, limit, i)
  {
    forall i: nat | ShortensAt(start, limit, i)
      ensures false
    {
      BumpIsAbove(ExtractUserKey(start), i);
    }
  }

  method FindShortInternalSuccessor(start: Bytes) returns (key: Bytes)
    requires IsInternal(start)
    ensures IsInternal(key) && |key| <= |start| && !KeyLess(key, start)
    ensures forall i :: 0 <= i < |start| - 9 && start[i] != 255 && (forall j :: 0 <= j < i ==> start[j] == 255) ==>
              key == AppendInternalKey(CutAndBump(ExtractUserKey(start), i), MAX_SEQUENCE, TYPE_FOR_SEEK)
    ensures (forall i :: 0 <= i < |start| - 9 ==> start[i] == 255) ==> key == start
  {
    var user := ExtractUserKey(start);
    var tmp := FindShortSuccessor(user);
    if |tmp| < |user| && BytesLess(user, tmp) {
      key := AppendInternalKey(tmp, MAX_SEQUENCE, TYPE_FOR_SEEK);
      InternalKeyRoundTrip(tmp, MAX_SEQUENCE, TYPE_FOR_SEEK);
      BytesLessTotal(user, tmp);
    } else {
      key := start;
      KeyLessIsLess(start, start);
    }
  }
}
