/** Fixed-width integers, varints and length-prefixed strings (util/coding.cc, util/coding.h). */
module Coding {
  import opened Wrappers
  import opened DbFormat

  const TWO32: nat := 0x1_0000_0000
  const TWO64: nat := 0x1_0000_0000_0000_0000

  function Pow(base: nat, n: nat): nat {
    if n == 0 then 1 else base * Pow(base, n - 1)
  }

  // ----- Fixed width, least significant byte first

  function Fixed(v: nat, width: nat): Bytes {
    if width == 0 then [] else [v % 256] + Fixed(v / 256, width - 1)
  }

  function FromFixed(b: Bytes): nat {
    if b == [] then 0 else b[0] + 256 * FromFixed(b[1..])
  }

  lemma {:induction false} FixedRoundTrip(v: nat, width: nat)
    requires v < Pow(256, width)
    ensures |Fixed(v, width)| == width && FromFixed(Fixed(v, width)) == v
  {
    if width > 0 {
      assert v / 256 < Pow(256, width - 1);
      FixedRoundTrip(v / 256, width - 1);
      assert Fixed(v, width)[1..] == Fixed(v / 256, width - 1);
    }
  }

  // Distinct byte strings of one width encode distinct numbers.
  lemma {:induction false} FixedIsOnto(b: Bytes)
    ensures FromFixed(b) < Pow(256, |b|) && Fixed(FromFixed(b), |b|) == b
  {
    if b != [] {
      FixedIsOnto(b[1..]);
      assert FromFixed(b) / 256 == FromFixed(b[1..]);
      assert b == [b[0]] + b[1..];
    }
  }

  lemma Widths()
    ensures Pow(256, 4) == TWO32 && Pow(256, 8) == TWO64
  {
    assert Pow(256, 1) == 256;
    assert Pow(256, 2) == 0x1_0000;
    assert Pow(256, 3) == 0x100_0000;
    assert Pow(256, 4) == TWO32;
    assert Pow(256, 5) == 0x100_0000_0000;
    assert Pow(256, 6) == 0x1_0000_0000_0000;
    assert Pow(256, 7) == 0x100_0000_0000_0000;
  }

  // PutFixed32, PutFixed64, DecodeFixed32 and DecodeFixed64.
  function Fixed32(v: nat): (b: Bytes)
    requires v < TWO32
    ensures |b| == 4 && FromFixed(b) == v
  {
    Widths();
    FixedRoundTrip(v, 4);
    Fixed(v, 4)
  }

  function Fixed64(v: nat): (b: Bytes)
    requires v < TWO64
    ensures |b| == 8 && FromFixed(b) == v
  {
    Widths();
    FixedRoundTrip(v, 8);
    Fixed(v, 8)
  }

  function DecodeFixed32(b: Bytes): (v: nat)
    requires |b| == 4
    ensures v < TWO32 && Fixed32(v) == b
  {
    Widths();
    FixedIsOnto(b);
    FromFixed(b)
  }

  function DecodeFixed64(b: Bytes): (v: nat)
    requires |b| == 8
    ensures v < TWO64 && Fixed64(v) == b
  {
    Widths();
    FixedIsOnto(b);
    FromFixed(b)
  }

  // A run of 32-bit numbers, as PutFixed32 writes them one after the other.
  ghost predicate Fit32(points: seq<nat>) {
    forall i :: 0 <= i < |points| ==> points[i] < TWO32
  }

  ghost function Fixed32s(points: seq<nat>): Bytes
    requires Fit32(points)
  {
    if points == [] then []
    else Fixed32s(points[..|points| - 1]) + Fixed32(points[|points| - 1])
  }

  lemma {:induction false} Fixed32sAt(points: seq<nat>, r: nat)
    requires Fit32(points)
    ensures |Fixed32s(points)| == 4 * |points|
    ensures r < |points| ==> Fixed32s(points)[4 * r..4 * r + 4] == Fixed32(points[r])
  {
    if points != [] {
      var n := |points| - 1;
      Fixed32sAt(points[..n], if r < n then r else 0);
      SliceOfConcat(Fixed32s(points[..n]), Fixed32(points[n]), 4 * r);
    }
  }

  // Four bytes at offset i, left of the seam or right behind it.
  lemma SliceOfConcat(a: Bytes, b: Bytes, i: nat)
    ensures i + 4 <= |a| ==> (a + b)[i..i + 4] == a[i..i + 4]
    ensures i == |a| && |b| == 4 ==> (a + b)[i..i + 4] == b
  {
  }

  // ----- Varints: seven bits a byte, the top bit says that more follow

  function Varint(v: nat): (b: Bytes)
    ensures b != []
  {
    if v < 128 then [v] else [v % 128 + 128] + Varint(v / 128)
  }

  datatype Parsed<+T> = Parsed(value: T, rest: Bytes)

  // Reads at most `max` bytes of a varint.
  function ReadVarint(b: Bytes, max: nat): Option<Parsed<nat>>
    decreases max
  {
    if max == 0 || b == [] then None
    else if b[0] < 128 then Some(Parsed(b[0], b[1..]))
    else
      var r := ReadVarint(b[1..], max - 1);
      if r.None? then None else Some(Parsed(b[0] - 128 + 128 * r.value.value, r.value.rest))
  }

  // Reading takes at least one byte.
  lemma {:induction false} VarintShrinks(b: Bytes, max: nat)
    ensures ReadVarint(b, max).Some? ==> |ReadVarint(b, max).value.rest| < |b|
    decreases max
  {
    if max > 0 && b != [] && b[0] >= 128 {
      VarintShrinks(b[1..], max - 1);
    }
  }

  // Bits beyond the word are shifted out.
  function GetVarint32(b: Bytes): Option<Parsed<nat>> {
    var r := ReadVarint(b, 5);
    if r.None? then None else Some(Parsed(r.value.value % TWO32, r.value.rest))
  }

  function GetVarint64(b: Bytes): Option<Parsed<nat>> {
    var r := ReadVarint(b, 10);
    if r.None? then None else Some(Parsed(r.value.value % TWO64, r.value.rest))
  }

  lemma {:induction false} ReadAfterVarint(v: nat, max: nat, rest: Bytes)
    requires max > 0 && v < Pow(128, max)
    ensures |Varint(v)| <= max && ReadVarint(Varint(v) + rest, max) == Some(Parsed(v, rest))
  {
    var b := Varint(v) + rest;
    if v < 128 {
      assert b[1..] == rest;
    } else {
      assert Pow(128, 1) == 128 * Pow(128, 0) == 128;
      assert v / 128 < Pow(128, max - 1);
      ReadAfterVarint(v / 128, max - 1, rest);
      assert b[1..] == Varint(v / 128) + rest;
    }
  }

  /** Reading what was written gives the number back and stops right behind it. */
  lemma VarintRoundTrip(v: nat, rest: Bytes)
    ensures v < TWO32 ==> |Varint(v)| <= 5 && GetVarint32(Varint(v) + rest) == Some(Parsed(v, rest))
    ensures v < TWO64 ==> |Varint(v)| <= 10 && GetVarint64(Varint(v) + rest) == Some(Parsed(v, rest))
  {
    Pow128();
    hide Pow, Varint, ReadVarint;
    if v < TWO32 {
      ReadAfterVarint(v, 5, rest);
    }
    if v < TWO64 {
      ReadAfterVarint(v, 10, rest);
    }
  }

  // A varint that is cut off is none.
  lemma {:induction false} VarintCut(v: nat, m: nat, max: nat)
    requires m < |Varint(v)|
    ensures ReadVarint(Varint(v)[..m], max) == None
    decreases max
  {
    if m > 0 && max > 0 {
      assert Varint(v)[..m][1..] == Varint(v / 128)[..m - 1];
      VarintCut(v / 128, m - 1, max - 1);
    }
  }

  lemma VarintShort(v: nat)
    requires v < TWO32
    ensures |Varint(v)| <= 5
  {
    VarintRoundTrip(v, []);
  }

  lemma Pow128()
    ensures TWO32 <= Pow(128, 5) && TWO64 <= Pow(128, 10)
  {
    assert Pow(128, 1) == 128;
    assert Pow(128, 2) == 0x4000;
    assert Pow(128, 3) == 0x20_0000;
    assert Pow(128, 4) == 0x1000_0000;
    assert Pow(128, 5) == 0x8_0000_0000;
    assert Pow(128, 6) == 0x400_0000_0000;
    assert Pow(128, 7) == 0x2_0000_0000_0000;
    assert Pow(128, 8) == 0x100_0000_0000_0000;
    assert Pow(128, 9) == 0x8000_0000_0000_0000;
  }

  /** The unrolled 32-bit encoder writes the same bytes as the loop. */
  method EncodeVarint32(v: nat) returns (b: Bytes)
    requires v < TWO32
    ensures b == Varint(v)
  {
    if v < 0x80 {
      b := [v];
    } else if v < 0x4000 {
      b := [v % 128 + 128, v / 0x80];
    } else if v < 0x20_0000 {
      b := [v % 128 + 128, v / 0x80 % 128 + 128, v / 0x4000];
    } else if v < 0x1000_0000 {
      b := [v % 128 + 128, v / 0x80 % 128 + 128, v / 0x4000 % 128 + 128, v / 0x20_0000];
    } else {
      b := [v % 128 + 128, v / 0x80 % 128 + 128, v / 0x4000 % 128 + 128, v / 0x20_0000 % 128 + 128, v / 0x1000_0000];
    }
    assert v / 0x80 / 0x80 == v / 0x4000 && v / 0x4000 / 0x80 == v / 0x20_0000 && v / 0x20_0000 / 0x80 == v / 0x1000_0000;
    assert Varint(v / 0x1000_0000) == [v / 0x1000_0000];
    VarintStep(v / 0x20_0000);
    VarintStep(v / 0x4000);
    VarintStep(v / 0x80);
    VarintStep(v);
  }

  lemma VarintStep(v: nat)
    ensures Varint(v) == if v < 128 then [v] else [v % 128 + 128] + Varint(v / 128)
  {
  }

  method EncodeVarint64(value: nat) returns (b: Bytes)
    requires value < TWO64
    ensures b == Varint(value)
  {
    var v := value;
    b := [];
    while v >= 128
      invariant b + Varint(v) == Varint(value)
    {
      b := b + [v % 128 + 128];
      v := v / 128;
    }
    b := b + [v];
  }

  method VarintLength(value: nat) returns (length: nat)
    ensures length == |Varint(value)|
  {
    var v := value;
    length := 1;
    while v >= 128
      invariant length + |Varint(v)| == |Varint(value)| + 1
    {
      v := v / 128;
      length := length + 1;
    }
  }

  /** The one-byte fast path of GetVarint32Ptr, then its loop. */
  method ParseVarint32(input: Bytes) returns (r: Option<Parsed<nat>>)
    ensures r == GetVarint32(input)
  {
    if input != [] && input[0] < 128 {
      return Some(Parsed(input[0], input[1..]));
    }
    var result: nat, scale: nat, p: nat := 0, 1, 0;
    while p < 5 && p < |input|
      invariant p <= 5 && p <= |input| && scale == Pow(128, p)
      invariant result < TWO32 && result == Gathered(input, p) % TWO32
      invariant Resumes(input, p, 5)
    {
      var b := input[p];
      GatheredStep(input, p);
      ResumesStep(input, p, 5);
      // result and the shifted bits do not overlap, so the bitwise or is a sum.
      result := (result + b % 128 * scale) % TWO32;
      scale := 128 * scale;
      p := p + 1;
      if b < 128 {
        return Some(Parsed(result, input[p..]));
      }
    }
    return None;
  }

  // The value of the low seven bits of the first p bytes.
  function Gathered(b: Bytes, p: nat): nat
    requires p <= |b|
  {
    if p == 0 then 0 else Gathered(b, p - 1) + b[p - 1] % 128 * Pow(128, p - 1)
  }

  // p continuation bytes have been read, and the rest decides.
  ghost predicate Resumes(b: Bytes, p: nat, max: nat)
    requires p <= |b| && p <= max
  {
    var r := ReadVarint(b[p..], max - p);
    ReadVarint(b, max) == if r.None? then None else Some(Parsed(Gathered(b, p) + Pow(128, p) * r.value.value, r.value.rest))
  }

  lemma GatheredStep(b: Bytes, p: nat)
    requires p < |b|
    ensures (Gathered(b, p) % TWO32 + b[p] % 128 * Pow(128, p)) % TWO32 == Gathered(b, p + 1) % TWO32
  {
  }

  lemma ResumesStep(b: Bytes, p: nat, max: nat)
    requires p < |b| && p < max && Resumes(b, p, max)
    ensures b[p] < 128 ==> ReadVarint(b, max) == Some(Parsed(Gathered(b, p + 1), b[p + 1..]))
    ensures b[p] >= 128 ==> Resumes(b, p + 1, max)
  {
    assert b[p..][1..] == b[p + 1..];
    var low: nat := b[p] % 128;
    var q: nat := Pow(128, p);
    var r := ReadVarint(b[p + 1..], max - p - 1);
    var here := ReadVarint(b[p..], max - p);
    assert here == if b[p] < 128 then Some(Parsed(low, b[p + 1..]))
                   else if r.None? then None else Some(Parsed(low + 128 * r.value.value, r.value.rest));
    var before: nat, after: nat := Gathered(b, p), Gathered(b, p + 1);
    assert after == before + low * q && Pow(128, p + 1) == 128 * q;
    hide Pow, ReadVarint, Gathered;
    if b[p] < 128 {
      Distribute(q, low, 0);
    } else if r.Some? {
      Distribute(q, low, r.value.value);
    }
  }

  lemma Distribute(q: nat, low: nat, high: nat)
    ensures q * (low + 128 * high) == low * q + 128 * q * high
  {
  }

  // ----- Length-prefixed strings

  function LengthPrefixed(s: Bytes): Bytes {
    Varint(|s|) + s
  }

  function GetLengthPrefixed(b: Bytes): Option<Parsed<Bytes>> {
    var r := GetVarint32(b);
    if r.None? || |r.value.rest| < r.value.value then None
    else Some(Parsed(r.value.rest[..r.value.value], r.value.rest[r.value.value..]))
  }

  lemma LengthPrefixedRoundTrip(s: Bytes, rest: Bytes)
    requires |s| < TWO32
    ensures GetLengthPrefixed(LengthPrefixed(s) + rest) == Some(Parsed(s, rest))
  {
    assert LengthPrefixed(s) + rest == Varint(|s|) + (s + rest);
    VarintRoundTrip(|s|, s + rest);
    assert (s + rest)[..|s|] == s && (s + rest)[|s|..] == rest;
  }

  /** A string that is cut off, in its length or behind it, is not read. */
  lemma LengthPrefixedCut(s: Bytes, m: nat)
    requires |s| < TWO32 && m < |LengthPrefixed(s)|
    ensures GetLengthPrefixed(LengthPrefixed(s)[..m]) == None
  {
    var head := Varint(|s|);
    if m < |head| {
      assert LengthPrefixed(s)[..m] == head[..m];
      VarintCut(|s|, m, 5);
    } else {
      assert LengthPrefixed(s)[..m] == head + s[..m - |head|];
      VarintRoundTrip(|s|, s[..m - |head|]);
    }
  }
}
