/** Checksums as the log and the tables store them: the masked CRC of some bytes, as a 32-bit number. */
module Checksum {
  import opened DbFormat
  import opened Coding
  import Crc32c

  function Words(b: Bytes): seq<bv8> {
    seq(|b|, i requires 0 <= i < |b| => b[i] as bv8)
  }

  // crc32c::Value and crc32c::Extend.
  function Value(b: Bytes): bv32 {
    Crc32c.Extended(0, Words(b))
  }

  function Extend(crc: bv32, b: Bytes): bv32 {
    Crc32c.Extended(crc, Words(b))
  }

  function Stored(crc: bv32): (n: nat)
    ensures n < TWO32
  {
    Crc32c.Mask(crc) as nat
  }

  predicate Matches(stored: nat, b: Bytes)
    requires stored < TWO32
  {
    Crc32c.Unmask(stored as bv32) == Value(b)
  }

  lemma ExtendValue(a: Bytes, b: Bytes)
    ensures Extend(Value(a), b) == Value(a + b)
  {
    Crc32c.ExtendComposes(0, Words(a), Words(b));
    assert Words(a + b) == Words(a) + Words(b);
  }

  /** What was stored for some bytes matches them. */
  lemma StoredMatches(b: Bytes)
    ensures Matches(Stored(Value(b)), b)
  {
    Crc32c.UnmaskInvertsMask(Value(b));
    ThereAndBack(Crc32c.Mask(Value(b)));
    hide Crc32c.Mask, Crc32c.Unmask, Value;
  }

  /** Nothing else matches them. */
  lemma MatchesOnlyStored(stored: nat, b: Bytes)
    requires stored < TWO32
    ensures Matches(stored, b) <==> stored == Stored(Value(b))
  {
    StoredMatches(b);
    BackAndThere(stored);
    Crc32c.UnmaskInvertsMask(stored as bv32);
    hide Crc32c.Mask, Crc32c.Unmask, Value;
  }

  lemma ThereAndBack(x: bv32)
    ensures (x as nat) < TWO32 && (x as nat) as bv32 == x
  {
  }

  lemma BackAndThere(n: nat)
    requires n < TWO32
    ensures (n as bv32) as nat == n
  {
    var x := n as bv32;
    ThereAndBack(x);
    SameWord(n, x as nat);
  }

  // ----- Numbers that become the same 32-bit word are the same

  predicate BitSet(n: nat, weight: nat)
    requires weight > 0
  {
    n / weight % 2 == 1
  }

  lemma Bits0(n: nat)
    requires n < TWO32
    ensures ((n as bv32) >> 0) & 1 == 1 <==> BitSet(n, 0x1)
    ensures ((n as bv32) >> 1) & 1 == 1 <==> BitSet(n, 0x2)
    ensures ((n as bv32) >> 2) & 1 == 1 <==> BitSet(n, 0x4)
    ensures ((n as bv32) >> 3) & 1 == 1 <==> BitSet(n, 0x8)
    ensures ((n as bv32) >> 4) & 1 == 1 <==> BitSet(n, 0x10)
    ensures ((n as bv32) >> 5) & 1 == 1 <==> BitSet(n, 0x20)
    ensures ((n as bv32) >> 6) & 1 == 1 <==> BitSet(n, 0x40)
    ensures ((n as bv32) >> 7) & 1 == 1 <==> BitSet(n, 0x80)
  {
  }

  lemma Bits8(n: nat)
    requires n < TWO32
    ensures ((n as bv32) >> 8) & 1 == 1 <==> BitSet(n, 0x100)
    ensures ((n as bv32) >> 9) & 1 == 1 <==> BitSet(n, 0x200)
    ensures ((n as bv32) >> 10) & 1 == 1 <==> BitSet(n, 0x400)
    ensures ((n as bv32) >> 11) & 1 == 1 <==> BitSet(n, 0x800)
    ensures ((n as bv32) >> 12) & 1 == 1 <==> BitSet(n, 0x1000)
    ensures ((n as bv32) >> 13) & 1 == 1 <==> BitSet(n, 0x2000)
    ensures ((n as bv32) >> 14) & 1 == 1 <==> BitSet(n, 0x4000)
    ensures ((n as bv32) >> 15) & 1 == 1 <==> BitSet(n, 0x8000)
  {
  }

  lemma Bits16(n: nat)
    requires n < TWO32
    ensures ((n as bv32) >> 16) & 1 == 1 <==> BitSet(n, 0x10000)
    ensures ((n as bv32) >> 17) & 1 == 1 <==> BitSet(n, 0x20000)
    ensures ((n as bv32) >> 18) & 1 == 1 <==> BitSet(n, 0x40000)
    ensures ((n as bv32) >> 19) & 1 == 1 <==> BitSet(n, 0x80000)
    ensures ((n as bv32) >> 20) & 1 == 1 <==> BitSet(n, 0x100000)
    ensures ((n as bv32) >> 21) & 1 == 1 <==> BitSet(n, 0x200000)
    ensures ((n as bv32) >> 22) & 1 == 1 <==> BitSet(n, 0x400000)
    ensures ((n as bv32) >> 23) & 1 == 1 <==> BitSet(n, 0x800000)
  {
  }

  lemma Bits24(n: nat)
    requires n < TWO32
    ensures ((n as bv32) >> 24) & 1 == 1 <==> BitSet(n, 0x1000000)
    ensures ((n as bv32) >> 25) & 1 == 1 <==> BitSet(n, 0x2000000)
    ensures ((n as bv32) >> 26) & 1 == 1 <==> BitSet(n, 0x4000000)
    ensures ((n as bv32) >> 27) & 1 == 1 <==> BitSet(n, 0x8000000)
    ensures ((n as bv32) >> 28) & 1 == 1 <==> BitSet(n, 0x10000000)
    ensures ((n as bv32) >> 29) & 1 == 1 <==> BitSet(n, 0x20000000)
    ensures ((n as bv32) >> 30) & 1 == 1 <==> BitSet(n, 0x40000000)
    ensures ((n as bv32) >> 31) & 1 == 1 <==> BitSet(n, 0x8000_0000)
  {
  }

  lemma Quotient(n: nat, w: nat, q: nat, r: nat)
    requires r < w && n == q * w + r
    ensures n / w == q
  {
    var d := n / w - q;
    assert d * w == r - n % w;
    assert d >= 1 ==> d * w >= w;
    assert d <= -1 ==> (-d) * w >= w;
  }

  lemma HalfQuotient(n: nat, w: nat)
    requires w > 0
    ensures n / (2 * w) == n / w / 2
  {
    var q, r := n / w, n % w;
    assert n == q * w + r;
    assert q * w == (q / 2) * (2 * w) + q % 2 * w;
    Quotient(n, 2 * w, q / 2, q % 2 * w + r);
  }

  // One more bit on the right.
  lemma NextBit(n: nat, m: nat, w: nat)
    requires w > 0 && n / (2 * w) == m / (2 * w) && (BitSet(n, w) <==> BitSet(m, w))
    ensures n / w == m / w
  {
    HalfQuotient(n, w);
    HalfQuotient(m, w);
  }

  lemma NextByte24(n: nat, m: nat)
    requires n < TWO32 && m < TWO32 && n as bv32 == m as bv32
    requires n / TWO32 == m / TWO32
    ensures n / 0x1000000 == m / 0x1000000
  {
    Bits24(n);
    Bits24(m);
    hide BitSet;
    NextBit(n, m, 0x8000_0000);
    NextBit(n, m, 0x40000000);
    NextBit(n, m, 0x20000000);
    NextBit(n, m, 0x10000000);
    NextBit(n, m, 0x8000000);
    NextBit(n, m, 0x4000000);
    NextBit(n, m, 0x2000000);
    NextBit(n, m, 0x1000000);
  }

  lemma NextByte16(n: nat, m: nat)
    requires n < TWO32 && m < TWO32 && n as bv32 == m as bv32
    requires n / 0x1000000 == m / 0x1000000
    ensures n / 0x10000 == m / 0x10000
  {
    Bits16(n);
    Bits16(m);
    hide BitSet;
    NextBit(n, m, 0x800000);
    NextBit(n, m, 0x400000);
    NextBit(n, m, 0x200000);
    NextBit(n, m, 0x100000);
    NextBit(n, m, 0x80000);
    NextBit(n, m, 0x40000);
    NextBit(n, m, 0x20000);
    NextBit(n, m, 0x10000);
  }

  lemma NextByte8(n: nat, m: nat)
    requires n < TWO32 && m < TWO32 && n as bv32 == m as bv32
    requires n / 0x10000 == m / 0x10000
    ensures n / 0x100 == m / 0x100
  {
    Bits8(n);
    Bits8(m);
    hide BitSet;
    NextBit(n, m, 0x8000);
    NextBit(n, m, 0x4000);
    NextBit(n, m, 0x2000);
    NextBit(n, m, 0x1000);
    NextBit(n, m, 0x800);
    NextBit(n, m, 0x400);
    NextBit(n, m, 0x200);
    NextBit(n, m, 0x100);
  }

  lemma NextByte0(n: nat, m: nat)
    requires n < TWO32 && m < TWO32 && n as bv32 == m as bv32
    requires n / 0x100 == m / 0x100
    ensures n / 0x1 == m / 0x1
  {
    Bits0(n);
    Bits0(m);
    hide BitSet;
    NextBit(n, m, 0x80);
    NextBit(n, m, 0x40);
    NextBit(n, m, 0x20);
    NextBit(n, m, 0x10);
    NextBit(n, m, 0x8);
    NextBit(n, m, 0x4);
    NextBit(n, m, 0x2);
    NextBit(n, m, 0x1);
  }

  lemma SameWord(n: nat, m: nat)
    requires n < TWO32 && m < TWO32 && n as bv32 == m as bv32
    ensures n == m
  {
    Quotient(n, TWO32, 0, n);
    Quotient(m, TWO32, 0, m);
    NextByte24(n, m);
    NextByte16(n, m);
    NextByte8(n, m);
    NextByte0(n, m);
  }
}
