/**
 * Field descriptors, message memory and the field iterator (nanopb's pb.h and pb_common.c),
 * in the configuration the pods build: 32-bit pb_size_t, allocation enabled.
 *
 * A struct is a list of slots, one per storage location; the members of a union share one.
 */
module PbFormat {
  import opened Wrappers
  import opened DbFormat
  import opened Coding

  datatype LType =
    | Bool | VarInt | UVarInt | SVarInt | Word32 | Word64
    | ByteArray | Text | Submessage(fields: seq<Field>) | FixedLengthBytes

  // Optional has a has_ flag, Singular is proto3's optional without one,
  // FixedCount is a repeated field without a counter.
  datatype HType = Required | Optional | Singular | Repeated | FixedCount | Oneof

  // `joined` marks a union member that does not advance the data pointer.
  datatype Field = Field(tag: nat, ltype: LType, htype: HType, dataSize: nat, arraySize: nat,
                         initial: Option<Item>, joined: bool)

  datatype Item = Int(value: int) | Data(bytes: Bytes) | Chars(buffer: Bytes) | Struct(slots: seq<Slot>)

  // `count` is the has_ flag, the array counter or the which_ tag.
  datatype Slot = Slot(count: nat, items: seq<Item>)

  type Fields = seq<Field>
  type Message = seq<Slot>

  const MAX_REQUIRED_FIELDS: nat := 64
  const MAX_TAG: nat := 0x1FFF_FFFF
  // Offset of the bytes behind the size of a pb_bytes_array_t.
  const BYTES_OFFSET: nat := 4

  predicate Packable(l: LType) {
    l.Bool? || l.VarInt? || l.UVarInt? || l.SVarInt? || l.Word32? || l.Word64?
  }

  predicate IntSize(dataSize: nat) {
    dataSize == 1 || dataSize == 2 || dataSize == 4 || dataSize == 8
  }

  predicate IsArray(h: HType) {
    h.Repeated? || h.FixedCount?
  }

  function WireType(l: LType): nat {
    match l
    case Bool => 0
    case VarInt => 0
    case UVarInt => 0
    case SVarInt => 0
    case Word64 => 1
    case Word32 => 5
    case _ => 2
  }

  function Capacity(f: Field): nat {
    if IsArray(f.htype) then f.arraySize else 1
  }

  // ----- Memory, read and written without leaving it

  function SlotAt(m: Message, s: nat): Slot {
    if s < |m| then m[s] else Slot(0, [])
  }

  function ItemAt(items: seq<Item>, i: nat): Item {
    if i < |items| then items[i] else Int(0)
  }

  function WithSlot(m: Message, s: nat, slot: Slot): Message {
    if s < |m| then m[s := slot] else m
  }

  function WithItem(items: seq<Item>, i: nat, item: Item): seq<Item> {
    if i < |items| then items[i := item] else items
  }

  function IntOf(item: Item): int {
    if item.Int? then item.value else 0
  }

  function BytesOf(item: Item): Bytes {
    if item.Data? then item.bytes else []
  }

  function BufferOf(item: Item): Bytes {
    if item.Chars? then item.buffer else []
  }

  function SlotsOf(item: Item): (m: Message)
    ensures item.Struct? ==> m == item.slots
  {
    if item.Struct? then item.slots else []
  }

  // The characters in front of the terminator, or all of them.
  function CString(b: Bytes): (r: Bytes)
    ensures |r| <= |b| && r == b[..|r|] && (|r| < |b| ==> b[|r|] == 0)
  {
    if b == [] || b[0] == 0 then [] else [b[0]] + CString(b[1..])
  }

  lemma {:induction false} CStringEnds(r: Bytes, tail: Bytes)
    requires 0 !in r
    ensures CString(r + [0] + tail) == r
  {
    var b := r + [0] + tail;
    if r != [] {
      assert b[1..] == r[1..] + [0] + tail;
      CStringEnds(r[1..], tail);
    }
  }

  lemma {:induction false} CStringHasNoZero(b: Bytes)
    ensures 0 !in CString(b)
  {
    if b != [] && b[0] != 0 {
      CStringHasNoZero(b[1..]);
    }
  }

  // ----- Where the fields live

  // The storage of field k: union members behind the first one stay on its slot.
  function SlotOf(fields: Fields, k: nat): nat
    requires k < |fields|
  {
    if k == 0 then 0
    else if fields[k - 1].htype.Oneof? && fields[k].htype.Oneof? && fields[k].joined then SlotOf(fields, k - 1)
    else SlotOf(fields, k - 1) + 1
  }

  function SlotCount(fields: Fields): nat {
    if fields == [] then 0 else SlotOf(fields, |fields| - 1) + 1
  }

  lemma {:induction false} SlotsAscend(fields: Fields, i: nat, j: nat)
    requires i <= j < |fields|
    ensures SlotOf(fields, i) <= SlotOf(fields, j) < SlotCount(fields)
    ensures i < j && SlotOf(fields, i) == SlotOf(fields, j) ==> fields[i].htype.Oneof? && fields[j].htype.Oneof?
    decreases |fields| - i, j
  {
    if i < j {
      SlotsAscend(fields, i, j - 1);
      SlotsAscend(fields, j, |fields| - 1);
      if j - 1 == i || SlotOf(fields, j) != SlotOf(fields, j - 1) {
        SlotsAscend(fields, j - 1, j - 1);
      }
    } else if j < |fields| - 1 {
      SlotsAscend(fields, i + 1, |fields| - 1);
    }
  }

  /** Two fields live in one place only when both are members of a union. */
  lemma OnlyUnionsShare(fields: Fields, i: nat, j: nat)
    requires i < |fields| && j < |fields| && i != j
    ensures SlotOf(fields, i) == SlotOf(fields, j) ==> fields[i].htype.Oneof? && fields[j].htype.Oneof?
  {
    if i < j {
      SlotsAscend(fields, i, j);
    } else {
      SlotsAscend(fields, j, i);
    }
  }

  function RequiredBefore(fields: Fields, k: nat): (n: nat)
    requires k <= |fields|
    ensures n <= k
  {
    if k == 0 then 0
    else RequiredBefore(fields, k - 1) + if fields[k - 1].htype.Required? then 1 else 0
  }

  lemma {:induction false} RequiredGrows(fields: Fields, i: nat, j: nat)
    requires i <= j <= |fields|
    ensures RequiredBefore(fields, i) <= RequiredBefore(fields, j)
    decreases j
  {
    if i < j {
      RequiredGrows(fields, i, j - 1);
    }
  }

  // ----- The iterator

  ghost predicate HasTag(fields: Fields, tag: nat) {
    exists i :: 0 <= i < |fields| && fields[i].tag == tag
  }

  ghost predicate DistinctTags(fields: Fields) {
    forall i, j :: 0 <= i < j < |fields| ==> fields[i].tag != fields[j].tag
  }

  // No other field has the tag of a union member. Otherwise a union would be released through memory that
  // another field describes.
  ghost predicate UnionTagsDistinct(fields: Fields) {
    forall i, j :: 0 <= i < |fields| && 0 <= j < |fields| && i != j && fields[i].htype.Oneof? ==>
      fields[i].tag != fields[j].tag
  }

  // The same at any depth.
  ghost predicate FieldUnionsDistinct(f: Field)
    decreases f, 0
  {
    f.ltype.Submessage? ==> UnionsDistinct(f.ltype.fields)
  }

  ghost predicate UnionsDistinct(fields: Fields)
    decreases fields, 1
  {
    UnionTagsDistinct(fields) && forall i :: 0 <= i < |fields| ==> FieldUnionsDistinct(fields[i])
  }

  // The first field with the tag among the `left` fields from p on, wrapping around.
  function FindFrom(fields: Fields, p: nat, left: nat, tag: nat): (r: Option<nat>)
    requires p < |fields|
    ensures r.Some? ==> r.value < |fields| && fields[r.value].tag == tag
    decreases left
  {
    if left == 0 then None
    else if fields[p].tag == tag then Some(p)
    else FindFrom(fields, if p + 1 < |fields| then p + 1 else 0, left - 1, tag)
  }

  function FieldWithTag(fields: Fields, p: nat, tag: nat): (r: Option<nat>)
    requires p < |fields| || p == 0 == |fields|
    ensures r.Some? ==> r.value < |fields| && fields[r.value].tag == tag
  {
    if fields == [] then None else FindFrom(fields, p, |fields|, tag)
  }

  predicate Ahead(p: nat, left: nat, n: nat, i: nat) {
    p <= i < p + left || p <= i + n < p + left
  }

  lemma {:induction false} FindFromMisses(fields: Fields, p: nat, left: nat, tag: nat, i: nat)
    requires p < |fields| && i < |fields| && fields[i].tag == tag && left <= |fields| && Ahead(p, left, |fields|, i)
    ensures FindFrom(fields, p, left, tag).Some?
    decreases left
  {
    if left > 0 && fields[p].tag != tag {
      FindFromMisses(fields, if p + 1 < |fields| then p + 1 else 0, left - 1, tag, i);
    }
  }

  // A union member is found from wherever the search starts.
  lemma UnionMemberIsFound(fields: Fields, p: nat, k: nat)
    requires UnionTagsDistinct(fields) && p < |fields| && k < |fields| && fields[k].htype.Oneof?
    ensures FieldWithTag(fields, p, fields[k].tag) == Some(k)
  {
    FindFromMisses(fields, p, |fields|, fields[k].tag, k);
  }

  /** The search finds the field whose tag it is, from wherever it starts. */
  lemma FindIsUnique(fields: Fields, p: nat, k: nat)
    requires DistinctTags(fields) && p < |fields| && k < |fields|
    ensures FieldWithTag(fields, p, fields[k].tag) == Some(k)
  {
    FindFromMisses(fields, p, |fields|, fields[k].tag, k);
  }

  class FieldIter {
    const fields: Fields
    var pos: nat
    var slot: nat
    var requiredIndex: nat

    ghost predicate Valid()
      reads this
    {
      && (pos < |fields| || pos == 0 == |fields|)
      && slot == (if fields == [] then 0 else SlotOf(fields, pos))
      && requiredIndex == RequiredBefore(fields, pos)
    }

    constructor (fields: Fields)
      ensures Valid() && this.fields == fields && pos == 0
    {
      this.fields := fields;
      pos := 0;
      slot := 0;
      requiredIndex := 0;
    }

    // False when there is no field at all.
    method Begin() returns (any: bool)
      modifies this
      ensures Valid() && pos == 0 && any == (fields != [])
    {
      pos := 0;
      slot := 0;
      requiredIndex := 0;
      any := fields != [];
    }

    // Moves on, or wraps around to the first field and says so.
    method Next() returns (more: bool)
      requires Valid()
      modifies this
      ensures Valid() && more == (old(pos) + 1 < |fields|)
      ensures pos == if more then old(pos) + 1 else 0
    {
      if pos >= |fields| {
        return false;
      }
      var previous := pos;
      pos := pos + 1;
      if pos == |fields| {
        var _ := Begin();
        return false;
      }
      if fields[previous].htype.Required? {
        requiredIndex := requiredIndex + 1;
      }
      if !(fields[previous].htype.Oneof? && fields[pos].htype.Oneof? && fields[pos].joined) {
        slot := slot + 1;
      }
      more := true;
    }

    // Leaves the iterator where it was when no field has the tag.
    method Find(tag: nat) returns (found: bool)
      requires Valid()
      modifies this
      ensures Valid()
      ensures found == FieldWithTag(fields, old(pos), tag).Some? == HasTag(fields, tag)
      ensures pos == if found then FieldWithTag(fields, old(pos), tag).value else old(pos)
    {
      if fields == [] {
        return false;
      }
      var start := pos;
      ghost var left: nat := |fields|;
      while true
        invariant Valid() && 0 < left <= |fields|
        invariant forall i :: 0 <= i < |fields| && fields[i].tag == tag ==> Ahead(pos, left, |fields|, i)
        invariant pos == if start + |fields| - left < |fields| then start + |fields| - left else start - left
        invariant FindFrom(fields, start, |fields|, tag) == FindFrom(fields, pos, left, tag)
        decreases left
      {
        if fields[pos].tag == tag {
          return true;
        }
        var _ := Next();
        left := left - 1;
        if pos == start {
          return false;
        }
      }
    }
  }
}
