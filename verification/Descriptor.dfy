/**
 * Field descriptors and the message structs they describe. A struct is a sequence of storage
 * cells; the fields of one oneof share a cell, every other field has its own.
 */
module Descriptor {
  import opened Bytes
  import opened Parsing

  datatype LType =
    | Varint | UVarint | SVarint | Fixed32 | Fixed64
    | Blob(header: nat)       // header: where the bytes start, the width of a pb_size_t
    | Text
    | Submessage(fields: seq<Field>)
    | FixedLengthBlob

  datatype HType = Required | Optional | Repeated | Oneof

  /**
   * One pb_field_t. `hasSize` says that size_offset is not zero: a has_, _count or which_ member
   * exists. `joined` says that the field continues the union of the field before it.
   */
  datatype Field = Field(
    tag: nat,
    htype: HType,
    ltype: LType,
    joined: bool,
    hasSize: bool,
    dataSize: nat,
    arraySize: nat,
    initial: Option<Value>)

  datatype Value = Num(n: int) | Raw(bytes: seq<byte>) | Struct(cells: seq<Cell>)

  datatype Cell =
    | Plain(value: Value)                // required, or proto3 singular: no has_ member
    | Opt(has: bool, value: Value)       // proto2 optional
    | Many(items: seq<Value>)            // repeated: the entries up to the count
    | Union(which: nat, value: Value)    // oneof

  predicate Packable(l: LType) { l.Varint? || l.UVarint? || l.SVarint? || l.Fixed32? || l.Fixed64? }

  const WT_VARINT: nat := 0
  const WT_64BIT: nat := 1
  const WT_STRING: nat := 2
  const WT_32BIT: nat := 5

  function WireType(l: LType): (wt: nat)
    ensures wt in {WT_VARINT, WT_64BIT, WT_STRING, WT_32BIT}
  {
    match l
    case Varint | UVarint | SVarint => WT_VARINT
    case Fixed32 => WT_32BIT
    case Fixed64 => WT_64BIT
    case _ => WT_STRING
  }

  /** A repeated field without a _count member: always exactly arraySize entries. */
  predicate FixedCount(f: Field) { f.htype.Repeated? && !f.hasSize }

  /** An optional field without a has_ member: present when its value is not zero. */
  predicate Singular(f: Field) { f.htype.Optional? && !f.hasSize }

  /** Descriptor lists end at the first tag 0, so no listed field has it, at any depth. */
  ghost predicate Listed(fields: seq<Field>)
    decreases fields
  {
    forall i :: 0 <= i < |fields| ==> fields[i].tag != 0 && ListedType(fields[i])
  }

  ghost predicate ListedType(f: Field)
    decreases f
  {
    f.ltype.Submessage? ==> Listed(f.ltype.fields)
  }

  // ---- Where a field's storage is ----

  predicate Joined(fields: seq<Field>, i: nat)
    requires i < |fields|
  {
    0 < i && fields[i - 1].htype.Oneof? && fields[i].htype.Oneof? && fields[i].joined
  }

  /** The cell that pData of the field iterator points to at field i. */
  function CellOf(fields: seq<Field>, i: nat): (c: nat)
    requires i < |fields|
    ensures c <= i
  {
    if i == 0 then 0
    else CellOf(fields, i - 1) + (if Joined(fields, i) then 0 else 1)
  }

  function CellCount(fields: seq<Field>): nat {
    if fields == [] then 0 else CellOf(fields, |fields| - 1) + 1
  }

  /** The number of required fields before field i: required_field_index of the iterator. */
  function RequiredBefore(fields: seq<Field>, i: nat): (n: nat)
    requires i <= |fields|
    ensures n <= i
  {
    if i == 0 then 0
    else RequiredBefore(fields, i - 1) + (if fields[i - 1].htype.Required? then 1 else 0)
  }

  lemma {:induction false} CellOfMonotone(fields: seq<Field>, i: nat, j: nat)
    requires i <= j < |fields|
    ensures CellOf(fields, i) <= CellOf(fields, j)
    decreases j
  {
    if i < j {
      CellOfMonotone(fields, i, j - 1);
    }
  }

  lemma CellInRange(fields: seq<Field>, i: nat)
    requires i < |fields|
    ensures CellOf(fields, i) < CellCount(fields)
  {
    CellOfMonotone(fields, i, |fields| - 1);
  }

  /** Every field after i, up to j, goes on in the union of the one before it: one oneof holds them all. */
  predicate OneUnion(fields: seq<Field>, i: nat, j: nat)
    requires i < j < |fields|
  {
    forall k :: i < k <= j ==> Joined(fields, k)
  }

  /** Two fields share a cell exactly when they belong to one oneof. */
  lemma {:induction false} SharedCell(fields: seq<Field>, i: nat, j: nat)
    requires i < j < |fields|
    ensures CellOf(fields, i) == CellOf(fields, j) <==> OneUnion(fields, i, j)
    ensures OneUnion(fields, i, j) ==> fields[i].htype.Oneof? && fields[j].htype.Oneof?
    decreases j
  {
    CellOfMonotone(fields, i, j - 1);
    if i < j - 1 {
      SharedCell(fields, i, j - 1);
    }
    assert OneUnion(fields, i, j) ==> Joined(fields, i + 1) && Joined(fields, j);
  }

  lemma {:induction false} RequiredBeforeMonotone(fields: seq<Field>, i: nat, j: nat)
    requires i <= j <= |fields|
    ensures RequiredBefore(fields, i) <= RequiredBefore(fields, j)
    decreases j
  {
    if i < j {
      RequiredBeforeMonotone(fields, i, j - 1);
    }
  }

  /** The position of the k-th required field. */
  lemma {:induction false} RequiredAt(fields: seq<Field>, upto: nat, k: nat) returns (i: nat)
    requires upto <= |fields| && k < RequiredBefore(fields, upto)
    ensures i < upto && fields[i].htype.Required? && RequiredBefore(fields, i) == k
  {
    if fields[upto - 1].htype.Required? && RequiredBefore(fields, upto - 1) == k {
      i := upto - 1;
    } else {
      i := RequiredAt(fields, upto - 1, k);
    }
  }

  // ---- Default values ----

  function Zero(f: Field): Value {
    match f.ltype
    case Blob(_) => Raw([])
    case Text => Raw([])
    case FixedLengthBlob => Raw(Zeros(f.dataSize))
    case _ => Num(0)
  }

  function Zeros(n: nat): (s: seq<byte>)
    ensures |s| == n
  {
    seq(n, _ => 0)
  }

  /** The initial value of a field's data, as pb_field_set_to_default leaves it. */
  function DefaultValue(f: Field): Value
    decreases f, 1
  {
    if f.ltype.Submessage? then Struct(DefaultsFrom(f.ltype.fields, 0))
    else if f.initial.Some? then f.initial.value
    else Zero(f)
  }

  function Copies(v: Value, n: nat): (s: seq<Value>)
    ensures |s| == n
    ensures forall i :: 0 <= i < n ==> s[i] == v
  {
    seq(n, _ => v)
  }

  /**
   * pb_field_set_to_default. An unset union and the entries of a fixed-count array are storage
   * that nothing reads before it is written; they get a fixed value here.
   */
  function DefaultCell(f: Field): Cell
    decreases f, 2
  {
    match f.htype
    case Required => Plain(DefaultValue(f))
    case Optional => if f.hasSize then Opt(false, DefaultValue(f)) else Plain(DefaultValue(f))
    case Repeated => Many(if f.hasSize then [] else Copies(Zero(f), f.arraySize))
    case Oneof => Union(0, Num(0))
  }

  function DefaultsFrom(fields: seq<Field>, i: nat): (cells: seq<Cell>)
    requires i <= |fields|
    decreases fields, |fields| - i
  {
    if i == |fields| then []
    else (if Joined(fields, i) then [] else [DefaultCell(fields[i])]) + DefaultsFrom(fields, i + 1)
  }

  /** pb_message_set_to_defaults on uninitialised storage. */
  function Defaults(fields: seq<Field>): seq<Cell> { DefaultsFrom(fields, 0) }

  lemma {:induction false} DefaultsFromAt(fields: seq<Field>, i: nat, j: nat)
    requires i <= j < |fields|
    requires i > 0 ==> CellOf(fields, j) > CellOf(fields, i - 1)
    ensures var base := if i == 0 then 0 else CellOf(fields, i - 1) + 1;
            0 <= CellOf(fields, j) - base < |DefaultsFrom(fields, i)|
            && DefaultsFrom(fields, i)[CellOf(fields, j) - base] == DefaultCell(fields[j])
    decreases |fields| - i
  {
    if i < j {
      if CellOf(fields, j) == CellOf(fields, i) {
        SharedCell(fields, i, j);
        DefaultsFromLength(fields, i);
      } else {
        CellOfMonotone(fields, i, j);
        DefaultsFromAt(fields, i + 1, j);
      }
    }
  }

  lemma {:induction false} DefaultsFromLength(fields: seq<Field>, i: nat)
    requires i <= |fields|
    ensures |DefaultsFrom(fields, i)| == CellCount(fields) - (if i == 0 then 0 else CellOf(fields, i - 1) + 1)
    decreases |fields| - i
  {
    if i < |fields| {
      DefaultsFromLength(fields, i + 1);
    }
  }

  /** After pb_message_set_to_defaults every field finds its own default in its cell. */
  lemma DefaultsAt(fields: seq<Field>, j: nat)
    requires j < |fields|
    ensures |Defaults(fields)| == CellCount(fields) && CellOf(fields, j) < CellCount(fields)
    ensures Defaults(fields)[CellOf(fields, j)] == DefaultCell(fields[j])
  {
    DefaultsFromLength(fields, 0);
    CellInRange(fields, j);
    DefaultsFromAt(fields, 0, j);
  }
}
