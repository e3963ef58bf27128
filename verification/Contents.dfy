/**
 * What a message struct says to a reader that knows some of its fields, when a reader's
 * descriptor fits a writer's, and when what the writer sends can be taken in.
 */
module Contents {
  import opened Bytes
  import opened Parsing
  import opened Descriptor
  import opened Encoding
  import opened Decoding

  // ---- Abstract messages ----

  datatype View = Absent | One(value: Content) | List(values: seq<Content>)

  datatype Content = Number(n: int) | Octets(bytes: seq<byte>) | Message(views: seq<View>)

  /** A value of writer's field f, as a reader with field f' sees it. */
  function ContentOf(f': Field, f: Field, v: Value): Content
    decreases f', 1
  {
    match v
    case Num(n) => Number(n)
    case Raw(b) => Octets(if f.ltype.Text? then UpToNul(b) else b)
    case Struct(cells) =>
      if f'.ltype.Submessage? && f.ltype.Submessage? && |cells| == CellCount(f.ltype.fields)
      then Message(Seen(f'.ltype.fields, f.ltype.fields, cells))
      else Message([])
  }

  function ContentsOf(f': Field, f: Field, items: seq<Value>): (r: seq<Content>)
    ensures |r| == |items|
    ensures forall i :: 0 <= i < |items| ==> r[i] == ContentOf(f', f, items[i])
    decreases f', 2, |items|
  {
    if items == [] then [] else [ContentOf(f', f, items[0])] + ContentsOf(f', f, items[1..])
  }

  function ViewOf(f': Field, f: Field, c: Cell): View
    decreases f', 3
  {
    match c
    case Plain(v) => One(ContentOf(f', f, v))
    case Opt(has, v) => if has then One(ContentOf(f', f, v)) else Absent
    case Many(items) => List(ContentsOf(f', f, items))
    case Union(which, v) => if which == f.tag then One(ContentOf(f', f, v)) else Absent
  }

  /** Field f' of a reader in a struct laid out by a writer's descriptor. */
  function SeenField(f': Field, fields: seq<Field>, cells: seq<Cell>): View
    requires |cells| == CellCount(fields)
    decreases f', 4
  {
    match Find(fields, 0, f'.tag)
    case None => Absent
    case Some(i) =>
      CellInRange(fields, i);
      ViewOf(f', fields[i], cells[CellOf(fields, i)])
  }

  function SeenFrom(fields': seq<Field>, fields: seq<Field>, cells: seq<Cell>, k: nat): (views: seq<View>)
    requires |cells| == CellCount(fields) && k <= |fields'|
    ensures |views| == |fields'| - k
    ensures forall j :: k <= j < |fields'| ==> views[j - k] == SeenField(fields'[j], fields, cells)
    decreases fields', |fields'| - k
  {
    if k == |fields'| then []
    else [SeenField(fields'[k], fields, cells)] + SeenFrom(fields', fields, cells, k + 1)
  }

  /** The message a struct holds, restricted to the fields a reader knows. */
  function Seen(fields': seq<Field>, fields: seq<Field>, cells: seq<Cell>): (views: seq<View>)
    requires |cells| == CellCount(fields)
    ensures |views| == |fields'|
    ensures forall j :: 0 <= j < |fields'| ==> views[j] == SeenField(fields'[j], fields, cells)
    decreases fields', |fields'| + 1
  {
    SeenFrom(fields', fields, cells, 0)
  }

  // ---- Well-formed descriptors ----

  ghost predicate DistinctTags(fields: seq<Field>) {
    forall i, j :: 0 <= i < j < |fields| ==> fields[i].tag != fields[j].tag
  }

  /** pb_check_proto3_default_value reads a count that a fixed-count array does not have. */
  ghost predicate NoFixedCount(fields: seq<Field>) {
    forall i :: 0 <= i < |fields| ==> !FixedCount(fields[i])
  }

  ghost predicate GoodField(f: Field)
    decreases f
  {
    1 <= f.tag < 0x2000_0000
    && f.dataSize < TWO32 && f.arraySize < TWO32
    && (Singular(f) ==> f.initial.None?)
    && (Singular(f) && f.ltype.Submessage? ==> NoFixedCount(f.ltype.fields))
    && (f.ltype.Submessage? ==> GoodFields(f.ltype.fields))
  }

  ghost predicate GoodFields(fields: seq<Field>)
    decreases fields
  {
    DistinctTags(fields) && forall i :: 0 <= i < |fields| ==> GoodField(fields[i])
  }

  // ---- A reader's descriptor fits a writer's ----

  ghost predicate FitsField(f': Field, f: Field)
    decreases f'
  {
    f'.tag == f.tag && f'.htype == f.htype && f'.hasSize == f.hasSize && f'.arraySize == f.arraySize
    && (if f'.ltype.Submessage?
        then f.ltype.Submessage? && Fits(f'.ltype.fields, f.ltype.fields)
        else f'.ltype == f.ltype && f'.dataSize == f.dataSize)
  }

  /** Every field of the reader is a field of the writer, and its oneofs are (parts of) the writer's. */
  ghost predicate Fits(fields': seq<Field>, fields: seq<Field>)
    decreases fields'
  {
    (forall k {:trigger fields'[k]} :: 0 <= k < |fields'| ==>
      Find(fields, 0, fields'[k].tag).Some? && FitsField(fields'[k], fields[Find(fields, 0, fields'[k].tag).value]))
    && (forall k, l :: 0 <= k < l < |fields'| && CellOf(fields', k) == CellOf(fields', l) ==>
          CellOf(fields, Find(fields, 0, fields'[k].tag).value)
          == CellOf(fields, Find(fields, 0, fields'[l].tag).value))
  }

  // ---- Struct members hold values of their C types ----

  predicate InSigned(n: int, modulus: nat) { -(modulus as int) <= 2 * n < modulus }

  ghost predicate TypedValue(f: Field, v: Value)
    decreases f, 0
  {
    match f.ltype
    case Varint => v.Num? && InSigned(v.n, Modulus(f.dataSize))
    case UVarint => v.Num? && 0 <= v.n < Modulus(f.dataSize)
    case SVarint => v.Num? && InSigned(v.n, Modulus(f.dataSize))
    case Fixed32 => v.Num? && 0 <= v.n < TWO32
    case Fixed64 => v.Num? && 0 <= v.n < TWO64
    case Submessage(sub) => v.Struct? && |v.cells| == CellCount(sub) && Typed(sub, v.cells)
    case FixedLengthBlob => v.Raw? && |v.bytes| == f.dataSize
    case _ => v.Raw?
  }

  ghost predicate TypedCell(f: Field, c: Cell)
    decreases f, 1
  {
    match c
    case Plain(v) => TypedValue(f, v)
    case Opt(_, v) => TypedValue(f, v)
    case Many(items) => forall i :: 0 <= i < |items| ==> TypedValue(f, items[i])
    case Union(which, v) => which == f.tag ==> TypedValue(f, v)
  }

  ghost predicate Typed(fields: seq<Field>, cells: seq<Cell>)
    requires |cells| == CellCount(fields)
    decreases fields, |fields| + 1
  {
    forall i :: 0 <= i < |fields| ==> CellInRange'(fields, cells, i) && TypedCell(fields[i], cells[CellOf(fields, i)])
  }

  /** Always true; it lets a quantifier index a struct. */
  predicate CellInRange'(fields: seq<Field>, cells: seq<Cell>, i: nat)
    requires i < |fields| && |cells| == CellCount(fields)
    ensures CellInRange'(fields, cells, i) && CellOf(fields, i) < |cells|
  {
    CellInRange(fields, i);
    true
  }

  // ---- What can be taken in ----

  /**
   * Lengths travel as 32-bit varints, and pb_dec_string wants room for a terminator that
   * pb_enc_string does not.
   */
  ghost predicate ValueArrives(f': Field, f: Field, v: Value)
    decreases f', 0
  {
    match f.ltype
    case Text => v.Raw? ==> |UpToNul(v.bytes)| < f.dataSize
    case Submessage(sub) =>
      v.Struct? && |v.cells| == CellCount(sub) ==>
        ShortEnough(EncStruct(sub, v.cells))
        && (f'.ltype.Submessage? ==> Arrives(f'.ltype.fields, sub, v.cells))
    case _ => true
  }

  ghost predicate ShortEnough(bytes: Option<seq<byte>>) { bytes.Some? ==> |bytes.value| < TWO32 }

  /** The values a cell makes pb_encode send for field f. */
  function Sent(f: Field, c: Cell): seq<Value> {
    match f.htype
    case Required => if c.Plain? then [c.value] else []
    case Optional =>
      if f.hasSize then if c.Opt? && c.has then [c.value] else []
      else if c.Plain? && !IsZero(f, c) then [c.value] else []
    case Repeated => ItemsOf(c)
    case Oneof => if c.Union? && c.which == f.tag then [c.value] else []
  }

  predicate SentPacked(f: Field) { f.htype.Repeated? && Packable(f.ltype) }

  ghost predicate CellArrives(f': Field, f: Field, c: Cell)
    decreases f', 1
  {
    if SentPacked(f) then ShortEnough(EncPacked(f, Sent(f, c)))
    else forall i :: 0 <= i < |Sent(f, c)| ==> ValueArrives(f', f, Sent(f, c)[i])
  }

  ghost predicate ValueSkippable(f: Field, v: Value) {
    f.ltype.Submessage? && v.Struct? && |v.cells| == CellCount(f.ltype.fields) ==>
      ShortEnough(EncStruct(f.ltype.fields, v.cells))
  }

  ghost predicate CellSkippable(f: Field, c: Cell) {
    if SentPacked(f) then ShortEnough(EncPacked(f, Sent(f, c)))
    else forall i :: 0 <= i < |Sent(f, c)| ==> ValueSkippable(f, Sent(f, c)[i])
  }

  /** Writer's field i is taken in by the reader, or can be skipped when the reader does not know it. */
  ghost predicate FieldArrives(fields': seq<Field>, fields: seq<Field>, cells: seq<Cell>, i: nat)
    requires i < |fields| && |cells| == CellCount(fields)
    decreases fields', |fields'|
  {
    CellInRange(fields, i);
    match Find(fields', 0, fields[i].tag)
    case Some(k) => CellArrives(fields'[k], fields[i], cells[CellOf(fields, i)])
    case None => CellSkippable(fields[i], cells[CellOf(fields, i)])
  }

  ghost predicate Arrives(fields': seq<Field>, fields: seq<Field>, cells: seq<Cell>)
    requires |cells| == CellCount(fields)
    decreases fields', |fields'| + 1
  {
    forall i :: 0 <= i < |fields| ==> FieldArrives(fields', fields, cells, i)
  }
}
