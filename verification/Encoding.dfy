/** The bytes pb_encode produces for a struct, or None where it reports an error. */
module Encoding {
  import opened Bytes
  import opened Parsing
  import opened Varint
  import opened Words
  import opened Descriptor

  /** A length-prefixed byte string. */
  function EncString(b: seq<byte>): seq<byte> { EncVarint(|b|) + b }

  function EncTag(tag: nat, wt: nat): seq<byte> { EncVarint(8 * tag + wt) }

  function TagOf(f: Field): seq<byte> { EncTag(f.tag, WireType(f.ltype)) }

  /** The bytes of a character buffer up to its first NUL. */
  function UpToNul(b: seq<byte>): (r: seq<byte>)
    ensures r <= b && 0 !in r
    ensures |r| < |b| ==> b[|r|] == 0
  {
    if b == [] || b[0] == 0 then [] else [b[0]] + UpToNul(b[1..])
  }

  /** pb_enc_* : one value without its tag. */
  function EncValue(f: Field, v: Value): Option<seq<byte>>
    decreases f, 1
  {
    match f.ltype
    case Varint => if v.Num? && IntSize(f.dataSize) then Some(EncVarint(v.n % TWO64)) else None
    case UVarint => if v.Num? && v.n >= 0 && IntSize(f.dataSize) then Some(EncVarint(v.n)) else None
    case SVarint =>
      if v.Num? && -0x8000_0000_0000_0000 <= v.n < 0x8000_0000_0000_0000 && IntSize(f.dataSize)
      then Some(EncVarint(ZigZag(v.n))) else None
    case Fixed32 => if v.Num? && v.n >= 0 then Some(LittleEndian(v.n, 4)) else None
    case Fixed64 => if v.Num? && v.n >= 0 then Some(LittleEndian(v.n, 8)) else None
    case Blob(header) =>
      if v.Raw? && |v.bytes| + header <= f.dataSize then Some(EncString(v.bytes)) else None
    case Text => if v.Raw? && |v.bytes| <= f.dataSize then Some(EncString(UpToNul(v.bytes))) else None
    case Submessage(sub) =>
      if v.Struct? && |v.cells| == CellCount(sub) then
        var bytes :- EncFrom(sub, v.cells, 0);
        Some(EncString(bytes))
      else None
    case FixedLengthBlob => if v.Raw? && |v.bytes| == f.dataSize then Some(EncString(v.bytes)) else None
  }

  /** The entries of a packed array, without tag and length. */
  function EncPacked(f: Field, items: seq<Value>): Option<seq<byte>>
    decreases f, 2, |items|
  {
    if items == [] then Some([])
    else
      var first :- EncValue(f, items[0]);
      var others :- EncPacked(f, items[1..]);
      Some(first + others)
  }

  /** The entries of an unpacked array, each with the field's tag. */
  function EncTagged(f: Field, items: seq<Value>): Option<seq<byte>>
    decreases f, 2, |items|
  {
    if items == [] then Some([])
    else
      var first :- EncValue(f, items[0]);
      var others :- EncTagged(f, items[1..]);
      Some(TagOf(f) + first + others)
  }

  /** encode_array */
  function EncArray(f: Field, items: seq<Value>): Option<seq<byte>>
    decreases f, 3
  {
    if items == [] then Some([])
    else if |items| > f.arraySize then None
    else if Packable(f.ltype) then
      var bytes :- EncPacked(f, items);
      Some(EncTag(f.tag, WT_STRING) + EncString(bytes))
    else EncTagged(f, items)
  }

  /** A tag and one value. */
  function EncSingle(f: Field, v: Value): Option<seq<byte>>
    decreases f, 3
  {
    var bytes :- EncValue(f, v);
    Some(TagOf(f) + bytes)
  }

  /** pb_check_proto3_default_value */
  predicate IsZero(f: Field, c: Cell)
    decreases f, 1
  {
    match f.htype
    case Required => false
    case Repeated => c.Many? && c.items == []
    case Oneof => c.Union? && c.which == 0
    case Optional =>
      if f.hasSize then c.Opt? && !c.has
      else c.Plain? && IsZeroValue(f, c.value)
  }

  predicate IsZeroValue(f: Field, v: Value)
    decreases f, 0
  {
    match f.ltype
    case Blob(_) => v.Raw? && v.bytes == []
    case Text => v.Raw? && UpToNul(v.bytes) == []
    case FixedLengthBlob => f.dataSize == 0
    case Submessage(sub) => v.Struct? && |v.cells| == CellCount(sub) && AllZero(sub, v.cells, 0)
    case _ => v.Num? && v.n == 0
  }

  predicate AllZero(fields: seq<Field>, cells: seq<Cell>, i: nat)
    requires i <= |fields| && |cells| == CellCount(fields)
    decreases fields, |fields| - i
  {
    i == |fields|
    || (CellInRange(fields, i);
        IsZero(fields[i], cells[CellOf(fields, i)]) && AllZero(fields, cells, i + 1))
  }

  /** encode_basic_field */
  function EncCell(f: Field, c: Cell): Option<seq<byte>>
    decreases f, 4
  {
    match f.htype
    case Required => if c.Plain? then EncSingle(f, c.value) else None
    case Optional =>
      if f.hasSize then
        if !c.Opt? then None else if c.has then EncSingle(f, c.value) else Some([])
      else
        if !c.Plain? then None else if IsZero(f, c) then Some([]) else EncSingle(f, c.value)
    case Repeated =>
      if c.Many? && (f.hasSize || |c.items| == f.arraySize) then EncArray(f, c.items) else None
    case Oneof =>
      if !c.Union? then None else if c.which == f.tag then EncSingle(f, c.value) else Some([])
  }

  /** The loop of pb_encode from field i. */
  function EncFrom(fields: seq<Field>, cells: seq<Cell>, i: nat): Option<seq<byte>>
    requires i <= |fields| && |cells| == CellCount(fields)
    decreases fields, |fields| - i
  {
    if i == |fields| then Some([])
    else
      CellInRange(fields, i);
      var first :- EncCell(fields[i], cells[CellOf(fields, i)]);
      var others :- EncFrom(fields, cells, i + 1);
      Some(first + others)
  }

  /** pb_encode */
  function EncStruct(fields: seq<Field>, cells: seq<Cell>): Option<seq<byte>>
    requires |cells| == CellCount(fields)
  {
    EncFrom(fields, cells, 0)
  }
}
