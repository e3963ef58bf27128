/** What pb_decode makes of a byte sequence, or Fail where it reports an error. */
module Decoding {
  import opened Bytes
  import opened Parsing
  import opened Varint
  import opened Words
  import opened Descriptor

  const MAX_REQUIRED: nat := 64

  /** pb_make_string_substream: a length and that many bytes. */
  function DecString(s: seq<byte>): (r: Parsed<seq<byte>>)
    ensures r.Ok? ==> |r.rest| + |r.value| < |s|
  {
    var (size, rest) :- DecVarint32(s);
    if |rest| < size then Fail else Ok(rest[..size], rest[size..])
  }

  function Take(s: seq<byte>, n: nat): (r: Parsed<seq<byte>>)
    ensures r.Ok? ==> |r.value| == n && s == r.value + r.rest
  {
    if |s| < n then Fail else Ok(s[..n], s[n..])
  }

  /** pb_skip_field */
  function SkipField(wt: nat, s: seq<byte>): (r: Parsed<()>)
    ensures r.Ok? ==> |r.rest| < |s|
  {
    if wt == WT_VARINT then SkipVarint(s)
    else if wt == WT_64BIT then
      var (_, rest) :- Take(s, 8);
      Ok((), rest)
    else if wt == WT_STRING then
      var (_, rest) :- DecString(s);
      Ok((), rest)
    else if wt == WT_32BIT then
      var (_, rest) :- Take(s, 4);
      Ok((), rest)
    else Fail
  }

  /** The stored integer must equal the decoded one, else "integer too large". */
  function StoreNum(decoded: int, stored: int, rest: seq<byte>): Parsed<Value> {
    if stored == decoded then Ok(Num(stored), rest) else Fail
  }

  function DecVarintValue(f: Field, s: seq<byte>): (r: Parsed<Value>)
    ensures r.Ok? ==> |r.rest| < |s|
  {
    var (v, rest) :- DecVarint(s);
    if !IntSize(f.dataSize) then Fail
    else
      var svalue := if f.dataSize == 8 then Signed(v, TWO64) else Signed(v, TWO32);
      StoreNum(svalue, Signed(svalue, Modulus(f.dataSize)), rest)
  }

  function DecUVarintValue(f: Field, s: seq<byte>): (r: Parsed<Value>)
    ensures r.Ok? ==> |r.rest| < |s|
  {
    var (v, rest) :- DecVarint(s);
    if !IntSize(f.dataSize) then Fail
    else StoreNum(v, v % Modulus(f.dataSize), rest)
  }

  function DecSVarintValue(f: Field, s: seq<byte>): (r: Parsed<Value>)
    ensures r.Ok? ==> |r.rest| < |s|
  {
    var (v, rest) :- DecVarint(s);
    if !IntSize(f.dataSize) then Fail
    else StoreNum(UnZigZag(v), Signed(UnZigZag(v), Modulus(f.dataSize)), rest)
  }

  function DecFixedValue(size: nat, s: seq<byte>): (r: Parsed<Value>)
    requires size > 0
    ensures r.Ok? ==> |r.rest| < |s|
  {
    var (b, rest) :- Take(s, size);
    Ok(Num(FromLittleEndian(b)), rest)
  }

  /** pb_dec_bytes. The length is compared with the room before the bytes are read. */
  function DecBlobValue(f: Field, header: nat, s: seq<byte>): (r: Parsed<Value>)
    ensures r.Ok? ==> |r.rest| < |s|
  {
    var (size, rest) :- DecVarint32(s);
    if size + header > f.dataSize then Fail
    else
      var (b, rest') :- Take(rest, size);
      Ok(Raw(b), rest')
  }

  /** pb_dec_string: room for the terminator is needed too. */
  function DecTextValue(f: Field, s: seq<byte>): (r: Parsed<Value>)
    ensures r.Ok? ==> |r.rest| < |s|
  {
    var (size, rest) :- DecVarint32(s);
    if size + 1 > f.dataSize then Fail
    else
      var (b, rest') :- Take(rest, size);
      Ok(Raw(b), rest')
  }

  /** pb_dec_fixed_length_bytes: an empty string stands for all zeros. */
  function DecFixedLengthValue(f: Field, s: seq<byte>): (r: Parsed<Value>)
    ensures r.Ok? ==> |r.rest| < |s|
  {
    var (size, rest) :- DecVarint32(s);
    if size == 0 then Ok(Raw(Zeros(f.dataSize)), rest)
    else if size != f.dataSize then Fail
    else
      var (b, rest') :- Take(rest, size);
      Ok(Raw(b), rest')
  }

  /** The storage of a submessage that is decoded into. */
  function CellsOf(sub: seq<Field>, prior: Value): (cells: seq<Cell>)
    ensures |cells| == CellCount(sub)
  {
    DefaultsFromLength(sub, 0);
    if prior.Struct? && |prior.cells| == CellCount(sub) then prior.cells else Defaults(sub)
  }

  /** pb_dec_* : one value. Only a submessage that is not an array entry keeps what was there. */
  function DecValue(f: Field, s: seq<byte>, prior: Value): (r: Parsed<Value>)
    ensures r.Ok? ==> |r.rest| < |s|
    decreases |s|, 0
  {
    match f.ltype
    case Varint => DecVarintValue(f, s)
    case UVarint => DecUVarintValue(f, s)
    case SVarint => DecSVarintValue(f, s)
    case Fixed32 => DecFixedValue(4, s)
    case Fixed64 => DecFixedValue(8, s)
    case Blob(header) => DecBlobValue(f, header, s)
    case Text => DecTextValue(f, s)
    case FixedLengthBlob => DecFixedLengthValue(f, s)
    case Submessage(sub) =>
      var (payload, rest) :- DecString(s);
      var start := if f.htype.Repeated? then CellsOf(sub, Num(0)) else CellsOf(sub, prior);
      var (cells, _) :- DecMessage(sub, payload, start);
      Ok(Struct(cells), rest)
  }

  function Store(items: seq<Value>, k: nat, v: Value): seq<Value> {
    if k < |items| then items[k := v] else items + [v]
  }

  function ItemsOf(c: Cell): seq<Value> { if c.Many? then c.items else [] }

  function ValueOf(c: Cell): Value { if c.Plain? || c.Opt? || c.Union? then c.value else Num(0) }

  /** The loop over a packed array; the entry count goes with the entries. */
  function DecPacked(f: Field, s: seq<byte>, items: seq<Value>, size: nat): (r: Parsed<(seq<Value>, nat)>)
    decreases |s|, 1
  {
    if s == [] || size >= f.arraySize then Ok((items, size), s)
    else
      var (v, rest) :- DecValue(f, s, Num(0));
      DecPacked(f, rest, Store(items, size, v), size + 1)
  }

  /** decode_static_field: the new cell, and for an array the new entry count. */
  function DecCell(f: Field, wt: nat, s: seq<byte>, c: Cell, size: nat): (r: Parsed<(Cell, nat)>)
    ensures r.Ok? ==> |r.rest| < |s|
    decreases |s|, 1
  {
    match f.htype
    case Required =>
      var (v, rest) :- DecValue(f, s, ValueOf(c));
      Ok((Plain(v), size), rest)
    case Optional =>
      var (v, rest) :- DecValue(f, s, ValueOf(c));
      Ok((if f.hasSize then Opt(true, v) else Plain(v), size), rest)
    case Repeated =>
      if wt == WT_STRING && Packable(f.ltype) then
        var (payload, rest) :- DecString(s);
        var (entries, left) :- DecPacked(f, payload, ItemsOf(c), size);
        if left != [] then Fail else Ok((Many(entries.0), entries.1), rest)
      else if size >= f.arraySize then Fail
      else
        var (v, rest) :- DecValue(f, s, Num(0));
        Ok((Many(Store(ItemsOf(c), size, v)), size + 1), rest)
    case Oneof =>
      var (v, rest) :- DecValue(f, s, if f.ltype.Submessage? then DefaultValue(f) else ValueOf(c));
      Ok((Union(f.tag, v), size), rest)
  }

  /** The variables of pb_decode_noinit. */
  datatype State = State(
    cells: seq<Cell>,
    pos: nat,                   // where the field iterator stands
    seen: set<nat>,             // which of the first 64 required fields were met
    fixedField: Option<nat>,    // the fixed-count array being received
    fixedSize: nat)

  predicate InShape(fields: seq<Field>, st: State) {
    |st.cells| == CellCount(fields)
    && (fields == [] || st.pos < |fields|)
    && (st.fixedField.Some? ==> st.fixedField.value < |fields|)
  }

  function Start(cells: seq<Cell>): State { State(cells, 0, {}, None, 0) }

  /** pb_field_iter_find: the search goes on from where the iterator stands, around the end. */
  function Search(fields: seq<Field>, tag: nat, p: nat, n: nat): (r: Option<nat>)
    requires p < |fields| || n == 0
    ensures r.Some? ==> r.value < |fields| && fields[r.value].tag == tag
    decreases n
  {
    if n == 0 then None
    else if fields[p].tag == tag then Some(p)
    else Search(fields, tag, if p + 1 == |fields| then 0 else p + 1, n - 1)
  }

  function Find(fields: seq<Field>, start: nat, tag: nat): (r: Option<nat>)
    requires fields == [] || start < |fields|
    ensures r.Some? ==> r.value < |fields| && fields[r.value].tag == tag
  {
    Search(fields, tag, start, |fields|)
  }

  /** The fixed-count array received so far is complete. */
  predicate FixedDone(fields: seq<Field>, st: State)
    requires InShape(fields, st)
  {
    st.fixedField.Some? ==> st.fixedSize == fields[st.fixedField.value].arraySize
  }

  /** fields_seen after field p: only the first 64 required fields are noted. */
  function SeenAfter(fields: seq<Field>, p: nat, seen: set<nat>): set<nat>
    requires p < |fields|
  {
    if fields[p].htype.Required? && RequiredBefore(fields, p) < MAX_REQUIRED
    then seen + {RequiredBefore(fields, p)} else seen
  }

  /** One known field inside the loop of pb_decode_noinit. */
  function DecField(fields: seq<Field>, p: nat, wt: nat, s: seq<byte>, st: State): (r: Parsed<State>)
    requires p < |fields| && InShape(fields, st)
    ensures r.Ok? ==> |r.rest| < |s| && InShape(fields, r.value)
    decreases |s|, 2
  {
    CellInRange(fields, p);
    var f := fields[p];
    var c := CellOf(fields, p);
    var fixed := FixedCount(f);
    if fixed && st.fixedField != Some(p) && !FixedDone(fields, st) then Fail
    else
      var fixedField := if fixed then Some(p) else st.fixedField;
      var fixedSize := if fixed && st.fixedField != Some(p) then 0 else st.fixedSize;
      var size := if fixed then fixedSize else |ItemsOf(st.cells[c])|;
      var (update, rest) :- DecCell(f, wt, s, st.cells[c], size);
      var seen := SeenAfter(fields, p, st.seen);
      Ok(State(st.cells[c := update.0], p, seen, fixedField, if fixed then update.1 else fixedSize), rest)
  }

  /**
   * The loop of pb_decode_noinit: up to the end of the stream or a zero tag. In an empty message
   * type the tag number 0 matches the terminator, which no value can be decoded into.
   */
  function DecLoop(fields: seq<Field>, s: seq<byte>, st: State): (r: Parsed<State>)
    requires InShape(fields, st)
    ensures r.Ok? ==> InShape(fields, r.value)
    decreases |s|, 3
  {
    if s == [] then Ok(st, [])
    else
      var (t, rest) :- DecVarint32(s);
      if t == 0 then Ok(st, rest)
      else
        var found := Find(fields, st.pos, t / 8);
        if found.Some? then
          var (st', rest') :- DecField(fields, found.value, t % 8, rest, st);
          DecLoop(fields, rest', st')
        else if fields == [] && t / 8 == 0 then Fail
        else
          var (_, rest') :- SkipField(t % 8, rest);
          DecLoop(fields, rest', st)
  }

  predicate RequiredMet(fields: seq<Field>, seen: set<nat>) {
    forall k :: 0 <= k < RequiredBefore(fields, |fields|) && k < MAX_REQUIRED ==> k in seen
  }

  /** pb_decode_noinit */
  function DecMessage(fields: seq<Field>, s: seq<byte>, cells: seq<Cell>): (r: Parsed<seq<Cell>>)
    requires |cells| == CellCount(fields)
    ensures r.Ok? ==> |r.value| == CellCount(fields)
    decreases |s|, 4
  {
    var (st, rest) :- DecLoop(fields, s, Start(cells));
    if FixedDone(fields, st) && RequiredMet(fields, st.seen) then Ok(st.cells, rest) else Fail
  }

  /** pb_decode */
  function Decode(fields: seq<Field>, s: seq<byte>): (r: Parsed<seq<Cell>>) {
    DefaultsFromLength(fields, 0);
    DecMessage(fields, s, Defaults(fields))
  }
}
