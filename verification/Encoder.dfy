/** pb_encode.c: the encoder on streams, proved to emit what module Encoding says. */
module Encoder {
  import opened Bytes
  import opened Parsing
  import opened Varint
  import opened Words
  import opened Descriptor
  import opened Encoding
  import opened OutputStream
  import opened FieldIteration

  /** A buffer of ten bytes is enough for any 64-bit varint. */
  lemma {:induction false} VarintLength(v: nat, n: nat)
    requires 1 <= n && v < Pow2(7 * n)
    ensures |EncVarint(v)| <= n
  {
    if v >= 128 {
      assert n > 1 by { Pow2Values(); }
      Pow2Add(7 * (n - 1), 7);
      Pow2Values();
      assert 7 * (n - 1) + 7 == 7 * n;
      VarintLength(v / 128, n - 1);
    }
  }

  lemma VarintFitsBuffer(v: u64)
    ensures |EncVarint(v)| <= 10
  {
    Pow2Values();
    Pow2Monotone(64, 70);
    VarintLength(v, 10);
  }

  /** pb_encode_varint */
  method EncodeVarint(s: OStream, value: nat) returns (ok: bool)
    requires s.Valid()
    modifies s, s.buf
    ensures Emits(old(s.Now()), s.Now(), Some(EncVarint(value)), ok)
  {
    if value <= 0x7F {
      ok := s.Write([value]);
      return;
    }
    var buffer: seq<byte> := [];
    var v := value;
    while v != 0
      invariant 0 <= v
      invariant v > 0 ==> EncVarint(value) == buffer + EncVarint(v)
      invariant v == 0 ==> buffer != [] && buffer[|buffer| - 1] >= 128
                           && EncVarint(value) == buffer[..|buffer| - 1] + [buffer[|buffer| - 1] - 128]
    {
      assert v >= 128 ==> EncVarint(v) == [128 + v % 128] + EncVarint(v / 128);
      buffer := buffer + [v % 128 + 128];
      v := v / 128;
    }
    buffer := buffer[|buffer| - 1 := buffer[|buffer| - 1] - 128];
    assert buffer == EncVarint(value);
    ok := s.Write(buffer);
  }

  /** pb_encode_tag */
  method EncodeTag(s: OStream, wiretype: nat, fieldNumber: nat) returns (ok: bool)
    requires s.Valid() && wiretype < 8
    modifies s, s.buf
    ensures Emits(old(s.Now()), s.Now(), Some(EncTag(fieldNumber, wiretype)), ok)
  {
    ok := EncodeVarint(s, 8 * fieldNumber + wiretype);
  }

  /** pb_encode_string */
  method EncodeString(s: OStream, bytes: seq<byte>) returns (ok: bool)
    requires s.Valid()
    modifies s, s.buf
    ensures Emits(old(s.Now()), s.Now(), Some(EncString(bytes)), ok)
  {
    hide EncVarint, Emits;
    ghost var a := s.Now();
    ok := EncodeVarint(s, |bytes|);
    ghost var b := s.Now();
    if !ok {
      EmitsFailed(a, b, Some(EncVarint(|bytes|)), Some(bytes));
      return;
    }
    EmitsValid(a, b, Some(EncVarint(|bytes|)), ok);
    ok := s.Write(bytes);
    EmitsThen(a, b, s.Now(), EncVarint(|bytes|), Some(bytes), ok);
  }

  lemma EmitsValid(a: Snapshot, b: Snapshot, bytes: Option<seq<byte>>, ok: bool)
    requires Emits(a, b, bytes, ok)
    ensures b.Valid() && b.sizing == a.sizing
  {
  }

  /** The bounded scan for the NUL in pb_enc_string. */
  method TextLength(buffer: seq<byte>) returns (size: nat)
    ensures size <= |buffer| && buffer[..size] == UpToNul(buffer)
  {
    size := 0;
    while size < |buffer| && buffer[size] != 0
      invariant 0 <= size <= |buffer|
      invariant 0 !in buffer[..size]
    {
      size := size + 1;
    }
    ScanStops(buffer, size);
  }

  lemma {:induction false} ScanStops(buffer: seq<byte>, size: nat)
    requires size <= |buffer| && 0 !in buffer[..size] && (size < |buffer| ==> buffer[size] == 0)
    ensures UpToNul(buffer) == buffer[..size]
  {
    if size > 0 {
      assert buffer[0] in buffer[..size];
      assert buffer[1..][..size - 1] == buffer[..size][1..];
      ScanStops(buffer[1..], size - 1);
    }
  }

  /** pb_enc_string */
  method EncodeText(s: OStream, buffer: seq<byte>) returns (ok: bool)
    requires s.Valid()
    modifies s, s.buf
    ensures Emits(old(s.Now()), s.Now(), Some(EncString(UpToNul(buffer))), ok)
  {
    hide Emits, UpToNul, EncString;
    var size := TextLength(buffer);
    ok := EncodeString(s, buffer[..size]);
  }

  /** The field encoders of everything but submessages. */
  method EncodeScalar(s: OStream, f: Field, v: Value) returns (ok: bool)
    requires s.Valid() && !f.ltype.Submessage?
    modifies s, s.buf
    ensures Emits(old(s.Now()), s.Now(), EncValue(f, v), ok)
  {
    hide EncVarint, EncString, LittleEndian, ZigZag, Emits, UpToNul;
    ok := false;
    ghost var a := s.Now();
    if f.ltype.Varint? && v.Num? && IntSize(f.dataSize) {
      ok := EncodeVarint(s, v.n % TWO64);
    } else if f.ltype.UVarint? && v.Num? && v.n >= 0 && IntSize(f.dataSize) {
      ok := EncodeVarint(s, v.n);
    } else if f.ltype.SVarint? && v.Num? && -0x8000_0000_0000_0000 <= v.n < 0x8000_0000_0000_0000
              && IntSize(f.dataSize) {
      ok := EncodeVarint(s, ZigZag(v.n));
    } else if f.ltype.Fixed32? && v.Num? && v.n >= 0 {
      ok := s.Write(LittleEndian(v.n, 4));
    } else if f.ltype.Fixed64? && v.Num? && v.n >= 0 {
      ok := s.Write(LittleEndian(v.n, 8));
    } else if f.ltype.Blob? && v.Raw? && |v.bytes| + f.ltype.header <= f.dataSize {
      ok := EncodeString(s, v.bytes);
    } else if f.ltype.Text? && v.Raw? && |v.bytes| <= f.dataSize {
      ok := EncodeText(s, v.bytes);
    } else if f.ltype.FixedLengthBlob? && v.Raw? && |v.bytes| == f.dataSize {
      ok := EncodeString(s, v.bytes);
    } else {
      EmitsError(a);
    }
  }

  lemma EmitsError(a: Snapshot)
    requires a.Valid()
    ensures Emits(a, a, None, false)
  {
  }

  /** pb_check_proto3_default_value */
  method CheckDefault(f: Field, c: Cell) returns (zero: bool)
    requires ListedType(f)
    ensures zero <==> IsZero(f, c)
    decreases f, 2
  {
    match f.htype
    case Required => return false;
    case Repeated => return c.Many? && c.items == [];
    case Oneof => return c.Union? && c.which == 0;
    case Optional =>
      if f.hasSize {
        return c.Opt? && !c.has;
      }
      if !c.Plain? {
        return false;
      }
      zero := CheckDefaultValue(f, c.value);
  }

  method CheckDefaultValue(f: Field, v: Value) returns (zero: bool)
    requires ListedType(f)
    ensures zero <==> IsZeroValue(f, v)
    decreases f, 1
  {
    match f.ltype
    case Blob(_) => return v.Raw? && v.bytes == [];
    case Text =>
      // only the first character is looked at
      return v.Raw? && (v.bytes == [] || v.bytes[0] == 0);
    case FixedLengthBlob => return f.dataSize == 0;
    case Submessage(sub) =>
      if !v.Struct? || |v.cells| != CellCount(sub) {
        return false;
      }
      zero := CheckDefaultFields(sub, v.cells);
    case _ => return v.Num? && v.n == 0;
  }

  method CheckDefaultFields(fields: seq<Field>, cells: seq<Cell>) returns (zero: bool)
    requires Listed(fields) && |cells| == CellCount(fields)
    ensures zero <==> AllZero(fields, cells, 0)
    decreases fields, 3
  {
    var iter := new FieldIter(fields);
    var more := fields != [];
    while more
      invariant iter.Valid() && iter.start == fields && fresh(iter)
      invariant more ==> iter.pos < |fields| && AllZero(fields, cells, 0) == AllZero(fields, cells, iter.pos)
      invariant !more ==> AllZero(fields, cells, 0)
      decreases if more then |fields| - iter.pos else 0
    {
      CellInRange(fields, iter.pos);
      var z := CheckDefault(fields[iter.pos], cells[iter.cell]);
      if !z {
        return false;
      }
      more := iter.Next();
    }
    return true;
  }

  /** pb_enc_* : a value of any type. */
  method EncodeValue(s: OStream, f: Field, v: Value) returns (ok: bool)
    requires s.Valid() && ListedType(f)
    modifies s, s.buf
    ensures Emits(old(s.Now()), s.Now(), EncValue(f, v), ok)
    decreases f, 2
  {
    hide Emits, EncFrom;
    if f.ltype.Submessage? {
      if v.Struct? && |v.cells| == CellCount(f.ltype.fields) {
        ok := EncodeSubmessage(s, f.ltype.fields, v.cells);
      } else {
        EmitsError(s.Now());
        ok := false;
      }
    } else {
      ok := EncodeScalar(s, f, v);
    }
  }

  /** The encoding of a submessage: its length and its bytes. */
  function EncSized(bytes: Option<seq<byte>>): Option<seq<byte>> {
    if bytes.Some? then Some(EncString(bytes.value)) else None
  }

  /**
   * pb_encode_submessage: one run to measure, one to write. The second run fits the substream that
   * the first one dimensioned, so the size has not changed after it.
   */
  method EncodeSubmessage(s: OStream, fields: seq<Field>, cells: seq<Cell>) returns (ok: bool)
    requires s.Valid() && Listed(fields) && |cells| == CellCount(fields)
    modifies s, s.buf
    ensures Emits(old(s.Now()), s.Now(), EncSized(EncStruct(fields, cells)), ok)
    decreases fields, 4
  {
    hide EncVarint, Emits, EncFrom, Confined;
    ghost var a := s.Now();
    ghost var all := EncSized(EncStruct(fields, cells));
    var counter := new OStream.Sizing();
    ghost var c0 := counter.Now();
    var measured := Encode(counter, fields, cells);
    SizingRun(c0, counter.Now(), EncStruct(fields, cells), measured);
    if !measured {
      EmitsError(a);
      return false;
    }
    var size := counter.written;
    ghost var bytes := EncStruct(fields, cells).value;
    ok := EncodeVarint(s, size);
    ghost var b := s.Now();
    if !ok {
      EmitsFailed(a, b, Some(EncVarint(size)), Some(bytes));
      return;
    }
    EmitsValid(a, b, Some(EncVarint(size)), true);
    if s.sizing {
      s.Count(size);
      CountEmits(b, bytes);
      EmitsThen(a, b, s.Now(), EncVarint(size), Some(bytes), true);
      return;
    }
    if s.written + size > s.maxSize {
      NoRoomEmits(b, bytes);
      EmitsThen(a, b, b, EncVarint(size), Some(bytes), false);
      return false;
    }
    var substream := new OStream.FromBuffer(s.buf, s.state, size);
    ghost var d := substream.Now();
    ok := Encode(substream, fields, cells);
    WritingRun(d, substream.Now(), bytes, ok);
    assert ok && substream.written == size;  // "submsg size changed" cannot be reported
    s.written := s.written + substream.written;
    s.state := substream.state;
    SubstreamEmits(b, d, substream.Now(), s.Now(), bytes);
    EmitsThen(a, b, s.Now(), EncVarint(size), Some(bytes), true);
  }

  lemma SizingRun(a: Snapshot, b: Snapshot, bytes: Option<seq<byte>>, ok: bool)
    requires Emits(a, b, bytes, ok) && a.sizing && a.written == 0
    ensures (ok <==> bytes.Some?) && (ok ==> b.written == |bytes.value|)
  {
  }

  lemma WritingRun(a: Snapshot, b: Snapshot, bytes: seq<byte>, ok: bool)
    requires Emits(a, b, Some(bytes), ok) && !a.sizing && a.written == 0 && a.maxSize == |bytes|
    ensures ok && b.written == |bytes|
  {
  }

  lemma CountEmits(a: Snapshot, bytes: seq<byte>)
    requires a.Valid() && a.sizing
    ensures Emits(a, a.(written := a.written + |bytes|), Some(bytes), true)
  {
  }

  lemma NoRoomEmits(a: Snapshot, bytes: seq<byte>)
    requires a.Valid() && !a.HasRoom(|bytes|)
    ensures Emits(a, a, Some(bytes), false)
  {
  }

  lemma SubstreamEmits(b: Snapshot, d: Snapshot, e: Snapshot, c: Snapshot, bytes: seq<byte>)
    requires b.Valid() && !b.sizing && b.HasRoom(|bytes|)
    requires d == Snapshot(false, b.memory, b.state, |bytes|, 0) && Emits(d, e, Some(bytes), true)
    requires c == Snapshot(false, e.memory, e.state, b.maxSize, b.written + e.written)
    ensures Emits(b, c, Some(bytes), true)
  {
  }

  /** pb_encode */
  method Encode(s: OStream, fields: seq<Field>, cells: seq<Cell>) returns (ok: bool)
    requires s.Valid() && Listed(fields) && |cells| == CellCount(fields)
    modifies s, s.buf
    ensures Emits(old(s.Now()), s.Now(), EncStruct(fields, cells), ok)
    decreases fields, 3
  {
    hide Emits, EncCell, ListedType;
    ghost var a := s.Now();
    ghost var done: seq<byte> := [];
    EmitsNothing(a);
    AppendEmpty(EncStruct(fields, cells));
    var iter := new FieldIter(fields);
    var more := fields != [];
    while more
      invariant s.Valid() && iter.Valid() && iter.start == fields && fresh(iter)
      invariant Emits(a, s.Now(), Some(done), true)
      invariant more ==>
                iter.pos < |fields| && EncStruct(fields, cells) == Append(Some(done), EncFrom(fields, cells, iter.pos))
      invariant !more ==> EncStruct(fields, cells) == Some(done)
      decreases if more then |fields| - iter.pos else 0
    {
      CellInRange(fields, iter.pos);
      ghost var b, i := s.Now(), iter.pos;
      ghost var first, others := EncCell(fields[i], cells[CellOf(fields, i)]), EncFrom(fields, cells, i + 1);
      EncFromAppends(fields, cells, i, done);
      ok := EncodeField(s, fields[iter.pos], cells[iter.cell]);
      EmitsThen(a, b, s.Now(), done, first, ok);
      if !ok {
        EmitsFailed(a, s.Now(), Append(Some(done), first), others);
        return;
      }
      EmitsOk(b, s.Now(), first);
      done := done + first.value;
      EmitsValid(a, s.Now(), Some(done), true);
      more := iter.Next();
    }
    return true;
  }

  lemma AppendEmpty(x: Option<seq<byte>>)
    ensures Append(Some([]), x) == x
  {
    if x.Some? {
      assert [] + x.value == x.value;
    }
  }

  lemma EmitsOk(a: Snapshot, b: Snapshot, bytes: Option<seq<byte>>)
    requires Emits(a, b, bytes, true)
    ensures bytes.Some?
  {
  }

  lemma EncFromAppends(fields: seq<Field>, cells: seq<Cell>, i: nat, done: seq<byte>)
    requires i < |fields| && |cells| == CellCount(fields) && CellOf(fields, i) < |cells|
    ensures var first, others := EncCell(fields[i], cells[CellOf(fields, i)]), EncFrom(fields, cells, i + 1);
            Append(Some(done), EncFrom(fields, cells, i)) == Append(Append(Some(done), first), others)
    ensures i + 1 == |fields| ==> EncFrom(fields, cells, i + 1) == Some([]) && forall x: seq<byte> :: x + [] == x
  {
    hide EncCell;
    var first, others := EncCell(fields[i], cells[CellOf(fields, i)]), EncFrom(fields, cells, i + 1);
    if first.Some? && others.Some? {
      assert done + (first.value + others.value) == done + first.value + others.value;
    }
  }

  /** encode_basic_field */
  method EncodeField(s: OStream, f: Field, c: Cell) returns (ok: bool)
    requires s.Valid() && ListedType(f)
    modifies s, s.buf
    ensures Emits(old(s.Now()), s.Now(), EncCell(f, c), ok)
    decreases f, 7
  {
    hide Emits, EncSingle, EncArray, IsZero;
    var present := false;
    match f.htype {
      case Required =>
        present := c.Plain?;
      case Optional =>
        if f.hasSize {
          present := c.Opt? && c.has;
        } else if c.Plain? {
          var zero := CheckDefault(f, c);
          present := !zero;
        }
      case Repeated =>
        if c.Many? && (f.hasSize || |c.items| == f.arraySize) {
          ok := EncodeArray(s, f, c.items);
          return;
        }
      case Oneof =>
        present := c.Union? && c.which == f.tag;
    }
    if present {
      ok := EncodeSingle(s, f, c.value);
    } else if EncCell(f, c) == Some([]) {
      EmitsNothing(s.Now());
      ok := true;
    } else {
      EmitsError(s.Now());
      ok := false;
    }
  }

  method EncodeSingle(s: OStream, f: Field, v: Value) returns (ok: bool)
    requires s.Valid() && ListedType(f)
    modifies s, s.buf
    ensures Emits(old(s.Now()), s.Now(), EncSingle(f, v), ok)
    decreases f, 3
  {
    hide Emits, EncValue, EncTag;
    ghost var a := s.Now();
    ok := EncodeTag(s, WireType(f.ltype), f.tag);
    ghost var b := s.Now();
    if !ok {
      EmitsFailed(a, b, Some(TagOf(f)), EncValue(f, v));
      return;
    }
    EmitsValid(a, b, Some(TagOf(f)), true);
    ok := EncodeValue(s, f, v);
    EmitsThen(a, b, s.Now(), TagOf(f), EncValue(f, v), ok);
  }

  /** encode_array */
  method EncodeArray(s: OStream, f: Field, items: seq<Value>) returns (ok: bool)
    requires s.Valid() && ListedType(f)
    modifies s, s.buf
    ensures Emits(old(s.Now()), s.Now(), EncArray(f, items), ok)
    decreases f, 6
  {
    hide Emits, EncValue, EncTag, EncPacked, EncTagged;
    if items == [] {
      EmitsNothing(s.Now());
      return true;
    }
    if |items| > f.arraySize {
      EmitsError(s.Now());
      return false;
    }
    if Packable(f.ltype) {
      ok := EncodePackedArray(s, f, items);
    } else {
      ok := EncodeEntries(s, f, items, true);
    }
  }

  /** The entries of an array one after the other, with or without tags. */
  function EncEntries(f: Field, items: seq<Value>, tagged: bool): Option<seq<byte>> {
    if tagged then EncTagged(f, items) else EncPacked(f, items)
  }

  method EncodeEntries(s: OStream, f: Field, items: seq<Value>, tagged: bool) returns (ok: bool)
    requires s.Valid() && ListedType(f)
    modifies s, s.buf
    ensures Emits(old(s.Now()), s.Now(), EncEntries(f, items, tagged), ok)
    decreases f, 4
  {
    hide Emits, EncValue, EncTag, EncSingle;
    ghost var a := s.Now();
    ghost var done: seq<byte> := [];
    EmitsNothing(a);
    var i := 0;
    assert items[0..] == items;
    AppendEmpty(EncEntries(f, items, tagged));
    while i < |items|
      invariant 0 <= i <= |items| && s.Valid()
      invariant Emits(a, s.Now(), Some(done), true)
      invariant EncEntries(f, items, tagged) == Append(Some(done), EncEntries(f, items[i..], tagged))
    {
      ghost var b := s.Now();
      ghost var first := if tagged then EncSingle(f, items[i]) else EncValue(f, items[i]);
      EntriesAppend(f, items, i, tagged, done);
      if tagged {
        ok := EncodeSingle(s, f, items[i]);
      } else {
        ok := EncodeValue(s, f, items[i]);
      }
      EmitsThen(a, b, s.Now(), done, first, ok);
      if !ok {
        EmitsFailed(a, s.Now(), Append(Some(done), first), EncEntries(f, items[i + 1..], tagged));
        return;
      }
      EmitsOk(b, s.Now(), first);
      done := done + first.value;
      EmitsValid(a, s.Now(), Some(done), true);
      i := i + 1;
    }
    assert done + [] == done;
    return true;
  }

  lemma EntriesAppend(f: Field, items: seq<Value>, i: nat, tagged: bool, done: seq<byte>)
    requires i < |items|
    ensures var first := if tagged then EncSingle(f, items[i]) else EncValue(f, items[i]);
            Append(Some(done), EncEntries(f, items[i..], tagged))
            == Append(Append(Some(done), first), EncEntries(f, items[i + 1..], tagged))
  {
    hide EncValue, EncTag;
    assert items[i..][0] == items[i] && items[i..][1..] == items[i + 1..];
    var first := if tagged then EncSingle(f, items[i]) else EncValue(f, items[i]);
    var others := EncEntries(f, items[i + 1..], tagged);
    if first.Some? && others.Some? {
      assert done + (first.value + others.value) == done + first.value + others.value;
    }
  }

  /** The packed branch of encode_array: tag, size, entries. The size is known or measured first. */
  method EncodePackedArray(s: OStream, f: Field, items: seq<Value>) returns (ok: bool)
    requires s.Valid() && ListedType(f) && Packable(f.ltype) && 0 < |items| <= f.arraySize
    modifies s, s.buf
    ensures Emits(old(s.Now()), s.Now(), EncArray(f, items), ok)
    decreases f, 5
  {
    hide Emits, EncValue, EncTag, EncVarint, EncPacked, EncTagged, ListedType;
    ghost var a := s.Now();
    ghost var tag, payload := EncTag(f.tag, WT_STRING), EncPacked(f, items);
    PackedArrayParts(f, items);
    ok := EncodeTag(s, WT_STRING, f.tag);
    ghost var b := s.Now();
    if !ok {
      EmitsFailed(a, b, Some(tag), EncSized(payload));
      return;
    }
    EmitsValid(a, b, Some(tag), true);
    var counter := new OStream.Sizing();
    ghost var c0 := counter.Now();
    var measured := EncodeEntries(counter, f, items, false);
    SizingRun(c0, counter.Now(), payload, measured);
    if !measured {
      EmitsError(b);
      EmitsThen(a, b, b, tag, None, false);
      return false;
    }
    var size := if f.ltype.Fixed32? then 4 * |items| else if f.ltype.Fixed64? then 8 * |items| else counter.written;
    FixedSizes(f, items);
    ghost var bytes := payload.value;
    ok := EncodeVarint(s, size);
    ghost var c := s.Now();
    EmitsThen(a, b, c, tag, Some(EncVarint(size)), ok);
    if !ok {
      EmitsFailed(a, c, Some(tag + EncVarint(size)), Some(bytes));
      return;
    }
    EmitsValid(a, c, Some(tag + EncVarint(size)), true);
    if s.sizing {
      s.Count(size);
      CountEmits(c, bytes);
      EmitsThen(a, c, s.Now(), tag + EncVarint(size), Some(bytes), true);
      return;
    }
    ok := EncodeEntries(s, f, items, false);
    EmitsThen(a, c, s.Now(), tag + EncVarint(size), Some(bytes), ok);
  }

  lemma PackedArrayParts(f: Field, items: seq<Value>)
    requires Packable(f.ltype) && 0 < |items| <= f.arraySize
    ensures var tag, payload := EncTag(f.tag, WT_STRING), EncPacked(f, items);
            EncArray(f, items) == Append(Some(tag), EncSized(payload))
            && (payload.Some? ==> EncArray(f, items) == Append(Some(tag + EncVarint(|payload.value|)), payload))
  {
    hide EncPacked, EncTag, EncVarint;
    var tag, payload := EncTag(f.tag, WT_STRING), EncPacked(f, items);
    if payload.Some? {
      assert tag + (EncVarint(|payload.value|) + payload.value) == tag + EncVarint(|payload.value|) + payload.value;
    }
  }

  /** The sizes that are not measured are right. */
  lemma {:induction false} FixedSizes(f: Field, items: seq<Value>)
    requires EncPacked(f, items).Some?
    ensures f.ltype.Fixed32? ==> |EncPacked(f, items).value| == 4 * |items|
    ensures f.ltype.Fixed64? ==> |EncPacked(f, items).value| == 8 * |items|
  {
    if items != [] {
      FixedSizes(f, items[1..]);
    }
  }

  /** pb_get_encoded_size */
  method GetEncodedSize(fields: seq<Field>, cells: seq<Cell>) returns (ok: bool, size: nat)
    requires Listed(fields) && |cells| == CellCount(fields)
    ensures ok <==> EncStruct(fields, cells).Some?
    ensures ok ==> size == |EncStruct(fields, cells).value|
  {
    hide Emits, EncFrom, Listed;
    size := 0;
    var s := new OStream.Sizing();
    ghost var a := s.Now();
    ok := Encode(s, fields, cells);
    SizingRun(a, s.Now(), EncStruct(fields, cells), ok);
    if ok {
      size := s.written;
    }
  }

  /**
   * The two passes agree. Into a buffer with `room` bytes free, encoding succeeds exactly when the
   * measured size fits, and then writes exactly that many bytes, the ones that will be decoded;
   * with less room it fails, and either way nothing outside the room is written.
   */
  method EncodeInto(buf: array<byte>, start: nat, room: nat, fields: seq<Field>, cells: seq<Cell>)
    returns (ok: bool, size: nat)
    requires Listed(fields) && |cells| == CellCount(fields) && start + room <= buf.Length
    modifies buf
    ensures ok <==> EncStruct(fields, cells).Some? && |EncStruct(fields, cells).value| <= room
    ensures ok ==>
              size == |EncStruct(fields, cells).value| && buf[start..start + size] == EncStruct(fields, cells).value
    ensures buf[..start] == old(buf[..start]) && buf[start + room..] == old(buf[start + room..])
  {
    hide Emits, EncFrom, Listed;
    size := 0;
    var s := new OStream.FromBuffer(buf, start, room);
    ghost var a := s.Now();
    ok := Encode(s, fields, cells);
    BufferRun(a, s.Now(), EncStruct(fields, cells), ok);
    if ok {
      size := s.written;
    }
  }

  lemma BufferRun(a: Snapshot, b: Snapshot, bytes: Option<seq<byte>>, ok: bool)
    requires Emits(a, b, bytes, ok) && !a.sizing && a.written == 0
    ensures |b.memory| == |a.memory| && a.state + a.maxSize <= |a.memory|
    ensures ok <==> bytes.Some? && |bytes.value| <= a.maxSize
    ensures ok ==> b.written == |bytes.value| && b.memory[a.state..a.state + |bytes.value|] == bytes.value
    ensures b.memory[..a.state] == a.memory[..a.state]
    ensures b.memory[a.state + a.maxSize..] == a.memory[a.state + a.maxSize..]
  {
  }
}
