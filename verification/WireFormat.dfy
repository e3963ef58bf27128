/**
 * The wire format in plain numbers, as the Protocol Buffers Encoding specification has it, and that
 * what pb_encode writes is exactly that. Nothing here uses the codec's own varints, tags or words.
 */
module WireFormat {
  import opened Bytes
  import opened Parsing
  import opened Varint
  import opened Words
  import opened Descriptor
  import opened Encoding
  import opened Decoding
  import opened Contents

  function Power(base: nat, k: nat): nat {
    if k == 0 then 1 else base * Power(base, k - 1)
  }

  // ---- Numbers ----

  /** Seven bits a byte, lowest first, the high bit on every byte but the last, and no byte too many. */
  predicate VarintOf(s: seq<byte>, v: nat) {
    s != [] && v < Power(128, |s|) && (|s| > 1 ==> v >= Power(128, |s| - 1))
    && forall k :: 0 <= k < |s| ==> s[k] == GroupAt(v, k) + if k < |s| - 1 then 128 else 0
  }

  function GroupAt(v: nat, k: nat): (g: nat)
    ensures g < 128
  {
    PowerPositive(128, k);
    v / Power(128, k) % 128
  }

  lemma {:induction false} PowerPositive(base: nat, k: nat)
    requires base > 0
    ensures Power(base, k) > 0
  {
    if k > 0 {
      PowerPositive(base, k - 1);
      MulMonotone(base, 1, Power(base, k - 1));
    }
  }

  /** `size` bytes, lowest first. */
  predicate WordOf(s: seq<byte>, v: nat, size: nat) {
    |s| == size && forall k :: 0 <= k < size ==> s[k] == OctetAt(v, k)
  }

  function OctetAt(v: nat, k: nat): (b: byte) {
    PowerPositive(256, k);
    v / Power(256, k) % 256
  }

  /** sint32 and sint64: 0, -1, 1, -2, 2 and so on become 0, 1, 2, 3, 4. */
  function Zigzag(n: int): nat {
    if n >= 0 then 2 * n else -2 * n - 1
  }

  // ---- Reading records ----

  /** `body` is the payload, without the length where there is one. */
  datatype WireRecord = WireRecord(number: nat, wire: nat, body: seq<byte>)

  /** A number in its shortest form. */
  function ReadNumber(s: seq<byte>): (r: Parsed<nat>)
    ensures r.Ok? ==> |r.rest| < |s|
  {
    if s == [] then Fail
    else if s[0] < 128 then Ok(s[0], s[1..])
    else
      var (more, rest) :- ReadNumber(s[1..]);
      if more == 0 then Fail else Ok(s[0] - 128 + 128 * more, rest)
  }

  function ReadBytes(s: seq<byte>, n: nat): (r: Parsed<seq<byte>>)
    ensures r.Ok? ==> |r.rest| <= |s|
  {
    if |s| < n then Fail else Ok(s[..n], s[n..])
  }

  /** The low three bits of the tag say how the payload is delimited. */
  function ReadBody(wire: nat, s: seq<byte>): (r: Parsed<seq<byte>>)
    ensures r.Ok? ==> |r.rest| <= |s|
  {
    match wire
    case 0 =>
      var (_, rest) :- ReadNumber(s);
      Ok(s[..|s| - |rest|], rest)
    case 1 => ReadBytes(s, 8)
    case 2 =>
      var (n, rest) :- ReadNumber(s);
      ReadBytes(rest, n)
    case 5 => ReadBytes(s, 4)
    case _ => Fail
  }

  function ReadRecord(s: seq<byte>): (r: Parsed<WireRecord>)
    ensures r.Ok? ==> |r.rest| < |s|
  {
    var (tag, rest) :- ReadNumber(s);
    var (body, rest') :- ReadBody(tag % 8, rest);
    Ok(WireRecord(tag / 8, tag % 8, body), rest')
  }

  function ReadRecords(s: seq<byte>): Option<seq<WireRecord>>
    decreases |s|
  {
    if s == [] then Some([])
    else
      var r := ReadRecord(s);
      if r.Fail? then None
      else
        var others :- ReadRecords(r.rest);
        Some([r.value] + others)
  }

  // ---- What a struct is on the wire ----

  /** The wire type that the specification gives each kind of field. */
  function WireOf(l: LType): nat {
    match l
    case Varint | UVarint | SVarint => 0
    case Fixed64 => 1
    case Fixed32 => 5
    case Blob(_) | Text | Submessage(_) | FixedLengthBlob => 2
  }

  ghost predicate BodyOf(f: Field, v: Value, body: seq<byte>)
    decreases f, 1
  {
    match f.ltype
    case Varint => v.Num? && VarintOf(body, v.n % 0x1_0000_0000_0000_0000)
    case UVarint => v.Num? && v.n >= 0 && VarintOf(body, v.n)
    case SVarint => v.Num? && VarintOf(body, Zigzag(v.n))
    case Fixed32 => v.Num? && v.n >= 0 && WordOf(body, v.n, 4)
    case Fixed64 => v.Num? && v.n >= 0 && WordOf(body, v.n, 8)
    case Blob(_) | FixedLengthBlob => v.Raw? && body == v.bytes
    case Text => v.Raw? && body == UpToNul(v.bytes)
    case Submessage(sub) => v.Struct? && |v.cells| == CellCount(sub) && MessageOf(sub, v.cells, body)
  }

  ghost predicate PackedBody(f: Field, items: seq<Value>, body: seq<byte>)
    decreases f, 2, |items|
  {
    if items == [] then body == []
    else
      exists n :: 0 <= n <= |body| && BodyOf(f, items[0], body[..n]) && PackedBody(f, items[1..], body[n..])
  }

  /** A field's records: one for all entries of a packed array, else one for each value. */
  ghost predicate FieldRecords(f: Field, c: Cell, records: seq<WireRecord>)
    decreases f, 3
  {
    var values := Sent(f, c);
    if SentPacked(f) then
      if values == [] then records == []
      else
        |records| == 1 && records[0].number == f.tag && records[0].wire == 2
        && PackedBody(f, values, records[0].body)
    else
      |records| == |values|
      && forall j :: 0 <= j < |records| ==>
           records[j].number == f.tag && records[j].wire == WireOf(f.ltype) && BodyOf(f, values[j], records[j].body)
  }

  function RecordCount(f: Field, c: Cell): nat {
    if SentPacked(f) then if Sent(f, c) == [] then 0 else 1 else |Sent(f, c)|
  }

  ghost predicate RecordsFrom(fields: seq<Field>, cells: seq<Cell>, i: nat, records: seq<WireRecord>)
    requires i <= |fields| && |cells| == CellCount(fields)
    decreases fields, |fields| - i
  {
    if i == |fields| then records == []
    else
      CellInRange(fields, i);
      var c := cells[CellOf(fields, i)];
      var n := RecordCount(fields[i], c);
      n <= |records| && FieldRecords(fields[i], c, records[..n]) && RecordsFrom(fields, cells, i + 1, records[n..])
  }

  /** The bytes are the records of the fields, one field after the other. */
  ghost predicate MessageOf(fields: seq<Field>, cells: seq<Cell>, bytes: seq<byte>)
    requires |cells| == CellCount(fields)
    decreases fields, |fields| + 1
  {
    ReadRecords(bytes).Some? && RecordsFrom(fields, cells, 0, ReadRecords(bytes).value)
  }

  // ---- Numbers are written so ----

  lemma DivTwice(v: nat, a: nat, b: nat)
    requires a > 0 && b > 0
    ensures a * b > 0 && v / a / b == v / (a * b)
  {
    MulMonotone(a, 1, b);
    var q, r := v / a / b, v / a % b;
    assert v / a == b * q + r;
    assert v == a * (b * q + r) + v % a;
    assert a * (b * q + r) == (a * b) * q + a * r;
    MulMonotone(a, r + 1, b);
    ModUnique(v, a * b, q, a * r + v % a);
  }

  lemma GroupShift(v: nat, k: nat)
    ensures GroupAt(v, k + 1) == GroupAt(v / 128, k)
  {
    PowerPositive(128, k);
    DivTwice(v, 128, Power(128, k));
  }

  lemma OctetShift(v: nat, k: nat)
    ensures OctetAt(v, k + 1) == OctetAt(v / 256, k)
  {
    PowerPositive(256, k);
    DivTwice(v, 256, Power(256, k));
  }

  lemma {:induction false} VarintWritten(v: nat)
    ensures VarintOf(EncVarint(v), v)
    decreases v
  {
    assert Power(128, 1) == 128 * Power(128, 0);
    assert GroupAt(v, 0) == v % 128;
    if v >= 128 {
      VarintWritten(v / 128);
      var s, more := EncVarint(v), EncVarint(v / 128);
      assert s == [128 + v % 128] + more;
      assert Power(128, |s|) == 128 * Power(128, |more|);
      if |more| > 1 {
        assert Power(128, |more|) == 128 * Power(128, |more| - 1);
      }
      forall k | 0 <= k < |s| ensures s[k] == GroupAt(v, k) + if k < |s| - 1 then 128 else 0 {
        if k > 0 {
          GroupShift(v, k - 1);
          assert s[k] == more[k - 1];
        }
      }
    }
  }

  lemma {:induction false} WordWritten(v: nat, size: nat)
    ensures WordOf(LittleEndian(v, size), v, size)
  {
    if size > 0 {
      WordWritten(v / 256, size - 1);
      var s := LittleEndian(v, size);
      assert OctetAt(v, 0) == v % 256;
      forall k | 0 <= k < size ensures s[k] == OctetAt(v, k) {
        if k > 0 {
          OctetShift(v, k - 1);
        }
      }
    }
  }

  lemma ZigzagWritten(n: int)
    requires -0x8000_0000_0000_0000 <= n < 0x8000_0000_0000_0000
    ensures ZigZag(n) == Zigzag(n)
  {
    if n < 0 {
      ModUnique(n * 2, TWO64, -1, n * 2 + TWO64);
    } else {
      SmallMod(n * 2, TWO64);
    }
  }

  lemma {:induction false} NumberRead(v: nat, tail: seq<byte>)
    ensures ReadNumber(EncVarint(v) + tail) == Ok(v, tail)
    decreases v
  {
    var s := EncVarint(v) + tail;
    if v < 128 {
      assert s[1..] == tail;
    } else {
      assert s[1..] == EncVarint(v / 128) + tail;
      NumberRead(v / 128, tail);
    }
  }

  // ---- Records are written so ----

  /** The body of an encoded value: all of it, or what follows the length. */
  function BodyIn(f: Field, bytes: seq<byte>): seq<byte> {
    if WireOf(f.ltype) == 2 && ReadNumber(bytes).Ok? then ReadNumber(bytes).rest else bytes
  }

  lemma StringRead(b: seq<byte>, tail: seq<byte>)
    ensures ReadBody(2, EncString(b) + tail) == Ok(b, tail) && ReadNumber(EncString(b)) == Ok(|b|, b)
  {
    hide ReadNumber, EncVarint;
    assert EncString(b) + tail == EncVarint(|b|) + (b + tail);
    NumberRead(|b|, b + tail);
    NumberRead(|b|, b);
    assert (b + tail)[..|b|] == b && (b + tail)[|b|..] == tail;
  }

  lemma NumberBody(v: nat, tail: seq<byte>)
    ensures ReadBody(0, EncVarint(v) + tail) == Ok(EncVarint(v), tail)
  {
    hide ReadNumber, EncVarint;
    NumberRead(v, tail);
    assert (EncVarint(v) + tail)[..|EncVarint(v)|] == EncVarint(v);
  }

  lemma WordBody(v: nat, tail: seq<byte>)
    ensures ReadBody(5, LittleEndian(v, 4) + tail) == Ok(LittleEndian(v, 4), tail)
    ensures ReadBody(1, LittleEndian(v, 8) + tail) == Ok(LittleEndian(v, 8), tail)
  {
    hide LittleEndian;
    assert (LittleEndian(v, 4) + tail)[..4] == LittleEndian(v, 4) && (LittleEndian(v, 4) + tail)[4..] == tail;
    assert (LittleEndian(v, 8) + tail)[..8] == LittleEndian(v, 8) && (LittleEndian(v, 8) + tail)[8..] == tail;
  }

  lemma {:induction false} ValueWritten(f: Field, v: Value, bytes: seq<byte>, tail: seq<byte>)
    requires EncValue(f, v) == Some(bytes)
    ensures BodyOf(f, v, BodyIn(f, bytes)) && ReadBody(WireOf(f.ltype), bytes + tail) == Ok(BodyIn(f, bytes), tail)
    decreases f, 10
  {
    hide VarintOf, WordOf, EncVarint, LittleEndian, EncString, ReadBody, ReadNumber, ZigZag, Zigzag;
    match f.ltype
    case Varint =>
      VarintWritten(v.n % TWO64);
      NumberBody(v.n % TWO64, tail);
    case UVarint =>
      VarintWritten(v.n);
      NumberBody(v.n, tail);
    case SVarint =>
      ZigzagWritten(v.n);
      VarintWritten(ZigZag(v.n));
      NumberBody(ZigZag(v.n), tail);
    case Fixed32 =>
      WordWritten(v.n, 4);
      WordBody(v.n, tail);
    case Fixed64 =>
      WordWritten(v.n, 8);
      WordBody(v.n, tail);
    case Blob(_) => StringRead(v.bytes, tail);
    case FixedLengthBlob => StringRead(v.bytes, tail);
    case Text => StringRead(UpToNul(v.bytes), tail);
    case Submessage(sub) =>
      var body := EncFrom(sub, v.cells, 0).value;
      StringRead(body, tail);
      MessageWritten(sub, v.cells, body);
  }

  /** A tag, as it is written, before something that reads as a body. */
  lemma RecordRead(tag: nat, wire: nat, s: seq<byte>, body: seq<byte>, tail: seq<byte>)
    requires wire < 8 && ReadBody(wire, s + tail) == Ok(body, tail)
    ensures var record := EncTag(tag, wire) + s;
            ReadRecord(record + tail) == Ok(WireRecord(tag, wire, body), tail) && record != []
  {
    hide ReadNumber, ReadBody, EncVarint;
    assert EncTag(tag, wire) + s + tail == EncVarint(8 * tag + wire) + (s + tail);
    NumberRead(8 * tag + wire, s + tail);
  }

  lemma WireTypes(l: LType)
    ensures WireType(l) == WireOf(l)
  {
  }

  lemma TaggedRead(f: Field, v: Value, bytes: seq<byte>, tail: seq<byte>)
    requires EncValue(f, v) == Some(bytes)
    requires ReadBody(WireOf(f.ltype), bytes + tail) == Ok(BodyIn(f, bytes), tail)
    ensures var record := TagOf(f) + bytes;
            ReadRecord(record + tail) == Ok(WireRecord(f.tag, WireOf(f.ltype), BodyIn(f, bytes)), tail) && record != []
  {
    hide ReadBody, EncTag, BodyIn, ReadRecord;
    WireTypes(f.ltype);
    RecordRead(f.tag, WireOf(f.ltype), bytes, BodyIn(f, bytes), tail);
  }

  lemma {:induction false} PackedWritten(f: Field, items: seq<Value>, bytes: seq<byte>)
    requires EncPacked(f, items) == Some(bytes) && Packable(f.ltype)
    ensures PackedBody(f, items, bytes)
    decreases f, 11, |items|
  {
    hide BodyOf, BodyIn, EncValue, ReadBody;
    if items != [] {
      var first, others := EncValue(f, items[0]).value, EncPacked(f, items[1..]).value;
      ValueWritten(f, items[0], first, []);
      NoLength(f, first);
      PackedWritten(f, items[1..], others);
      assert bytes[..|first|] == first && bytes[|first|..] == others;
    }
  }

  lemma NoLength(f: Field, bytes: seq<byte>)
    requires Packable(f.ltype)
    ensures BodyIn(f, bytes) == bytes
  {
  }

  lemma {:induction false} TaggedWritten(f: Field, items: seq<Value>, bytes: seq<byte>, tail: seq<byte>)
    returns (records: seq<WireRecord>)
    requires EncTagged(f, items) == Some(bytes) && ReadRecords(tail).Some?
    ensures |records| == |items|
    ensures forall j :: 0 <= j < |records| ==>
              records[j].number == f.tag && records[j].wire == WireOf(f.ltype) && BodyOf(f, items[j], records[j].body)
    ensures ReadRecords(bytes + tail) == Some(records + ReadRecords(tail).value)
    decreases f, 11, |items|
  {
    hide BodyOf, BodyIn, EncValue, ReadBody, TagOf, ReadRecord;
    if items == [] {
      records := [];
      assert bytes + tail == tail && [] + ReadRecords(tail).value == ReadRecords(tail).value;
    } else {
      var first, others := EncValue(f, items[0]).value, EncTagged(f, items[1..]).value;
      var more := TaggedWritten(f, items[1..], others, tail);
      ValueWritten(f, items[0], first, others + tail);
      TaggedRead(f, items[0], first, others + tail);
      assert bytes + tail == (TagOf(f) + first) + (others + tail);
      records := [WireRecord(f.tag, WireOf(f.ltype), BodyIn(f, first))] + more;
      assert records + ReadRecords(tail).value == [records[0]] + (more + ReadRecords(tail).value);
    }
  }

  lemma SingleAsTagged(f: Field, v: Value, bytes: seq<byte>)
    requires EncSingle(f, v) == Some(bytes)
    ensures EncTagged(f, [v]) == Some(bytes)
  {
    hide EncValue, TagOf;
    assert [v][1..] == [];
    assert EncTagged(f, [v][1..]) == Some([]);
    assert bytes + [] == bytes;
  }

  /** What a cell makes pb_encode write, in terms of the values sent. */
  lemma CellBytes(f: Field, c: Cell, bytes: seq<byte>)
    requires EncCell(f, c) == Some(bytes)
    ensures !SentPacked(f) ==> EncTagged(f, Sent(f, c)) == Some(bytes)
    ensures SentPacked(f) && Sent(f, c) == [] ==> bytes == []
    ensures SentPacked(f) && Sent(f, c) != [] ==>
              EncPacked(f, Sent(f, c)).Some?
              && bytes == EncTag(f.tag, WT_STRING) + EncString(EncPacked(f, Sent(f, c)).value)
  {
    hide EncTagged, EncPacked, EncTag, EncString, EncSingle, IsZero;
    NothingTagged(f);
    if Sent(f, c) != [] && !f.htype.Repeated? {
      SingleAsTagged(f, Sent(f, c)[0], bytes);
    }
  }

  lemma NothingTagged(f: Field)
    ensures EncTagged(f, []) == Some([])
  {
  }

  lemma {:induction false} FieldWritten(f: Field, c: Cell, bytes: seq<byte>, tail: seq<byte>)
    returns (records: seq<WireRecord>)
    requires EncCell(f, c) == Some(bytes) && ReadRecords(tail).Some?
    ensures |records| == RecordCount(f, c) && FieldRecords(f, c, records)
    ensures ReadRecords(bytes + tail) == Some(records + ReadRecords(tail).value)
    decreases f, 12
  {
    hide BodyOf, PackedBody, EncCell, EncTagged, EncPacked, EncTag, EncString, Sent, ReadBody, ReadRecord;
    CellBytes(f, c, bytes);
    var values := Sent(f, c);
    if !SentPacked(f) {
      records := TaggedWritten(f, values, bytes, tail);
    } else if values == [] {
      records := [];
      assert bytes + tail == tail && [] + ReadRecords(tail).value == ReadRecords(tail).value;
    } else {
      var body := EncPacked(f, values).value;
      PackedWritten(f, values, body);
      StringRead(body, tail);
      RecordRead(f.tag, 2, EncString(body), body, tail);
      records := [WireRecord(f.tag, 2, body)];
    }
  }

  lemma {:induction false} FieldsWritten(fields: seq<Field>, cells: seq<Cell>, i: nat, bytes: seq<byte>)
    requires i <= |fields| && |cells| == CellCount(fields) && EncFrom(fields, cells, i) == Some(bytes)
    ensures ReadRecords(bytes).Some? && RecordsFrom(fields, cells, i, ReadRecords(bytes).value)
    decreases fields, |fields| - i
  {
    hide EncCell, FieldRecords, RecordCount, ReadRecords;
    if i == |fields| {
      NoRecords();
    } else {
      CellInRange(fields, i);
      var c := cells[CellOf(fields, i)];
      var first, others := EncCell(fields[i], c).value, EncFrom(fields, cells, i + 1).value;
      FieldsWritten(fields, cells, i + 1, others);
      var records := FieldWritten(fields[i], c, first, others);
      var all := records + ReadRecords(others).value;
      assert all[..|records|] == records && all[|records|..] == ReadRecords(others).value;
    }
  }

  lemma NoRecords()
    ensures ReadRecords([]) == Some([])
  {
  }

  /** What pb_encode writes is the message in the wire format. */
  lemma {:induction false} MessageWritten(fields: seq<Field>, cells: seq<Cell>, bytes: seq<byte>)
    requires |cells| == CellCount(fields) && EncStruct(fields, cells) == Some(bytes)
    ensures MessageOf(fields, cells, bytes)
    decreases fields, |fields| + 1
  {
    hide ReadRecords, RecordsFrom;
    FieldsWritten(fields, cells, 0, bytes);
  }

  // ---- Nothing else is the message in the wire format ----

  lemma {:induction false} PowerMonotone(base: nat, j: nat, k: nat)
    requires base > 0 && j <= k
    ensures Power(base, j) <= Power(base, k)
  {
    if j < k {
      PowerMonotone(base, j, k - 1);
      PowerPositive(base, k - 1);
      MulMonotone(Power(base, k - 1), 1, base);
    }
  }

  lemma VarintUnique(s: seq<byte>, t: seq<byte>, v: nat)
    requires VarintOf(s, v) && VarintOf(t, v)
    ensures s == t
  {
    if |s| < |t| {
      PowerMonotone(128, |s|, |t| - 1);
    } else if |t| < |s| {
      PowerMonotone(128, |t|, |s| - 1);
    }
  }

  lemma {:induction false} NumberIsShortest(s: seq<byte>)
    requires ReadNumber(s).Ok?
    ensures s == EncVarint(ReadNumber(s).value) + ReadNumber(s).rest
    decreases |s|
  {
    if s[0] >= 128 {
      NumberIsShortest(s[1..]);
      EncSplit(s[0] - 128, ReadNumber(s[1..]).value);
      assert s == [s[0]] + s[1..];
    }
  }

  /** The bytes of records. */
  function Rebuilt(records: seq<WireRecord>): seq<byte> {
    if records == [] then []
    else
      var r := records[0];
      EncVarint(8 * r.number + r.wire) + (if r.wire == 2 then EncVarint(|r.body|) + r.body else r.body)
      + Rebuilt(records[1..])
  }

  lemma RecordRebuilt(s: seq<byte>)
    requires ReadRecord(s).Ok?
    ensures var r := ReadRecord(s).value;
            s == EncVarint(8 * r.number + r.wire) + (if r.wire == 2 then EncVarint(|r.body|) + r.body else r.body)
                 + ReadRecord(s).rest
  {
    hide ReadNumber, EncVarint;
    NumberIsShortest(s);
    var tag := ReadNumber(s);
    if tag.value % 8 == 0 || tag.value % 8 == 2 {
      NumberIsShortest(tag.rest);
    }
  }

  lemma {:induction false} RecordsRebuilt(s: seq<byte>)
    requires ReadRecords(s).Some?
    ensures s == Rebuilt(ReadRecords(s).value)
    decreases |s|
  {
    hide ReadRecord, EncVarint;
    if s != [] {
      RecordRebuilt(s);
      RecordsRebuilt(ReadRecord(s).rest);
    }
  }

  lemma {:induction false} BodyUnique(f: Field, v: Value, a: seq<byte>, b: seq<byte>)
    requires BodyOf(f, v, a) && BodyOf(f, v, b)
    ensures a == b
    decreases f, 10
  {
    hide VarintOf, GroupAt, OctetAt, UpToNul, Zigzag;
    match f.ltype
    case Varint => VarintUnique(a, b, v.n % 0x1_0000_0000_0000_0000);
    case UVarint => VarintUnique(a, b, v.n);
    case SVarint => VarintUnique(a, b, Zigzag(v.n));
    case Submessage(sub) => MessageUnique(sub, v.cells, a, b);
    case _ =>
  }

  lemma {:induction false} PackedUnique(f: Field, items: seq<Value>, a: seq<byte>, b: seq<byte>)
    requires PackedBody(f, items, a) && PackedBody(f, items, b)
    ensures a == b
    decreases f, 11, |items|
  {
    hide BodyOf;
    if items != [] {
      var m :| 0 <= m <= |a| && BodyOf(f, items[0], a[..m]) && PackedBody(f, items[1..], a[m..]);
      var n :| 0 <= n <= |b| && BodyOf(f, items[0], b[..n]) && PackedBody(f, items[1..], b[n..]);
      BodyUnique(f, items[0], a[..m], b[..n]);
      PackedUnique(f, items[1..], a[m..], b[n..]);
      assert a == a[..m] + a[m..] && b == b[..n] + b[n..];
    }
  }

  lemma {:induction false} FieldUnique(f: Field, c: Cell, a: seq<WireRecord>, b: seq<WireRecord>)
    requires FieldRecords(f, c, a) && FieldRecords(f, c, b)
    ensures a == b
    decreases f, 12
  {
    hide BodyOf, PackedBody, Sent;
    var values := Sent(f, c);
    if SentPacked(f) && values != [] {
      PackedUnique(f, values, a[0].body, b[0].body);
    } else if !SentPacked(f) {
      forall j | 0 <= j < |a| ensures a[j] == b[j] {
        BodyUnique(f, values[j], a[j].body, b[j].body);
      }
    }
  }

  lemma {:induction false} RecordsUnique(fields: seq<Field>, cells: seq<Cell>, i: nat, a: seq<WireRecord>,
                                         b: seq<WireRecord>)
    requires i <= |fields| && |cells| == CellCount(fields)
    requires RecordsFrom(fields, cells, i, a) && RecordsFrom(fields, cells, i, b)
    ensures a == b
    decreases fields, |fields| - i
  {
    hide FieldRecords, RecordCount;
    if i < |fields| {
      CellInRange(fields, i);
      var c := cells[CellOf(fields, i)];
      var n := RecordCount(fields[i], c);
      FieldUnique(fields[i], c, a[..n], b[..n]);
      RecordsUnique(fields, cells, i + 1, a[n..], b[n..]);
      assert a == a[..n] + a[n..] && b == b[..n] + b[n..];
    }
  }

  lemma {:induction false} MessageUnique(fields: seq<Field>, cells: seq<Cell>, a: seq<byte>, b: seq<byte>)
    requires |cells| == CellCount(fields) && MessageOf(fields, cells, a) && MessageOf(fields, cells, b)
    ensures a == b
    decreases fields, |fields| + 1
  {
    hide ReadRecords, RecordsFrom;
    RecordsUnique(fields, cells, 0, ReadRecords(a).value, ReadRecords(b).value);
    RecordsRebuilt(a);
    RecordsRebuilt(b);
  }

  /** For every struct that can be encoded: the encoding is the one byte string that the wire format allows. */
  lemma EncodingIsTheWireFormat(fields: seq<Field>, cells: seq<Cell>, bytes: seq<byte>)
    requires |cells| == CellCount(fields) && EncStruct(fields, cells).Some?
    ensures EncStruct(fields, cells) == Some(bytes) <==> MessageOf(fields, cells, bytes)
  {
    hide MessageOf, EncStruct;
    var written := EncStruct(fields, cells).value;
    MessageWritten(fields, cells, written);
    if MessageOf(fields, cells, bytes) {
      MessageUnique(fields, cells, bytes, written);
    }
  }

  /** The fixed32 field 1 with value 7 is wire type 5 and four bytes. */
  lemma Fixed32OnTheWire()
    ensures EncStruct([Field(1, Required, Fixed32, false, false, 4, 0, None)], [Plain(Num(7))])
            == Some([0x0D, 7, 0, 0, 0])
  {
    var f := Field(1, Required, Fixed32, false, false, 4, 0, None);
    assert EncVarint(13) == [0x0D];
    assert LittleEndian(7, 4) == [7] + LittleEndian(0, 3);
    assert LittleEndian(0, 3) == [0] + LittleEndian(0, 2);
    assert LittleEndian(0, 2) == [0, 0];
    var word: seq<byte> := [7, 0, 0, 0];
    assert LittleEndian(7, 4) == word;
    assert EncSingle(f, Num(7)) == Some([0x0D] + word);
    assert EncFrom([f], [Plain(Num(7))], 1) == Some([]);
    assert [0x0D] + word + [] == [0x0D, 7, 0, 0, 0];
  }
}
