/** What a record does to a field that was met before: merge, replace, append or start anew. */
module FieldTwice {
  import opened Bytes
  import opened Parsing
  import opened Varint
  import opened Descriptor
  import opened Encoding
  import opened Decoding
  import opened Contents
  import opened ValueDelivery
  import opened Delivery
  import opened RoundTrip
  import opened Merging

  /** A record of field f that holds a length and so many bytes. */
  function Record(f: Field, payload: seq<byte>): seq<byte> {
    EncTag(f.tag, WT_STRING) + EncString(payload)
  }

  lemma RecordThen(f: Field, payload: seq<byte>, tail: seq<byte>)
    ensures Record(f, payload) + tail == EncTag(f.tag, WT_STRING) + (EncString(payload) + tail)
  {
  }

  /** The struct that a submessage record is decoded over. */
  function Under(f: Field, prior: Value): (cells: seq<Cell>)
    requires f.ltype.Submessage?
    ensures |cells| == CellCount(f.ltype.fields)
  {
    DefaultsFromLength(f.ltype.fields, 0);
    if f.htype.Repeated? then Defaults(f.ltype.fields) else CellsOf(f.ltype.fields, prior)
  }

  /** The value of a submessage record is its payload, decoded as a message of its own. */
  lemma PayloadDecoded(f: Field, payload: seq<byte>, tail: seq<byte>, prior: Value)
    requires f.ltype.Submessage? && |payload| < TWO32
    ensures DecValue(f, EncString(payload) + tail, prior)
            == (var r := DecMessage(f.ltype.fields, payload, Under(f, prior));
                if r.Ok? then Ok(Struct(r.value), tail) else Fail)
  {
    hide DecMessage, EncString, DecString;
    StringValue(payload, tail);
  }

  // ---- Merge ----

  /**
   * A required or optional submessage that is met twice is merged: two records do what one does that
   * holds both payloads, whatever the field held before and whatever follows.
   */
  lemma SubmessageMerges(fields: seq<Field>, p: nat, a: seq<byte>, b: seq<byte>, tail: seq<byte>, st: State)
    requires GoodFields(fields) && p < |fields| && InShape(fields, st) && CellOf(fields, p) < |st.cells|
    requires var f := fields[p];
             (f.htype.Required? || f.htype.Optional?) && f.ltype.Submessage?
             && GoodFields(f.ltype.fields) && NoBookkeeping(f.ltype.fields)
             && RunsOut(f.ltype.fields, a, Start(CellsOf(f.ltype.fields, ValueOf(st.cells[CellOf(fields, p)]))))
    requires |a| + |b| < TWO32
    ensures var f := fields[p];
            DecLoop(fields, Record(f, a) + (Record(f, b) + tail), st) == DecLoop(fields, Record(f, a + b) + tail, st)
  {
    hide DecLoop, DecMessage, GoodFields, NoBookkeeping, RunsOut, EncString, EncTag, Record, DecValue, After, CellsOf;
    var f := fields[p];
    var sub, prior := f.ltype.fields, ValueOf(st.cells[CellOf(fields, p)]);
    var start := CellsOf(sub, prior);
    GoodTags(sub);
    ConcatenationIsMerge(sub, a, b, start);
    var first := Struct(DecMessage(sub, a, start).value);
    OneRecord(fields, p, a, Record(f, b) + tail, st);
    OneRecord(fields, p, a + b, tail, st);
    AfterHolds(fields, p, st, first);
    OneRecord(fields, p, b, tail, After(fields, p, st, first));
    var second := DecMessage(sub, b, DecMessage(sub, a, start).value);
    assert CellsOf(sub, first) == first.cells by { KeepsCells(sub, first.cells); }
    if second.Ok? {
      AfterAgain(fields, p, st, first, Struct(second.value));
    }
  }

  lemma GoodTags(fields: seq<Field>)
    requires GoodFields(fields)
    ensures DistinctTags(fields)
  {
  }

  lemma KeepsCells(sub: seq<Field>, cells: seq<Cell>)
    requires |cells| == CellCount(sub)
    ensures CellsOf(sub, Struct(cells)) == cells
  {
  }

  /** One record of a submessage that is not an array entry or a member of a oneof. */
  lemma OneRecord(fields: seq<Field>, p: nat, payload: seq<byte>, tail: seq<byte>, st: State)
    requires GoodFields(fields) && p < |fields| && InShape(fields, st) && CellOf(fields, p) < |st.cells|
    requires var f := fields[p]; (f.htype.Required? || f.htype.Optional?) && f.ltype.Submessage?
    requires |payload| < TWO32
    ensures var f := fields[p];
            var r := DecMessage(f.ltype.fields, payload,
                                CellsOf(f.ltype.fields, ValueOf(st.cells[CellOf(fields, p)])));
            DecLoop(fields, Record(f, payload) + tail, st)
            == if r.Ok? then DecLoop(fields, tail, After(fields, p, st, Struct(r.value))) else Fail
  {
    hide DecLoop, DecMessage, GoodFields, EncString, EncTag, Record, DecValue, After, CellsOf;
    var f, prior := fields[p], ValueOf(st.cells[CellOf(fields, p)]);
    RecordThen(f, payload, tail);
    LoopSingle(fields, p, WT_STRING, EncString(payload) + tail, st, prior);
    PayloadDecoded(f, payload, tail, prior);
  }

  lemma AfterHolds(fields: seq<Field>, p: nat, st: State, v: Value)
    requires p < |fields| && InShape(fields, st) && !fields[p].htype.Repeated?
    ensures var r := After(fields, p, st, v);
            InShape(fields, r) && CellOf(fields, p) < |r.cells| && ValueOf(r.cells[CellOf(fields, p)]) == v
  {
    CellInRange(fields, p);
  }

  /** The second record of a field leaves the state that it would leave alone. */
  lemma AfterAgain(fields: seq<Field>, p: nat, st: State, v: Value, w: Value)
    requires p < |fields| && InShape(fields, st)
    ensures After(fields, p, After(fields, p, st, v), w) == After(fields, p, st, w)
  {
    CellInRange(fields, p);
    assert st.cells[CellOf(fields, p) := NewCell(fields[p], v)][CellOf(fields, p) := NewCell(fields[p], w)]
        == st.cells[CellOf(fields, p) := NewCell(fields[p], w)];
  }

  // ---- Replace ----

  /** A field whose record takes no notice of what the field held. */
  predicate Replaces(f: Field) {
    !f.htype.Repeated? && (!f.ltype.Submessage? || f.htype.Oneof?)
  }

  /** What a value is decoded over when nothing of the field's storage is looked at. */
  function Anew(f: Field): Value {
    if f.ltype.Submessage? then DefaultValue(f) else Num(0)
  }

  lemma PriorIgnored(f: Field, s: seq<byte>, prior: Value)
    requires !f.ltype.Submessage?
    ensures DecValue(f, s, prior) == DecValue(f, s, Num(0))
  {
  }

  lemma LoopAnew(fields: seq<Field>, p: nat, wt: nat, s: seq<byte>, st: State)
    requires GoodFields(fields) && p < |fields| && InShape(fields, st) && Replaces(fields[p]) && wt < 8
    ensures var r := DecValue(fields[p], s, Anew(fields[p]));
            DecLoop(fields, EncTag(fields[p].tag, wt) + s, st)
            == if r.Ok? then DecLoop(fields, r.rest, After(fields, p, st, r.value)) else Fail
  {
    hide DecLoop, GoodFields, EncTag, DecValue, After, DefaultValue;
    CellInRange(fields, p);
    var f, c := fields[p], st.cells[CellOf(fields, p)];
    LoopSingle(fields, p, wt, s, st, if f.htype.Oneof? && f.ltype.Submessage? then DefaultValue(f) else ValueOf(c));
    if !f.ltype.Submessage? {
      PriorIgnored(f, s, ValueOf(c));
    }
  }

  /**
   * The last one wins: a second record of a scalar, or of any member of a oneof, replaces what the first one
   * stored. p and q may be two members of one oneof.
   */
  lemma LastWins(fields: seq<Field>, p: nat, wt: nat, a: seq<byte>, q: nat, wt': nat, s: seq<byte>, st: State)
    requires GoodFields(fields) && p < |fields| && q < |fields| && InShape(fields, st) && wt < 8 && wt' < 8
    requires Replaces(fields[p]) && Replaces(fields[q])
    requires p == q || CellOf(fields, p) == CellOf(fields, q)
    requires var r := DecValue(fields[p], a, Anew(fields[p])); r.Ok? && r.rest == []
    ensures var first, second := EncTag(fields[p].tag, wt) + a, EncTag(fields[q].tag, wt') + s;
            DecLoop(fields, first + second, st) == DecLoop(fields, second, st)
  {
    hide DecLoop, GoodFields, EncTag, DecValue, After, Anew, Replaces;
    var second := EncTag(fields[q].tag, wt') + s;
    var first := DecValue(fields[p], a, Anew(fields[p]));
    ValueAhead(fields[p], a, Anew(fields[p]), second);
    assert EncTag(fields[p].tag, wt) + a + second == EncTag(fields[p].tag, wt) + (a + second);
    assert [] + second == second;
    LoopAnew(fields, p, wt, a + second, st);
    LoopAnew(fields, q, wt', s, st);
    LoopAnew(fields, q, wt', s, After(fields, p, st, first.value));
    var r := DecValue(fields[q], s, Anew(fields[q]));
    if r.Ok? {
      AfterOther(fields, p, q, st, first.value, r.value);
    }
  }

  lemma AfterOther(fields: seq<Field>, p: nat, q: nat, st: State, v: Value, w: Value)
    requires p < |fields| && q < |fields| && InShape(fields, st)
    requires p == q || CellOf(fields, p) == CellOf(fields, q)
    ensures After(fields, q, After(fields, p, st, v), w) == After(fields, q, st, w)
  {
    CellInRange(fields, p);
    CellInRange(fields, q);
    if p < q {
      SharedCell(fields, p, q);
    } else if q < p {
      SharedCell(fields, q, p);
    }
    var c := CellOf(fields, q);
    assert st.cells[c := NewCell(fields[p], v)][c := NewCell(fields[q], w)] == st.cells[c := NewCell(fields[q], w)];
  }

  /** A submessage in a oneof starts from its defaults, whatever the union held. */
  lemma OneofStartsAnew(fields: seq<Field>, p: nat, payload: seq<byte>, tail: seq<byte>, st: State)
    requires GoodFields(fields) && p < |fields| && InShape(fields, st) && |payload| < TWO32
    requires fields[p].htype.Oneof? && fields[p].ltype.Submessage?
    ensures var sub := fields[p].ltype.fields;
            |Defaults(sub)| == CellCount(sub)
            && (var r := DecMessage(sub, payload, Defaults(sub));
                CellInRange(fields, p);
                DecLoop(fields, Record(fields[p], payload) + tail, st)
                == if r.Fail? then Fail
                   else DecLoop(fields, tail,
                                st.(cells := st.cells[CellOf(fields, p) := Union(fields[p].tag, Struct(r.value))],
                                    pos := p)))
  {
    hide DecLoop, DecMessage, GoodFields, EncString, EncTag, Record, DecValue;
    var f := fields[p];
    DefaultsFromLength(f.ltype.fields, 0);
    RecordThen(f, payload, tail);
    LoopAnew(fields, p, WT_STRING, EncString(payload) + tail, st);
    PayloadDecoded(f, payload, tail, DefaultValue(f));
    KeepsCells(f.ltype.fields, Defaults(f.ltype.fields));
  }

  // ---- Append ----

  predicate Counted(f: Field) { f.htype.Repeated? && f.hasSize }

  /** One record of an array that is not packed appends one entry, if there is room. */
  lemma EntryAppended(fields: seq<Field>, p: nat, wt: nat, s: seq<byte>, st: State)
    requires GoodFields(fields) && p < |fields| && InShape(fields, st) && wt < 8 && CellOf(fields, p) < |st.cells|
    requires Counted(fields[p]) && !(wt == WT_STRING && Packable(fields[p].ltype))
    ensures var items, r := ItemsOf(st.cells[CellOf(fields, p)]), DecValue(fields[p], s, Num(0));
            DecLoop(fields, EncTag(fields[p].tag, wt) + s, st)
            == if |items| >= fields[p].arraySize || r.Fail? then Fail
               else DecLoop(fields, r.rest, WithArray(fields, p, st, items + [r.value], 0))
  {
    hide DecLoop, GoodFields, EncTag, DecValue;
    LoopKnown(fields, p, wt, s, st);
  }

  /** A submessage that is an array entry starts from its defaults. */
  lemma EntryStartsAnew(fields: seq<Field>, p: nat, payload: seq<byte>, tail: seq<byte>, st: State)
    requires GoodFields(fields) && p < |fields| && InShape(fields, st) && CellOf(fields, p) < |st.cells|
    requires Counted(fields[p]) && fields[p].ltype.Submessage? && |payload| < TWO32
    ensures var sub, items := fields[p].ltype.fields, ItemsOf(st.cells[CellOf(fields, p)]);
            |Defaults(sub)| == CellCount(sub)
            && (var r := DecMessage(sub, payload, Defaults(sub));
                DecLoop(fields, Record(fields[p], payload) + tail, st)
                == if |items| >= fields[p].arraySize || r.Fail? then Fail
                   else DecLoop(fields, tail, WithArray(fields, p, st, items + [Struct(r.value)], 0)))
  {
    hide DecLoop, DecMessage, GoodFields, EncString, EncTag, Record, DecValue, WithArray;
    var f := fields[p];
    DefaultsFromLength(f.ltype.fields, 0);
    RecordThen(f, payload, tail);
    EntryAppended(fields, p, WT_STRING, EncString(payload) + tail, st);
    PayloadDecoded(f, payload, tail, Num(0));
  }

  lemma {:induction false} PackedAhead(f: Field, a: seq<byte>, b: seq<byte>, items: seq<Value>, size: nat)
    requires DecPacked(f, a, items, size).Ok? && DecPacked(f, a, items, size).rest == []
    ensures var r := DecPacked(f, a, items, size).value;
            DecPacked(f, a + b, items, size) == DecPacked(f, b, r.0, r.1)
    decreases |a|
  {
    hide DecValue, Store;
    if a == [] {
      assert a + b == b;
    } else {
      ValueAhead(f, a, Num(0), b);
      var r := DecValue(f, a, Num(0));
      PackedAhead(f, r.rest, b, Store(items, size, r.value), size + 1);
    }
  }

  lemma {:induction false} PackedCount(f: Field, s: seq<byte>, items: seq<Value>, size: nat)
    requires |items| == size
    ensures var r := DecPacked(f, s, items, size); r.Ok? ==> |r.value.0| == r.value.1
    decreases |s|
  {
    hide DecValue;
    if s != [] && size < f.arraySize && DecValue(f, s, Num(0)).Ok? {
      var r := DecValue(f, s, Num(0));
      PackedCount(f, r.rest, Store(items, size, r.value), size + 1);
    }
  }

  lemma PackedRecord(fields: seq<Field>, p: nat, payload: seq<byte>, tail: seq<byte>, st: State)
    requires GoodFields(fields) && p < |fields| && InShape(fields, st) && CellOf(fields, p) < |st.cells|
    requires Counted(fields[p]) && Packable(fields[p].ltype) && |payload| < TWO32
    ensures var items := ItemsOf(st.cells[CellOf(fields, p)]);
            var r := DecPacked(fields[p], payload, items, |items|);
            DecLoop(fields, Record(fields[p], payload) + tail, st)
            == if r.Fail? || r.rest != [] then Fail
               else DecLoop(fields, tail, WithArray(fields, p, st, r.value.0, 0))
  {
    hide DecLoop, DecPacked, GoodFields, EncString, EncTag, Record, DecString;
    RecordThen(fields[p], payload, tail);
    LoopKnown(fields, p, WT_STRING, EncString(payload) + tail, st);
    StringValue(payload, tail);
  }

  /** A packed array may come in pieces: the entries of the second record go behind those of the first. */
  lemma PackedAppends(fields: seq<Field>, p: nat, a: seq<byte>, b: seq<byte>, tail: seq<byte>, st: State)
    requires GoodFields(fields) && p < |fields| && InShape(fields, st) && CellOf(fields, p) < |st.cells|
    requires Counted(fields[p]) && Packable(fields[p].ltype) && |a| + |b| < TWO32
    requires var items := ItemsOf(st.cells[CellOf(fields, p)]);
             var r := DecPacked(fields[p], a, items, |items|); r.Ok? && r.rest == []
    ensures var f := fields[p];
            DecLoop(fields, Record(f, a) + (Record(f, b) + tail), st) == DecLoop(fields, Record(f, a + b) + tail, st)
  {
    hide DecLoop, DecPacked, GoodFields, EncString, EncTag, Record;
    var f, items := fields[p], ItemsOf(st.cells[CellOf(fields, p)]);
    var r := DecPacked(f, a, items, |items|);
    PackedAhead(f, a, b, items, |items|);
    PackedCount(f, a, items, |items|);
    var st' := WithArray(fields, p, st, r.value.0, 0);
    PackedRecord(fields, p, a, Record(f, b) + tail, st);
    PackedRecord(fields, p, a + b, tail, st);
    PackedRecord(fields, p, b, tail, st');
    var s := DecPacked(f, b, r.value.0, r.value.1);
    if s.Ok? {
      var c := CellOf(fields, p);
      assert st.cells[c := Many(r.value.0)][c := Many(s.value.0)] == st.cells[c := Many(s.value.0)];
    }
  }

  // ---- An example ----

  /** A small unsigned integer, read from one byte. */
  lemma SmallVarint(f: Field, v: byte, tail: seq<byte>)
    requires v < 128 && f.ltype.UVarint? && IntSize(f.dataSize)
    ensures DecValue(f, [v] + tail, Num(0)) == Ok(Num(v), tail)
  {
    hide DecVarint, EncVarint;
    assert EncVarint(v) == [v] by { SmallVarintBytes(v); }
    UVarintValue(f, v, tail);
  }

  lemma SmallVarintBytes(v: byte)
    requires v < 128
    ensures EncVarint(v) == [v]
  {
  }

  const X := Field(1, Optional, UVarint, false, true, 4, 0, None)
  const Y := Field(2, Optional, UVarint, false, true, 4, 0, None)
  const PAIR := Field(1, Required, Submessage([X, Y]), false, false, 0, 0, None)

  lemma PairOfRecords()
    ensures |Defaults([X, Y])| == CellCount([X, Y]) == 2 && GoodFields([X, Y])
    ensures DecMessage([X, Y], [0x08, 5, 0x10, 7], Defaults([X, Y]))
            == Ok([Opt(true, Num(5)), Opt(true, Num(7))], [])
  {
    hide DecLoop, EncVarint, DecValue;
    var fields := [X, Y];
    var start := Defaults(fields);
    DefaultsFromLength(fields, 0);
    DefaultsAt(fields, 0);
    DefaultsAt(fields, 1);
    SmallVarintBytes(0x08);
    SmallVarintBytes(0x10);
    var first := After(fields, 0, Start(start), Num(5));
    SmallVarint(X, 5, [0x10, 7]);
    assert EncTag(1, WT_VARINT) + ([5] + [0x10, 7]) == [0x08, 5, 0x10, 7];
    LoopAnew(fields, 0, WT_VARINT, [5] + [0x10, 7], Start(start));
    SmallVarint(Y, 7, []);
    assert [7] + [] == [7];
    assert EncTag(2, WT_VARINT) + [7] == [0x10, 7];
    LoopAnew(fields, 1, WT_VARINT, [7], first);
    var second := After(fields, 1, first, Num(7));
    LoopEnd(fields, second);
    assert second.cells == [Opt(true, Num(5)), Opt(true, Num(7))];
    MessageOfLoop(fields, [0x08, 5, 0x10, 7], start);
    assert RequiredBefore(fields, 2) == RequiredBefore(fields, 1) == 0;
    assert RequiredMet(fields, second.seen) && FixedDone(fields, second);
  }

  lemma XRunsOut()
    ensures |Defaults([X, Y])| == CellCount([X, Y]) && RunsOut([X, Y], [0x08, 5], Start(Defaults([X, Y])))
  {
    hide DecVarint32, EncVarint, DecValue;
    var fields := [X, Y];
    var st := Start(Defaults(fields));
    DefaultsFromLength(fields, 0);
    DefaultsAt(fields, 0);
    SmallVarintBytes(0x08);
    TagRead(1, WT_VARINT, [5]);
    assert EncTag(1, WT_VARINT) + [5] == [0x08, 5];
    SmallVarint(X, 5, []);
    assert [5] + [] == [5];
    FindUnique(fields, 0, 0);
    SingleField(fields, 0, WT_VARINT, [5], st, ValueOf(st.cells[0]));
    PriorIgnored(X, [5], ValueOf(st.cells[0]));
  }

  /** x = 5 in one record of the submessage and y = 7 in the next: both are there in the end. */
  lemma MergedPair()
    ensures Decode([PAIR], [0x0A, 2, 0x08, 5, 0x0A, 2, 0x10, 7])
            == Ok([Plain(Struct([Opt(true, Num(5)), Opt(true, Num(7))]))], [])
  {
    hide DecLoop, EncVarint, RunsOut, DecMessage;
    PairOfRecords();
    XRunsOut();
    var fields, sub := [PAIR], [X, Y];
    var a: seq<byte>, b: seq<byte> := [0x08, 5], [0x10, 7];
    DefaultsFromLength(fields, 0);
    DefaultsAt(fields, 0);
    var st := Start(Defaults(fields));
    SmallVarintBytes(0x0A);
    SmallVarintBytes(2);
    assert Record(PAIR, a) + (Record(PAIR, b) + []) == [0x0A, 2, 0x08, 5, 0x0A, 2, 0x10, 7];
    SubmessageMerges(fields, 0, a, b, [], st);
    assert a + b == [0x08, 5, 0x10, 7];
    OneRecord(fields, 0, a + b, [], st);
    var v := Struct([Opt(true, Num(5)), Opt(true, Num(7))]);
    LoopEnd(fields, After(fields, 0, st, v));
    MessageOfLoop(fields, [0x0A, 2, 0x08, 5, 0x0A, 2, 0x10, 7], Defaults(fields));
    assert DecLoop(fields, Record(PAIR, a + b) + [], st) == Ok(After(fields, 0, st, v), []);
    assert After(fields, 0, st, v).cells == [Plain(v)];
    assert RequiredBefore(fields, 1) == 1;
    assert RequiredMet(fields, After(fields, 0, st, v).seen);
  }
}
