/** The delivery theorem, and round trips and forward compatibility as its consequences. */
module RoundTrip {
  import opened Bytes
  import opened Parsing
  import opened Varint
  import opened Descriptor
  import opened Encoding
  import opened Decoding
  import opened Contents
  import opened ValueDelivery
  import opened Delivery

  // ---- A proto3 value that is not sent is the default ----

  lemma {:induction false} ZeroIsDefault(f': Field, f: Field, v: Value)
    requires FitsField(f', f) && GoodField(f') && GoodField(f) && f'.initial.None?
    requires f'.ltype.Submessage? ==> NoFixedCount(f'.ltype.fields)
    requires TypedValue(f, v) && IsZeroValue(f, v)
    ensures ContentOf(f', f', DefaultValue(f')) == ContentOf(f', f, v)
    decreases f', 1
  {
    if f'.ltype.Submessage? {
      ZeroMessage(f'.ltype.fields, f.ltype.fields, v.cells);
    } else {
      UpToNulIdempotent([]);
      assert Zeros(0) == [];
    }
  }

  lemma {:induction false} ZeroMessage(sub': seq<Field>, sub: seq<Field>, cells: seq<Cell>)
    requires Fits(sub', sub) && GoodFields(sub') && GoodFields(sub) && NoFixedCount(sub')
    requires |cells| == CellCount(sub) && Typed(sub, cells) && AllZero(sub, cells, 0)
    ensures |Defaults(sub')| == CellCount(sub')
    ensures Seen(sub', sub', Defaults(sub')) == Seen(sub', sub, cells)
    decreases sub', 0
  {
    DefaultsFromLength(sub', 0);
    forall k | 0 <= k < |sub'|
      ensures SeenField(sub'[k], sub', Defaults(sub')) == SeenField(sub'[k], sub, cells)
    {
      FindUnique(sub', 0, k);
      DefaultsAt(sub', k);
      var i := Find(sub, 0, sub'[k].tag).value;
      AllZeroAt(sub, cells, 0, i);
      assert GoodField(sub'[k]) && GoodField(sub[i]);
      assert CellInRange'(sub, cells, i);
      ZeroCell(sub'[k], sub[i], cells[CellOf(sub, i)]);
    }
  }

  lemma {:induction false} ZeroCell(f': Field, f: Field, c: Cell)
    requires FitsField(f', f) && GoodField(f') && GoodField(f) && !FixedCount(f')
    requires TypedCell(f, c) && IsZero(f, c)
    ensures ViewOf(f', f', DefaultCell(f')) == ViewOf(f', f, c)
    decreases f', 2
  {
    if Singular(f) {
      ZeroIsDefault(f', f, c.value);
    }
  }

  lemma {:induction false} AllZeroAt(fields: seq<Field>, cells: seq<Cell>, i: nat, j: nat)
    requires i <= j < |fields| && |cells| == CellCount(fields) && AllZero(fields, cells, i)
    ensures CellOf(fields, j) < |cells| && IsZero(fields[j], cells[CellOf(fields, j)])
    decreases |fields| - i
  {
    CellInRange(fields, i);
    if i < j {
      AllZeroAt(fields, cells, i + 1, j);
    }
  }

  // ---- What one cell sends ----

  lemma SentBytes(f: Field, c: Cell, bytes: seq<byte>)
    requires EncCell(f, c) == Some(bytes)
    ensures Sent(f, c) == [] ==> bytes == []
    ensures Sent(f, c) != [] && !f.htype.Repeated? ==> EncSingle(f, Sent(f, c)[0]) == Some(bytes) && |Sent(f, c)| == 1
    ensures f.htype.Repeated? ==> EncArray(f, Sent(f, c)) == Some(bytes)
  {
  }

  lemma SilentCell(f': Field, f: Field, w: Cell, c: Cell)
    requires FitsField(f', f) && GoodField(f') && GoodField(f) && TypedCell(f, w)
    requires EncCell(f, w).Some? && Sent(f, w) == [] && Untouched(f', c)
    ensures ViewOf(f', f', c) == ViewOf(f', f, w)
  {
    hide DefaultValue, IsZeroValue;
    if f.htype.Repeated? {
      assert w.items == [];
      assert c.items == [];
    } else if Singular(f) {
      ZeroIsDefault(f', f, w.value);
    }
  }

  /** A field for which nothing is sent looks to the reader as it did to the writer. */
  lemma SilentField(t: Transfer, i: nat, k: nat, c: Cell)
    requires t.Valid() && i < |t.writer| && k < |t.reader| && t.At(k) == i
    requires EncCell(t.writer[i], t.CellAt(i)).Some? && Sent(t.writer[i], t.CellAt(i)) == []
    requires Untouched(t.reader[k], c)
    ensures ViewOf(t.reader[k], t.reader[k], c) == ViewOf(t.reader[k], t.writer[i], t.CellAt(i))
  {
    hide EncCell, Sent, Untouched, ViewOf, TypedCell, IsZero;
    WriterCellTyped(t, i);
    assert GoodField(t.reader[k]);
    SilentCell(t.reader[k], t.writer[i], t.CellAt(i), c);
  }

  lemma WriterCellTyped(t: Transfer, i: nat)
    requires t.Valid() && i < |t.writer|
    ensures TypedCell(t.writer[i], t.CellAt(i)) && GoodField(t.writer[i])
  {
    assert CellInRange'(t.writer, t.cells, i);
  }

  // ---- Fields the reader does not know ----

  lemma {:induction false} TaggedSkipped(fields: seq<Field>, f: Field, items: seq<Value>, bytes: seq<byte>,
                                         tail: seq<byte>, st: State)
    requires GoodFields(fields) && InShape(fields, st) && GoodField(f) && Find(fields, 0, f.tag).None?
    requires forall j :: 0 <= j < |items| ==> TypedValue(f, items[j])
    requires EncTagged(f, items) == Some(bytes) && |bytes| < 0x8000_0000_0000_0000
    ensures DecLoop(fields, bytes + tail, st)
            == if forall j :: 0 <= j < |items| ==> ValueSkippable(f, items[j])
               then DecLoop(fields, tail, st) else Fail
  {
    hide EncTag, DecLoop, SkipField, EncValue, ValueSkippable, TypedValue, WireType;
    if items == [] {
      assert bytes + tail == tail;
    } else {
      var first, others := EncValue(f, items[0]).value, EncTagged(f, items[1..]).value;
      assert bytes + tail == TagOf(f) + (first + (others + tail));
      LoopUnknown(fields, f.tag, WireType(f.ltype), first + (others + tail), st);
      ValueSkipped(f, items[0], first, others + tail);
      TaggedSkipped(fields, f, items[1..], others, tail, st);
      assert forall j :: 1 <= j < |items| ==> items[j] == items[1..][j - 1];
    }
  }

  lemma UnknownFieldSkipped(fields: seq<Field>, f: Field, c: Cell, bytes: seq<byte>, tail: seq<byte>, st: State)
    requires GoodFields(fields) && InShape(fields, st) && GoodField(f) && Find(fields, 0, f.tag).None?
    requires TypedCell(f, c) && EncCell(f, c) == Some(bytes) && |bytes| < 0x8000_0000_0000_0000
    ensures DecLoop(fields, bytes + tail, st) == if CellSkippable(f, c) then DecLoop(fields, tail, st) else Fail
  {
    hide EncTag, DecLoop, EncString, EncValue, ValueSkippable, TypedValue, IsZero;
    var items := Sent(f, c);
    SentBytes(f, c, bytes);
    if items == [] {
      assert bytes + tail == tail;
    } else if SentPacked(f) {
      var payload := EncPacked(f, items).value;
      assert bytes + tail == EncTag(f.tag, WT_STRING) + (EncString(payload) + tail);
      LoopUnknown(fields, f.tag, WT_STRING, EncString(payload) + tail, st);
      StringSkipped(payload, tail);
    } else {
      if !f.htype.Repeated? {
        SingleIsTagged(f, items[0], bytes);
        assert items == [items[0]];
      }
      TaggedSkipped(fields, f, items, bytes, tail, st);
    }
  }

  lemma SingleIsTagged(f: Field, v: Value, bytes: seq<byte>)
    requires EncSingle(f, v) == Some(bytes)
    ensures EncTagged(f, [v]) == Some(bytes)
  {
    assert EncTagged(f, [v][1..]) == Some([]);
    assert bytes + [] == bytes;
  }

  // ---- Values ----

  /** What is in a submessage's storage when the first value for it comes in. */
  ghost predicate FreshPrior(f: Field, prior: Value) {
    f.ltype.Submessage? && !f.htype.Repeated? ==> prior == DefaultValue(f)
  }

  ghost predicate SameContent(f': Field, f: Field, v': Value, v: Value) {
    ContentOf(f', f', v') == ContentOf(f', f, v)
  }

  lemma {:induction false} ValueDelivered(f': Field, f: Field, v: Value, bytes: seq<byte>, tail: seq<byte>,
                                          prior: Value)
    requires FitsField(f', f) && GoodField(f') && GoodField(f) && TypedValue(f, v)
    requires EncValue(f, v) == Some(bytes) && |bytes| < 0x8000_0000_0000_0000 && FreshPrior(f', prior)
    ensures var r := DecValue(f', bytes + tail, prior);
            if ValueArrives(f', f, v) then r.Ok? && r.rest == tail && SameContent(f', f, r.value, v) else r.Fail?
    decreases f', 1, 0
  {
    if f'.ltype.Submessage? {
      hide EncString, DecMessage, Seen, Typed, Fits, GoodFields, Arrives, EncFrom;
      var t := Transfer(f'.ltype.fields, f.ltype.fields, v.cells);
      var payload := EncStruct(t.writer, t.cells).value;
      StringValue(payload, tail);
      DefaultsFromLength(t.reader, 0);
      if |payload| < TWO32 {
        Deliver(t, payload);
      }
    } else {
      ScalarArrives(f', f, v, bytes, tail, prior);
      StoredLooksSame(f', f, v);
    }
  }

  // ---- A single value ----

  /** What DecField does for a field that is not an array. */
  lemma SingleField(fields: seq<Field>, k: nat, wt: nat, s: seq<byte>, st: State, prior: Value)
    requires k < |fields| && InShape(fields, st) && !fields[k].htype.Repeated?
    requires CellOf(fields, k) < |st.cells|
    requires var f, c := fields[k], st.cells[CellOf(fields, k)];
             prior == if f.htype.Oneof? && f.ltype.Submessage? then DefaultValue(f) else ValueOf(c)
    ensures var f, r := fields[k], DecValue(fields[k], s, prior);
            DecField(fields, k, wt, s, st)
            == if r.Fail? then Fail
               else Ok(st.(cells := st.cells[CellOf(fields, k) := NewCell(f, r.value)], pos := k,
                           seen := SeenAfter(fields, k, st.seen)), r.rest)
  {
    hide DecValue, DefaultValue;
  }

  function NewCell(f: Field, v: Value): Cell {
    match f.htype
    case Required => Plain(v)
    case Optional => if f.hasSize then Opt(true, v) else Plain(v)
    case Repeated => Many([v])
    case Oneof => Union(f.tag, v)
  }

  lemma NewCellReceived(t: Transfer, i: nat, k: nat, v': Value)
    requires t.Valid() && i < |t.writer| && k < |t.reader| && FitsField(t.reader[k], t.writer[i])
    requires !t.writer[i].htype.Repeated? && EncCell(t.writer[i], t.CellAt(i)).Some?
    requires Sent(t.writer[i], t.CellAt(i)) != []
    requires SameContent(t.reader[k], t.writer[i], v', Sent(t.writer[i], t.CellAt(i))[0])
    ensures Received(t, i, k, NewCell(t.reader[k], v'))
  {
    hide ContentOf, IsZero, EncSingle;
  }

  /** The state after field k took in the value v. */
  function After(fields: seq<Field>, k: nat, st: State, v: Value): (r: State)
    requires k < |fields| && InShape(fields, st)
    ensures InShape(fields, r)
  {
    CellInRange(fields, k);
    st.(cells := st.cells[CellOf(fields, k) := NewCell(fields[k], v)], pos := k, seen := SeenAfter(fields, k, st.seen))
  }

  lemma LoopSingle(fields: seq<Field>, k: nat, wt: nat, s: seq<byte>, st: State, prior: Value)
    requires GoodFields(fields) && k < |fields| && InShape(fields, st) && !fields[k].htype.Repeated? && wt < 8
    requires CellOf(fields, k) < |st.cells|
    requires var f, c := fields[k], st.cells[CellOf(fields, k)];
             prior == if f.htype.Oneof? && f.ltype.Submessage? then DefaultValue(f) else ValueOf(c)
    ensures var r := DecValue(fields[k], s, prior);
            DecLoop(fields, EncTag(fields[k].tag, wt) + s, st)
            == if r.Ok? then DecLoop(fields, r.rest, After(fields, k, st, r.value)) else Fail
  {
    hide EncTag, DecLoop, DecField, DecValue, DefaultValue, NewCell, SeenAfter, GoodFields;
    LoopKnown(fields, k, wt, s, st);
    SingleField(fields, k, wt, s, st, prior);
  }

  lemma AfterProgress(t: Transfer, i: nat, k: nat, st: State, v: Value)
    requires t.Valid() && i < |t.writer| && k < |t.reader| && t.At(k) == i
    requires forall l :: 0 <= l < |t.reader| && t.At(l) == i ==> l == k
    requires Progress(t, i, st) && Received(t, i, k, NewCell(t.reader[k], v))
    ensures Progress(t, i + 1, After(t.reader, k, st, v))
  {
    hide ViewOf, NewCell, CellsProgress, SeenProgress, Received, SeenAfter, Fits, GoodFields, Typed;
    CellsUpdated(t, i, k, NewCell(t.reader[k], v), st.cells);
    SeenUpdated(t, i, k, st.seen);
  }

  lemma {:induction false} SingleDelivered(t: Transfer, i: nat, k: nat, bytes: seq<byte>, tail: seq<byte>, st: State)
    returns (st': State)
    requires t.Valid() && i < |t.writer| && Find(t.reader, 0, t.writer[i].tag) == Some(k)
    requires !t.writer[i].htype.Repeated? && Sent(t.writer[i], t.CellAt(i)) != []
    requires EncCell(t.writer[i], t.CellAt(i)) == Some(bytes) && |bytes| < 0x8000_0000_0000_0000
    requires Progress(t, i, st)
    ensures CellArrives(t.reader[k], t.writer[i], t.CellAt(i)) ==>
              Progress(t, i + 1, st') && DecLoop(t.reader, bytes + tail, st) == DecLoop(t.reader, tail, st')
    ensures !CellArrives(t.reader[k], t.writer[i], t.CellAt(i)) ==> DecLoop(t.reader, bytes + tail, st) == Fail
    decreases t.reader, 20, 0
  {
    hide EncTag, DecLoop, DecValue, EncValue, EncCell, Sent, ValueArrives, TypedValue, SameContent, WireType,
         CellArrives;
    hide ViewOf, NewCell, DefaultCell, CellsProgress, SeenProgress, Fits, DefaultValue, After, GoodField, Typed;
    var f', f, w := t.reader[k], t.writer[i], t.CellAt(i);
    KnownField(t, i, k);
    WriterCellTyped(t, i);
    assert GoodField(f');
    SentBytes(f, w, bytes);
    SentTyped(f, w);
    SingleArrives(f', f, w);
    var v := Sent(f, w)[0];
    var vb := EncValue(f, v).value;
    assert bytes + tail == TagOf(f) + (vb + tail);
    CellInRange(t.reader, k);
    var prior := if f'.htype.Oneof? && f'.ltype.Submessage?
      then DefaultValue(f') else ValueOf(st.cells[CellOf(t.reader, k)]);
    UntouchedIsFresh(t, i, k, st.cells);
    assert FreshPrior(f', prior);
    LoopSingle(t.reader, k, WireType(f.ltype), vb + tail, st, prior);
    ValueDelivered(f', f, v, vb, tail, prior);
    st' := st;
    if ValueArrives(f', f, v) {
      var v' := DecValue(f', vb + tail, prior).value;
      NewCellReceived(t, i, k, v');
      AfterProgress(t, i, k, st, v');
      st' := After(t.reader, k, st, v');
    }
  }

  lemma SingleArrives(f': Field, f: Field, c: Cell)
    requires !f.htype.Repeated? && |Sent(f, c)| == 1
    ensures CellArrives(f', f, c) <==> ValueArrives(f', f, Sent(f, c)[0])
  {
  }

  lemma SentTyped(f: Field, c: Cell)
    requires TypedCell(f, c)
    ensures forall j :: 0 <= j < |Sent(f, c)| ==> TypedValue(f, Sent(f, c)[j])
  {
    hide TypedValue, IsZero;
  }

  lemma UntouchedIsFresh(t: Transfer, i: nat, k: nat, cells: seq<Cell>)
    requires t.Valid() && k < |t.reader| && t.At(k) == i && !t.reader[k].htype.Repeated?
    requires |cells| == CellCount(t.reader) && CellsProgress(t, i, cells) && CellOf(t.reader, k) < |cells|
    ensures t.reader[k].htype.Oneof? || ValueOf(cells[CellOf(t.reader, k)]) == DefaultValue(t.reader[k])
  {
    hide DefaultValue, Fits, GoodFields, Typed;
    assert FieldProgress(t, i, cells, k);
  }

  lemma SeenUpdated(t: Transfer, i: nat, k: nat, seen: set<nat>)
    requires t.Valid() && k < |t.reader| && SeenProgress(t, i, seen)
    requires forall l :: 0 <= l < |t.reader| && t.At(l) == i ==> l == k
    ensures SeenProgress(t, i + 1, SeenAfter(t.reader, k, seen))
  {
  }

  // ---- Arrays ----

  ghost predicate SameContents(f': Field, f: Field, xs: seq<Value>, items: seq<Value>, n: nat)
    requires n <= |items| && n <= |xs|
  {
    forall j :: 0 <= j < n ==> SameContent(f', f, xs[j], items[j])
  }

  /** The entries received so far and their count: the count of a fixed-count array is not its length. */
  ghost predicate Holds(f': Field, f: Field, items: seq<Value>, xs: seq<Value>, n: nat) {
    n <= |items| <= f'.arraySize
    && (if FixedCount(f') then |xs| == f'.arraySize == |items| else |xs| == n)
    && SameContents(f', f, xs, items, n)
  }

  lemma HoldsStored(f': Field, f: Field, items: seq<Value>, xs: seq<Value>, n: nat, v: Value)
    requires Holds(f', f, items, xs, n) && n < |items| && SameContent(f', f, v, items[n])
    ensures Holds(f', f, items, Store(xs, n, v), n + 1)
  {
    hide SameContent;
  }

  lemma HoldsAll(f': Field, f: Field, items: seq<Value>, xs: seq<Value>)
    requires Holds(f', f, items, xs, |items|)
    ensures |xs| == |items| && ContentsOf(f', f', xs) == ContentsOf(f', f, items)
  {
    assert forall j :: 0 <= j < |items| ==> SameContent(f', f, xs[j], items[j]);
  }

  lemma PackableNonempty(f: Field, v: Value)
    requires Packable(f.ltype) && EncValue(f, v).Some?
    ensures EncValue(f, v).value != []
  {
  }

  lemma {:induction false} PackedDelivered(f': Field, f: Field, items: seq<Value>, n: nat, bytes: seq<byte>,
                                           xs: seq<Value>)
    returns (xs': seq<Value>)
    requires FitsField(f', f) && GoodField(f') && GoodField(f) && Packable(f.ltype)
    requires forall j :: 0 <= j < |items| ==> TypedValue(f, items[j])
    requires Holds(f', f, items, xs, n) && EncPacked(f, items[n..]) == Some(bytes)
    ensures DecPacked(f', bytes, xs, n) == Ok((xs', |items|), []) && Holds(f', f, items, xs', |items|)
    decreases |items| - n
  {
    hide EncValue, DecValue, TypedValue, SameContent, Holds, Stored, ValueArrives;
    HoldsBound(f', f, items, xs, n);
    xs' := xs;
    if n < |items| {
      var v := items[n];
      assert items[n..][0] == v && items[n..][1..] == items[n + 1..];
      var first, others := EncValue(f, v).value, EncPacked(f, items[n + 1..]).value;
      assert bytes == first + others;
      PackableNonempty(f, v);
      ScalarArrives(f', f, v, first, others, Num(0));
      PackableArrives(f', f, v);
      StoredLooksSame(f', f, v);
      assert SameContent(f', f, Stored(f, v), v) by { StoredSame(f', f, v); }
      HoldsStored(f', f, items, xs, n, Stored(f, v));
      xs' := PackedDelivered(f', f, items, n + 1, others, Store(xs, n, Stored(f, v)));
    }
  }

  lemma StoredSame(f': Field, f: Field, v: Value)
    requires FitsField(f', f) && !f.ltype.Submessage? && TypedValue(f, v)
    ensures SameContent(f', f, Stored(f, v), v)
  {
    StoredLooksSame(f', f, v);
  }

  lemma PackableArrives(f': Field, f: Field, v: Value)
    requires Packable(f.ltype)
    ensures ValueArrives(f', f, v)
  {
  }

  lemma HoldsBound(f': Field, f: Field, items: seq<Value>, xs: seq<Value>, n: nat)
    requires Holds(f', f, items, xs, n)
    ensures n <= |items| <= f'.arraySize
    ensures |xs| >= n && (FixedCount(f') || |xs| == n)
  {
  }

  /** Field k is receiving an array: n entries so far. */
  ghost predicate Receiving(fields: seq<Field>, k: nat, f: Field, items: seq<Value>, n: nat, st: State)
    requires k < |fields|
  {
    InShape(fields, st) && CellOf(fields, k) < |st.cells| && st.cells[CellOf(fields, k)].Many?
    && Holds(fields[k], f, items, st.cells[CellOf(fields, k)].items, n)
    && (FixedCount(fields[k]) ==> st.fixedField == Some(k) && st.fixedSize == n)
  }

  /** The state after the array of field k became xs, with n entries. */
  function WithArray(fields: seq<Field>, k: nat, st: State, xs: seq<Value>, n: nat): (r: State)
    requires k < |fields| && InShape(fields, st)
    ensures InShape(fields, r)
  {
    CellInRange(fields, k);
    st.(cells := st.cells[CellOf(fields, k) := Many(xs)], pos := k,
        fixedField := if FixedCount(fields[k]) then Some(k) else st.fixedField,
        fixedSize := if FixedCount(fields[k]) then n else st.fixedSize)
  }

  lemma ArrayField(fields: seq<Field>, k: nat, f: Field, items: seq<Value>, n: nat, wt: nat, s: seq<byte>, st: State)
    requires k < |fields| && fields[k].htype.Repeated? && Receiving(fields, k, f, items, n, st)
    ensures var xs := st.cells[CellOf(fields, k)].items;
            var r := DecCell(fields[k], wt, s, Many(xs), n);
            DecField(fields, k, wt, s, st)
            == if r.Fail? then Fail
               else Ok(st.(cells := st.cells[CellOf(fields, k) := r.value.0], pos := k,
                           fixedSize := if FixedCount(fields[k]) then r.value.1 else st.fixedSize), r.rest)
  {
    hide DecCell, SameContents;
  }

  lemma EntryCell(f: Field, wt: nat, s: seq<byte>, xs: seq<Value>, n: nat)
    requires f.htype.Repeated? && !Packable(f.ltype) && n < f.arraySize
    ensures var r := DecValue(f, s, Num(0));
            DecCell(f, wt, s, Many(xs), n) == if r.Fail? then Fail else Ok((Many(Store(xs, n, r.value)), n + 1), r.rest)
  {
    hide DecValue;
  }

  lemma LoopEntry(fields: seq<Field>, k: nat, f: Field, items: seq<Value>, n: nat, wt: nat, s: seq<byte>, st: State)
    requires GoodFields(fields) && k < |fields| && fields[k].htype.Repeated? && !Packable(fields[k].ltype) && wt < 8
    requires Receiving(fields, k, f, items, n, st) && n < |items|
    ensures var xs := st.cells[CellOf(fields, k)].items;
            var r := DecValue(fields[k], s, Num(0));
            DecLoop(fields, EncTag(fields[k].tag, wt) + s, st)
            == if r.Ok? then DecLoop(fields, r.rest, WithArray(fields, k, st, Store(xs, n, r.value), n + 1)) else Fail
  {
    hide EncTag, DecLoop, DecField, DecValue, DecCell, GoodFields, Store, SameContents;
    var xs := st.cells[CellOf(fields, k)].items;
    LoopKnown(fields, k, wt, s, st);
    ArrayField(fields, k, f, items, n, wt, s, st);
    EntryCell(fields[k], wt, s, xs, n);
  }

  lemma ReceivingStored(fields: seq<Field>, k: nat, f: Field, items: seq<Value>, n: nat, st: State, v: Value)
    requires k < |fields| && Receiving(fields, k, f, items, n, st) && n < |items|
             && SameContent(fields[k], f, v, items[n])
    ensures var xs := st.cells[CellOf(fields, k)].items;
            Receiving(fields, k, f, items, n + 1, WithArray(fields, k, st, Store(xs, n, v), n + 1))
  {
    hide SameContent, Store, Holds;
    HoldsStored(fields[k], f, items, st.cells[CellOf(fields, k)].items, n, v);
  }

  /** The rest of an unpacked array, one record an entry. */
  lemma {:induction false} TaggedDelivered(fields: seq<Field>, k: nat, f: Field, items: seq<Value>, n: nat,
                                           bytes: seq<byte>, tail: seq<byte>, st: State)
    returns (xs: seq<Value>)
    requires GoodFields(fields) && k < |fields| && FitsField(fields[k], f) && GoodField(fields[k]) && GoodField(f)
    requires f.htype.Repeated? && !Packable(f.ltype)
    requires forall j :: 0 <= j < |items| ==> TypedValue(f, items[j])
    requires Receiving(fields, k, f, items, n, st)
    requires EncTagged(f, items[n..]) == Some(bytes) && |bytes| < 0x8000_0000_0000_0000
    ensures (forall j :: n <= j < |items| ==> ValueArrives(fields[k], f, items[j])) ==>
              Holds(fields[k], f, items, xs, |items|)
              && (n < |items| ==>
                    DecLoop(fields, bytes + tail, st)
                    == DecLoop(fields, tail, WithArray(fields, k, st, xs, |items|)))
              && (n == |items| ==> bytes + tail == tail && xs == st.cells[CellOf(fields, k)].items)
    ensures !(forall j :: n <= j < |items| ==> ValueArrives(fields[k], f, items[j])) ==>
              DecLoop(fields, bytes + tail, st) == Fail
    decreases fields, 20, |items| - n
  {
    hide EncTag, DecLoop, EncValue, DecValue, TypedValue, SameContent, Holds, ValueArrives, Store, GoodFields, WireType;
    hide FitsField, GoodField, InShape;
    var f' := fields[k];
    xs := st.cells[CellOf(fields, k)].items;
    HoldsBound(f', f, items, xs, n);
    if n == |items| {
      assert bytes + tail == tail;
    } else {
      var v := items[n];
      assert items[n..][0] == v && items[n..][1..] == items[n + 1..];
      var first, others := EncValue(f, v).value, EncTagged(f, items[n + 1..]).value;
      FitsFieldShape(f', f);
      assert bytes + tail == EncTag(f'.tag, WireType(f.ltype)) + (first + (others + tail));
      LoopEntry(fields, k, f, items, n, WireType(f.ltype), first + (others + tail), st);
      ValueDelivered(f', f, v, first, others + tail, Num(0));
      if ValueArrives(f', f, v) {
        var v' := DecValue(f', first + (others + tail), Num(0)).value;
        ReceivingStored(fields, k, f, items, n, st, v');
        var st1 := WithArray(fields, k, st, Store(xs, n, v'), n + 1);
        xs := TaggedDelivered(fields, k, f, items, n + 1, others, tail, st1);
        WithArrayTwice(fields, k, st, Store(st.cells[CellOf(fields, k)].items, n, v'), n + 1, xs, |items|);
      }
    }
  }

  lemma FitsFieldShape(f': Field, f: Field)
    requires FitsField(f', f)
    ensures f'.tag == f.tag && f'.htype == f.htype && f'.hasSize == f.hasSize && f'.arraySize == f.arraySize
    ensures Packable(f'.ltype) == Packable(f.ltype) && WireType(f'.ltype) == WireType(f.ltype)
    ensures f.htype.Repeated? ==> FreshPrior(f', Num(0))
  {
  }

  lemma WithArrayTwice(fields: seq<Field>, k: nat, st: State, xs: seq<Value>, n: nat, ys: seq<Value>, m: nat)
    requires k < |fields| && InShape(fields, st)
    ensures WithArray(fields, k, WithArray(fields, k, st, xs, n), ys, m) == WithArray(fields, k, st, ys, m)
    ensures n == m && xs == ys ==>
              WithArray(fields, k, WithArray(fields, k, st, xs, n), ys, m) == WithArray(fields, k, st, xs, n)
  {
  }

  /** The first record of an array starts the count of a fixed-count array. */
  lemma ArrayStart(t: Transfer, i: nat, k: nat, wt: nat, body: seq<byte>, st: State) returns (st0: State)
    requires t.Valid() && i < |t.writer| && Find(t.reader, 0, t.writer[i].tag) == Some(k) && wt < 8
    requires t.writer[i].htype.Repeated? && EncCell(t.writer[i], t.CellAt(i)).Some?
    requires Sent(t.writer[i], t.CellAt(i)) != [] && Progress(t, i, st)
    ensures Receiving(t.reader, k, t.writer[i], Sent(t.writer[i], t.CellAt(i)), 0, st0)
    ensures st0 == if FixedCount(t.reader[k]) then st.(fixedField := Some(k), fixedSize := 0) else st
    ensures DecLoop(t.reader, EncTag(t.reader[k].tag, wt) + body, st)
            == DecLoop(t.reader, EncTag(t.reader[k].tag, wt) + body, st0)
  {
    hide EncTag, DecLoop, DecCell, EncValue, SameContent, Typed;
    KnownField(t, i, k);
    CellInRange(t.reader, k);
    assert FieldProgress(t, i, st.cells, k);
    st0 := if FixedCount(t.reader[k]) then st.(fixedField := Some(k), fixedSize := 0) else st;
    LoopKnown(t.reader, k, wt, body, st);
    LoopKnown(t.reader, k, wt, body, st0);
    assert DecField(t.reader, k, wt, body, st) == DecField(t.reader, k, wt, body, st0);
  }

  lemma ArrayReceived(t: Transfer, i: nat, k: nat, st: State, xs: seq<Value>)
    requires t.Valid() && i < |t.writer| && Find(t.reader, 0, t.writer[i].tag) == Some(k)
    requires t.writer[i].htype.Repeated? && EncCell(t.writer[i], t.CellAt(i)).Some? && Progress(t, i, st)
    requires var items := Sent(t.writer[i], t.CellAt(i)); Holds(t.reader[k], t.writer[i], items, xs, |items|)
    ensures Progress(t, i + 1, WithArray(t.reader, k, st, xs, |Sent(t.writer[i], t.CellAt(i))|))
  {
    hide CellsProgress, SeenProgress, EncCell, Received, Holds, Sent, Fits, GoodFields, Typed;
    KnownField(t, i, k);
    FitsFieldShape(t.reader[k], t.writer[i]);
    CellInRange(t.reader, k);
    ArrayViews(t, i, k, xs);
    HoldsBound(t.reader[k], t.writer[i], Sent(t.writer[i], t.CellAt(i)), xs, |Sent(t.writer[i], t.CellAt(i))|);
    FixedArraySent(t.writer[i], t.CellAt(i));
    CellsUpdated(t, i, k, Many(xs), st.cells);
    SeenKept(t, i, k, st.seen);
  }

  lemma FixedArraySent(f: Field, c: Cell)
    requires f.htype.Repeated? && EncCell(f, c).Some?
    ensures FixedCount(f) ==> |Sent(f, c)| == f.arraySize
  {
  }

  lemma ArrayViews(t: Transfer, i: nat, k: nat, xs: seq<Value>)
    requires t.Valid() && i < |t.writer| && k < |t.reader| && FitsField(t.reader[k], t.writer[i])
    requires t.writer[i].htype.Repeated? && EncCell(t.writer[i], t.CellAt(i)).Some?
    requires var items := Sent(t.writer[i], t.CellAt(i)); Holds(t.reader[k], t.writer[i], items, xs, |items|)
    ensures Received(t, i, k, Many(xs))
  {
    hide Fits, GoodFields, Typed, Holds, EncArray;
    HoldsAll(t.reader[k], t.writer[i], Sent(t.writer[i], t.CellAt(i)), xs);
  }

  lemma SeenKept(t: Transfer, i: nat, k: nat, seen: set<nat>)
    requires t.Valid() && i < |t.writer| && SeenProgress(t, i, seen)
    requires k < |t.reader| && !t.reader[k].htype.Required?
    requires forall l :: 0 <= l < |t.reader| && t.At(l) == i ==> l == k
    ensures SeenProgress(t, i + 1, seen)
  {
  }

  lemma {:induction false} TaggedArrayDelivered(t: Transfer, i: nat, k: nat, bytes: seq<byte>, tail: seq<byte>,
                                                st: State)
    returns (st': State)
    requires t.Valid() && i < |t.writer| && Find(t.reader, 0, t.writer[i].tag) == Some(k)
    requires t.writer[i].htype.Repeated? && !Packable(t.writer[i].ltype) && Sent(t.writer[i], t.CellAt(i)) != []
    requires EncCell(t.writer[i], t.CellAt(i)) == Some(bytes) && |bytes| < 0x8000_0000_0000_0000
    requires Progress(t, i, st)
    ensures CellArrives(t.reader[k], t.writer[i], t.CellAt(i)) ==>
              Progress(t, i + 1, st') && DecLoop(t.reader, bytes + tail, st) == DecLoop(t.reader, tail, st')
    ensures !CellArrives(t.reader[k], t.writer[i], t.CellAt(i)) ==> DecLoop(t.reader, bytes + tail, st) == Fail
    decreases t.reader, 21, 0
  {
    hide EncTag, DecLoop, EncValue, EncCell, Sent, ValueArrives, TypedValue, WireType, Holds;
    hide CellsProgress, SeenProgress, Fits, Typed, WithArray, GoodField, FitsField;
    var f', f, items := t.reader[k], t.writer[i], Sent(t.writer[i], t.CellAt(i));
    KnownField(t, i, k);
    FitsFieldShape(f', f);
    WriterCellTyped(t, i);
    assert GoodField(f');
    SentBytes(f, t.CellAt(i), bytes);
    SentTyped(f, t.CellAt(i));
    var first := EncValue(f, items[0]).value;
    var others := EncTagged(f, items[1..]).value;
    var body := first + (others + tail);
    assert bytes + tail == EncTag(f'.tag, WireType(f.ltype)) + body;
    var st0 := ArrayStart(t, i, k, WireType(f.ltype), body, st);
    assert items[0..] == items;
    var xs := TaggedDelivered(t.reader, k, f, items, 0, bytes, tail, st0);
    st' := WithArray(t.reader, k, st, xs, |items|);
    TaggedArrives(f', f, t.CellAt(i));
    if CellArrives(f', f, t.CellAt(i)) {
      ArrayReceived(t, i, k, st, xs);
      WithArrayFromStart(t.reader, k, st, xs, |items|);
    }
  }

  lemma TaggedArrives(f': Field, f: Field, c: Cell)
    requires f.htype.Repeated? && !Packable(f.ltype)
    ensures CellArrives(f', f, c) <==> forall j :: 0 <= j < |Sent(f, c)| ==> ValueArrives(f', f, Sent(f, c)[j])
  {
  }

  lemma WithArrayFromStart(fields: seq<Field>, k: nat, st: State, xs: seq<Value>, n: nat)
    requires k < |fields| && InShape(fields, st)
    ensures var st0 := if FixedCount(fields[k]) then st.(fixedField := Some(k), fixedSize := 0) else st;
            WithArray(fields, k, st0, xs, n) == WithArray(fields, k, st, xs, n)
  {
  }

  lemma PackedCell(f: Field, payload: seq<byte>, tail: seq<byte>, xs: seq<Value>, xs': seq<Value>, n: nat)
    requires f.htype.Repeated? && Packable(f.ltype) && |payload| < 0x8000_0000_0000_0000
    requires DecPacked(f, payload, xs, 0) == Ok((xs', n), [])
    ensures DecCell(f, WT_STRING, EncString(payload) + tail, Many(xs), 0)
            == if |payload| < TWO32 then Ok((Many(xs'), n), tail) else Fail
  {
    hide DecPacked, EncString, DecString;
    StringValue(payload, tail);
    if |payload| >= TWO32 {
      StringTooLong(payload, tail);
    }
  }

  lemma StringLonger(b: seq<byte>)
    ensures |EncString(b)| > |b|
  {
  }

  lemma StringTooLong(b: seq<byte>, tail: seq<byte>)
    requires TWO32 <= |b| < 0x8000_0000_0000_0000
    ensures DecString(EncString(b) + tail) == Fail
  {
    StringValue(b, tail);
  }

  lemma LoopPacked(fields: seq<Field>, k: nat, f: Field, items: seq<Value>, payload: seq<byte>, tail: seq<byte>,
                   st: State, xs': seq<Value>)
    requires GoodFields(fields) && k < |fields| && fields[k].htype.Repeated? && Packable(fields[k].ltype)
    requires Receiving(fields, k, f, items, 0, st) && |payload| < 0x8000_0000_0000_0000
    requires DecPacked(fields[k], payload, st.cells[CellOf(fields, k)].items, 0) == Ok((xs', |items|), [])
    ensures DecLoop(fields, EncTag(fields[k].tag, WT_STRING) + (EncString(payload) + tail), st)
            == if |payload| < TWO32 then DecLoop(fields, tail, WithArray(fields, k, st, xs', |items|)) else Fail
  {
    hide EncTag, DecLoop, DecField, DecCell, DecPacked, GoodFields, EncString, SameContents;
    LoopKnown(fields, k, WT_STRING, EncString(payload) + tail, st);
    ArrayField(fields, k, f, items, 0, WT_STRING, EncString(payload) + tail, st);
    PackedCell(fields[k], payload, tail, st.cells[CellOf(fields, k)].items, xs', |items|);
  }

  lemma {:induction false} PackedArrayDelivered(t: Transfer, i: nat, k: nat, bytes: seq<byte>, tail: seq<byte>,
                                                st: State)
    returns (st': State)
    requires t.Valid() && i < |t.writer| && Find(t.reader, 0, t.writer[i].tag) == Some(k)
    requires SentPacked(t.writer[i]) && Sent(t.writer[i], t.CellAt(i)) != []
    requires EncCell(t.writer[i], t.CellAt(i)) == Some(bytes) && |bytes| < 0x8000_0000_0000_0000
    requires Progress(t, i, st)
    ensures CellArrives(t.reader[k], t.writer[i], t.CellAt(i)) ==>
              Progress(t, i + 1, st') && DecLoop(t.reader, bytes + tail, st) == DecLoop(t.reader, tail, st')
    ensures !CellArrives(t.reader[k], t.writer[i], t.CellAt(i)) ==> DecLoop(t.reader, bytes + tail, st) == Fail
  {
    hide EncTag, DecLoop, EncValue, EncCell, Sent, ValueArrives, TypedValue, Holds, DecPacked, EncPacked, EncString;
    hide CellsProgress, SeenProgress, Fits, Typed, WithArray, GoodField, FitsField;
    var f', f, items := t.reader[k], t.writer[i], Sent(t.writer[i], t.CellAt(i));
    KnownField(t, i, k);
    FitsFieldShape(f', f);
    WriterCellTyped(t, i);
    assert GoodField(f');
    SentBytes(f, t.CellAt(i), bytes);
    SentTyped(f, t.CellAt(i));
    var payload := EncPacked(f, items).value;
    assert bytes + tail == EncTag(f'.tag, WT_STRING) + (EncString(payload) + tail);
    StringLonger(payload);
    var st0 := ArrayStart(t, i, k, WT_STRING, EncString(payload) + tail, st);
    assert items[0..] == items;
    var xs := PackedDelivered(f', f, items, 0, payload, st0.cells[CellOf(t.reader, k)].items);
    LoopPacked(t.reader, k, f, items, payload, tail, st0, xs);
    st' := WithArray(t.reader, k, st, xs, |items|);
    ArrayReceived(t, i, k, st, xs);
    WithArrayFromStart(t.reader, k, st, xs, |items|);
  }

  // ---- One field, then all of them ----

  lemma {:induction false} FieldDelivered(t: Transfer, i: nat, bytes: seq<byte>, tail: seq<byte>, st: State)
    returns (st': State)
    requires t.Valid() && i < |t.writer| && EncCell(t.writer[i], t.CellAt(i)) == Some(bytes)
    requires |bytes| < 0x8000_0000_0000_0000 && Progress(t, i, st)
    ensures FieldArrives(t.reader, t.writer, t.cells, i) ==>
              Progress(t, i + 1, st') && DecLoop(t.reader, bytes + tail, st) == DecLoop(t.reader, tail, st')
    ensures !FieldArrives(t.reader, t.writer, t.cells, i) ==> DecLoop(t.reader, bytes + tail, st) == Fail
    decreases t.reader, 22, 0
  {
    hide DecLoop, EncCell, Sent, CellArrives, CellSkippable, Typed, Fits, CellsProgress, SeenProgress, TypedCell,
         GoodField, ViewOf;
    var known, c := Find(t.reader, 0, t.writer[i].tag), t.CellAt(i);
    WriterCellTyped(t, i);
    st' := st;
    if known.None? {
      UnknownFieldSkipped(t.reader, t.writer[i], c, bytes, tail, st);
      UnknownProgress(t, i, st);
    } else if Sent(t.writer[i], c) == [] {
      SentBytes(t.writer[i], c, bytes);
      assert bytes + tail == tail;
      SilentArrives(t.reader[known.value], t.writer[i], c);
      SilentProgress(t, i, known.value, st);
    } else if !t.writer[i].htype.Repeated? {
      st' := SingleDelivered(t, i, known.value, bytes, tail, st);
    } else if Packable(t.writer[i].ltype) {
      st' := PackedArrayDelivered(t, i, known.value, bytes, tail, st);
    } else {
      st' := TaggedArrayDelivered(t, i, known.value, bytes, tail, st);
    }
  }

  lemma SilentArrives(f': Field, f: Field, c: Cell)
    requires Sent(f, c) == []
    ensures CellArrives(f', f, c)
  {
  }

  lemma UnknownProgress(t: Transfer, i: nat, st: State)
    requires t.Valid() && i < |t.writer| && Find(t.reader, 0, t.writer[i].tag).None? && Progress(t, i, st)
    ensures Progress(t, i + 1, st)
  {
    UnknownField(t, i);
    CellsUnchanged(t, i, st.cells);
  }

  lemma SilentProgress(t: Transfer, i: nat, k: nat, st: State)
    requires t.Valid() && i < |t.writer| && Find(t.reader, 0, t.writer[i].tag) == Some(k) && Progress(t, i, st)
    requires EncCell(t.writer[i], t.CellAt(i)).Some? && Sent(t.writer[i], t.CellAt(i)) == []
    ensures Progress(t, i + 1, st)
  {
    hide ViewOf, Typed, SeenProgress;
    KnownField(t, i, k);
    CellInRange(t.reader, k);
    assert FieldProgress(t, i, st.cells, k);
    SilentField(t, i, k, st.cells[CellOf(t.reader, k)]);
    CellsUnchanged(t, i, st.cells);
    SilentNotRequired(t.writer[i], t.CellAt(i));
    SeenKept(t, i, k, st.seen);
  }

  lemma SilentNotRequired(f: Field, c: Cell)
    requires EncCell(f, c).Some? && Sent(f, c) == []
    ensures !f.htype.Required?
  {
  }

  ghost predicate ArrivesFrom(t: Transfer, i: nat)
    requires t.Valid() && i <= |t.writer|
  {
    forall j :: i <= j < |t.writer| ==> FieldArrives(t.reader, t.writer, t.cells, j)
  }

  lemma LoopEnd(fields: seq<Field>, st: State)
    requires InShape(fields, st)
    ensures DecLoop(fields, [], st) == Ok(st, [])
  {
  }

  lemma EncFromStep(t: Transfer, i: nat, bytes: seq<byte>) returns (first: seq<byte>, others: seq<byte>)
    requires t.Valid() && i < |t.writer| && EncFrom(t.writer, t.cells, i) == Some(bytes)
    ensures EncCell(t.writer[i], t.CellAt(i)) == Some(first) && EncFrom(t.writer, t.cells, i + 1) == Some(others)
    ensures bytes == first + others
  {
    hide EncCell;
    first := EncCell(t.writer[i], t.CellAt(i)).value;
    others := EncFrom(t.writer, t.cells, i + 1).value;
  }

  /** The loop of pb_decode_noinit over what the loop of pb_encode writes from field i on. */
  lemma {:induction false} FieldsDelivered(t: Transfer, i: nat, bytes: seq<byte>, st: State)
    requires t.Valid() && i <= |t.writer| && EncFrom(t.writer, t.cells, i) == Some(bytes)
    requires |bytes| < 0x8000_0000_0000_0000 && Progress(t, i, st)
    ensures var r := DecLoop(t.reader, bytes, st);
            if ArrivesFrom(t, i) then r.Ok? && r.rest == [] && Progress(t, |t.writer|, r.value) else r.Fail?
    decreases t.reader, 30, |t.writer| - i
  {
    hide EncCell, FieldArrives, DecLoop, CellsProgress, SeenProgress, GoodFields, Fits, Typed;
    if i < |t.writer| {
      var first, others := EncFromStep(t, i, bytes);
      var st' := FieldDelivered(t, i, first, others, st);
      if FieldArrives(t.reader, t.writer, t.cells, i) {
        FieldsDelivered(t, i + 1, others, st');
      }
    } else {
      LoopEnd(t.reader, st);
    }
  }

  /**
   * The delivery theorem. The reader takes the writer's encoding in, to its last byte, exactly
   * when every string leaves room for its terminator and every length fits 32 bits; and then it
   * sees every field it knows, at every depth, as the writer had it.
   */
  lemma {:induction false} Deliver(t: Transfer, bytes: seq<byte>)
    requires t.Valid() && EncStruct(t.writer, t.cells) == Some(bytes) && |bytes| < 0x8000_0000_0000_0000
    ensures |Defaults(t.reader)| == CellCount(t.reader)
    ensures var r := DecMessage(t.reader, bytes, Defaults(t.reader));
            if Arrives(t.reader, t.writer, t.cells)
            then r.Ok? && r.rest == [] && Seen(t.reader, t.reader, r.value) == Seen(t.reader, t.writer, t.cells)
            else r.Fail?
    decreases t.reader, 40, 0
  {
    hide DecLoop, Seen, RequiredMet, Typed, Fits, GoodFields, FieldArrives, CellsProgress, SeenProgress;
    ProgressStart(t);
    FieldsDelivered(t, 0, bytes, Start(Defaults(t.reader)));
    ArrivesAll(t);
    var r := DecLoop(t.reader, bytes, Start(Defaults(t.reader)));
    if r.Ok? {
      ProgressEnd(t, r.value);
    }
    MessageOfLoop(t.reader, bytes, Defaults(t.reader));
  }

  lemma ArrivesAll(t: Transfer)
    requires t.Valid()
    ensures ArrivesFrom(t, 0) <==> Arrives(t.reader, t.writer, t.cells)
  {
    hide FieldArrives;
  }

  lemma MessageOfLoop(fields: seq<Field>, s: seq<byte>, cells: seq<Cell>)
    requires |cells| == CellCount(fields)
    ensures var r := DecLoop(fields, s, Start(cells));
            DecMessage(fields, s, cells)
            == if r.Ok? && FixedDone(fields, r.value) && RequiredMet(fields, r.value.seen)
               then Ok(r.value.cells, r.rest) else Fail
  {
    hide DecLoop, RequiredMet, FixedDone;
  }

  // ---- Consequences ----

  lemma {:induction false} FieldFitsItself(f: Field)
    requires GoodField(f)
    ensures FitsField(f, f)
    decreases f
  {
    if f.ltype.Submessage? {
      FitsItself(f.ltype.fields);
    }
  }

  lemma {:induction false} FitsItself(fields: seq<Field>)
    requires GoodFields(fields)
    ensures Fits(fields, fields)
    decreases fields
  {
    forall k | 0 <= k < |fields|
      ensures Find(fields, 0, fields[k].tag) == Some(k) && FitsField(fields[k], fields[k])
    {
      FindUnique(fields, 0, k);
      FieldFitsItself(fields[k]);
    }
  }

  /**
   * Round trip. Decoding what was encoded by the same descriptor succeeds, consumes every byte
   * and gives back the same message, for exactly the messages that can arrive.
   */
  lemma DecodeInvertsEncode(fields: seq<Field>, cells: seq<Cell>, bytes: seq<byte>)
    requires GoodFields(fields) && |cells| == CellCount(fields) && Typed(fields, cells)
    requires EncStruct(fields, cells) == Some(bytes) && |bytes| < 0x8000_0000_0000_0000
    ensures var r := Decode(fields, bytes);
            if Arrives(fields, fields, cells)
            then r.Ok? && r.rest == [] && Seen(fields, fields, r.value) == Seen(fields, fields, cells)
            else r.Fail?
  {
    hide DecMessage, EncFrom, Seen, Typed, Fits, GoodFields, Arrives;
    FitsItself(fields);
    Deliver(Transfer(fields, fields, cells), bytes);
  }

  /**
   * Forward compatibility. A reader that knows only some of the fields, at any depth, skips the
   * others by precisely their own length and gets the rest unchanged.
   */
  lemma UnknownFieldsAreSkipped(reader: seq<Field>, writer: seq<Field>, cells: seq<Cell>, bytes: seq<byte>)
    requires GoodFields(reader) && GoodFields(writer) && Fits(reader, writer)
    requires |cells| == CellCount(writer) && Typed(writer, cells) && Arrives(reader, writer, cells)
    requires EncStruct(writer, cells) == Some(bytes) && |bytes| < 0x8000_0000_0000_0000
    ensures var r := Decode(reader, bytes);
            r.Ok? && r.rest == [] && Seen(reader, reader, r.value) == Seen(reader, writer, cells)
  {
    hide DecMessage, EncFrom, Seen, Typed, Fits, GoodFields, Arrives;
    Deliver(Transfer(reader, writer, cells), bytes);
  }

  /** For a reader whose fields are fields of the writer, what it sees is the writer's view of them. */
  lemma SubListSees(reader: seq<Field>, writer: seq<Field>, cells: seq<Cell>, k: nat)
    requires |cells| == CellCount(writer) && k < |reader|
    requires var i := Find(writer, 0, reader[k].tag); i.Some? && reader[k].ltype == writer[i.value].ltype
    requires DistinctTags(writer)
    ensures Seen(reader, writer, cells)[k] == Seen(writer, writer, cells)[Find(writer, 0, reader[k].tag).value]
  {
    var i := Find(writer, 0, reader[k].tag).value;
    FindUnique(writer, 0, i);
    CellInRange(writer, i);
    SameTypeSameView(reader[k], writer[i], cells[CellOf(writer, i)]);
  }

  lemma SameTypeSameContent(f': Field, f: Field, v: Value)
    requires f'.ltype == f.ltype
    ensures ContentOf(f', f, v) == ContentOf(f, f, v)
  {
  }

  lemma SameTypeSameView(f': Field, f: Field, c: Cell)
    requires f'.ltype == f.ltype
    ensures ViewOf(f', f, c) == ViewOf(f, f, c)
  {
    forall v: Value ensures ContentOf(f', f, v) == ContentOf(f, f, v) {
      SameTypeSameContent(f', f, v);
    }
  }

  /** A message whose string fills its buffer is encoded but cannot be decoded again. */
  lemma FullStringDoesNotArrive()
    ensures var f := Field(1, Required, Text, false, false, 2, 0, None);
            var cells := [Plain(Raw([65, 66]))];
            EncStruct([f], cells) == Some([0x0A, 2, 65, 66]) && Decode([f], [0x0A, 2, 65, 66]) == Fail
  {
    var f := Field(1, Required, Text, false, false, 2, 0, None);
    var cells := [Plain(Raw([65, 66]))];
    assert UpToNul([65, 66][1..]) == [66] by { assert [65, 66][1..] == [66]; assert UpToNul([66][1..]) == []; }
    assert UpToNul([65, 66]) == [65, 66];
    assert EncVarint(2) == [2];
    assert EncSingle(f, Raw([65, 66])) == Some([0x0A] + ([2] + [65, 66]));
    assert [0x0A] + ([2] + [65, 66]) == [0x0A, 2, 65, 66];
    assert EncFrom([f], cells, 1) == Some([]);
    assert [0x0A, 2, 65, 66] + [] == [0x0A, 2, 65, 66];
    var s: seq<byte> := [0x0A, 2, 65, 66];
    assert s[1..] == [2, 65, 66];
    assert DecTextValue(f, s[1..]) == Fail;
    DefaultsFromLength([f], 0);
    assert Find([f], 0, 1) == Some(0);
  }
}
