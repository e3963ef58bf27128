/**
 * pb_decode on the output of pb_encode. A writer encodes a struct by its descriptor; a reader
 * decodes the bytes by a descriptor of its own that knows all or some of the writer's fields.
 */
module Delivery {
  import opened Bytes
  import opened Parsing
  import opened Varint
  import opened Descriptor
  import opened Encoding
  import opened Decoding
  import opened Contents

  datatype Transfer = Transfer(reader: seq<Field>, writer: seq<Field>, cells: seq<Cell>) {

    ghost predicate Valid() {
      GoodFields(reader) && GoodFields(writer) && Fits(reader, writer)
      && |cells| == CellCount(writer) && Typed(writer, cells)
    }

    /** Where the writer has the reader's field k. */
    function At(k: nat): (i: nat)
      requires k < |reader| && Find(writer, 0, reader[k].tag).Some?
      ensures i < |writer| && writer[i].tag == reader[k].tag
    {
      Find(writer, 0, reader[k].tag).value
    }

    /** The writer's storage cell for its field i. */
    function CellAt(i: nat): Cell
      requires |cells| == CellCount(writer) && i < |writer|
    {
      CellInRange(writer, i);
      cells[CellOf(writer, i)]
    }
  }

  // ---- Finding fields ----

  lemma {:induction false} SearchHits(fields: seq<Field>, tag: nat, p: nat, n: nat, k: nat)
    requires DistinctTags(fields) && p < |fields| && k < |fields| && fields[k].tag == tag
    requires p <= k < p + n || k + |fields| < p + n
    ensures Search(fields, tag, p, n) == Some(k)
    decreases n
  {
    if fields[p].tag != tag {
      SearchHits(fields, tag, if p + 1 == |fields| then 0 else p + 1, n - 1, k);
    }
  }

  /** With distinct tags it does not matter where the iterator was left. */
  lemma FindUnique(fields: seq<Field>, start: nat, k: nat)
    requires DistinctTags(fields) && start < |fields| && k < |fields|
    ensures Find(fields, start, fields[k].tag) == Some(k)
  {
    SearchHits(fields, fields[k].tag, start, |fields|, k);
  }

  lemma FindAnywhere(fields: seq<Field>, start: nat, tag: nat)
    requires DistinctTags(fields) && start < |fields|
    ensures Find(fields, start, tag) == Find(fields, 0, tag)
  {
    if Find(fields, start, tag).Some? {
      FindUnique(fields, 0, Find(fields, start, tag).value);
    } else if Find(fields, 0, tag).Some? {
      FindUnique(fields, start, Find(fields, 0, tag).value);
    }
  }

  // ---- One record of the loop ----

  lemma TagRead(tag: nat, wt: nat, body: seq<byte>)
    requires 1 <= tag < 0x2000_0000 && wt < 8
    ensures DecVarint32(EncTag(tag, wt) + body) == Ok(8 * tag + wt, body)
    ensures (8 * tag + wt) / 8 == tag && (8 * tag + wt) % 8 == wt
    ensures EncTag(tag, wt) + body != []
  {
    hide DecVarint32, EncVarint;
    Varint32Cases(8 * tag + wt, body);
  }

  lemma LoopKnown(fields: seq<Field>, k: nat, wt: nat, body: seq<byte>, st: State)
    requires GoodFields(fields) && k < |fields| && InShape(fields, st) && wt < 8
    ensures DecLoop(fields, EncTag(fields[k].tag, wt) + body, st)
            == (var r := DecField(fields, k, wt, body, st);
                if r.Ok? then DecLoop(fields, r.rest, r.value) else Fail)
  {
    hide DecField, EncTag, DecVarint32, Find;
    TagRead(fields[k].tag, wt, body);
    FindUnique(fields, st.pos, k);
  }

  lemma LoopUnknown(fields: seq<Field>, tag: nat, wt: nat, body: seq<byte>, st: State)
    requires GoodFields(fields) && InShape(fields, st) && wt < 8 && 1 <= tag < 0x2000_0000
    requires Find(fields, 0, tag).None?
    ensures DecLoop(fields, EncTag(tag, wt) + body, st)
            == (var r := SkipField(wt, body); if r.Ok? then DecLoop(fields, r.rest, st) else Fail)
  {
    hide DecField, EncTag, DecVarint32, Find, SkipField;
    TagRead(tag, wt, body);
    if fields != [] {
      FindAnywhere(fields, st.pos, tag);
    }
  }

  // ---- The state of the reader after the writer's first fields ----

  ghost predicate Untouched(f: Field, c: Cell) {
    if f.htype.Oneof? then c.Union? && c.which != f.tag else c == DefaultCell(f)
  }

  ghost predicate FieldProgress(t: Transfer, i: nat, cells: seq<Cell>, k: nat)
    requires t.Valid() && k < |t.reader| && |cells| == CellCount(t.reader)
  {
    CellInRange(t.reader, k);
    var f := t.reader[k];
    var c := cells[CellOf(t.reader, k)];
    if t.At(k) < i then ViewOf(f, f, c) == ViewOf(f, t.writer[t.At(k)], t.CellAt(t.At(k)))
    else Untouched(f, c)
  }

  ghost predicate SeenProgress(t: Transfer, i: nat, seen: set<nat>)
    requires t.Valid()
  {
    forall k | 0 <= k < |t.reader| && t.reader[k].htype.Required? && t.At(k) < i ::
      RequiredBefore(t.reader, k) < MAX_REQUIRED ==> RequiredBefore(t.reader, k) in seen
  }

  ghost predicate CellsProgress(t: Transfer, i: nat, cells: seq<Cell>)
    requires t.Valid() && |cells| == CellCount(t.reader)
  {
    forall k :: 0 <= k < |t.reader| ==> FieldProgress(t, i, cells, k)
  }

  ghost predicate Progress(t: Transfer, i: nat, st: State)
    requires t.Valid()
  {
    InShape(t.reader, st)
    && CellsProgress(t, i, st.cells)
    && SeenProgress(t, i, st.seen)
    && FixedDone(t.reader, st)
    && (st.fixedField.Some? ==> t.At(st.fixedField.value) < i)
  }

  lemma FieldProgressStart(t: Transfer, k: nat)
    requires t.Valid() && k < |t.reader|
    ensures |Defaults(t.reader)| == CellCount(t.reader)
    ensures FieldProgress(t, 0, Defaults(t.reader), k)
  {
    hide CellOf, CellCount, Find, ContentOf, ContentsOf, Defaults;
    DefaultsAt(t.reader, k);
    assert GoodField(t.reader[k]);
  }

  lemma ProgressStart(t: Transfer)
    requires t.Valid()
    ensures |Defaults(t.reader)| == CellCount(t.reader)
    ensures Progress(t, 0, Start(Defaults(t.reader)))
  {
    DefaultsFromLength(t.reader, 0);
    forall k | 0 <= k < |t.reader| ensures FieldProgress(t, 0, Defaults(t.reader), k) {
      FieldProgressStart(t, k);
    }
  }

  /** At the end the reader sees what the writer had, and has met every required field. */
  lemma ProgressEnd(t: Transfer, st: State)
    requires t.Valid() && Progress(t, |t.writer|, st)
    ensures Seen(t.reader, t.reader, st.cells) == Seen(t.reader, t.writer, t.cells)
    ensures RequiredMet(t.reader, st.seen) && FixedDone(t.reader, st)
  {
    forall k | 0 <= k < |t.reader|
      ensures SeenField(t.reader[k], t.reader, st.cells) == SeenField(t.reader[k], t.writer, t.cells)
    {
      FindUnique(t.reader, 0, k);
      assert FieldProgress(t, |t.writer|, st.cells, k);
    }
    forall n | 0 <= n < RequiredBefore(t.reader, |t.reader|) && n < MAX_REQUIRED ensures n in st.seen {
      var k := RequiredAt(t.reader, |t.reader|, n);
      assert t.At(k) < |t.writer|;
    }
  }

  // ---- Updating one cell ----

  /** Writer's field i, when the reader knows it: At(k) == i. */
  lemma KnownField(t: Transfer, i: nat, k: nat)
    requires t.Valid() && i < |t.writer| && Find(t.reader, 0, t.writer[i].tag) == Some(k)
    ensures t.At(k) == i && FitsField(t.reader[k], t.writer[i])
    ensures forall l :: 0 <= l < |t.reader| && t.At(l) == i ==> l == k
  {
    FindUnique(t.writer, 0, i);
  }

  lemma UnknownField(t: Transfer, i: nat)
    requires t.Valid() && i < |t.writer| && Find(t.reader, 0, t.writer[i].tag).None?
    ensures forall l :: 0 <= l < |t.reader| ==> t.At(l) != i
  {
    forall l | 0 <= l < |t.reader| ensures t.At(l) != i {
      FindUnique(t.reader, 0, l);
    }
  }

  /** The cell that receiving field k may leave behind. */
  ghost predicate Received(t: Transfer, i: nat, k: nat, c: Cell)
    requires t.Valid() && i < |t.writer| && k < |t.reader|
  {
    ViewOf(t.reader[k], t.reader[k], c) == ViewOf(t.reader[k], t.writer[i], t.CellAt(i))
    && (t.reader[k].htype.Oneof? ==>
          c.Union? && c.which == t.reader[k].tag && t.CellAt(i).Union? && t.CellAt(i).which == t.reader[k].tag)
  }

  lemma OtherFieldKept(t: Transfer, i: nat, k: nat, c: Cell, cells: seq<Cell>, l: nat)
    requires t.Valid() && i < |t.writer| && k < |t.reader| && t.At(k) == i && Received(t, i, k, c)
    requires |cells| == CellCount(t.reader) && CellOf(t.reader, k) < |cells|
    requires l < |t.reader| && l != k && FieldProgress(t, i, cells, l)
    ensures FieldProgress(t, i + 1, cells[CellOf(t.reader, k) := c], l)
  {
    hide ContentOf, ContentsOf, CellOf, CellCount, Find, DefaultCell;
    FindUnique(t.reader, 0, k);
    FindUnique(t.reader, 0, l);
    assert t.At(l) != i;
    CellInRange(t.reader, l);
    if CellOf(t.reader, l) == CellOf(t.reader, k) {
      SharedCell(t.reader, if k < l then k else l, if k < l then l else k);
      assert t.reader[l].tag != t.reader[k].tag;
      assert CellOf(t.writer, t.At(l)) == CellOf(t.writer, i);
    }
  }

  lemma CellsUpdated(t: Transfer, i: nat, k: nat, c: Cell, cells: seq<Cell>)
    requires t.Valid() && i < |t.writer| && k < |t.reader| && t.At(k) == i && Received(t, i, k, c)
    requires |cells| == CellCount(t.reader) && CellsProgress(t, i, cells)
    ensures CellOf(t.reader, k) < |cells|
    ensures CellsProgress(t, i + 1, cells[CellOf(t.reader, k) := c])
  {
    CellInRange(t.reader, k);
    var j, cells' := i + 1, cells[CellOf(t.reader, k) := c];
    forall l | 0 <= l < |t.reader| ensures FieldProgress(t, j, cells', l) {
      assert FieldProgress(t, i, cells, l);
      if l != k {
        OtherFieldKept(t, i, k, c, cells, l);
      }
    }
  }

  /** Nothing was sent for field i: the cells already say so. */
  lemma CellsUnchanged(t: Transfer, i: nat, cells: seq<Cell>)
    requires t.Valid() && i < |t.writer| && |cells| == CellCount(t.reader) && CellsProgress(t, i, cells)
    requires var k := Find(t.reader, 0, t.writer[i].tag);
             k.Some? ==> CellOf(t.reader, k.value) < |cells|
                         && ViewOf(t.reader[k.value], t.reader[k.value], cells[CellOf(t.reader, k.value)])
                            == ViewOf(t.reader[k.value], t.writer[i], t.CellAt(i))
    ensures CellsProgress(t, i + 1, cells)
  {
    var j := i + 1;
    forall l | 0 <= l < |t.reader| ensures FieldProgress(t, j, cells, l) {
      assert FieldProgress(t, i, cells, l);
      if t.At(l) == i {
        FindUnique(t.reader, 0, l);
      }
    }
  }
}
