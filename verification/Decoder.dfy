/** pb_decode.c: the decoder on streams, proved to compute what module Decoding says. */
module Decoder {
  import opened Bytes
  import opened Parsing
  import opened Varint
  import opened Words
  import opened Descriptor
  import opened Decoding
  import opened InputStream
  import FieldIteration
  import Bits
  import SeenWords

  /** pb_decode_tag */
  method DecodeTag(s: IStream) returns (ok: bool, wireType: nat, tag: nat, eof: bool)
    requires s.Valid()
    modifies s
    ensures s.Valid() && s.End() == old(s.End())
    ensures var p := DecVarint32(old(s.Rest()));
            if p.Fail? then !ok && (eof <==> old(s.bytesLeft) == 0)
            else if p.value == 0 then !ok && eof && s.Rest() == p.rest
            else ok && tag == p.value / 8 && wireType == p.value % 8 && s.Rest() == p.rest
  {
    hide DecVarint32;
    wireType, tag := 0, 0;
    var temp;
    ok, temp, eof := DecodeVarint32(s);
    if !ok {
      return;
    }
    if temp == 0 {
      return false, wireType, tag, true;
    }
    tag, wireType := temp / 8, temp % 8;
  }

  /** pb_dec_bytes, pb_dec_string, pb_dec_fixed_length_bytes */
  method DecodeRaw(s: IStream, f: Field) returns (ok: bool, v: Value)
    requires s.Valid() && (f.ltype.Blob? || f.ltype.Text? || f.ltype.FixedLengthBlob?)
    modifies s
    ensures s.Valid() && s.End() == old(s.End())
    ensures Went(DecValue(f, old(s.Rest()), Num(0)), ok, v, s.Rest())
  {
    hide DecVarint32, Take;
    v := Num(0);
    var size, eof, bytes;
    ok, size, eof := DecodeVarint32(s);
    if !ok {
      return;
    }
    if f.ltype.Blob? && size + f.ltype.header > f.dataSize {
      return false, v;
    }
    if f.ltype.Text? && size + 1 > f.dataSize {
      return false, v;
    }
    if f.ltype.FixedLengthBlob? {
      if size == 0 {
        return true, Raw(Zeros(f.dataSize));
      }
      if size != f.dataSize {
        return false, v;
      }
    }
    ok, bytes := s.Read(size);
    v := Raw(bytes);
  }

  /** pb_dec_varint, pb_dec_uvarint, pb_dec_svarint, pb_dec_fixed32, pb_dec_fixed64 */
  method DecodeNumber(s: IStream, f: Field) returns (ok: bool, v: Value)
    requires s.Valid() && Packable(f.ltype)
    modifies s
    ensures s.Valid() && s.End() == old(s.End())
    ensures Went(DecValue(f, old(s.Rest()), Num(0)), ok, v, s.Rest())
  {
    hide DecVarint, Take, Signed, UnZigZag, FromLittleEndian, Modulus, IntSize;
    v := Num(0);
    var value, bytes;
    if f.ltype.Fixed32? || f.ltype.Fixed64? {
      ok, bytes := s.Read(if f.ltype.Fixed32? then 4 else 8);
      v := Num(FromLittleEndian(bytes));
      return;
    }
    ok, value := DecodeVarint(s);
    if !ok || !IntSize(f.dataSize) {
      return false, v;
    }
    var svalue, clamped;
    if f.ltype.UVarint? {
      svalue := value;
      clamped := value % Modulus(f.dataSize);
    } else {
      if f.ltype.SVarint? {
        svalue := UnZigZag(value);
      } else if f.dataSize == 8 {
        svalue := Signed(value, TWO64);
      } else {
        svalue := Signed(value, TWO32);
      }
      clamped := Signed(svalue, Modulus(f.dataSize));
    }
    if clamped != svalue {
      return false, v;
    }
    v := Num(clamped);
  }

  lemma PriorIgnored(f: Field, s: seq<byte>, a: Value, b: Value)
    requires !f.ltype.Submessage? || f.htype.Repeated?
    ensures DecValue(f, s, a) == DecValue(f, s, b)
  {
  }

  /** pb_dec_submessage */
  method DecodeSubmessage(s: IStream, f: Field, prior: Value) returns (ok: bool, v: Value)
    requires s.Valid() && f.ltype.Submessage? && Listed(f.ltype.fields)
    modifies s
    ensures s.Valid() && s.End() <= old(s.End()) && (ok ==> s.End() == old(s.End()))
    ensures Went(DecValue(f, old(s.Rest()), prior), ok, v, s.Rest())
    decreases s.bytesLeft, 0
  {
    hide DecString, DecMessage;
    v := Num(0);
    ghost var p := DecString(s.Rest());
    var sub, cells;
    ok, sub := MakeSubstream(s);
    if !ok {
      return;
    }
    ghost var payload := sub.Rest();
    if f.htype.Repeated? {
      ok, cells := DecodeNoinit(sub, f.ltype.fields, CellsOf(f.ltype.fields, Num(0)));
    } else {
      ok, cells := DecodeNoinit(sub, f.ltype.fields, CellsOf(f.ltype.fields, prior));
    }
    var closed := CloseSubstream(s, sub);
    v := Struct(cells);
  }

  /** The field decoders, by type. */
  method DecodeValue(s: IStream, f: Field, prior: Value) returns (ok: bool, v: Value)
    requires s.Valid() && ListedType(f)
    modifies s
    ensures s.Valid() && s.End() <= old(s.End()) && (ok ==> s.End() == old(s.End()))
    ensures Went(DecValue(f, old(s.Rest()), prior), ok, v, s.Rest())
    decreases s.bytesLeft, 1
  {
    hide DecValue;
    if f.ltype.Submessage? {
      ok, v := DecodeSubmessage(s, f, prior);
    } else {
      PriorIgnored(f, s.Rest(), prior, Num(0));
      if Packable(f.ltype) {
        ok, v := DecodeNumber(s, f);
      } else {
        ok, v := DecodeRaw(s, f);
      }
    }
  }

  /** The loop over a packed array in decode_static_field. */
  method DecodePacked(sub: IStream, f: Field, entries: seq<Value>, count: nat)
    returns (ok: bool, items: seq<Value>, size: nat)
    requires sub.Valid() && Packable(f.ltype)
    modifies sub
    ensures sub.Valid() && sub.End() == old(sub.End())
    ensures Went(DecPacked(f, old(sub.Rest()), entries, count), ok, (items, size), sub.Rest())
  {
    hide DecValue, Store;
    items, size := entries, count;
    while sub.bytesLeft > 0 && size < f.arraySize
      invariant sub.Valid() && sub.End() == old(sub.End()) && 0 <= size
      invariant DecPacked(f, old(sub.Rest()), entries, count) == DecPacked(f, sub.Rest(), items, size)
      decreases sub.bytesLeft
    {
      var v;
      ok, v := DecodeNumber(sub, f);
      if !ok {
        return;
      }
      items := Store(items, size, v);
      size := size + 1;
    }
    assert sub.bytesLeft == 0 ==> sub.Rest() == [];
    ok := true;
  }

  /** decode_static_field; size stands for *pSize of an array */
  method DecodeStaticField(s: IStream, wireType: nat, f: Field, c: Cell, count: nat)
    returns (ok: bool, cell: Cell, size: nat)
    requires s.Valid() && ListedType(f)
    modifies s
    ensures s.Valid() && s.End() <= old(s.End()) && (ok ==> s.End() == old(s.End()))
    ensures Went(DecCell(f, wireType, old(s.Rest()), c, count), ok, (cell, size), s.Rest())
    decreases s.bytesLeft, 2
  {
    hide DecValue, DecPacked, DecString, Store, DefaultValue;
    cell, size := c, count;
    var v;
    match f.htype {
      case Required =>
        ok, v := DecodeValue(s, f, ValueOf(c));
        cell := Plain(v);
      case Optional =>
        ok, v := DecodeValue(s, f, ValueOf(c));
        cell := if f.hasSize then Opt(true, v) else Plain(v);
      case Repeated =>
        if wireType == WT_STRING && Packable(f.ltype) {
          ok, cell, size := DecodePackedField(s, f, c, count);
        } else {
          if count >= f.arraySize {
            return false, cell, size;
          }
          ok, v := DecodeValue(s, f, Num(0));
          cell, size := Many(Store(ItemsOf(c), count, v)), count + 1;
        }
      case Oneof =>
        ok, v := DecodeValue(s, f, if f.ltype.Submessage? then DefaultValue(f) else ValueOf(c));
        cell := Union(f.tag, v);
    }
  }

  method DecodePackedField(s: IStream, f: Field, c: Cell, count: nat) returns (ok: bool, cell: Cell, size: nat)
    requires s.Valid() && f.htype.Repeated? && Packable(f.ltype)
    modifies s
    ensures s.Valid() && s.End() <= old(s.End()) && (ok ==> s.End() == old(s.End()))
    ensures Went(DecCell(f, WT_STRING, old(s.Rest()), c, count), ok, (cell, size), s.Rest())
  {
    hide DecPacked, DecString;
    cell, size := c, count;
    var sub, items;
    ok, sub := MakeSubstream(s);
    if !ok {
      return;
    }
    ghost var payload := sub.Rest();
    ok, items, size := DecodePacked(sub, f, ItemsOf(c), count);
    if sub.bytesLeft != 0 {
      return false, cell, size;
    }
    var closed := CloseSubstream(s, sub);
    cell := Many(items);
  }

  /** Walking the iterator to the end of the list counts the required fields. */
  method CountRequired(iter: FieldIteration.FieldIter) returns (count: nat)
    requires iter.Valid()
    modifies iter
    ensures iter.Valid() && count == RequiredBefore(iter.start, |iter.start|)
  {
    count := iter.requiredIndex;
    var lastRequired := iter.pos < |iter.start| && iter.start[iter.pos].htype.Required?;
    ghost var at := iter.pos;
    var more := iter.Next();
    while more
      invariant iter.Valid()
      invariant iter.start != [] ==> 0 <= at < |iter.start| && count == RequiredBefore(iter.start, at)
                                     && lastRequired == iter.start[at].htype.Required?
      invariant iter.start == [] ==> count == 0 && !lastRequired && !more
      invariant if more then iter.pos == at + 1 < |iter.start| else iter.start == [] || at + 1 == |iter.start|
      decreases if more then |iter.start| - iter.pos else 0
    {
      count := iter.requiredIndex;
      lastRequired := iter.start[iter.pos].htype.Required?;
      at := iter.pos;
      more := iter.Next();
    }
    if lastRequired {
      count := count + 1;
    }
  }

  /** The check of the required fields at the end of pb_decode_noinit. */
  method CheckRequired(iter: FieldIteration.FieldIter, words: array<nat>, ghost seen: set<nat>) returns (complete: bool)
    requires iter.Valid() && words.Length == 2 && SeenWords.Holds(words[..], seen)
    requires forall n :: n in seen ==> n < RequiredBefore(iter.start, |iter.start|)
    modifies iter
    ensures complete <==> RequiredMet(iter.start, seen)
  {
    hide SeenWords.Holds, Bits.BitAt;
    ghost var w := words[..];
    var count := CountRequired(iter);
    if count > MAX_REQUIRED {
      count := MAX_REQUIRED;
    }
    assert forall n :: n in seen ==> n < 64 by { SeenBelow64(w, seen); }
    SeenWords.FullIffAllSeen(w, seen, count);
    var i := 0;
    while i < count / 32
      invariant 0 <= i <= count / 32
      invariant forall j :: 0 <= j < i ==> words[j] == SeenWords.ALLBITS
    {
      if words[i] != SeenWords.ALLBITS {
        assert w[i] != SeenWords.ALLBITS;
        return false;
      }
      i := i + 1;
    }
    if count % 32 != 0 {
      if words[count / 32] != Bits.Shr(SeenWords.ALLBITS, 32 - count % 32) {
        return false;
      }
    }
    return true;
  }

  /** The checks at the end of pb_decode_noinit: the last fixed-count array and the required fields. */
  method CheckComplete(iter: FieldIteration.FieldIter, words: array<nat>, fixedField: Option<nat>, fixedSize: nat,
                       ghost st: State)
    returns (complete: bool)
    requires Notes(iter, words, st) && fixedField == st.fixedField && fixedSize == st.fixedSize
    modifies iter
    ensures complete <==> FixedDone(iter.start, st) && RequiredMet(iter.start, st.seen)
  {
    hide SeenWords.Holds, RequiredMet;
    if fixedField.Some? && fixedSize != iter.start[fixedField.value].arraySize {
      return false;
    }
    complete := CheckRequired(iter, words, st.seen);
  }

  lemma SeenBelow64(words: seq<nat>, seen: set<nat>)
    requires SeenWords.Holds(words, seen)
    ensures forall n :: n in seen ==> n < 64
  {
  }

  /** What the loop of pb_decode_noinit does with the current record, once its tag is read. */
  lemma LoopStep(fields: seq<Field>, s: seq<byte>, st: State, t: nat, rest: seq<byte>)
    requires InShape(fields, st) && DecVarint32(s) == Ok(t, rest)
    ensures s != []
    ensures t == 0 ==> DecLoop(fields, s, st) == Ok(st, rest)
    ensures t != 0 ==>
      DecLoop(fields, s, st) ==
        var found := Find(fields, st.pos, t / 8);
        if found.Some? then
          var d := DecField(fields, found.value, t % 8, rest, st);
          if d.Ok? then DecLoop(fields, d.rest, d.value) else Fail
        else if fields == [] && t / 8 == 0 then Fail
        else
          var d := SkipField(t % 8, rest);
          if d.Ok? then DecLoop(fields, d.rest, st) else Fail
  {
    hide DecVarint32, Find, DecField, SkipField;
    assert DecVarint32([]) == Fail by { EmptyVarint(); }
  }

  lemma EmptyVarint()
    ensures DecVarint32([]) == Fail
  {
  }

  lemma LoopFails(fields: seq<Field>, s: seq<byte>, st: State)
    requires InShape(fields, st) && s != [] && DecVarint32(s) == Fail
    ensures DecLoop(fields, s, st) == Fail
  {
  }

  /** The words and variables of pb_decode_noinit hold the state st, as far as fields are noted. */
  ghost predicate Notes(iter: FieldIteration.FieldIter, words: array<nat>, st: State)
    reads iter, words
  {
    iter.Valid() && words.Length == 2 && SeenWords.Holds(words[..], st.seen)
    && InShape(iter.start, st)
    && forall n :: n in st.seen ==> n < RequiredBefore(iter.start, |iter.start|)
  }

  lemma RequiredNoted(fields: seq<Field>, p: nat)
    requires p < |fields| && fields[p].htype.Required?
    ensures RequiredBefore(fields, p) < RequiredBefore(fields, |fields|)
  {
    RequiredBeforeMonotone(fields, p + 1, |fields|);
  }

  /** fields_seen[required_field_index >> 5] |= 1 << (required_field_index & 31) */
  method NoteRequired(iter: FieldIteration.FieldIter, words: array<nat>, ghost st: State)
    requires Notes(iter, words, st) && iter.pos < |iter.start|
    modifies words
    ensures Notes(iter, words, st.(seen := SeenAfter(iter.start, iter.pos, st.seen)))
  {
    hide SeenWords.Holds, SeenWords.Note;
    var f := iter.start[iter.pos];
    if f.htype.Required? && iter.requiredIndex < MAX_REQUIRED {
      var n := iter.requiredIndex;
      ghost var w := words[..];
      SeenWords.NoteAdds(w, st.seen, n);
      RequiredNoted(iter.start, iter.pos);
      words[n / 32] := Or(words[n / 32], Shl(1, n % 32, TWO32));
      assert words[..] == SeenWords.Note(w, n) by { NoteIsUpdate(w, n); }
    }
  }

  lemma NoteIsUpdate(words: seq<nat>, n: nat)
    requires |words| == 2 && n < 64
    ensures SeenWords.Note(words, n) == words[n / 32 := Or(words[n / 32], Shl(1, n % 32, TWO32))]
  {
  }

  /** DecField in terms of the cell that is decoded into. */
  lemma FieldByCell(fields: seq<Field>, p: nat, wt: nat, s: seq<byte>, st: State)
    requires p < |fields| && InShape(fields, st)
    ensures CellOf(fields, p) < |st.cells|
    ensures var f, c := fields[p], st.cells[CellOf(fields, p)];
            var fixed := FixedCount(f);
            var restart := fixed && st.fixedField != Some(p);
            var size := if restart then 0 else if fixed then st.fixedSize else |ItemsOf(c)|;
            var r := DecCell(f, wt, s, c, size);
            DecField(fields, p, wt, s, st)
            == if (restart && !FixedDone(fields, st)) || r.Fail? then Fail
               else Ok(State(st.cells[CellOf(fields, p) := r.value.0], p, SeenAfter(fields, p, st.seen),
                             if fixed then Some(p) else st.fixedField,
                             if fixed then r.value.1 else st.fixedSize), r.rest)
  {
    hide DecCell;
    CellInRange(fields, p);
  }

  /** A record for the field that the iterator found. */
  method DecodeKnown(s: IStream, iter: FieldIteration.FieldIter, words: array<nat>, wireType: nat,
                     cells: seq<Cell>, fixedField: Option<nat>, fixedSize: nat, ghost st: State)
    returns (ok: bool, dest: seq<Cell>, fixedField': Option<nat>, fixedSize': nat)
    requires s.Valid() && Listed(iter.start) && iter.pos < |iter.start| && Notes(iter, words, st)
    requires cells == st.cells && fixedField == st.fixedField && fixedSize == st.fixedSize
    modifies s, words
    ensures s.Valid() && s.End() <= old(s.End()) && (ok ==> s.End() == old(s.End()))
    ensures iter.Valid() && words.Length == 2
    ensures var d := DecField(iter.start, iter.pos, wireType, old(s.Rest()), st);
            if d.Fail? then !ok
            else ok && s.Rest() == d.rest && Notes(iter, words, d.value)
                 && d.value == State(dest, iter.pos, d.value.seen, fixedField', fixedSize')
    decreases s.bytesLeft, 3
  {
    hide DecCell, SeenWords.Holds, SeenAfter;
    dest, fixedField', fixedSize' := cells, fixedField, fixedSize;
    var p := iter.pos;
    var f := iter.start[p];
    FieldByCell(iter.start, p, wireType, s.Rest(), st);
    var count := |ItemsOf(cells[iter.cell])|;
    if FixedCount(f) {
      if fixedField != Some(p) {
        if fixedField.Some? && fixedSize != iter.start[fixedField.value].arraySize {
          return false, dest, fixedField', fixedSize';
        }
        fixedField', fixedSize' := Some(p), 0;
      }
      count := fixedSize';
    }
    NoteRequired(iter, words, st);
    var cell, size;
    ok, cell, size := DecodeStaticField(s, wireType, f, cells[iter.cell], count);
    if !ok {
      return;
    }
    dest := cells[iter.cell := cell];
    if FixedCount(f) {
      fixedSize' := size;
    }
  }

  /** pb_decode_noinit */
  method DecodeNoinit(s: IStream, fields: seq<Field>, cells: seq<Cell>) returns (ok: bool, dest: seq<Cell>)
    requires s.Valid() && Listed(fields) && |cells| == CellCount(fields)
    modifies s
    ensures s.Valid() && s.End() <= old(s.End()) && (ok ==> s.End() == old(s.End()))
    ensures Went(DecMessage(fields, old(s.Rest()), cells), ok, dest, s.Rest())
    decreases s.bytesLeft, 4
  {
    hide DecVarint32, SkipField, DecField, DecLoop, Find, FixedDone, RequiredMet, SeenWords.Holds;
    ghost var all := s.Rest();
    ghost var st := Start(cells);
    dest := cells;
    var words := new nat[2];
    words[0], words[1] := 0, 0;
    assert words[..] == [0, 0];
    SeenWords.NothingSeen();
    var iter := new FieldIteration.FieldIter(fields);
    var fixedField: Option<nat>, fixedSize := None, 0;
    var ended := false;
    while s.bytesLeft > 0 && !ended
      invariant s.Valid() && s.End() == old(s.End()) && iter.start == fields
      invariant Notes(iter, words, st) && st == State(dest, iter.pos, st.seen, fixedField, fixedSize)
      invariant !ended ==> DecLoop(fields, all, Start(cells)) == DecLoop(fields, s.Rest(), st)
      invariant ended ==> DecLoop(fields, all, Start(cells)) == Ok(st, s.Rest())
      decreases s.bytesLeft, !ended
    {
      ghost var rest := s.Rest();
      var wireType, tag, eof;
      ok, wireType, tag, eof := DecodeTag(s);
      if DecVarint32(rest).Fail? {
        LoopFails(fields, rest, st);
      } else {
        LoopStep(fields, rest, st, DecVarint32(rest).value, DecVarint32(rest).rest);
      }
      if !ok {
        if eof {
          ended := true;
          continue;
        }
        return;
      }
      ghost var from := iter.pos;
      var found := iter.Find(tag);
      if !found {
        NothingIn(fields, from, tag);
        ok := SkipFieldBytes(s, wireType);
        if !ok {
          return;
        }
        continue;
      }
      if fields == [] {
        // the terminator was found: it has no data size to decode into
        NothingIn(fields, from, tag);
        return false, dest;
      }
      ghost var st1 := st;
      ok, dest, fixedField, fixedSize := DecodeKnown(s, iter, words, wireType, dest, fixedField, fixedSize,
                                                     st1.(pos := iter.pos));
      FieldIgnoresPos(fields, iter.pos, wireType, DecVarint32(rest).rest, st1);
      if !ok {
        return;
      }
      st := DecField(fields, iter.pos, wireType, DecVarint32(rest).rest, st1).value;
    }
    if !ended {
      LoopAtEnd(fields, st);
    }
    ok := CheckComplete(iter, words, fixedField, fixedSize, st);
  }

  lemma LoopAtEnd(fields: seq<Field>, st: State)
    requires InShape(fields, st)
    ensures DecLoop(fields, [], st) == Ok(st, [])
  {
  }

  lemma NothingIn(fields: seq<Field>, p: nat, tag: nat)
    requires fields == [] || p < |fields|
    ensures fields == [] ==> Find(fields, p, tag) == None
  {
  }

  lemma FieldIgnoresPos(fields: seq<Field>, p: nat, wt: nat, s: seq<byte>, st: State)
    requires p < |fields| && InShape(fields, st)
    ensures DecField(fields, p, wt, s, st.(pos := p)) == DecField(fields, p, wt, s, st)
  {
    hide DecCell;
  }

  /** pb_decode */
  method Decode(s: IStream, fields: seq<Field>) returns (ok: bool, dest: seq<Cell>)
    requires s.Valid() && Listed(fields)
    modifies s
    ensures s.Valid()
    ensures Went(Decoding.Decode(fields, old(s.Rest())), ok, dest, s.Rest())
  {
    hide DecMessage;
    DefaultsFromLength(fields, 0);
    ok, dest := DecodeNoinit(s, fields, Defaults(fields));
  }
}
