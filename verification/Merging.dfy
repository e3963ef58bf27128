/** Decoding a concatenation is decoding its parts one after the other into the same struct. */
module Merging {
  import opened Bytes
  import opened Parsing
  import opened Varint
  import opened Words
  import opened Descriptor
  import opened Decoding
  import opened Contents
  import opened Delivery

  // ---- A decoder that succeeds does not look at what comes after ----

  lemma {:induction false} Varint32Ahead(s: seq<byte>, bitpos: nat, result: nat, t: seq<byte>)
    requires bitpos < 256 && result < TWO32
    ensures var r := DecVarint32From(s, bitpos, result);
            r.Ok? ==> DecVarint32From(s + t, bitpos, result) == Ok(r.value, r.rest + t)
    decreases |s|
  {
    hide OrGroup, MayFollow, NextBitpos, Group;
    if s != [] {
      assert (s + t)[0] == s[0] && (s + t)[1..] == s[1..] + t;
      if s[0] >= 128 {
        var next := if bitpos >= 32 then result else OrGroup(result, Group(s[0]), bitpos, TWO32);
        Varint32Ahead(s[1..], NextBitpos(bitpos), next, t);
      }
    }
  }

  lemma Length32Ahead(s: seq<byte>, t: seq<byte>)
    ensures var r := DecVarint32(s); r.Ok? ==> DecVarint32(s + t) == Ok(r.value, r.rest + t)
  {
    hide DecVarint32From;
    if s != [] {
      assert (s + t)[0] == s[0] && (s + t)[1..] == s[1..] + t;
      Varint32Ahead(s[1..], 7, Group(s[0]), t);
    }
  }

  lemma {:induction false} Varint64Ahead(s: seq<byte>, k: nat, result: nat, t: seq<byte>)
    ensures var r := DecVarintFrom(s, k, result);
            r.Ok? ==> DecVarintFrom(s + t, k, result) == Ok(r.value, r.rest + t)
    decreases |s|
  {
    hide OrGroup, Group;
    if s != [] {
      assert (s + t)[0] == s[0] && (s + t)[1..] == s[1..] + t;
      if s[0] >= 128 && 7 * k < 64 {
        Varint64Ahead(s[1..], k + 1, OrGroup(result, Group(s[0]), 7 * k, TWO64), t);
      }
    }
  }

  lemma {:induction false} SkipVarintAhead(s: seq<byte>, t: seq<byte>)
    ensures var r := SkipVarint(s); r.Ok? ==> SkipVarint(s + t) == Ok((), r.rest + t)
  {
    if s != [] {
      assert (s + t)[0] == s[0] && (s + t)[1..] == s[1..] + t;
      if s[0] >= 128 {
        SkipVarintAhead(s[1..], t);
      }
    }
  }

  lemma TakeAhead(s: seq<byte>, n: nat, t: seq<byte>)
    ensures var r := Take(s, n); r.Ok? ==> Take(s + t, n) == Ok(r.value, r.rest + t)
  {
    if |s| >= n {
      assert (s + t)[..n] == s[..n] && (s + t)[n..] == s[n..] + t;
    }
  }

  lemma StringAhead(s: seq<byte>, t: seq<byte>)
    ensures var r := DecString(s); r.Ok? ==> DecString(s + t) == Ok(r.value, r.rest + t)
  {
    Length32Ahead(s, t);
    var len := DecVarint32(s);
    if len.Ok? {
      TakeAhead(len.rest, len.value, t);
    }
  }

  lemma SkipAhead(wt: nat, s: seq<byte>, t: seq<byte>)
    ensures var r := SkipField(wt, s); r.Ok? ==> SkipField(wt, s + t) == Ok((), r.rest + t)
  {
    hide SkipVarint, DecString, Take;
    SkipVarintAhead(s, t);
    TakeAhead(s, 8, t);
    TakeAhead(s, 4, t);
    StringAhead(s, t);
  }

  lemma NumberAhead(f: Field, s: seq<byte>, t: seq<byte>)
    ensures var r := DecVarintValue(f, s); r.Ok? ==> DecVarintValue(f, s + t) == Ok(r.value, r.rest + t)
    ensures var r := DecUVarintValue(f, s); r.Ok? ==> DecUVarintValue(f, s + t) == Ok(r.value, r.rest + t)
    ensures var r := DecSVarintValue(f, s); r.Ok? ==> DecSVarintValue(f, s + t) == Ok(r.value, r.rest + t)
  {
    hide DecVarintFrom, Signed, UnZigZag, Modulus, IntSize;
    Varint64Ahead(s, 0, 0, t);
  }

  lemma RawAhead(f: Field, header: nat, s: seq<byte>, t: seq<byte>)
    ensures var r := DecBlobValue(f, header, s); r.Ok? ==> DecBlobValue(f, header, s + t) == Ok(r.value, r.rest + t)
    ensures var r := DecTextValue(f, s); r.Ok? ==> DecTextValue(f, s + t) == Ok(r.value, r.rest + t)
    ensures var r := DecFixedLengthValue(f, s); r.Ok? ==> DecFixedLengthValue(f, s + t) == Ok(r.value, r.rest + t)
  {
    hide DecVarint32, Take;
    Length32Ahead(s, t);
    var len := DecVarint32(s);
    if len.Ok? {
      TakeAhead(len.rest, len.value, t);
    }
  }

  lemma ScalarAhead(f: Field, s: seq<byte>, prior: Value, t: seq<byte>)
    requires !f.ltype.Submessage?
    ensures var r := DecValue(f, s, prior); r.Ok? ==> DecValue(f, s + t, prior) == Ok(r.value, r.rest + t)
  {
    hide DecVarintValue, DecUVarintValue, DecSVarintValue, DecBlobValue, DecTextValue, DecFixedLengthValue, Take;
    NumberAhead(f, s, t);
    RawAhead(f, if f.ltype.Blob? then f.ltype.header else 0, s, t);
    TakeAhead(s, 4, t);
    TakeAhead(s, 8, t);
  }

  lemma ValueAhead(f: Field, s: seq<byte>, prior: Value, t: seq<byte>)
    ensures var r := DecValue(f, s, prior); r.Ok? ==> DecValue(f, s + t, prior) == Ok(r.value, r.rest + t)
  {
    hide DecMessage, DecString;
    if f.ltype.Submessage? {
      StringAhead(s, t);
    } else {
      ScalarAhead(f, s, prior, t);
    }
  }

  lemma CellAhead(f: Field, wt: nat, s: seq<byte>, c: Cell, size: nat, t: seq<byte>)
    ensures var r := DecCell(f, wt, s, c, size); r.Ok? ==> DecCell(f, wt, s + t, c, size) == Ok(r.value, r.rest + t)
  {
    hide DecValue, DecPacked, DecString, DefaultValue;
    StringAhead(s, t);
    ValueAhead(f, s, ValueOf(c), t);
    ValueAhead(f, s, Num(0), t);
    ValueAhead(f, s, if f.ltype.Submessage? then DefaultValue(f) else ValueOf(c), t);
  }

  lemma FieldAhead(fields: seq<Field>, p: nat, wt: nat, s: seq<byte>, st: State, t: seq<byte>)
    requires p < |fields| && InShape(fields, st)
    ensures var r := DecField(fields, p, wt, s, st);
            r.Ok? ==> DecField(fields, p, wt, s + t, st) == Ok(r.value, r.rest + t)
  {
    hide DecCell;
    CellInRange(fields, p);
    var c := st.cells[CellOf(fields, p)];
    CellAhead(fields[p], wt, s, c, st.fixedSize, t);
    CellAhead(fields[p], wt, s, c, 0, t);
    CellAhead(fields[p], wt, s, c, |ItemsOf(c)|, t);
  }

  // ---- The loop ----

  /** The loop reads every byte as records: no error, and no zero tag that ends the message early. */
  ghost predicate RunsOut(fields: seq<Field>, s: seq<byte>, st: State)
    requires InShape(fields, st)
    decreases |s|
  {
    s == []
    || (var r := DecVarint32(s);
        r.Ok? && r.value != 0
        && (var found := Find(fields, st.pos, r.value / 8);
            if found.Some? then
              var d := DecField(fields, found.value, r.value % 8, r.rest, st);
              d.Ok? && RunsOut(fields, d.rest, d.value)
            else
              !(fields == [] && r.value / 8 == 0)
              && (var d := SkipField(r.value % 8, r.rest); d.Ok? && RunsOut(fields, d.rest, st))))
  }

  lemma {:induction false} LoopConcatenates(fields: seq<Field>, a: seq<byte>, b: seq<byte>, st: State)
    requires InShape(fields, st) && RunsOut(fields, a, st)
    ensures var r := DecLoop(fields, a, st);
            r.Ok? && r.rest == [] && DecLoop(fields, a + b, st) == DecLoop(fields, b, r.value)
    decreases |a|
  {
    hide DecField, SkipField, Find, DecVarint32;
    if a == [] {
      assert a + b == b;
    } else {
      Length32Ahead(a, b);
      var r := DecVarint32(a);
      var found := Find(fields, st.pos, r.value / 8);
      if found.Some? {
        FieldAhead(fields, found.value, r.value % 8, r.rest, st, b);
        var d := DecField(fields, found.value, r.value % 8, r.rest, st);
        LoopConcatenates(fields, d.rest, b, d.value);
      } else {
        SkipAhead(r.value % 8, r.rest, b);
        var d := SkipField(r.value % 8, r.rest);
        LoopConcatenates(fields, d.rest, b, st);
      }
    }
  }

  // ---- Where the iterator stands does not matter ----

  ghost predicate NoBookkeeping(fields: seq<Field>) {
    forall i :: 0 <= i < |fields| ==> !fields[i].htype.Required? && !FixedCount(fields[i])
  }

  /** The same struct, and nothing noted about required or fixed-count fields. */
  ghost predicate SameStruct(fields: seq<Field>, a: State, b: State) {
    InShape(fields, a) && InShape(fields, b) && a.cells == b.cells
    && a.fixedField.None? && b.fixedField.None?
  }

  lemma FieldAnywhere(fields: seq<Field>, p: nat, wt: nat, s: seq<byte>, a: State, b: State)
    requires p < |fields| && NoBookkeeping(fields) && SameStruct(fields, a, b)
    ensures var x, y := DecField(fields, p, wt, s, a), DecField(fields, p, wt, s, b);
            if x.Ok? then y.Ok? && y.rest == x.rest && SameStruct(fields, x.value, y.value) else y.Fail?
  {
    hide DecCell;
    CellInRange(fields, p);
  }

  lemma {:induction false} LoopAnywhere(fields: seq<Field>, s: seq<byte>, a: State, b: State)
    requires DistinctTags(fields) && NoBookkeeping(fields) && SameStruct(fields, a, b)
    ensures var x, y := DecLoop(fields, s, a), DecLoop(fields, s, b);
            if x.Ok? then y.Ok? && y.rest == x.rest && SameStruct(fields, x.value, y.value) else y.Fail?
    decreases |s|
  {
    hide DecField, SkipField, Find, DecVarint32;
    if s != [] && DecVarint32(s).Ok? {
      var r := DecVarint32(s);
      if fields != [] {
        FindAnywhere(fields, a.pos, r.value / 8);
        FindAnywhere(fields, b.pos, r.value / 8);
      } else {
        assert Find([], a.pos, r.value / 8) == Find([], b.pos, r.value / 8) by {
          NothingToFind(a.pos, b.pos, r.value / 8);
        }
      }
      var found := Find(fields, a.pos, r.value / 8);
      if found.Some? {
        FieldAnywhere(fields, found.value, r.value % 8, r.rest, a, b);
        var x := DecField(fields, found.value, r.value % 8, r.rest, a);
        var y := DecField(fields, found.value, r.value % 8, r.rest, b);
        if x.Ok? {
          LoopAnywhere(fields, x.rest, x.value, y.value);
        }
      } else {
        var d := SkipField(r.value % 8, r.rest);
        if d.Ok? {
          LoopAnywhere(fields, d.rest, a, b);
        }
      }
    }
  }

  lemma NothingToFind(p: nat, q: nat, tag: nat)
    ensures Find([], p, tag) == None && Find([], q, tag) == None
  {
  }

  lemma NothingRequired(fields: seq<Field>, n: nat)
    requires NoBookkeeping(fields) && n <= |fields|
    ensures RequiredBefore(fields, n) == 0
  {
  }

  lemma MessageWithoutBookkeeping(fields: seq<Field>, s: seq<byte>, cells: seq<Cell>)
    requires NoBookkeeping(fields) && DistinctTags(fields) && |cells| == CellCount(fields)
    ensures var r := DecLoop(fields, s, Start(cells));
            DecMessage(fields, s, cells) == if r.Ok? then Ok(r.value.cells, r.rest) else Fail
  {
    hide DecLoop;
    NothingRequired(fields, |fields|);
    assert SameStruct(fields, Start(cells), Start(cells));
    LoopAnywhere(fields, s, Start(cells), Start(cells));
  }

  /**
   * Concatenation is merge: with no required or fixed-count fields, decoding a and then b over
   * the same struct is decoding a + b, when a is read to its end.
   */
  lemma ConcatenationIsMerge(fields: seq<Field>, a: seq<byte>, b: seq<byte>, cells: seq<Cell>)
    requires DistinctTags(fields) && NoBookkeeping(fields) && |cells| == CellCount(fields)
    requires InShape(fields, Start(cells)) && RunsOut(fields, a, Start(cells))
    ensures var first := DecMessage(fields, a, cells);
            first.Ok? && first.rest == []
            && DecMessage(fields, a + b, cells) == DecMessage(fields, b, first.value)
  {
    hide DecLoop, RunsOut, NoBookkeeping;
    LoopConcatenates(fields, a, b, Start(cells));
    var st := DecLoop(fields, a, Start(cells)).value;
    MessageWithoutBookkeeping(fields, a, cells);
    MessageWithoutBookkeeping(fields, a + b, cells);
    LoopAnywhere(fields, a, Start(cells), Start(cells));
    assert SameStruct(fields, st, Start(st.cells));
    LoopAnywhere(fields, b, st, Start(st.cells));
    MessageWithoutBookkeeping(fields, b, st.cells);
  }
}
