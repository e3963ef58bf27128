/** Whatever bytes arrive, what is decoded fits where it is stored. */
module Storage {
  import opened Bytes
  import opened Parsing
  import opened Varint
  import opened Words
  import opened Descriptor
  import opened Encoding
  import opened Decoding
  import opened Contents

  // ---- Values, strings and arrays within their bounds ----

  /** A value within the C type, the buffer or the struct that holds it; a string leaves room for its terminator. */
  ghost predicate Fitting(f: Field, v: Value)
    decreases f, 1
  {
    match f.ltype
    case Varint | SVarint => v.Num? && InSigned(v.n, Modulus(f.dataSize))
    case UVarint => v.Num? && 0 <= v.n < Modulus(f.dataSize)
    case Fixed32 => v.Num? && 0 <= v.n < TWO32
    case Fixed64 => v.Num? && 0 <= v.n < TWO64
    case Blob(header) => v.Raw? && |v.bytes| + header <= f.dataSize
    case Text => v.Raw? && |v.bytes| + 1 <= f.dataSize
    case FixedLengthBlob => v.Raw? && |v.bytes| == f.dataSize
    case Submessage(sub) => v.Struct? && |v.cells| == CellCount(sub) && AllFitting(sub, v.cells)
  }

  /** An entry of a fixed-count array may never have been stored. */
  ghost predicate FittingEntry(f: Field, v: Value)
    decreases f, 2
  {
    Fitting(f, v) || (FixedCount(f) && v == Zero(f))
  }

  ghost predicate FittingCell(f: Field, c: Cell)
    decreases f, 3
  {
    match f.htype
    case Required => c.Plain? && Fitting(f, c.value)
    case Optional => (if f.hasSize then c.Opt? else c.Plain?) && Fitting(f, c.value)
    case Repeated =>
      c.Many? && |c.items| <= f.arraySize && forall j :: 0 <= j < |c.items| ==> FittingEntry(f, c.items[j])
    case Oneof => c.Union? && (c.which == f.tag ==> Fitting(f, c.value))
  }

  ghost predicate AllFitting(fields: seq<Field>, cells: seq<Cell>)
    requires |cells| == CellCount(fields)
    decreases fields, |fields|
  {
    forall i :: 0 <= i < |fields| ==> CellOf(fields, i) < |cells| && FittingCell(fields[i], cells[CellOf(fields, i)])
  }

  /** The declared defaults, or zero and empty values, fit too. */
  ghost predicate Roomy(f: Field)
    decreases f
  {
    match f.ltype
    case Submessage(sub) => AllRoomy(sub)
    case _ => Fitting(f, if f.initial.Some? then f.initial.value else Zero(f))
  }

  ghost predicate AllRoomy(fields: seq<Field>)
    decreases fields
  {
    forall i :: 0 <= i < |fields| ==> Roomy(fields[i])
  }

  lemma {:induction false} DefaultFits(f: Field)
    requires Roomy(f) && GoodField(f)
    ensures Fitting(f, DefaultValue(f))
    decreases f, 1
  {
    if f.ltype.Submessage? {
      DefaultsFit(f.ltype.fields);
    }
  }

  lemma DefaultCellFits(f: Field)
    requires Fitting(f, DefaultValue(f)) && GoodField(f)
    ensures FittingCell(f, DefaultCell(f))
  {
    hide Fitting, DefaultValue;
  }

  lemma {:induction false} DefaultsFit(fields: seq<Field>)
    requires AllRoomy(fields) && GoodFields(fields)
    ensures |Defaults(fields)| == CellCount(fields) && AllFitting(fields, Defaults(fields))
    decreases fields, |fields|
  {
    hide Fitting, FittingCell, DefaultValue, DefaultCell, GoodField, Roomy;
    DefaultsFromLength(fields, 0);
    forall i | 0 <= i < |fields|
      ensures CellOf(fields, i) < CellCount(fields)
              && FittingCell(fields[i], Defaults(fields)[CellOf(fields, i)])
    {
      DefaultsAt(fields, i);
      DefaultFits(fields[i]);
      DefaultCellFits(fields[i]);
    }
  }

  // ---- Decoding keeps to the bounds ----

  lemma SignedInRange(x: int, size: nat)
    requires IntSize(size)
    ensures InSigned(Signed(x, Modulus(size)), Modulus(size))
  {
  }

  lemma ScalarFits(f: Field, s: seq<byte>, prior: Value)
    requires !f.ltype.Submessage?
    ensures DecValue(f, s, prior).Ok? ==> Fitting(f, DecValue(f, s, prior).value)
  {
    hide DecVarint, DecVarint32, UnZigZag, Signed, Modulus, FromLittleEndian, IntSize;
    var v := DecVarint(s);
    if v.Ok? && IntSize(f.dataSize) {
      SignedInRange(if f.dataSize == 8 then Signed(v.value, TWO64) else Signed(v.value, TWO32), f.dataSize);
      SignedInRange(UnZigZag(v.value), f.dataSize);
    }
    if f.ltype.Fixed32? && |s| >= 4 {
      FixedFits(s[..4]);
    } else if f.ltype.Fixed64? && |s| >= 8 {
      FixedFits(s[..8]);
    }
  }

  lemma FixedFits(s: seq<byte>)
    ensures |s| == 4 ==> FromLittleEndian(s) < TWO32
    ensures |s| == 8 ==> FromLittleEndian(s) < TWO64
  {
    Pow2Values();
    FromLittleEndianBound(s);
  }

  /** What a submessage is decoded over fits. */
  ghost predicate FittingPrior(f: Field, prior: Value) {
    f.ltype.Submessage? && prior.Struct? && |prior.cells| == CellCount(f.ltype.fields) ==>
      AllFitting(f.ltype.fields, prior.cells)
  }

  lemma {:induction false} ValueFits(f: Field, s: seq<byte>, prior: Value)
    requires GoodField(f) && Roomy(f) && FittingPrior(f, prior)
    ensures DecValue(f, s, prior).Ok? ==> Fitting(f, DecValue(f, s, prior).value)
    decreases |s|, 0
  {
    hide DecString, DecMessage, AllFitting, GoodFields, AllRoomy, DefaultsFrom;
    if f.ltype.Submessage? {
      var sub, payload := f.ltype.fields, DecString(s);
      DefaultsFit(sub);
      if payload.Ok? {
        MessageFits(sub, payload.value, if f.htype.Repeated? then CellsOf(sub, Num(0)) else CellsOf(sub, prior));
      }
    } else {
      ScalarFits(f, s, prior);
    }
  }

  lemma EntryStored(f: Field, items: seq<Value>, k: nat, v: Value)
    requires f.htype.Repeated? && FittingCell(f, Many(items)) && k < f.arraySize && Fitting(f, v)
    ensures FittingCell(f, Many(Store(items, k, v)))
  {
    hide Fitting;
  }

  lemma {:induction false} PackedFits(f: Field, s: seq<byte>, items: seq<Value>, size: nat)
    requires GoodField(f) && Roomy(f) && f.htype.Repeated? && !f.ltype.Submessage? && FittingCell(f, Many(items))
    ensures DecPacked(f, s, items, size).Ok? ==> FittingCell(f, Many(DecPacked(f, s, items, size).value.0))
    decreases |s|, 1
  {
    hide DecValue, GoodField, Roomy, FittingCell, Store;
    if s != [] && size < f.arraySize {
      ValueFits(f, s, Num(0));
      var r := DecValue(f, s, Num(0));
      if r.Ok? {
        EntryStored(f, items, size, r.value);
        PackedFits(f, r.rest, Store(items, size, r.value), size + 1);
      }
    }
  }

  lemma {:induction false} CellFits(f: Field, wt: nat, s: seq<byte>, c: Cell, size: nat)
    requires GoodField(f) && Roomy(f) && FittingCell(f, c)
    ensures DecCell(f, wt, s, c, size).Ok? ==> FittingCell(f, DecCell(f, wt, s, c, size).value.0)
    decreases |s|, 1
  {
    hide DecValue, DecPacked, DecString, GoodField, Roomy, Store, Fitting;
    match f.htype {
      case Required => SingleFits(f, s, ValueOf(c));
      case Optional => SingleFits(f, s, ValueOf(c));
      case Oneof =>
        if f.ltype.Submessage? {
          DefaultFits(f);
          SingleFits(f, s, DefaultValue(f));
        } else {
          ValueFits(f, s, ValueOf(c));
        }
      case Repeated =>
        if wt == WT_STRING && Packable(f.ltype) {
          var payload := DecString(s);
          if payload.Ok? {
            PackedFits(f, payload.value, ItemsOf(c), size);
          }
        } else if size < f.arraySize {
          ValueFits(f, s, Num(0));
          if DecValue(f, s, Num(0)).Ok? {
            EntryStored(f, ItemsOf(c), size, DecValue(f, s, Num(0)).value);
          }
        }
    }
  }

  lemma {:induction false} SingleFits(f: Field, s: seq<byte>, prior: Value)
    requires GoodField(f) && Roomy(f) && Fitting(f, prior)
    ensures DecValue(f, s, prior).Ok? ==> Fitting(f, DecValue(f, s, prior).value)
    decreases |s|, 1, 0
  {
    hide DecValue, GoodField, Roomy;
    ValueFits(f, s, prior);
  }

  /** A union that holds another member fits. */
  lemma OtherMember(f: Field, c: Cell)
    requires f.htype.Oneof? && c.Union? && c.which != f.tag
    ensures FittingCell(f, c)
  {
  }

  /** A cell stored by one field fits every other field that shares it. */
  lemma CellStored(fields: seq<Field>, p: nat, cells: seq<Cell>, c: Cell)
    requires GoodFields(fields) && p < |fields| && |cells| == CellCount(fields) && AllFitting(fields, cells)
    requires FittingCell(fields[p], c) && (fields[p].htype.Oneof? ==> c.Union? && c.which == fields[p].tag)
    ensures CellOf(fields, p) < |cells| && AllFitting(fields, cells[CellOf(fields, p) := c])
  {
    hide FittingCell, GoodField, CellOf, OneUnion;
    CellInRange(fields, p);
    var updated := cells[CellOf(fields, p) := c];
    forall i | 0 <= i < |fields|
      ensures CellOf(fields, i) < |cells| && FittingCell(fields[i], updated[CellOf(fields, i)])
    {
      if i < p {
        SharedCell(fields, i, p);
      } else if p < i {
        SharedCell(fields, p, i);
      }
      if i != p && CellOf(fields, i) == CellOf(fields, p) {
        OtherMember(fields[i], c);
      }
    }
  }

  lemma {:induction false} FieldFits(fields: seq<Field>, p: nat, wt: nat, s: seq<byte>, st: State)
    requires GoodFields(fields) && AllRoomy(fields) && p < |fields| && InShape(fields, st)
    requires AllFitting(fields, st.cells)
    ensures DecField(fields, p, wt, s, st).Ok? ==> AllFitting(fields, DecField(fields, p, wt, s, st).value.cells)
    decreases |s|, 2
  {
    hide DecCell, FittingCell, GoodField, Roomy;
    CellInRange(fields, p);
    var f, c := fields[p], st.cells[CellOf(fields, p)];
    var fixedSize := if FixedCount(f) && st.fixedField != Some(p) then 0 else st.fixedSize;
    var size := if FixedCount(f) then fixedSize else |ItemsOf(c)|;
    CellFits(f, wt, s, c, size);
    var r := DecCell(f, wt, s, c, size);
    if r.Ok? {
      if f.htype.Oneof? {
        OneofNamed(f, wt, s, c, size);
      }
      CellStored(fields, p, st.cells, r.value.0);
    }
  }

  lemma OneofNamed(f: Field, wt: nat, s: seq<byte>, c: Cell, size: nat)
    requires DecCell(f, wt, s, c, size).Ok? && f.htype.Oneof?
    ensures DecCell(f, wt, s, c, size).value.0.Union? && DecCell(f, wt, s, c, size).value.0.which == f.tag
  {
    hide DecValue;
  }

  lemma {:induction false} LoopFits(fields: seq<Field>, s: seq<byte>, st: State)
    requires GoodFields(fields) && AllRoomy(fields) && InShape(fields, st) && AllFitting(fields, st.cells)
    ensures DecLoop(fields, s, st).Ok? ==> AllFitting(fields, DecLoop(fields, s, st).value.cells)
    decreases |s|, 3
  {
    hide DecField, SkipField, Find, DecVarint32, GoodFields, AllRoomy, AllFitting;
    if s != [] && DecVarint32(s).Ok? {
      var tag := DecVarint32(s);
      var found := Find(fields, st.pos, tag.value / 8);
      if found.Some? {
        FieldFits(fields, found.value, tag.value % 8, tag.rest, st);
        var r := DecField(fields, found.value, tag.value % 8, tag.rest, st);
        if r.Ok? {
          LoopFits(fields, r.rest, r.value);
        }
      } else if SkipField(tag.value % 8, tag.rest).Ok? {
        LoopFits(fields, SkipField(tag.value % 8, tag.rest).rest, st);
      }
    }
  }

  lemma {:induction false} MessageFits(fields: seq<Field>, s: seq<byte>, cells: seq<Cell>)
    requires GoodFields(fields) && AllRoomy(fields) && |cells| == CellCount(fields) && AllFitting(fields, cells)
    ensures DecMessage(fields, s, cells).Ok? ==> AllFitting(fields, DecMessage(fields, s, cells).value)
    decreases |s|, 4
  {
    hide DecLoop, GoodFields, AllRoomy, AllFitting, RequiredMet;
    LoopFits(fields, s, Start(cells));
  }

  /**
   * Whatever bytes pb_decode is given, if it accepts them then every number is within its C type, every
   * string and array within its buffer, at every depth.
   */
  lemma DecodedFits(fields: seq<Field>, s: seq<byte>)
    requires GoodFields(fields) && AllRoomy(fields)
    ensures Decode(fields, s).Ok? ==> AllFitting(fields, Decode(fields, s).value)
  {
    hide DecMessage, GoodFields, AllRoomy, AllFitting;
    DefaultsFit(fields);
    MessageFits(fields, s, Defaults(fields));
  }

  // ---- Which numbers are taken ----

  /** An unsigned number is taken exactly when its C type holds it. */
  lemma UnsignedTakenIff(f: Field, v: u64, tail: seq<byte>, prior: Value)
    requires f.ltype.UVarint? && IntSize(f.dataSize)
    ensures DecValue(f, EncVarint(v) + tail, prior) == if v < Modulus(f.dataSize) then Ok(Num(v), tail) else Fail
  {
    hide EncVarint, DecVarint;
    VarintRoundTrip(v, tail);
    if v < Modulus(f.dataSize) {
      SmallMod(v, Modulus(f.dataSize));
    }
  }

  /**
   * A signed number, as the 64-bit word it is sent as: into eight bytes all are taken, into fewer their low 32
   * bits are, exactly when the C type holds these.
   */
  lemma SignedTakenIff(f: Field, v: u64, n: int, tail: seq<byte>, prior: Value)
    requires f.ltype.Varint? && IntSize(f.dataSize)
    requires if f.dataSize == 8 then InSigned(n, TWO64) && n % TWO64 == v
             else InSigned(n, TWO32) && n % TWO32 == v % TWO32
    ensures DecValue(f, EncVarint(v) + tail, prior)
            == if InSigned(n, Modulus(f.dataSize)) then Ok(Num(n), tail) else Fail
  {
    hide EncVarint, DecVarint, Signed;
    VarintRoundTrip(v, tail);
    var width := if f.dataSize == 8 then TWO64 else TWO32;
    SignedOfWrapped(n, width);
    assert Signed(v, width) == n by { SameRemainder(v, n, width); }
    StoredIff(n, f.dataSize);
  }

  /** A zigzag number is taken exactly when its C type holds it. */
  lemma ZigzagTakenIff(f: Field, n: int, tail: seq<byte>, prior: Value)
    requires f.ltype.SVarint? && IntSize(f.dataSize) && InSigned(n, TWO64)
    ensures DecValue(f, EncVarint(ZigZag(n)) + tail, prior)
            == if InSigned(n, Modulus(f.dataSize)) then Ok(Num(n), tail) else Fail
  {
    hide EncVarint, DecVarint, Signed, ZigZag, UnZigZag;
    VarintRoundTrip(ZigZag(n), tail);
    ZigZagRoundTrip(n);
    StoredIff(n, f.dataSize);
  }

  lemma SameRemainder(a: int, b: int, m: nat)
    requires m > 0 && a % m == b % m
    ensures Signed(a, m) == Signed(b, m) == Signed(b % m, m)
  {
    SmallMod(b % m, m);
  }

  /** Storing keeps a number exactly when it is in range. */
  lemma StoredIff(n: int, size: nat)
    requires IntSize(size)
    ensures Signed(n, Modulus(size)) == n <==> InSigned(n, Modulus(size))
  {
    SignedInRange(n, size);
    if InSigned(n, Modulus(size)) {
      SignedOfWrapped(n, Modulus(size));
    }
  }
}
