/** What an empty message decodes to, field by field. */
module DefaultValues {
  import opened Bytes
  import opened Parsing
  import opened Descriptor
  import opened Decoding
  import opened RoundTrip

  /** A declared default if there is one, else zero or empty; in a submessage the same of every field. */
  ghost predicate Initial(f: Field, v: Value)
    decreases f, 1
  {
    match f.ltype
    case Submessage(sub) => v.Struct? && |v.cells| == CellCount(sub) && AllInitial(sub, v.cells)
    case Varint | UVarint | SVarint | Fixed32 | Fixed64 => v == if f.initial.Some? then f.initial.value else Num(0)
    case Blob(_) | Text => v == if f.initial.Some? then f.initial.value else Raw([])
    case FixedLengthBlob =>
      if f.initial.Some? then v == f.initial.value
      else v.Raw? && |v.bytes| == f.dataSize && forall k :: 0 <= k < |v.bytes| ==> v.bytes[k] == 0
  }

  ghost predicate InitialCell(f: Field, c: Cell)
    decreases f, 2
  {
    match f.htype
    case Required => c.Plain? && Initial(f, c.value)
    case Optional => (if f.hasSize then c.Opt? && !c.has else c.Plain?) && Initial(f, c.value)
    case Repeated => c.Many? && |c.items| == if f.hasSize then 0 else f.arraySize
    case Oneof => c.Union? && c.which == 0
  }

  ghost predicate AllInitial(fields: seq<Field>, cells: seq<Cell>)
    requires |cells| == CellCount(fields)
    decreases fields, |fields|
  {
    forall i :: 0 <= i < |fields| ==> CellOf(fields, i) < |cells| && InitialCell(fields[i], cells[CellOf(fields, i)])
  }

  lemma {:induction false} DefaultIsInitial(f: Field)
    ensures Initial(f, DefaultValue(f))
    decreases f, 1
  {
    if f.ltype.Submessage? {
      DefaultsAreInitial(f.ltype.fields);
    }
  }

  lemma {:induction false} DefaultsAreInitial(fields: seq<Field>)
    ensures |Defaults(fields)| == CellCount(fields) && AllInitial(fields, Defaults(fields))
    decreases fields, |fields|
  {
    hide Initial, DefaultValue;
    DefaultsFromLength(fields, 0);
    forall i | 0 <= i < |fields|
      ensures CellOf(fields, i) < CellCount(fields)
              && InitialCell(fields[i], Defaults(fields)[CellOf(fields, i)])
    {
      DefaultsAt(fields, i);
      DefaultIsInitial(fields[i]);
    }
  }

  /** An empty message is refused if a field is required; else every field has its default, at every depth. */
  lemma EmptyMessage(fields: seq<Field>)
    ensures var r := Decode(fields, []);
            if RequiredBefore(fields, |fields|) == 0
            then r.Ok? && r.rest == [] && |r.value| == CellCount(fields) && AllInitial(fields, r.value)
            else r.Fail?
  {
    hide AllInitial, DecLoop;
    DefaultsAreInitial(fields);
    LoopEnd(fields, Start(Defaults(fields)));
    MessageOfLoop(fields, [], Defaults(fields));
    if RequiredBefore(fields, |fields|) > 0 {
      assert 0 !in Start(Defaults(fields)).seen;
    }
  }
}
