/** The sending half of the DTLS handshake transport: a flight of messages cut into records and packets. */
module Flight {
  import opened Bytes
  import opened Parsing
  import opened Reassembly
  import opened Fragments

  const RECORD_HEADER: nat := 13   // DTLS1_RT_HEADER_LENGTH

  /** DTLS_OUTGOING_MESSAGE */
  datatype Outgoing = Ccs(epoch: nat) | Whole(epoch: nat, data: seq<byte>)

  /** What one record carries. */
  datatype Piece = CcsPiece | Part(f: Fragment)

  datatype Record = Record(epoch: nat, piece: Piece, len: nat)

  /** Where the sender is: whole messages written, and bytes of the next one. */
  datatype Pos = Pos(written: nat, offset: nat)

  /** The message as the single fragment that its serialisation is. */
  function AsFragment(m: Outgoing): Fragment
    requires WellFormed(m) && m.Whole?
  {
    ParseFragment(m.data).value
  }

  predicate WellFormed(m: Outgoing) {
    m.Whole? ==>
      var p := ParseFragment(m.data);
      p.Ok? && p.rest == [] && p.value.off == 0 && |p.value.body| == p.value.msgLen
  }

  predicate AllWellFormed(msgs: seq<Outgoing>) {
    forall i :: 0 <= i < |msgs| ==> WellFormed(msgs[i])
  }

  /** A place between two bytes that are to be sent. */
  predicate InFlight(msgs: seq<Outgoing>, pos: Pos)
    requires AllWellFormed(msgs)
  {
    pos.written <= |msgs|
    && (pos.offset != 0 ==>
          pos.written < |msgs| && msgs[pos.written].Whole? && pos.offset < |AsFragment(msgs[pos.written]).body|)
  }

  // ---- The specification: which records bring the sender from one place to another ----

  /** After a record that carries exactly the next bytes, in the epoch of its message. */
  ghost function Next(msgs: seq<Outgoing>, pos: Pos, r: Record): Option<Pos>
    requires AllWellFormed(msgs)
  {
    if pos.written >= |msgs| || r.epoch != msgs[pos.written].epoch then None
    else
      match msgs[pos.written]
      case Ccs(_) => if r.piece.CcsPiece? && pos.offset == 0 then Some(Pos(pos.written + 1, 0)) else None
      case Whole(_, _) =>
        var whole := AsFragment(msgs[pos.written]);
        if !r.piece.Part? then None
        else
          var f := r.piece.f;
          var end := pos.offset + |f.body|;
          if f.off == pos.offset && end <= |whole.body| && (f.body != [] || whole.body == [])
             && f == Fragment(whole.typ, whole.msgLen, whole.seqNo, pos.offset, whole.body[pos.offset..end])
          then Some(if end == |whole.body| then Pos(pos.written + 1, 0) else Pos(pos.written, end))
          else None
  }

  ghost function Walk(msgs: seq<Outgoing>, pos: Pos, records: seq<Record>): Option<Pos>
    requires AllWellFormed(msgs)
  {
    if records == [] then Some(pos)
    else
      var p := Walk(msgs, pos, records[..|records| - 1]);
      if p.None? then None else Next(msgs, p.value, records[|records| - 1])
  }

  lemma {:induction false} WalkOn(msgs: seq<Outgoing>, pos: Pos, a: seq<Record>, b: seq<Record>)
    requires AllWellFormed(msgs) && Walk(msgs, pos, a).Some?
    ensures Walk(msgs, pos, a + b) == Walk(msgs, Walk(msgs, pos, a).value, b)
    decreases |b|
  {
    hide Next, AllWellFormed;
    if b == [] {
      assert a + b == a;
    } else {
      assert (a + b)[..|a + b| - 1] == a + b[..|b| - 1];
      WalkOn(msgs, pos, a, b[..|b| - 1]);
    }
  }

  /** The place moves forward with every record: later message, or further into the same one, or past an empty one. */
  lemma NextAdvances(msgs: seq<Outgoing>, pos: Pos, r: Record)
    requires AllWellFormed(msgs) && Next(msgs, pos, r).Some?
    ensures var p := Next(msgs, pos, r).value;
            (p.written > pos.written || (p.written == pos.written && p.offset > pos.offset))
            && (InFlight(msgs, pos) ==> InFlight(msgs, p))
  {
  }

  lemma {:induction false} WalkAdvances(msgs: seq<Outgoing>, pos: Pos, records: seq<Record>)
    requires AllWellFormed(msgs) && InFlight(msgs, pos) && Walk(msgs, pos, records).Some?
    ensures var p := Walk(msgs, pos, records).value;
            InFlight(msgs, p)
            && (records != [] ==> p.written > pos.written || (p.written == pos.written && p.offset > pos.offset))
    decreases |records|
  {
    hide Next, AllWellFormed, InFlight;
    if records != [] {
      var before := records[..|records| - 1];
      WalkAdvances(msgs, pos, before);
      NextAdvances(msgs, Walk(msgs, pos, before).value, records[|records| - 1]);
    }
  }

  /** Messages added behind those being written do not disturb what was written. */
  lemma {:induction false} LongerFlight(msgs: seq<Outgoing>, m: Outgoing, records: seq<Record>)
    requires AllWellFormed(msgs) && WellFormed(m) && Walk(msgs, Pos(0, 0), records).Some?
    ensures AllWellFormed(msgs + [m])
    ensures Walk(msgs + [m], Pos(0, 0), records) == Walk(msgs, Pos(0, 0), records)
    ensures var p := Walk(msgs, Pos(0, 0), records).value; InFlight(msgs, p) ==> InFlight(msgs + [m], p)
    decreases |records|
  {
    hide ParseFragment;
    if records != [] {
      LongerFlight(msgs, m, records[..|records| - 1]);
    }
  }

  // ---- Every byte exactly once ----

  /** How many of the records carry byte j of the message with this number. */
  ghost function Carried(records: seq<Record>, seqNo: nat, j: nat): nat {
    if records == [] then 0
    else
      var p := records[|records| - 1].piece;
      Carried(records[..|records| - 1], seqNo, j)
      + if p.Part? && p.f.seqNo == seqNo && p.f.off <= j < p.f.off + |p.f.body| then 1 else 0
  }

  ghost predicate DistinctNumbers(msgs: seq<Outgoing>)
    requires AllWellFormed(msgs)
  {
    forall i, k :: 0 <= i < k < |msgs| && msgs[i].Whole? && msgs[k].Whole? ==>
                     AsFragment(msgs[i]).seqNo != AsFragment(msgs[k]).seqNo
  }

  predicate Before(m: nat, j: nat, pos: Pos) {
    m < pos.written || (m == pos.written && j < pos.offset)
  }

  /** What was written tiles each message: no gap, no overlap, nothing from beyond the place reached. */
  lemma {:induction false} CarriedOnce(msgs: seq<Outgoing>, records: seq<Record>, m: nat, j: nat)
    requires AllWellFormed(msgs) && DistinctNumbers(msgs) && Walk(msgs, Pos(0, 0), records).Some?
    requires m < |msgs| && msgs[m].Whole? && j < |AsFragment(msgs[m]).body|
    ensures Carried(records, AsFragment(msgs[m]).seqNo, j)
            == if Before(m, j, Walk(msgs, Pos(0, 0), records).value) then 1 else 0
    decreases |records|
  {
    if records != [] {
      var before := records[..|records| - 1];
      CarriedOnce(msgs, before, m, j);
      WalkAdvances(msgs, Pos(0, 0), before);
      CarriedByNext(msgs, Walk(msgs, Pos(0, 0), before).value, records[|records| - 1], m, j);
    }
  }

  lemma CarriedByNext(msgs: seq<Outgoing>, pos: Pos, r: Record, m: nat, j: nat)
    requires AllWellFormed(msgs) && DistinctNumbers(msgs) && InFlight(msgs, pos) && Next(msgs, pos, r).Some?
    requires m < |msgs| && msgs[m].Whole? && j < |AsFragment(msgs[m]).body|
    ensures var carries := r.piece.Part? && r.piece.f.seqNo == AsFragment(msgs[m]).seqNo
                           && r.piece.f.off <= j < r.piece.f.off + |r.piece.f.body|;
            carries <==> !Before(m, j, pos) && Before(m, j, Next(msgs, pos, r).value)
  {
    hide ParseFragment;
  }

  function Parts(records: seq<Record>): seq<Fragment> {
    if records == [] then []
    else
      var p := records[|records| - 1].piece;
      Parts(records[..|records| - 1]) + if p.Part? then [p.f] else []
  }

  /** A message wholly written was sent in at least one record, even if its body is empty. */
  lemma {:induction false} EachIsSent(msgs: seq<Outgoing>, records: seq<Record>, m: nat)
    requires AllWellFormed(msgs) && Walk(msgs, Pos(0, 0), records).Some?
    requires m < Walk(msgs, Pos(0, 0), records).value.written && m < |msgs| && msgs[m].Whole?
    ensures exists f :: f in Parts(records) && f.seqNo == AsFragment(msgs[m]).seqNo
    decreases |records|
  {
    hide ParseFragment;
    var before, last := records[..|records| - 1], records[|records| - 1];
    var pos := Walk(msgs, Pos(0, 0), before).value;
    if m < pos.written {
      EachIsSent(msgs, before, m);
      var f :| f in Parts(before) && f.seqNo == AsFragment(msgs[m]).seqNo;
      assert f in Parts(records);
    } else {
      assert last.piece.f in Parts(records);
    }
  }

  /** Everything sent is a part of the message whose number it bears. */
  lemma {:induction false} PartsAreHonest(msgs: seq<Outgoing>, records: seq<Record>, sent: seq<Message>, f: Fragment)
    requires AllWellFormed(msgs) && Walk(msgs, Pos(0, 0), records).Some? && f in Parts(records)
    requires forall m :: 0 <= m < |msgs| && msgs[m].Whole? ==> Honest(AsFragment(msgs[m]), sent)
    ensures Honest(f, sent)
    decreases |records|
  {
    hide ParseFragment;
    var before, last := records[..|records| - 1], records[|records| - 1];
    if f in Parts(before) {
      PartsAreHonest(msgs, before, sent, f);
    } else {
      NextIsHonest(msgs, Walk(msgs, Pos(0, 0), before).value, last, sent);
    }
  }

  lemma NextIsHonest(msgs: seq<Outgoing>, pos: Pos, r: Record, sent: seq<Message>)
    requires AllWellFormed(msgs) && Next(msgs, pos, r).Some? && r.piece.Part?
    requires msgs[pos.written].Whole? ==> Honest(AsFragment(msgs[pos.written]), sent)
    ensures Honest(r.piece.f, sent)
  {
    hide ParseFragment;
    var whole := AsFragment(msgs[pos.written]);
    assert whole.off == 0 && |whole.body| == whole.msgLen by { assert WellFormed(msgs[pos.written]); }
    assert whole.body == sent[whole.seqNo].body;
  }

  lemma {:induction false} CarriedIsInPart(records: seq<Record>, seqNo: nat, j: nat)
    requires Carried(records, seqNo, j) > 0
    ensures exists f :: f in Parts(records) && f.seqNo == seqNo && f.off <= j < f.off + |f.body|
    decreases |records|
  {
    var before, last := records[..|records| - 1], records[|records| - 1];
    if Carried(before, seqNo, j) > 0 {
      CarriedIsInPart(before, seqNo, j);
      var f :| f in Parts(before) && f.seqNo == seqNo && f.off <= j < f.off + |f.body|;
      assert f in Parts(records);
    } else {
      assert last.piece.f in Parts(records);
    }
  }

  // ---- What was sealed and what the transport took ----

  /** A sealed record, and whether the transport took it. */
  datatype Fate = Fate(record: Record, taken: bool)

  function Records(trail: seq<Fate>): seq<Record> {
    if trail == [] then [] else Records(trail[..|trail| - 1]) + [trail[|trail| - 1].record]
  }

  function Taken(trail: seq<Fate>): seq<Record> {
    if trail == [] then []
    else
      var last := trail[|trail| - 1];
      Taken(trail[..|trail| - 1]) + if last.taken then [last.record] else []
  }

  /** Records that were sealed and passed over, but never handed to the transport. */
  function Dropped(trail: seq<Fate>): seq<Record> {
    if trail == [] then []
    else
      var last := trail[|trail| - 1];
      Dropped(trail[..|trail| - 1]) + if last.taken then [] else [last.record]
  }

  function Fates(records: seq<Record>, taken: bool): (trail: seq<Fate>)
    ensures |trail| == |records|
  {
    if records == [] then [] else Fates(records[..|records| - 1], taken) + [Fate(records[|records| - 1], taken)]
  }

  lemma FateAdded(trail: seq<Fate>, fate: Fate)
    ensures Records(trail + [fate]) == Records(trail) + [fate.record]
    ensures Taken(trail + [fate]) == Taken(trail) + if fate.taken then [fate.record] else []
    ensures Dropped(trail + [fate]) == Dropped(trail) + if fate.taken then [] else [fate.record]
  {
    assert (trail + [fate])[..|trail|] == trail;
  }

  lemma {:induction false} FatesOf(trail: seq<Fate>, records: seq<Record>, taken: bool)
    ensures Records(trail + Fates(records, taken)) == Records(trail) + records
    ensures Taken(trail + Fates(records, taken)) == Taken(trail) + if taken then records else []
    ensures Dropped(trail + Fates(records, taken)) == Dropped(trail) + if taken then [] else records
    decreases |records|
  {
    hide Records, Taken, Dropped;
    if records == [] {
      assert trail + Fates(records, taken) == trail;
      assert Taken(trail) + [] == Taken(trail) && Dropped(trail) + [] == Dropped(trail)
             && Records(trail) + [] == Records(trail);
    } else {
      var before, fate := records[..|records| - 1], Fate(records[|records| - 1], taken);
      FatesOf(trail, before, taken);
      FateAdded(trail + Fates(before, taken), fate);
      assert trail + Fates(records, taken) == trail + Fates(before, taken) + [fate];
      assert records == before + [fate.record];
      assert Taken(trail) + [] == Taken(trail) && Dropped(trail) + [] == Dropped(trail);
    }
  }

  /** How far a record moves the sender: its bytes, and one for the end of a message. */
  function Weight(r: Record): nat {
    match r.piece
    case CcsPiece => 1
    case Part(f) => |f.body| + if f.off + |f.body| == f.msgLen then 1 else 0
  }

  function Weights(records: seq<Record>): nat {
    if records == [] then 0 else Weights(records[..|records| - 1]) + Weight(records[|records| - 1])
  }

  function Length(m: Outgoing): nat
    requires WellFormed(m)
  {
    if m.Ccs? then 1 else |AsFragment(m).body| + 1
  }

  /** How far into the flight a place is. */
  function Index(msgs: seq<Outgoing>, pos: Pos): nat
    requires AllWellFormed(msgs) && pos.written <= |msgs|
  {
    StartOf(msgs, pos.written) + pos.offset
  }

  function StartOf(msgs: seq<Outgoing>, n: nat): nat
    requires AllWellFormed(msgs) && n <= |msgs|
  {
    if n == 0 then 0 else StartOf(msgs, n - 1) + Length(msgs[n - 1])
  }

  lemma NextWeighs(msgs: seq<Outgoing>, pos: Pos, r: Record)
    requires AllWellFormed(msgs) && InFlight(msgs, pos) && Next(msgs, pos, r).Some?
    ensures Next(msgs, pos, r).value.written <= |msgs|
    ensures Index(msgs, Next(msgs, pos, r).value) == Index(msgs, pos) + Weight(r) && Weight(r) > 0
  {
    hide ParseFragment;
    assert WellFormed(msgs[pos.written]);
  }

  lemma {:induction false} WalkWeighs(msgs: seq<Outgoing>, pos: Pos, records: seq<Record>)
    requires AllWellFormed(msgs) && InFlight(msgs, pos) && Walk(msgs, pos, records).Some?
    ensures InFlight(msgs, Walk(msgs, pos, records).value)
    ensures Index(msgs, Walk(msgs, pos, records).value) == Index(msgs, pos) + Weights(records)
    ensures forall i :: 0 <= i < |records| ==> Weight(records[i]) > 0
    decreases |records|
  {
    hide Next, AllWellFormed, InFlight, Index, Weight;
    if records != [] {
      var before, last := records[..|records| - 1], records[|records| - 1];
      WalkWeighs(msgs, pos, before);
      NextWeighs(msgs, Walk(msgs, pos, before).value, last);
      WalkAdvances(msgs, pos, records);
    }
  }

  lemma {:induction false} WeightsSplit(trail: seq<Fate>)
    ensures Weights(Records(trail)) == Weights(Taken(trail)) + Weights(Dropped(trail))
    decreases |trail|
  {
    hide Weights, Weight;
    if trail == [] {
      NoWeight();
    } else {
      var before, last := trail[..|trail| - 1], trail[|trail| - 1];
      WeightsSplit(before);
      WeightsAdd(Records(before), last.record);
      WeightsAdd(Taken(before), last.record);
      WeightsAdd(Dropped(before), last.record);
      assert Taken(before) + [] == Taken(before) && Dropped(before) + [] == Dropped(before);
    }
  }

  lemma NoWeight()
    ensures Weights([]) == 0
  {
  }

  lemma {:induction false} DroppedWasSealed(trail: seq<Fate>, r: Record)
    requires r in Dropped(trail)
    ensures r in Records(trail)
    decreases |trail|
  {
    if r in Dropped(trail[..|trail| - 1]) {
      DroppedWasSealed(trail[..|trail| - 1], r);
    }
  }

  /** What was dropped weighs something. */
  lemma DroppedWeighs(msgs: seq<Outgoing>, trail: seq<Fate>)
    requires AllWellFormed(msgs) && Walk(msgs, Pos(0, 0), Records(trail)).Some? && Dropped(trail) != []
    ensures Weights(Dropped(trail)) > 0
  {
    hide Walk, Records, Dropped, Weight, Index, AllWellFormed;
    WalkWeighs(msgs, Pos(0, 0), Records(trail));
    var dropped := Dropped(trail);
    DroppedWasSealed(trail, dropped[|dropped| - 1]);
  }

  lemma WeightsAdd(records: seq<Record>, r: Record)
    ensures Weights(records + [r]) == Weights(records) + Weight(r)
  {
    assert (records + [r])[..|records|] == records;
  }

  lemma {:induction false} NothingDropped(trail: seq<Fate>)
    requires Dropped(trail) == []
    ensures Taken(trail) == Records(trail)
  {
    if trail != [] {
      NothingDropped(trail[..|trail| - 1]);
    }
  }

  /**
   * The place of the sender and what the transport took agree exactly when no record was sealed and
   * dropped.
   */
  lemma AgreesIffNothingDropped(msgs: seq<Outgoing>, trail: seq<Fate>, place: Pos)
    requires AllWellFormed(msgs) && Walk(msgs, Pos(0, 0), Records(trail)) == Some(place)
    ensures Walk(msgs, Pos(0, 0), Taken(trail)) == Some(place) <==> Dropped(trail) == []
  {
    hide Walk, Records, Taken, Dropped, Weights, Index, AllWellFormed;
    if Dropped(trail) == [] {
      NothingDropped(trail);
    } else {
      WalkWeighs(msgs, Pos(0, 0), Records(trail));
      WeightsSplit(trail);
      DroppedWeighs(msgs, trail);
      if Walk(msgs, Pos(0, 0), Taken(trail)) == Some(place) {
        WalkWeighs(msgs, Pos(0, 0), Taken(trail));
      }
    }
  }

  // ---- Flights of a sender's messages ----

  /** The flight holds these of the sender's messages, as they were built. */
  ghost predicate FlightOf(msgs: seq<Outgoing>, sent: seq<Message>, numbers: seq<nat>) {
    |numbers| == |msgs|
    && (forall k :: 0 <= k < |sent| ==> |sent[k].body| < 0x100_0000)
    && (forall m :: 0 <= m < |msgs| && msgs[m].Whole? ==>
          numbers[m] < |sent| && msgs[m].data == RawMessage(sent, numbers[m]))
    && (forall i, k :: 0 <= i < k < |msgs| && msgs[i].Whole? && msgs[k].Whole? ==> numbers[i] != numbers[k])
  }

  /** The flight holds the message with number k. */
  ghost predicate Holds(msgs: seq<Outgoing>, numbers: seq<nat>, k: nat)
    requires |numbers| == |msgs|
  {
    exists m :: 0 <= m < |msgs| && msgs[m].Whole? && numbers[m] == k
  }

  /** The flight holds all of the sender's messages from number `first` on. */
  ghost predicate HoldsFrom(msgs: seq<Outgoing>, numbers: seq<nat>, first: nat, count: nat) {
    |numbers| == |msgs| && first <= count
    && forall k :: first <= k < count ==> Holds(msgs, numbers, k)
  }

  lemma HoldsMore(msgs: seq<Outgoing>, numbers: seq<nat>, first: nat, count: nat, msg: Outgoing, n: nat)
    requires HoldsFrom(msgs, numbers, first, count)
    ensures HoldsFrom(msgs + [msg], numbers + [n], first, count)
    ensures msg.Whole? && n == count ==> HoldsFrom(msgs + [msg], numbers + [n], first, count + 1)
  {
    var more, all := msgs + [msg], numbers + [n];
    forall k | first <= k < count ensures Holds(more, all, k) {
      assert Holds(msgs, numbers, k);
      var m :| 0 <= m < |msgs| && msgs[m].Whole? && numbers[m] == k;
      assert more[m].Whole? && all[m] == k;
    }
    assert more[|msgs|] == msg && all[|msgs|] == n;
  }

  /** A message just built joins the flight. */
  lemma FlightGrows(msgs: seq<Outgoing>, sent: seq<Message>, numbers: seq<nat>, msg: Outgoing, m: Message, seqNo: nat)
    requires FlightOf(msgs, sent, numbers) && seqNo == |sent| % 0x1_0000
    requires msg.Whole? ==> |m.body| < 0x100_0000 && msg.data == Unfragmented(m.typ, seqNo, m.body)
    ensures WellFormed(msg)
    ensures if msg.Ccs? then FlightOf(msgs + [msg], sent, numbers + [0])
            else FlightOf(msgs + [msg], sent + [m], numbers + [|sent|])
  {
    hide ParseFragment, Unfragmented;
    if msg.Ccs? {
      CcsIsWellFormed(msg);
    } else {
      BuiltIsWellFormed(m.typ, seqNo, m.body, msg.epoch);
      NumberInHeader(m.typ, |sent|, m.body);
      forall k | 0 <= k < |sent| ensures RawMessage(sent + [m], k) == RawMessage(sent, k) {
      }
    }
  }

  lemma BuiltIsWellFormed(typ: byte, seqNo: nat, body: seq<byte>, epoch: nat)
    requires seqNo < 0x1_0000 && |body| < 0x100_0000
    ensures WellFormed(Whole(epoch, Unfragmented(typ, seqNo, body)))
    ensures AsFragment(Whole(epoch, Unfragmented(typ, seqNo, body))) == Fragment(typ, |body|, seqNo, 0, body)
  {
    hide HeaderBytes, ParseFragment;
    var f := Fragment(typ, |body|, seqNo, 0, body);
    ParseWire(f, []);
    assert Wire(f) + [] == Unfragmented(typ, seqNo, body);
  }

  /** While numbers do not come round again, such a flight is well formed and its numbers tell its messages apart. */
  lemma BuiltFlight(msgs: seq<Outgoing>, sent: seq<Message>, numbers: seq<nat>)
    requires FlightOf(msgs, sent, numbers) && |sent| < 0x1_0000
    ensures AllWellFormed(msgs) && DistinctNumbers(msgs)
    ensures forall m :: 0 <= m < |msgs| && msgs[m].Whole? ==>
              var s := sent[numbers[m]]; AsFragment(msgs[m]) == Fragment(s.typ, |s.body|, numbers[m], 0, s.body)
  {
    hide AsFragment, WellFormed, Unfragmented;
    forall m | 0 <= m < |msgs| && msgs[m].Whole?
      ensures WellFormed(msgs[m])
      ensures var s := sent[numbers[m]]; AsFragment(msgs[m]) == Fragment(s.typ, |s.body|, numbers[m], 0, s.body)
    {
      var s := sent[numbers[m]];
      BuiltIsWellFormed(s.typ, numbers[m], s.body, msgs[m].epoch);
    }
    forall m | 0 <= m < |msgs| ensures WellFormed(msgs[m]) {
      if msgs[m].Ccs? {
        CcsIsWellFormed(msgs[m]);
      }
    }
  }

  lemma CcsIsWellFormed(m: Outgoing)
    requires m.Ccs?
    ensures WellFormed(m)
  {
  }

  /** Everything that such a flight puts into records is a part of the sender's messages. */
  lemma SentIsHonest(msgs: seq<Outgoing>, sent: seq<Message>, numbers: seq<nat>, records: seq<Record>)
    requires FlightOf(msgs, sent, numbers) && |sent| < 0x1_0000 && AllWellFormed(msgs)
    requires Walk(msgs, Pos(0, 0), records).Some?
    ensures AllHonest(Parts(records), sent)
  {
    hide AsFragment, WellFormed, Walk, Parts, Unfragmented;
    BuiltFlight(msgs, sent, numbers);
    forall m | 0 <= m < |msgs| && msgs[m].Whole? ensures Honest(AsFragment(msgs[m]), sent) {
      assert sent[numbers[m]].body[0..|sent[numbers[m]].body|] == sent[numbers[m]].body;
    }
    forall i | 0 <= i < |Parts(records)| ensures Honest(Parts(records)[i], sent) {
      PartsAreHonest(msgs, records, sent, Parts(records)[i]);
    }
  }
}
