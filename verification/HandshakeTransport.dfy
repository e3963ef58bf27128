/** Both ends of the DTLS handshake transport together. */
module HandshakeTransport {
  import opened Bytes
  import opened Reassembly
  import opened Fragments
  import opened Flight
  import opened FlightSender
  import opened InOrderDelivery
  import Receiver

  // ---- A network that loses, repeats and reorders ----

  /** The receiver refuses no record, and releases only messages that it reports. */
  ghost predicate Accepted(events: seq<Event>) {
    events == []
    || (Accepted(events[..|events| - 1])
        && var r := After(events[..|events| - 1]);
           match events[|events| - 1]
           case Arrive(frags, maxLen, encrypted) => Receiver.Open(r.rx, Packed(frags), maxLen, encrypted).alert.None?
           case Release => Receiver.Report(r.rx).Some?)
  }

  /** Everything that arrives was once handed to the transport: in any order, any number of times. */
  ghost predicate DrawnFrom(events: seq<Event>, wire: seq<Fragment>) {
    forall i :: 0 <= i < |events| && events[i].Arrive? ==> forall f :: f in events[i].frags ==> f in wire
  }

  lemma {:induction false} AcceptedIsPossible(events: seq<Event>, wire: seq<Fragment>, sent: seq<Message>)
    requires Accepted(events) && DrawnFrom(events, wire) && AllHonest(wire, sent)
    ensures Possible(events, sent)
    decreases |events|
  {
    hide Receiver.Open, Receiver.Report, Receiver.Next, Packed, After, Honest;
    if events != [] {
      var before, last := events[..|events| - 1], events[|events| - 1];
      AcceptedIsPossible(before, wire, sent);
      if last.Arrive? {
        forall i | 0 <= i < |last.frags| ensures Honest(last.frags[i], sent) {
          assert last.frags[i] in wire;
        }
      }
    }
  }

  // ---- Coverage ----

  lemma {:induction false} GatheredHas(frags: seq<Fragment>, f: Fragment, j: nat)
    requires f in frags && f.off <= j < f.off + |f.body|
    ensures j in Gathered(frags, f.seqNo)
    decreases |frags|
  {
    var last := frags[|frags| - 1];
    if last != f {
      assert f in frags[..|frags| - 1];
      GatheredHas(frags[..|frags| - 1], f, j);
    }
  }

  lemma {:induction false} GatheredWithin(frags: seq<Fragment>, sent: seq<Message>, k: nat)
    requires k < |sent| && AllHonest(frags, sent)
    ensures Gathered(frags, k) <= Range(0, |sent[k].body|)
    decreases |frags|
  {
    if frags != [] {
      GatheredWithin(frags[..|frags| - 1], sent, k);
      assert Honest(frags[|frags| - 1], sent);
    }
  }

  /** A pass that wrote the whole of message m sent fragments that cover it. */
  lemma PassCovers(msgs: seq<Outgoing>, sent: seq<Message>, numbers: seq<nat>, records: seq<Record>, m: nat,
                   kept: seq<Fragment>)
    requires FlightOf(msgs, sent, numbers) && |sent| < Receiver.SEQS && AllWellFormed(msgs)
    requires Walk(msgs, Pos(0, 0), records).Some? && m < Walk(msgs, Pos(0, 0), records).value.written
    requires m < |msgs| && msgs[m].Whole?
    requires forall f :: f in Parts(records) && f.seqNo == numbers[m] ==> f in kept
    requires AllHonest(kept, sent)
    ensures Covered(kept, sent, numbers[m])
  {
    var k := numbers[m];
    BuiltFlight(msgs, sent, numbers);
    hide Walk, Parts, Gathered, Honest, WellFormed, AsFragment, Range, Carried, FlightOf;
    hide DistinctNumbers, AllWellFormed;
    EachIsSent(msgs, records, m);
    var g :| g in Parts(records) && g.seqNo == k;
    var i :| 0 <= i < |kept| && kept[i] == g;
    GatheredWithin(kept, sent, k);
    forall j | j in Range(0, |sent[k].body|) ensures j in Gathered(kept, k) {
      CarriedOnce(msgs, records, m, j);
      CarriedIsInPart(records, k, j);
      var f :| f in Parts(records) && f.seqNo == k && f.off <= j < f.off + |f.body|;
      GatheredHas(kept, f, j);
    }
  }

  lemma {:induction false} KeptIsHonest(events: seq<Event>, sent: seq<Message>)
    requires Possible(events, sent)
    ensures AllHonest(After(events).kept, sent)
    decreases |events|
  {
    hide Honest, Receiver.Open, Receiver.Report, Receiver.Next, Packed;
    if events != [] {
      KeptIsHonest(events[..|events| - 1], sent);
      var r := After(events[..|events| - 1]);
      match events[|events| - 1] {
        case Arrive(frags, _, _) => WindowedIsHonest(frags, r.count, sent);
        case Release =>
      }
    }
  }

  lemma {:induction false} WindowedIsHonest(frags: seq<Fragment>, n: nat, sent: seq<Message>)
    requires AllHonest(frags, sent)
    ensures AllHonest(Windowed(frags, n), sent)
  {
    if frags != [] {
      HonestRest(frags, sent);
      WindowedIsHonest(frags[1..], n, sent);
    }
  }

  lemma HonestRest(frags: seq<Fragment>, sent: seq<Message>)
    requires frags != [] && AllHonest(frags, sent)
    ensures Honest(frags[0], sent) && AllHonest(frags[1..], sent)
  {
    assert Honest(frags[0], sent);
  }

  // ---- From one end to the other ----

  lemma FitsTheHeader(s: Sender)
    requires s.Hashed() && |s.sent| < Receiver.SEQS
    ensures Sendable(s.sent)
  {
  }

  /**
   * Both transcripts hash the same bytes. Whatever a receiver that refuses nothing takes from the network, what
   * it has released are the sender's first messages as they were built, and joined together they are a
   * prefix of what the sender hashed.
   */
  lemma SameBytesHashed(s: Sender, events: seq<Event>)
    requires s.Valid() && |s.sent| < Receiver.SEQS
    requires Accepted(events) && DrawnFrom(events, s.wire)
    ensures var r := After(events);
            r.count <= |s.sent| && r.released == RawMessages(s.sent, r.count) && Joined(r.released) <= s.transcript
  {
    hide Walk, FlightOf, Accepted, DrawnFrom, Possible, After, AllHonest, RawMessages, Joined, AllWellFormed;
    AcceptedIsPossible(events, s.wire, s.sent);
    FitsTheHeader(s);
    Delivered(events, s.sent);
    FirstRaws(s.sent, After(events).count);
  }

  lemma FirstRaws(sent: seq<Message>, n: nat)
    requires n <= |sent|
    ensures Joined(RawMessages(sent, n)) <= HashedBytes(sent)
  {
    hide Joined, Unfragmented;
    var raws := RawMessages(sent, |sent|);
    assert raws[..n] == RawMessages(sent, n);
    JoinedPrefix(raws, n);
  }

  /** What was sealed was either taken or dropped. */
  lemma {:induction false} TakenUnlessDropped(trail: seq<Fate>, f: Fragment)
    requires f in Parts(Records(trail))
    ensures f in Parts(Taken(trail)) || f in Parts(Dropped(trail))
    decreases |trail|
  {
    hide Parts;
    if trail == [] {
      assert f in Parts([]);
    } else {
      var before, last := trail[..|trail| - 1], trail[|trail| - 1];
      PartsAdd(Records(before), [last.record]);
      PartsAdd(Taken(before), [last.record]);
      PartsAdd(Dropped(before), [last.record]);
      assert Taken(before) + [] == Taken(before) && Dropped(before) + [] == Dropped(before);
      if f in Parts(Records(before)) {
        TakenUnlessDropped(before, f);
      }
    }
  }

  /**
   * From one end to the other: when the sender is past a message of its flight and lost no record of that
   * message on the way, and what the transport took of it has arrived in the window, the receiver reports
   * the bytes that the sender built and hashed.
   */
  lemma BothEndsAgree(s: Sender, m: nat, events: seq<Event>)
    requires s.Valid() && |s.sent| < Receiver.SEQS
    requires m < s.written && m < |s.messages| && s.messages[m].Whole?
    requires Accepted(events) && DrawnFrom(events, s.wire) && s.numbers[m] == After(events).count
    requires forall f :: f in Parts(Dropped(s.trail)) ==> f.seqNo != s.numbers[m]
    requires forall f :: f in Parts(Taken(s.trail)) && f.seqNo == s.numbers[m] ==> f in After(events).kept
    ensures var report := Receiver.Report(After(events).rx);
            report.Some? && Unfragmented(report.value.typ, report.value.seqNo, report.value.body) == s.messages[m].data
  {
    AcceptedIsPossible(events, s.wire, s.sent);
    FitsTheHeader(s);
    hide Walk, Parts, Taken, Dropped, Records, Covered, Honest, AllHonest, AllWellFormed, Unfragmented, Possible, After;
    hide Accepted, DrawnFrom, Receiver.Report;
    var r := After(events);
    KeptIsHonest(events, s.sent);
    forall f | f in Parts(Records(s.trail)) && f.seqNo == s.numbers[m] ensures f in r.kept {
      TakenUnlessDropped(s.trail, f);
    }
    PassCovers(s.messages, s.sent, s.numbers, Records(s.trail), m, r.kept);
    Delivered(events, s.sent);
  }

  // ---- A whole flight ----

  /** When a pass is through and nothing was dropped in it, every message of the flight is wholly on the wire. */
  lemma FlightIsOnWire(s: Sender, k: nat)
    requires s.Valid() && |s.sent| < Receiver.SEQS && s.Place() == Pos(|s.messages|, 0) && Dropped(s.trail) == []
    requires s.first <= k < |s.sent|
    ensures Covered(s.wire, s.sent, k)
  {
    hide Walk, Parts, Taken, Dropped, Records, Covered, AllHonest, AllWellFormed, FlightOf, HashedBytes, InFlight;
    assert Holds(s.messages, s.numbers, k);
    var m :| 0 <= m < |s.messages| && s.messages[m].Whole? && s.numbers[m] == k;
    NothingDropped(s.trail);
    PassCovers(s.messages, s.sent, s.numbers, Taken(s.trail), m, s.wire);
  }

  datatype Adding = AddMessage(typ: byte, body: seq<byte>) | AddCcs

  /** The handshake messages among what is added. */
  function Added(adds: seq<Adding>): seq<Message> {
    if adds == [] then []
    else
      var last := adds[|adds| - 1];
      Added(adds[..|adds| - 1]) + if last.AddMessage? then [Message(last.typ, last.body)] else []
  }

  lemma AddedOneMore(adds: seq<Adding>, n: nat)
    requires n < |adds|
    ensures Added(adds[..n + 1])
            == Added(adds[..n]) + if adds[n].AddMessage? then [Message(adds[n].typ, adds[n].body)] else []
  {
    assert adds[..n + 1][..n] == adds[..n];
  }

  /**
   * After a flight that is complete, the next one: up to seven messages are added, none is refused, and the
   * flight is flushed, then flushed or retransmitted again as often as `again` says. Once a pass is
   * through and lost nothing, everything that was added is on the wire.
   */
  method NextFlight(s: Sender, bio: Transport, adds: seq<Adding>, again: seq<bool>) returns (result: FlightResult)
    requires s.Valid() && s.complete && 0 < |adds| <= Receiver.FLIGHT
    requires forall i :: 0 <= i < |adds| && adds[i].AddMessage? ==> |adds[i].body| < 0x100_0000
    modifies s, bio
    ensures s.Valid() && s.complete && s.sent == old(s.sent) + Added(adds) && old(s.wire) <= s.wire
    ensures result == Done && Dropped(s.trail) == [] && |s.sent| < Receiver.SEQS ==>
              forall k :: |old(s.sent)| <= k < |s.sent| ==> Covered(s.wire, s.sent, k)
  {
    hide Sender.Valid, Added, Covered, Dropped, Unfragmented;
    var i := 0;
    assert Added(adds[..0]) == [] by { NothingAdded(); }
    while i < |adds|
      invariant 0 <= i <= |adds| && s.Valid() && s.sent == old(s.sent) + Added(adds[..i]) && s.wire == old(s.wire)
      invariant if i == 0 then s.complete else !s.complete && |s.messages| == i && s.first == |old(s.sent)|
    {
      AddedOneMore(adds, i);
      var ok;
      match adds[i] {
        case AddMessage(typ, body) => ok := s.AddMessage(typ, body);
        case AddCcs => ok := s.AddChangeCipherSpec();
      }
      assert ok;
      i := i + 1;
    }
    assert adds[..|adds|] == adds;
    ghost var lost;
    result, lost := s.FlushFlight(bio);
    i := 0;
    while i < |again|
      invariant s.Valid() && s.complete && s.sent == old(s.sent) + Added(adds) && s.first == |old(s.sent)|
      invariant old(s.wire) <= s.wire
      invariant result == Done ==> s.Place() == Pos(|s.messages|, 0)
    {
      if again[i] {
        result, lost := s.Retransmit(bio);
      } else {
        result, lost := s.FlushFlight(bio);
      }
      i := i + 1;
    }
    if result == Done && Dropped(s.trail) == [] && |s.sent| < Receiver.SEQS {
      forall k | |old(s.sent)| <= k < |s.sent| ensures Covered(s.wire, s.sent, k) {
        FlightIsOnWire(s, k);
      }
    }
  }

  lemma NothingAdded()
    ensures Added([]) == []
  {
  }
}
