/** Building, sealing and writing a flight, and resuming after a packet that was not written. */
module FlightSender {
  import opened Bytes
  import opened Parsing
  import opened Words
  import opened Reassembly
  import opened Fragments
  import opened Flight
  import opened PacketAssembly
  import Receiver

  datatype FlightResult = Done | Blocked | TooSmallMtu | SealingFailed

  function Flatten(packets: seq<seq<Record>>): seq<Record> {
    if packets == [] then [] else Flatten(packets[..|packets| - 1]) + packets[|packets| - 1]
  }

  lemma FlattenAdd(packets: seq<seq<Record>>, packet: seq<Record>)
    ensures Flatten(packets + [packet]) == Flatten(packets) + packet && Flatten([]) == []
  {
    assert (packets + [packet])[..|packets|] == packets;
  }

  /** The datagram transport; what it took is remembered, and how often it refused. */
  class Transport {
    ghost var taken: seq<seq<Record>>
    ghost var refusals: nat

    constructor ()
      ensures taken == [] && refusals == 0
    {
      taken, refusals := [], 0;
    }

    /** BIO_write takes a whole packet or none of it. */
    method Write(packet: seq<Record>) returns (ret: int)
      modifies this
      ensures taken == if ret > 0 then old(taken) + [packet] else old(taken)
      ensures refusals == old(refusals) + if ret > 0 then 0 else 1
    {
      ret := *;
      if ret > 0 {
        taken := taken + [packet];
      } else {
        refusals := refusals + 1;
      }
    }

    /** BIO_flush */
    method Flush() returns (ret: int)
      modifies `refusals
      ensures refusals == old(refusals) + if ret > 0 then 0 else 1
    {
      ret := *;
      if ret <= 0 {
        refusals := refusals + 1;
      }
    }
  }

  /**
   * dtls1_init_message and dtls1_finish_message: the length is written last and then copied forward. A
   * length that 24 bits cannot hold is an error.
   */
  method BuildMessage(typ: byte, seqNo: nat, body: seq<byte>) returns (ok: bool, data: seq<byte>)
    requires seqNo < Receiver.SEQS
    ensures ok <==> |body| < 0x100_0000
    ensures ok ==> data == Unfragmented(typ, seqNo, body)
  {
    if |body| >= 0x100_0000 {
      return false, [];
    }
    var bytes := [typ] + ToBigEndian(0, 3) + ToBigEndian(seqNo, 2) + ToBigEndian(0, 3) + ToBigEndian(|body|, 3) + body;
    var msg := new byte[|bytes|](i requires 0 <= i < |bytes| => bytes[i]);
    msg[1], msg[2], msg[3] := msg[HEADER_LENGTH - 3], msg[HEADER_LENGTH - 2], msg[HEADER_LENGTH - 1];
    var len := ToBigEndian(|body|, 3);
    assert msg[..] == Unfragmented(typ, seqNo, body);
    return true, msg[..];
  }

  ghost predicate HonestWire(sent: seq<Message>, wire: seq<Fragment>) {
    |sent| < Receiver.SEQS ==> AllHonest(wire, sent)
  }

  lemma HonestWireStays(sent: seq<Message>, wire: seq<Fragment>, m: Message)
    requires HonestWire(sent, wire)
    ensures HonestWire(sent + [m], wire)
  {
    if |sent| < Receiver.SEQS {
      HonestStays(wire, sent, m);
    }
  }

  class Sender {
    var messages: seq<Outgoing>
    var complete: bool
    var written: nat
    var offset: nat
    var sealing: Sealing
    var writeSeq: nat
    var mtu: nat
    var transcript: seq<byte>            // what this side's messages feed the transcript
    var answers: seq<Answer>             // what the cipher will answer
    ghost var trail: seq<Fate>           // the records sealed in this pass over the flight
    ghost var sent: seq<Message>         // every handshake message so far
    ghost var numbers: seq<nat>          // which of them the flight holds
    ghost var first: nat                 // how many messages there were before this flight
    ghost var wire: seq<Fragment>        // every fragment the transport ever took
    ghost var faults: nat                // how often a message could not be sealed

    ghost function Place(): Pos
      reads `written, `offset
    {
      Pos(written, offset)
    }

    /** The flight and the place in it make sense. */
    ghost predicate Ready()
      reads `messages, `written, `offset, `sealing
    {
      |messages| <= Receiver.FLIGHT && AllWellFormed(messages) && sealing.Valid() && InFlight(messages, Place())
    }

    /** What was sealed in this pass leads exactly to the place the sender is at. */
    ghost predicate OnTrail()
      reads `messages, `written, `offset, `sealing, `trail
    {
      Ready() && Walk(messages, Pos(0, 0), Records(trail)) == Some(Place())
    }

    /** The flight holds the last messages of this sender, all of which were hashed as they were built. */
    ghost predicate Hashed()
      reads `messages, `writeSeq, `transcript, `sent, `numbers, `first
    {
      FlightOf(messages, sent, numbers) && HoldsFrom(messages, numbers, first, |sent|)
      && writeSeq == |sent| % Receiver.SEQS && transcript == HashedBytes(sent)
    }

    /** While message numbers do not come round again, all that went out are parts of the sender's messages. */
    ghost predicate WireIsHonest()
      reads `sent, `wire
    {
      HonestWire(sent, wire)
    }

    /** What the transport took in this pass is among all that it took. */
    ghost predicate Went()
      reads `trail, `wire
    {
      forall f :: f in Parts(Taken(trail)) ==> f in wire
    }

    ghost predicate Valid()
      reads `messages, `written, `offset, `sealing, `trail, `writeSeq, `transcript, `sent, `numbers, `first, `wire
    {
      OnTrail() && Hashed() && WireIsHonest() && Went()
    }

    constructor (mtu: nat, answers: seq<Answer>)
      ensures Valid() && messages == [] && trail == [] && !complete && transcript == [] && sent == [] && wire == []
    {
      messages, complete, written, offset, writeSeq := [], false, 0, 0, 0;
      sealing := Sealing(0, Aead(0, 0), Aead(0, 0));
      this.mtu, this.answers, transcript := mtu, answers, [];
      trail, sent, numbers, first, wire, faults := [], [], [], 0, [], 0;
    }

    /** dtls_clear_outgoing_messages */
    method Clear()
      requires Valid()
      modifies `messages, `written, `offset, `complete, `trail, `numbers, `first
      ensures Valid() && !complete && messages == [] && trail == [] && Place() == Pos(0, 0) && first == |sent|
    {
      hide ParseFragment, WellFormed, HashedBytes, HonestWire, RawMessage;
      messages, written, offset, complete, trail, numbers, first := [], 0, 0, false, [], [], |sent|;
    }

    /**
     * add_outgoing: a handshake message is hashed as it was built, not as it will be fragmented. `m` is the
     * message that `data` holds.
     */
    method AddOutgoing(isCcs: bool, data: seq<byte>, ghost m: Message) returns (ok: bool)
      requires Valid()
      requires !isCcs ==> |m.body| < 0x100_0000 && data == Unfragmented(m.typ, writeSeq, m.body)
      modifies `messages, `written, `offset, `complete, `trail, `numbers, `first, `transcript, `writeSeq, `sent
      ensures Valid()
      ensures ok <==> old(complete) || |old(messages)| < Receiver.FLIGHT
      ensures messages == (if old(complete) then [] else old(messages))
                          + if !ok then [] else if isCcs then [Ccs(sealing.epoch)] else [Whole(sealing.epoch, data)]
      ensures !complete && first == if old(complete) then |old(sent)| else old(first)
      ensures trail == if old(complete) then [] else old(trail)
      ensures if ok && !isCcs then sent == old(sent) + [m] && transcript == old(transcript) + data
              else sent == old(sent) && transcript == old(transcript)
    {
      hide Walk, InFlight, AllWellFormed, Records, FlightOf, HoldsFrom, HashedBytes, Unfragmented, HonestWire;
      hide Sender.Went;
      if complete {
        Clear();
      }
      if |messages| >= Receiver.FLIGHT {
        return false;
      }
      if isCcs {
        Queue(Ccs(sealing.epoch), m);
      } else {
        Queue(Whole(sealing.epoch, data), m);
        HashedBytesAdd(sent, m);
        NumberInHeader(m.typ, |sent|, m.body);
        HonestWireStays(sent, wire, m);
        transcript := transcript + data;
        writeSeq := (writeSeq + 1) % Receiver.SEQS;
        sent := sent + [m];
      }
      return true;
    }

    /** Puts one more at the end of the flight. */
    method Queue(msg: Outgoing, ghost m: Message)
      requires OnTrail() && |messages| < Receiver.FLIGHT && FlightOf(messages, sent, numbers)
      requires HoldsFrom(messages, numbers, first, |sent|)
      requires writeSeq == |sent| % Receiver.SEQS
      requires msg.Whole? ==> |m.body| < 0x100_0000 && msg.data == Unfragmented(m.typ, writeSeq, m.body)
      modifies `messages, `numbers
      ensures OnTrail() && messages == old(messages) + [msg]
      ensures FlightOf(messages, if msg.Ccs? then sent else sent + [m], numbers)
      ensures HoldsFrom(messages, numbers, first, if msg.Ccs? then |sent| else |sent| + 1)
    {
      hide Walk, InFlight, AllWellFormed, Records, FlightOf, HoldsFrom, Unfragmented;
      HoldsMore(messages, numbers, first, |sent|, msg, if msg.Ccs? then 0 else |sent|);
      FlightGrows(messages, sent, numbers, msg, m, writeSeq);
      LongerFlight(messages, msg, Records(trail));
      numbers := numbers + [if msg.Ccs? then 0 else |sent|];
      messages := messages + [msg];
    }

    /** init_message, finish_message and dtls1_add_message */
    method AddMessage(typ: byte, body: seq<byte>) returns (ok: bool)
      requires Valid()
      modifies `messages, `written, `offset, `complete, `trail, `numbers, `first, `transcript, `writeSeq, `sent
      ensures Valid()
      ensures ok <==> |body| < 0x100_0000 && (old(complete) || |old(messages)| < Receiver.FLIGHT)
      ensures ok ==> sent == old(sent) + [Message(typ, body)]
      ensures ok ==> !complete && first == if old(complete) then |old(sent)| else old(first)
      ensures ok ==> messages == (if old(complete) then [] else old(messages))
                                 + [Whole(sealing.epoch, Unfragmented(typ, old(writeSeq), body))]
      ensures !ok ==> sent == old(sent) && transcript == old(transcript)
      ensures |body| >= 0x100_0000 ==> messages == old(messages) && complete == old(complete)
    {
      var data;
      ok, data := BuildMessage(typ, writeSeq, body);
      if ok {
        ok := AddOutgoing(false, data, Message(typ, body));
      }
    }

    /** dtls1_add_change_cipher_spec */
    method AddChangeCipherSpec() returns (ok: bool)
      requires Valid()
      modifies `messages, `written, `offset, `complete, `trail, `numbers, `first, `transcript, `writeSeq, `sent
      ensures Valid() && (ok <==> old(complete) || |old(messages)| < Receiver.FLIGHT)
      ensures !complete && first == if old(complete) then |old(sent)| else old(first)
      ensures ok ==> messages == (if old(complete) then [] else old(messages)) + [Ccs(sealing.epoch)]
      ensures sent == old(sent) && transcript == old(transcript)
    {
      ok := AddOutgoing(true, [], Message(0, []));
    }

    /** dtls_seal_record, which succeeds as the cipher answers */
    method Seal(a: Aead, inLen: nat, maxOut: nat) returns (len: Option<nat>)
      modifies `answers
      ensures len == SealedLength(a, inLen, maxOut, FirstAnswer(old(answers))) && answers == OtherAnswers(old(answers))
    {
      len := None;
      if answers != [] {
        var answer := answers[0];
        if answer.Some? && a.explicitNonce + answer.value <= a.maxOverhead
           && RECORD_HEADER + a.explicitNonce + inLen + answer.value <= maxOut {
          len := Some(RECORD_HEADER + a.explicitNonce + inLen + answer.value);
        }
        answers := answers[1..];
      }
    }

    /** seal_next_message */
    method SealNextMessage(maxOut: nat) returns (r: SealResult, record: Record)
      requires Ready() && written < |messages|
      modifies `offset, `answers, `faults
      ensures Step(r, record, Pos(if r == Success then written + 1 else written, offset), answers)
              == SealStep(sealing, messages, old(Place()), maxOut, old(answers))
      ensures r == Success ==> offset == 0
      ensures faults == old(faults) + if r == SealError then 1 else 0
    {
      hide ParseFragment, HeaderBytes;
      record := NO_RECORD;
      var msg := messages[written];
      var a := sealing.current;
      if sealing.epoch >= 1 && msg.epoch == sealing.epoch - 1 {
        a := sealing.previous;
      } else if msg.epoch != sealing.epoch {
        faults := faults + 1;
        return SealError, record;
      }
      var overhead, prefix := RECORD_HEADER + a.maxOverhead, RECORD_HEADER + a.explicitNonce;
      if msg.Ccs? {
        if maxOut < 1 + overhead {
          return NoProgress, record;
        }
        var len := Seal(a, 1, maxOut);
        if len.None? {
          faults := faults + 1;
        return SealError, record;
        }
        offset := 0;
        return Success, Record(msg.epoch, CcsPiece, len.value);
      }
      var parsed := ParseFragment(msg.data);
      assert WellFormed(msg);
      var hdr := parsed.value;
      if maxOut < HEADER_LENGTH + 1 + overhead || maxOut < prefix {
        return NoProgress, record;
      }
      var body := hdr.body[offset..];
      var todo := |body|;
      if todo > maxOut - HEADER_LENGTH - overhead {
        todo := maxOut - HEADER_LENGTH - overhead;
      }
      var frag := Fragment(hdr.typ, hdr.msgLen, hdr.seqNo, offset, body[..todo]);
      assert |Wire(frag)| <= maxOut - prefix;   // it fits where it is assembled
      assert frag.body == hdr.body[offset..offset + todo];
      var len := Seal(a, |Wire(frag)|, maxOut);
      if len.None? {
        faults := faults + 1;
        return SealError, record;
      }
      record := Record(msg.epoch, Part(frag), len.value);
      if todo == |body| {
        offset := 0;
        return Success, record;
      }
      offset := offset + todo;
      return Partial, record;
    }

    /** seal_next_packet */
    method SealNextPacket(maxOut: nat) returns (r: PacketResult, packet: seq<Record>)
      requires Ready() && written < |messages|
      modifies `written, `offset, `answers, `faults
      ensures Ready() && faults == old(faults) + if r == SealFailed then 1 else 0
      ensures Attempt(r, packet, Place(), answers) == PacketFrom(sealing, messages, old(Place()), maxOut, old(answers))
    {
      hide ParseFragment, AllWellFormed, SealStep, Flight.Next, Walk;
      packet := [];
      var left := maxOut;
      ghost var all := Assemble(sealing, messages, Place(), maxOut, answers);
      while written < |messages|
        invariant Ready() && left >= 0 && faults == old(faults)
        invariant all == Then(packet, Assemble(sealing, messages, Place(), left, answers))
        decreases |messages| - written
      {
        StepFollows(sealing, messages, Place(), left, answers);
        ghost var place, heard := Place(), answers;
        var sealed, record := SealNextMessage(left);
        if sealed == SealError {
          assert packet + [] == packet;
          assert all == Attempt(SealFailed, packet, Place(), answers);
          return SealFailed, packet;
        }
        if sealed == NoProgress {
          assert packet + [] == packet;
          assert all == Attempt(Sealed, packet, Place(), answers);
          break;
        }
        ghost var before := packet;
        packet := packet + [record];
        left := left - record.len;
        if sealed == Partial {
          assert all == Attempt(Sealed, packet, Place(), answers);
          break;
        }
        written := written + 1;
        ThenTwice(before, [record], Assemble(sealing, messages, Place(), left, answers));
      }
      assert packet + [] == packet;
      assert all == Attempt(Sealed, packet, Place(), answers);
      r := if packet == [] then TooSmall else Sealed;
    }

    lemma ThenTwice(a: seq<Record>, b: seq<Record>, rest: Attempt)
      ensures Then(a, Then(b, rest)) == Then(a + b, rest)
    {
    }

    /** How much of the next message is left. */
    ghost function Remaining(): nat
      reads `messages, `written, `offset, `sealing
    {
      if Ready() && written < |messages| && messages[written].Whole?
        then |AsFragment(messages[written]).body| - offset else 0
    }

    /**
     * One turn of the loop of send_flight: a packet that the transport takes, or the place stays, or, when
     * the cipher fails, the place moves past the records that are lost.
     */
    method SendPacket(bio: Transport) returns (result: FlightResult, ghost packet: seq<Record>)
      requires Valid() && written < |messages|
      modifies `written, `offset, `answers, `faults, `trail, `wire, bio
      ensures Valid()
      ensures result == Done ==>
                packet != [] && PacketLength(packet) <= mtu && bio.taken == old(bio.taken) + [packet]
                && wire == old(wire) + Parts(packet) && trail == old(trail) + Fates(packet, true)
      ensures result == Done ==> written > old(written) || (written == old(written) && Remaining() < old(Remaining()))
      ensures result != Done ==> bio.taken == old(bio.taken) && wire == old(wire)
      ensures result == SealingFailed ==> trail == old(trail) + Fates(packet, false)
      ensures result == Blocked || result == TooSmallMtu ==> trail == old(trail) && Place() == old(Place())
      ensures result == TooSmallMtu ==> mtu < Need(sealing, messages, Place())
      ensures result == SealingFailed ==>
                PacketFrom(sealing, messages, old(Place()), mtu, old(answers)).result == SealFailed
      ensures bio.refusals == old(bio.refusals) + if result == Blocked then 1 else 0
      ensures faults == old(faults) + if result == SealingFailed then 1 else 0
    {
      hide Walk, AllWellFormed, PacketLength, ParseFragment, PacketFrom, Records, Fates, Parts, Sender.Hashed,
           Sender.WireIsHonest, Sender.Went;
      ghost var start, heard := Place(), answers;
      var oldWritten, oldOffset := written, offset;
      var sealed, sealedPacket := SealNextPacket(mtu);
      packet := sealedPacket;
      PacketFollows(sealing, messages, start, mtu, heard);
      if sealed == TooSmall {
        return TooSmallMtu, packet;
      }
      if sealed == SealFailed {
        Note(packet, start, false);
        return SealingFailed, packet;
      }
      var ret := bio.Write(sealedPacket);
      if ret <= 0 {
        written, offset := oldWritten, oldOffset;
        return Blocked, packet;
      }
      Moved(packet, start);
      Note(packet, start, true);
      return Done, packet;
    }

    /** Records a packet that was sealed, and what became of it. */
    ghost method Note(packet: seq<Record>, start: Pos, taken: bool)
      requires Ready() && Hashed() && WireIsHonest() && Went()
      requires Walk(messages, Pos(0, 0), Records(trail)) == Some(start)
      requires Walk(messages, start, packet) == Some(Place())
      modifies `trail, `wire
      ensures Valid() && trail == old(trail) + Fates(packet, taken)
      ensures wire == old(wire) + if taken then Parts(packet) else []
    {
      hide Walk, AllWellFormed, InFlight, Records, Taken, Dropped, Fates, Parts, Sender.Hashed, HonestWire;
      Leads(packet, start);
      FatesOf(trail, packet, taken);
      assert Taken(trail) + [] == Taken(trail);
      if taken {
        Goes(packet);
        PartsAdd(Taken(trail), packet);
        wire := wire + Parts(packet);
      }
      trail := trail + Fates(packet, taken);
    }

    /** A packet moves the sender on. */
    lemma Moved(packet: seq<Record>, start: Pos)
      requires Ready() && InFlight(messages, start) && packet != [] && Walk(messages, start, packet) == Some(Place())
      ensures written > start.written || (written == start.written && offset > start.offset)
      ensures written == start.written && start.written < |messages| ==>
                messages[start.written].Whole? && offset < |AsFragment(messages[start.written]).body|
    {
      hide Walk, ParseFragment;
      WalkAdvances(messages, start, packet);
    }

    /**
     * send_flight; the maximum packet size may have changed since the last call. `lost` are records that
     * were sealed when the cipher failed in the middle of a packet.
     */
    method SendFlight(bio: Transport) returns (result: FlightResult, ghost lost: seq<Record>)
      requires Valid()
      modifies `written, `offset, `answers, `faults, `trail, `wire, bio
      ensures Valid()
      ensures result == Done ==> Place() == Pos(|messages|, 0)
      ensures result != SealingFailed ==> lost == []
      ensures bio.refusals == old(bio.refusals) + if result == Blocked then 1 else 0
      ensures faults == old(faults) + if result == SealingFailed then 1 else 0
      ensures result == TooSmallMtu ==> written < |messages| && mtu < Need(sealing, messages, Place())
      ensures |old(bio.taken)| <= |bio.taken| && bio.taken[..|old(bio.taken)|] == old(bio.taken)
      ensures var took := Flatten(bio.taken[|old(bio.taken)|..]);
              Records(trail) == Records(old(trail)) + took + lost && Taken(trail) == Taken(old(trail)) + took
              && Dropped(trail) == Dropped(old(trail)) + lost && wire == old(wire) + Parts(took)
      ensures forall i :: |old(bio.taken)| <= i < |bio.taken| ==>
                bio.taken[i] != [] && PacketLength(bio.taken[i]) <= mtu
    {
      hide Flatten, PacketLength, PacketFrom, Need, Records, Taken, Dropped, Parts, Fates;
      hide Sender.Valid, Sender.Remaining;
      ghost var n := |bio.taken|;
      ghost var took: seq<Record> := [];
      lost := [];
      FlattenAdd([], []);
      Nothing(trail, wire);
      assert bio.taken[n..] == [];
      while written < |messages|
        invariant bio.refusals == old(bio.refusals) && faults == old(faults)
        invariant Valid() && n <= |bio.taken| && bio.taken[..n] == old(bio.taken) && took == Flatten(bio.taken[n..])
        invariant Records(trail) == Records(old(trail)) + took && Taken(trail) == Taken(old(trail)) + took
        invariant Dropped(trail) == Dropped(old(trail)) && wire == old(wire) + Parts(took)
        invariant forall i :: n <= i < |bio.taken| ==> bio.taken[i] != [] && PacketLength(bio.taken[i]) <= mtu
        decreases |messages| - written, Remaining()
      {
        ghost var before, was := bio.taken, trail;
        ghost var packet;
        result, packet := SendPacket(bio);
        if result != Done {
          if result == SealingFailed {
            FatesOf(was, packet, false);
            lost := packet;
          }
          Nothing(was, wire);
          assert Records(trail) + [] == Records(trail) && Records(was) + lost == Records(old(trail)) + took + lost;
          return result, lost;
        }
        FatesOf(was, packet, true);
        assert bio.taken[n..] == before[n..] + [packet];
        FlattenAdd(before[n..], packet);
        PartsAdd(took, packet);
        took := took + packet;
      }
      AtEnd();
      var flushed := bio.Flush();
      return if flushed <= 0 then Blocked else Done, lost;
    }

    lemma AtEnd()
      requires Valid() && written >= |messages|
      ensures Place() == Pos(|messages|, 0)
    {
    }

    lemma Nothing(trail: seq<Fate>, wire: seq<Fragment>)
      ensures Records(trail) + [] == Records(trail) && Taken(trail) + [] == Taken(trail)
      ensures Dropped(trail) + [] == Dropped(trail)
      ensures wire + Parts([]) == wire
    {
    }

    /** A packet that leads from the end of the trail to the place makes the trail longer. */
    lemma Leads(packet: seq<Record>, start: Pos)
      requires AllWellFormed(messages) && Walk(messages, Pos(0, 0), Records(trail)) == Some(start)
      requires Walk(messages, start, packet) == Some(Place())
      ensures Walk(messages, Pos(0, 0), Records(trail) + packet) == Some(Place())
    {
      hide Walk, AllWellFormed, Records;
      WalkOn(messages, Pos(0, 0), Records(trail), packet);
    }

    /** The fragments of a packet that goes out are parts of the sender's messages. */
    lemma Goes(packet: seq<Record>)
      requires Hashed() && WireIsHonest() && AllWellFormed(messages)
      requires Walk(messages, Pos(0, 0), Records(trail) + packet).Some?
      ensures HonestWire(sent, wire + Parts(packet))
    {
      hide Walk, AllWellFormed, Records, Parts, Honest;
      if |sent| < Receiver.SEQS {
        SentIsHonest(messages, sent, numbers, Records(trail) + packet);
        PartsAdd(Records(trail), packet);
        var all, parts, more := Parts(Records(trail) + packet), Parts(packet), wire + Parts(packet);
        assert all == Parts(Records(trail)) + parts;
        forall i | 0 <= i < |more| ensures Honest(more[i], sent) {
          if i >= |wire| {
            assert more[i] == all[|Parts(Records(trail))| + (i - |wire|)];
          }
        }
      }
    }

    /** dtls1_flush_flight */
    method FlushFlight(bio: Transport) returns (result: FlightResult, ghost lost: seq<Record>)
      requires Valid()
      modifies `complete, `written, `offset, `answers, `faults, `trail, `wire, bio
      ensures Valid() && complete && old(wire) <= wire
      ensures result == Done ==> Place() == Pos(|messages|, 0)
      ensures result != SealingFailed ==> lost == []
      ensures bio.refusals == old(bio.refusals) + if result == Blocked then 1 else 0
      ensures faults == old(faults) + if result == SealingFailed then 1 else 0
      ensures result == TooSmallMtu ==> written < |messages| && mtu < Need(sealing, messages, Place())
      ensures Dropped(trail) == Dropped(old(trail)) + lost
    {
      complete := true;
      result, lost := SendFlight(bio);
    }

    /** dtls1_retransmit_outgoing_messages: a new pass from the start of the flight. */
    method Retransmit(bio: Transport) returns (result: FlightResult, ghost lost: seq<Record>)
      requires Valid()
      modifies `written, `offset, `answers, `faults, `trail, `wire, bio
      ensures Valid() && old(wire) <= wire
      ensures result == Done ==> Place() == Pos(|messages|, 0)
      ensures |old(bio.taken)| <= |bio.taken| && Taken(trail) == Flatten(bio.taken[|old(bio.taken)|..])
      ensures Dropped(trail) == lost
      ensures result != SealingFailed ==> lost == []
      ensures bio.refusals == old(bio.refusals) + if result == Blocked then 1 else 0
      ensures faults == old(faults) + if result == SealingFailed then 1 else 0
      ensures result == TooSmallMtu ==> written < |messages| && mtu < Need(sealing, messages, Place())
    {
      hide ParseFragment, AllWellFormed, PacketLength, Need, Flatten, Sender.Hashed, Sender.WireIsHonest;
      written, offset, trail := 0, 0, [];
      result, lost := SendFlight(bio);
    }

    /** What the transport took in this pass leads to the place of the sender exactly when nothing was lost in it. */
    lemma PlaceIsTakenIff()
      requires Valid()
      ensures Walk(messages, Pos(0, 0), Taken(trail)) == Some(Place()) <==> Dropped(trail) == []
    {
      AgreesIffNothingDropped(messages, trail, Place());
    }
  }

  lemma PartsAdd(a: seq<Record>, b: seq<Record>)
    ensures Parts(a + b) == Parts(a) + Parts(b)
    decreases |b|
  {
    if b == [] {
      assert a + b == a;
    } else {
      assert (a + b)[..|a + b| - 1] == a + b[..|b| - 1];
      PartsAdd(a, b[..|b| - 1]);
    }
  }
}
