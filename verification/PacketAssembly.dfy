/** How a flight is cut into packets: what one packet holds, given what the cipher answers. */
module PacketAssembly {
  import opened Parsing
  import opened Reassembly
  import opened Fragments
  import opened Flight

  /** The lengths that sealing in one epoch adds: before the plaintext, and at most in all. */
  datatype Aead = Aead(explicitNonce: nat, maxOverhead: nat)

  /** The write epoch, and the ciphers of this epoch and the one before. */
  datatype Sealing = Sealing(epoch: nat, current: Aead, previous: Aead) {
    predicate Valid() {
      current.explicitNonce <= current.maxOverhead && previous.explicitNonce <= previous.maxOverhead
    }

    /** Only the current and the previous epoch can be sealed for. */
    function For(epoch: nat): Option<Aead> {
      if this.epoch >= 1 && epoch == this.epoch - 1 then Some(previous)
      else if epoch == this.epoch then Some(current)
      else None
    }
  }

  /** What the cipher answers when asked to seal: how many bytes follow the ciphertext, or nothing when it fails. */
  type Answer = Option<nat>

  function FirstAnswer(answers: seq<Answer>): Answer {
    if answers == [] then None else answers[0]
  }

  function OtherAnswers(answers: seq<Answer>): seq<Answer> {
    if answers == [] then [] else answers[1..]
  }

  /** The length of a sealed record, if it is sealed and fits. */
  function SealedLength(a: Aead, inLen: nat, maxOut: nat, answer: Answer): (len: Option<nat>)
    ensures len.Some? ==> RECORD_HEADER + a.explicitNonce + inLen <= len.value <= maxOut
    ensures len.Some? ==> len.value <= RECORD_HEADER + inLen + a.maxOverhead
  {
    if answer.Some? && a.explicitNonce + answer.value <= a.maxOverhead
       && RECORD_HEADER + a.explicitNonce + inLen + answer.value <= maxOut
    then Some(RECORD_HEADER + a.explicitNonce + inLen + answer.value)
    else None
  }

  datatype SealResult = SealError | NoProgress | Partial | Success

  /** One call of seal_next_message: its result, the record sealed if any, the new place and the answers left. */
  datatype Step = Step(result: SealResult, record: Record, pos: Pos, answers: seq<Answer>)

  const NO_RECORD := Record(0, CcsPiece, 0)

  /** How many bytes of the next message go into a record. */
  function Todo(left: nat, maxOut: nat, overhead: nat): nat
    requires maxOut >= HEADER_LENGTH + overhead
  {
    if left > maxOut - HEADER_LENGTH - overhead then maxOut - HEADER_LENGTH - overhead else left
  }

  /** seal_next_message */
  function SealStep(env: Sealing, msgs: seq<Outgoing>, pos: Pos, maxOut: nat, answers: seq<Answer>): Step
    requires env.Valid() && AllWellFormed(msgs) && InFlight(msgs, pos) && pos.written < |msgs|
  {
    var msg := msgs[pos.written];
    var cipher := env.For(msg.epoch);
    if cipher.None? then Step(SealError, NO_RECORD, pos, answers)
    else
      var overhead := RECORD_HEADER + cipher.value.maxOverhead;
      if msg.Ccs? then
        if maxOut < 1 + overhead then Step(NoProgress, NO_RECORD, pos, answers)
        else
          var len := SealedLength(cipher.value, 1, maxOut, FirstAnswer(answers));
          if len.None? then Step(SealError, NO_RECORD, pos, OtherAnswers(answers))
          else Step(Success, Record(msg.epoch, CcsPiece, len.value), Pos(pos.written + 1, 0), OtherAnswers(answers))
      else if maxOut < HEADER_LENGTH + 1 + overhead then Step(NoProgress, NO_RECORD, pos, answers)
      else
        var whole := AsFragment(msg);
        var left := |whole.body| - pos.offset;
        var todo := Todo(left, maxOut, overhead);
        var part := whole.(off := pos.offset, body := whole.body[pos.offset..pos.offset + todo]);
        var len := SealedLength(cipher.value, HEADER_LENGTH + todo, maxOut, FirstAnswer(answers));
        if len.None? then Step(SealError, NO_RECORD, pos, OtherAnswers(answers))
        else
          var record := Record(msg.epoch, Part(part), len.value);
          if todo == left then Step(Success, record, Pos(pos.written + 1, 0), OtherAnswers(answers))
          else Step(Partial, record, Pos(pos.written, pos.offset + todo), OtherAnswers(answers))
  }

  /** How much room the message at a place needs at least, when it can be sealed at all. */
  function Need(env: Sealing, msgs: seq<Outgoing>, pos: Pos): nat
    requires pos.written < |msgs|
  {
    var msg := msgs[pos.written];
    var cipher := env.For(msg.epoch);
    (if msg.Ccs? then 1 else HEADER_LENGTH + 1) + RECORD_HEADER + if cipher.Some? then cipher.value.maxOverhead else 0
  }

  /** A step seals exactly the next bytes, as many as there is room for, and otherwise moves nothing. */
  lemma StepFollows(env: Sealing, msgs: seq<Outgoing>, pos: Pos, maxOut: nat, answers: seq<Answer>)
    requires env.Valid() && AllWellFormed(msgs) && InFlight(msgs, pos) && pos.written < |msgs|
    ensures var s := SealStep(env, msgs, pos, maxOut, answers);
            if s.result == SealError || s.result == NoProgress then s.pos == pos
            else Next(msgs, pos, s.record) == Some(s.pos) && 0 < s.record.len <= maxOut
    ensures SealStep(env, msgs, pos, maxOut, answers).result == NoProgress ==> maxOut < Need(env, msgs, pos)
    ensures SealStep(env, msgs, pos, maxOut, answers).result == Partial ==>
              var s := SealStep(env, msgs, pos, maxOut, answers);
              s.pos.offset > 0 && s.record.piece.Part? && Need(env, msgs, pos) - 1 + |s.record.piece.f.body| == maxOut
    ensures SealStep(env, msgs, pos, maxOut, answers).result == Success ==>
              SealStep(env, msgs, pos, maxOut, answers).pos == Pos(pos.written + 1, 0)
    ensures InFlight(msgs, SealStep(env, msgs, pos, maxOut, answers).pos)
  {
    hide ParseFragment;
    assert WellFormed(msgs[pos.written]);
  }

  // ---- Packets ----

  datatype PacketResult = Sealed | TooSmall | SealFailed

  /** One call of seal_next_packet; on a seal failure `packet` are the records already sealed, which are lost. */
  datatype Attempt = Attempt(result: PacketResult, packet: seq<Record>, pos: Pos, answers: seq<Answer>)

  /** The loop of seal_next_packet from a place on. */
  function Assemble(env: Sealing, msgs: seq<Outgoing>, pos: Pos, left: nat, answers: seq<Answer>): Attempt
    requires env.Valid() && AllWellFormed(msgs) && InFlight(msgs, pos)
    decreases |msgs| - pos.written
  {
    if pos.written == |msgs| then Attempt(Sealed, [], pos, answers)
    else
      StepFollows(env, msgs, pos, left, answers);
      var s := SealStep(env, msgs, pos, left, answers);
      match s.result
      case SealError => Attempt(SealFailed, [], pos, s.answers)
      case NoProgress => Attempt(Sealed, [], pos, s.answers)
      case Partial => Attempt(Sealed, [s.record], s.pos, s.answers)
      case Success => Then([s.record], Assemble(env, msgs, s.pos, left - s.record.len, s.answers))
  }

  function Then(packet: seq<Record>, a: Attempt): Attempt {
    a.(packet := packet + a.packet)
  }

  /** seal_next_packet: a packet without any record means that the maximum size is too small. */
  function PacketFrom(env: Sealing, msgs: seq<Outgoing>, pos: Pos, maxOut: nat, answers: seq<Answer>): Attempt
    requires env.Valid() && AllWellFormed(msgs) && InFlight(msgs, pos) && pos.written < |msgs|
  {
    var a := Assemble(env, msgs, pos, maxOut, answers);
    if a.result == Sealed && a.packet == [] then a.(result := TooSmall) else a
  }

  function PacketLength(packet: seq<Record>): nat {
    if packet == [] then 0 else packet[0].len + PacketLength(packet[1..])
  }

  lemma {:induction false} PacketLengthAdd(packet: seq<Record>, r: Record)
    ensures PacketLength(packet + [r]) == PacketLength(packet) + r.len
    decreases |packet|
  {
    if packet == [] {
      assert [r][1..] == [];
      assert PacketLength([r][1..]) == 0;
    } else {
      assert (packet + [r])[1..] == packet[1..] + [r];
      PacketLengthAdd(packet[1..], r);
    }
  }

  /**
   * Whatever the cipher answers, the records sealed lead exactly from the old place to the new one, also
   * when sealing fails in the middle; they fit; and a packet ends only for want of room.
   */
  lemma {:induction false} AssembleFollows(env: Sealing, msgs: seq<Outgoing>, pos: Pos, left: nat, answers: seq<Answer>)
    requires env.Valid() && AllWellFormed(msgs) && InFlight(msgs, pos)
    ensures var a := Assemble(env, msgs, pos, left, answers);
            Walk(msgs, pos, a.packet) == Some(a.pos) && InFlight(msgs, a.pos) && PacketLength(a.packet) <= left
            && a.result != TooSmall
    ensures var a := Assemble(env, msgs, pos, left, answers);
            a.result == Sealed && a.pos.written < |msgs| ==>
              a.pos.offset > 0 || left - PacketLength(a.packet) < Need(env, msgs, a.pos)
    decreases |msgs| - pos.written
  {
    hide SealStep, Next, AllWellFormed, ParseFragment, Need;
    WalkFirst(msgs, pos, NO_RECORD);
    if pos.written < |msgs| {
      StepFollows(env, msgs, pos, left, answers);
      var s := SealStep(env, msgs, pos, left, answers);
      WalkFirst(msgs, pos, s.record);
      assert [s.record][1..] == [];
      assert PacketLength([s.record]) == s.record.len;
      if s.result == Success {
        var more := Assemble(env, msgs, s.pos, left - s.record.len, s.answers);
        AssembleFollows(env, msgs, s.pos, left - s.record.len, s.answers);
        WalkOn(msgs, pos, [s.record], more.packet);
        assert ([s.record] + more.packet)[1..] == more.packet;
      }
    }
  }

  lemma WalkFirst(msgs: seq<Outgoing>, pos: Pos, r: Record)
    requires AllWellFormed(msgs)
    ensures Walk(msgs, pos, [r]) == Next(msgs, pos, r) && Walk(msgs, pos, []) == Some(pos)
  {
    hide Next, AllWellFormed;
    assert [r][..0] == [];
    assert Walk(msgs, pos, [r][..0]) == Some(pos);
  }

  /** What a packet does to the place, in each of the three outcomes. */
  lemma PacketFollows(env: Sealing, msgs: seq<Outgoing>, pos: Pos, maxOut: nat, answers: seq<Answer>)
    requires env.Valid() && AllWellFormed(msgs) && InFlight(msgs, pos) && pos.written < |msgs|
    ensures var a := PacketFrom(env, msgs, pos, maxOut, answers);
            Walk(msgs, pos, a.packet) == Some(a.pos) && InFlight(msgs, a.pos) && PacketLength(a.packet) <= maxOut
            && (a.result == Sealed ==> a.packet != [])
            && (a.result == TooSmall ==> a.pos == pos && a.packet == [] && maxOut < Need(env, msgs, pos))
    ensures var a := PacketFrom(env, msgs, pos, maxOut, answers);
            a.result == Sealed && a.pos.written < |msgs| ==>
              a.pos.offset > 0 || maxOut - PacketLength(a.packet) < Need(env, msgs, a.pos)
  {
    AssembleFollows(env, msgs, pos, maxOut, answers);
    WalkFirst(msgs, pos, NO_RECORD);
    hide Walk, Next, SealStep, AllWellFormed, ParseFragment;
    var a := PacketFrom(env, msgs, pos, maxOut, answers);
    if a.result == TooSmall {
      StepFollows(env, msgs, pos, maxOut, answers);
    }
  }

  // ---- A flight that loses a message ----

  const PLAIN := Sealing(0, Aead(0, 0), Aead(0, 0))
  const MIN_MTU: nat := 228   // kMinMTU

  function Short(seqNo: nat): Fragment {
    Fragment(20, 1, seqNo, 0, [7])
  }

  function ShortMessage(seqNo: nat): Outgoing {
    Whole(0, Unfragmented(20, seqNo, [7]))
  }

  function ShortRecord(seqNo: nat): Record {
    Record(0, Part(Short(seqNo)), 26)
  }

  /** What sealing does with one of these messages when the cipher succeeds, and when it fails. */
  lemma ShortStep(msgs: seq<Outgoing>, n: nat, maxOut: nat, answers: seq<Answer>)
    requires AllWellFormed(msgs) && n < |msgs| && n < 0x1_0000 && msgs[n] == ShortMessage(n) && maxOut >= 26
    requires InFlight(msgs, Pos(n, 0)) && answers != [] && (answers[0] == Some(0) || answers[0] == None)
    ensures SealStep(PLAIN, msgs, Pos(n, 0), maxOut, answers)
            == if answers[0] == None then Step(SealError, NO_RECORD, Pos(n, 0), answers[1..])
               else Step(Success, ShortRecord(n), Pos(n + 1, 0), answers[1..])
  {
    hide ParseFragment, HeaderBytes;
    BuiltIsWellFormed(20, n, [7], 0);
    assert AsFragment(msgs[n]) == Short(n);
    assert [7][0..1] == [7];
  }

  /**
   * Two messages, and a cipher that fails on the second: seal_next_packet gives up, but the sender stays
   * past the first message. Called again, it writes the second and is done, and the transport never gets
   * the first.
   */
  lemma SecondSealFails()
    ensures var msgs := [ShortMessage(0), ShortMessage(1)];
            AllWellFormed(msgs) && InFlight(msgs, Pos(0, 0)) && InFlight(msgs, Pos(1, 0))
            && PacketFrom(PLAIN, msgs, Pos(0, 0), MIN_MTU, [Some(0), None])
               == Attempt(SealFailed, [ShortRecord(0)], Pos(1, 0), [])
            && PacketFrom(PLAIN, msgs, Pos(1, 0), MIN_MTU, [Some(0)])
              == Attempt(Sealed, [ShortRecord(1)], Pos(2, 0), [])
    ensures var msgs := [ShortMessage(0), ShortMessage(1)];
            var trail := [Fate(ShortRecord(0), false), Fate(ShortRecord(1), true)];
            AllWellFormed(msgs) && Walk(msgs, Pos(0, 0), Records(trail)) == Some(Pos(2, 0))
            && Walk(msgs, Pos(0, 0), Taken(trail)) != Some(Pos(2, 0)) && Carried(Taken(trail), 0, 0) == 0
  {
    hide ParseFragment, HeaderBytes, SealStep, Next, Walk, AsFragment;
    var msgs := [ShortMessage(0), ShortMessage(1)];
    BuiltIsWellFormed(20, 0, [7], 0);
    BuiltIsWellFormed(20, 1, [7], 0);
    var answers: seq<Answer> := [Some(0), None];
    ShortStep(msgs, 0, MIN_MTU, answers);
    assert answers[1..] == [None];
    ShortStep(msgs, 1, MIN_MTU - 26, [None]);
    var failure: seq<Answer> := [None];
    assert failure[1..] == [];
    ShortStep(msgs, 1, MIN_MTU, [Some(0)]);
    assert [Some(0)][1..] == [];
    LostPass(msgs);
  }

  lemma LostPass(msgs: seq<Outgoing>)
    requires AllWellFormed(msgs) && msgs == [ShortMessage(0), ShortMessage(1)]
    ensures var trail := [Fate(ShortRecord(0), false), Fate(ShortRecord(1), true)];
            Walk(msgs, Pos(0, 0), Records(trail)) == Some(Pos(2, 0))
            && Walk(msgs, Pos(0, 0), Taken(trail)) != Some(Pos(2, 0)) && Carried(Taken(trail), 0, 0) == 0
  {
    var first, second := Fate(ShortRecord(0), false), Fate(ShortRecord(1), true);
    FateAdded([], first);
    FateAdded([first], second);
    assert [] + [first] == [first] && [first] + [second] == [first, second];
    assert [ShortRecord(0)] + [ShortRecord(1)] == [ShortRecord(0), ShortRecord(1)];
    hide Walk, Records, Taken, Dropped;
    ShortWalk(msgs);
    AgreesIffNothingDropped(msgs, [first, second], Pos(2, 0));
    CarriedOther();
  }

  lemma ShortWalk(msgs: seq<Outgoing>)
    requires AllWellFormed(msgs) && msgs == [ShortMessage(0), ShortMessage(1)]
    ensures Walk(msgs, Pos(0, 0), [ShortRecord(0), ShortRecord(1)]) == Some(Pos(2, 0))
  {
    hide ParseFragment, HeaderBytes, Walk;
    BuiltIsWellFormed(20, 0, [7], 0);
    BuiltIsWellFormed(20, 1, [7], 0);
    assert [7][0..1] == [7];
    WalkFirst(msgs, Pos(0, 0), ShortRecord(0));
    WalkFirst(msgs, Pos(1, 0), ShortRecord(1));
    WalkOn(msgs, Pos(0, 0), [ShortRecord(0)], [ShortRecord(1)]);
    assert [ShortRecord(0)] + [ShortRecord(1)] == [ShortRecord(0), ShortRecord(1)];
  }

  lemma CarriedOther()
    ensures Carried([ShortRecord(1)], 0, 0) == 0
  {
    assert [ShortRecord(1)][..0] == [];
    assert Carried([ShortRecord(1)][..0], 0, 0) == 0;
  }
}
