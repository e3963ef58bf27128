/** The receiving half of the DTLS handshake transport: a ring of seven messages under reassembly. */
module Receiver {
  import opened Bytes
  import opened Parsing
  import opened Reassembly
  import opened Fragments

  const FLIGHT: nat := 7   // SSL_MAX_HANDSHAKE_FLIGHT
  const SEQS: nat := 0x1_0000

  datatype Alert = UnexpectedMessage | IllegalParameter | DecodeError | InternalError

  // ---- The receiver as a value ----

  /** A message under reassembly: `got` are the body bytes that have arrived. */
  datatype Slot = Slot(typ: byte, seqNo: nat, body: seq<byte>, got: set<nat>)

  datatype Rx = Rx(readSeq: nat, slots: seq<Option<Slot>>)

  datatype Opened = Opened(rx: Rx, alert: Option<Alert>)

  predicate Complete(s: Slot) {
    s.got == Range(0, |s.body|)
  }

  ghost predicate SlotOk(rx: Rx, i: nat)
    requires i < |rx.slots| == FLIGHT
  {
    rx.slots[i].Some? ==>
      var s := rx.slots[i].value;
      s.seqNo % FLIGHT == i && rx.readSeq <= s.seqNo < rx.readSeq + FLIGHT && s.seqNo < SEQS
      && s.got <= Range(0, |s.body|)
  }

  /** The ring-buffer invariant. */
  ghost predicate RingOk(rx: Rx) {
    rx.readSeq < SEQS && |rx.slots| == FLIGHT && forall i :: 0 <= i < FLIGHT ==> SlotOk(rx, i)
  }

  function Start(): Rx {
    Rx(0, [None, None, None, None, None, None, None])
  }

  ghost function NewSlot(f: Fragment): Slot {
    Slot(f.typ, f.seqNo, seq(f.msgLen, _ => 0), {})
  }

  /** What a fragment adds to a message it belongs to. */
  ghost function Fill(s: Slot, f: Fragment): Slot
    requires f.off + |f.body| <= |s.body|
  {
    if Complete(s) then s
    else s.(body := s.body[..f.off] + f.body + s.body[f.off + |f.body|..],
            got := s.got + Range(f.off, f.off + |f.body|))
  }

  /** The body of the loop of dtls1_open_handshake. */
  ghost function Take(rx: Rx, f: Fragment, maxLen: nat, encrypted: bool): (r: Opened)
    requires |rx.slots| == FLIGHT
    ensures |r.rx.slots| == FLIGHT
  {
    if f.off + |f.body| > f.msgLen || f.msgLen > maxLen then Opened(rx, Some(IllegalParameter))
    else if encrypted && f.seqNo != rx.readSeq then Opened(rx, Some(UnexpectedMessage))
    else if f.seqNo < rx.readSeq || f.seqNo > rx.readSeq + FLIGHT then Opened(rx, None)
    else if f.seqNo == rx.readSeq + FLIGHT then Opened(rx, Some(InternalError))
    else
      var was := rx.slots[f.seqNo % FLIGHT];
      if was.Some? && (was.value.typ != f.typ || |was.value.body| != f.msgLen) then
        Opened(rx, Some(IllegalParameter))
      else
        var s := if was.Some? then was.value else NewSlot(f);
        Opened(rx.(slots := rx.slots[f.seqNo % FLIGHT := Some(Fill(s, f))]), None)
  }

  /** All the fragments of one handshake record, up to the first error. */
  ghost function Open(rx: Rx, record: seq<byte>, maxLen: nat, encrypted: bool): (r: Opened)
    requires |rx.slots| == FLIGHT
    ensures |r.rx.slots| == FLIGHT
    decreases |record|
  {
    if record == [] then Opened(rx, None)
    else
      var p := ParseFragment(record);
      if p.Fail? then Opened(rx, Some(DecodeError))
      else
        var o := Take(rx, p.value, maxLen, encrypted);
        if o.alert.Some? then o else Open(o.rx, p.rest, maxLen, encrypted)
  }

  /** The message dtls1_get_message reports, if the current one is complete. */
  ghost function Report(rx: Rx): Option<Slot>
    requires |rx.slots| == FLIGHT
  {
    var s := rx.slots[rx.readSeq % FLIGHT];
    if s.Some? && Complete(s.value) then s else None
  }

  /** dtls1_next_message: the counter is sixteen bits wide. */
  ghost function Next(rx: Rx): Rx
    requires |rx.slots| == FLIGHT
  {
    Rx((rx.readSeq + 1) % SEQS, rx.slots[rx.readSeq % FLIGHT := None])
  }

  // ---- The ring invariant, for any fragments whatever ----

  lemma PutKeepsRing(rx: Rx, s: Slot)
    requires RingOk(rx) && rx.readSeq <= s.seqNo < rx.readSeq + FLIGHT && s.seqNo < SEQS
    requires s.got <= Range(0, |s.body|)
    ensures RingOk(rx.(slots := rx.slots[s.seqNo % FLIGHT := Some(s)]))
  {
    var rx' := rx.(slots := rx.slots[s.seqNo % FLIGHT := Some(s)]);
    forall i | 0 <= i < FLIGHT ensures SlotOk(rx', i) {
      assert SlotOk(rx, i);
    }
  }

  lemma TakeKeepsRing(rx: Rx, f: Fragment, maxLen: nat, encrypted: bool)
    requires RingOk(rx) && f.seqNo < SEQS
    ensures RingOk(Take(rx, f, maxLen, encrypted).rx)
  {
    var rx' := Take(rx, f, maxLen, encrypted).rx;
    forall i | 0 <= i < FLIGHT ensures SlotOk(rx', i) {
      assert SlotOk(rx, i);
    }
  }

  lemma {:induction false} OpenKeepsRing(rx: Rx, record: seq<byte>, maxLen: nat, encrypted: bool)
    requires RingOk(rx)
    ensures RingOk(Open(rx, record, maxLen, encrypted).rx)
    decreases |record|
  {
    if record != [] && ParseFragment(record).Ok? {
      var p := ParseFragment(record);
      TakeKeepsRing(rx, p.value, maxLen, encrypted);
      var o := Take(rx, p.value, maxLen, encrypted);
      if o.alert.None? {
        OpenKeepsRing(o.rx, p.rest, maxLen, encrypted);
      }
    }
  }

  /** Including when the counter wraps: the ring is then empty. */
  lemma NextKeepsRing(rx: Rx)
    requires RingOk(rx)
    ensures RingOk(Next(rx))
    ensures rx.readSeq == SEQS - 1 ==> forall i :: 0 <= i < FLIGHT ==> Next(rx).slots[i].None?
  {
    var rx' := Next(rx);
    forall i | 0 <= i < FLIGHT
      ensures SlotOk(rx', i) && (rx.readSeq == SEQS - 1 ==> rx'.slots[i].None?)
    {
      assert SlotOk(rx, i);
      if i != rx.readSeq % FLIGHT && rx.slots[i].Some? {
        assert rx.slots[i].value.seqNo != rx.readSeq;
      }
    }
  }

  // ---- The receiver as an object ----

  ghost function Parts(f: HmFragment?): set<object>
    reads f
  {
    if f == null then {} else {f, f.data} + if f.reassembly != null then {f.reassembly} else {}
  }

  /** The object in a slot holds what the value says. */
  ghost predicate Matches(f: HmFragment?, slot: Option<Slot>)
    reads f, Parts(f)
  {
    if f == null then slot.None?
    else f.Valid() && slot == Some(Slot(f.typ, f.seqNo, f.Body(), f.got))
  }

  ghost predicate Apart(f: HmFragment?, g: HmFragment?)
    reads f, g
  {
    Parts(f) !! Parts(g)
  }

  /** Copies the body of a fragment into its message and marks it. */
  method StoreInto(frag: HmFragment, ghost s: Slot, f: Fragment)
    requires Matches(frag, Some(s)) && frag.reassembly != null && f.off + |f.body| <= |s.body|
    modifies Parts(frag)
    ensures Matches(frag, Some(Fill(s, f))) && Parts(frag) <= old(Parts(frag))
  {
    hide Covers, HeaderBytes, Range;
    assert !Complete(s);
    frag.Store(f.off, f.body);
  }

  datatype RecordType = ApplicationData | ChangeCipherSpec | Handshake | Other

  class HandshakeReceiver {
    var readSeq: nat
    const slots: array<HmFragment?>
    var hasMessage: bool
    var hasChangeCipherSpec: bool
    ghost var rx: Rx
    ghost var Repr: set<object>

    ghost predicate Valid()
      reads this, slots, Repr
    {
      slots.Length == |rx.slots| == FLIGHT && rx.readSeq == readSeq && RingOk(rx)
      && (forall i :: 0 <= i < FLIGHT && slots[i] != null ==> slots[i] in Repr)
      && (forall i :: 0 <= i < FLIGHT ==> Parts(slots[i]) <= Repr)
      && this !in Repr && slots !in Repr
      && (forall i :: 0 <= i < FLIGHT ==> Matches(slots[i], rx.slots[i]))
      && (forall i, j :: 0 <= i < j < FLIGHT ==> Apart(slots[i], slots[j]))
    }

    constructor ()
      ensures Valid() && fresh(Repr) && fresh(slots) && rx == Start()
    {
      readSeq, hasMessage, hasChangeCipherSpec := 0, false, false;
      slots := new HmFragment?[FLIGHT](_ => null);
      rx := Start();
      new;
      Repr := {};
    }

    /** dtls1_get_incoming_message, for a fragment inside the window. */
    method GetIncoming(f: Fragment) returns (frag: HmFragment?)
      requires Valid() && Encodable(f) && readSeq <= f.seqNo < readSeq + FLIGHT
      modifies slots, this`rx, this`Repr
      ensures Valid() && fresh(Repr - old(Repr)) && readSeq == old(readSeq)
      ensures var idx := f.seqNo % FLIGHT;
              var was := old(rx).slots[idx];
              if was.Some? && (was.value.typ != f.typ || |was.value.body| != f.msgLen)
                then frag == null && rx == old(rx)
              else
                frag != null && frag == slots[idx]
                && rx == old(rx).(slots := old(rx).slots[idx := if was.Some? then was else Some(NewSlot(f))])
    {
      var idx := f.seqNo % FLIGHT;
      frag := slots[idx];
      assert Matches(slots[idx], rx.slots[idx]) && SlotOk(rx, idx);
      if frag != null {
        assert frag.seqNo == f.seqNo;
        if frag.typ != f.typ || frag.msgLen != f.msgLen {
          return null;
        }
        assert rx.slots[idx := rx.slots[idx]] == rx.slots;
        return frag;
      }
      frag := new HmFragment(f.typ, f.seqNo, f.msgLen);
      assert frag.Body() == NewSlot(f).body;
      Insert(frag, NewSlot(f));
    }

    method Insert(frag: HmFragment, ghost s: Slot)
      requires Valid() && readSeq <= s.seqNo < readSeq + FLIGHT && s.seqNo < SEQS && s.got <= Range(0, |s.body|)
      requires frag.seqNo == s.seqNo && Matches(frag, Some(s)) && Parts(frag) !! Repr && this !in Parts(frag)
               && slots !in Parts(frag)
      modifies slots, this`rx, this`Repr
      ensures Valid() && Repr == old(Repr) + Parts(frag) && slots[s.seqNo % FLIGHT] == frag
      ensures rx == old(rx).(slots := old(rx).slots[s.seqNo % FLIGHT := Some(s)])
    {
      PutKeepsRing(rx, s);
      hide RingOk, Matches, Range;
      var idx := frag.seqNo % FLIGHT;
      slots[idx] := frag;
      rx := rx.(slots := rx.slots[idx := Some(s)]);
      Repr := Repr + Parts(frag);
    }

    /** The body of the loop of dtls1_open_handshake. */
    method TakeFragment(f: Fragment, maxLen: nat, encrypted: bool) returns (alert: Option<Alert>)
      requires Valid() && Encodable(f)
      modifies this, slots, Repr
      ensures Valid() && fresh(Repr - old(Repr))
      ensures Opened(rx, alert) == Take(old(rx), f, maxLen, encrypted)
      ensures hasMessage == old(hasMessage) && hasChangeCipherSpec == old(hasChangeCipherSpec)
    {
      if f.off + |f.body| > f.msgLen || f.msgLen > maxLen {
        return Some(IllegalParameter);
      }
      if encrypted && f.seqNo != readSeq {
        return Some(UnexpectedMessage);
      }
      if f.seqNo < readSeq || f.seqNo > readSeq + FLIGHT {
        return None;
      }
      if f.seqNo - readSeq >= FLIGHT {
        return Some(InternalError);
      }
      var frag := GetIncoming(f);
      if frag == null {
        return Some(IllegalParameter);
      }
      AddTo(frag, f);
      return None;
    }

    /** What dtls1_open_handshake does with a fragment once its message is found. */
    method AddTo(frag: HmFragment, f: Fragment)
      requires Valid() && f.seqNo < SEQS && slots[f.seqNo % FLIGHT] == frag
      requires rx.slots[f.seqNo % FLIGHT].Some? && f.off + |f.body| <= |rx.slots[f.seqNo % FLIGHT].value.body|
      modifies Parts(frag), this`rx
      ensures Valid()
      ensures var idx := f.seqNo % FLIGHT;
              rx == old(rx).(slots := old(rx).slots[idx := Some(Fill(old(rx).slots[idx].value, f))])
    {
      hide RingOk, HeaderBytes;
      assert Matches(frag, rx.slots[f.seqNo % FLIGHT]);
      if frag.reassembly != null {
        Store(f);
      }
    }

    method Store(f: Fragment)
      requires Valid() && f.seqNo < SEQS && slots[f.seqNo % FLIGHT] != null
               && slots[f.seqNo % FLIGHT].reassembly != null
      requires rx.slots[f.seqNo % FLIGHT].Some? && f.off + |f.body| <= |rx.slots[f.seqNo % FLIGHT].value.body|
      modifies Parts(slots[f.seqNo % FLIGHT]), this`rx
      ensures Valid()
      ensures var idx := f.seqNo % FLIGHT;
              rx == old(rx).(slots := old(rx).slots[idx := Some(Fill(old(rx).slots[idx].value, f))])
    {
      hide Matches, Range;
      var idx := f.seqNo % FLIGHT;
      ghost var was := rx.slots[idx].value;
      assert SlotOk(rx, idx);
      PutKeepsRing(rx, Fill(was, f));
      hide RingOk, Fill;
      forall i | 0 <= i < FLIGHT && i != idx ensures Apart(slots[i], slots[idx]) {
        assert Apart(slots[i], slots[idx]) || Apart(slots[idx], slots[i]);
      }
      StoreInto(slots[idx], was, f);
      rx := rx.(slots := rx.slots[idx := Some(Fill(was, f))]);
    }

    /** dtls1_open_handshake, given what dtls_open_record returned. */
    method OpenHandshake(typ: RecordType, record: seq<byte>, nullCipher: bool, maxLen: nat, encrypted: bool)
      returns (discard: bool, alert: Option<Alert>)
      requires Valid()
      modifies this, slots, Repr
      ensures Valid() && fresh(Repr - old(Repr))
      ensures typ.Handshake? ==> !discard && Opened(rx, alert) == Open(old(rx), record, maxLen, encrypted)
      ensures !typ.Handshake? ==> rx == old(rx)
      ensures typ.ApplicationData? ==>
                discard == !nullCipher && alert == if nullCipher then Some(UnexpectedMessage) else None
      ensures typ.ChangeCipherSpec? ==> !discard && (alert.None? <==> nullCipher && record == [1])
      ensures typ.Other? ==> !discard && alert == Some(UnexpectedMessage)
      ensures hasChangeCipherSpec == (old(hasChangeCipherSpec) || (typ.ChangeCipherSpec? && alert.None?))
      ensures hasMessage == old(hasMessage)
    {
      match typ {
        case ApplicationData =>
          if nullCipher {
            return false, Some(UnexpectedMessage);
          }
          return true, None;
        case ChangeCipherSpec =>
          if !nullCipher {
            return false, Some(UnexpectedMessage);
          }
          if |record| != 1 || record[0] != 1 {
            return false, Some(IllegalParameter);
          }
          hasChangeCipherSpec := true;
          return false, None;
        case Other =>
          return false, Some(UnexpectedMessage);
        case Handshake =>
      }
      var rest := record;
      while rest != []
        invariant Valid() && fresh(Repr - old(Repr))
        invariant Open(rx, rest, maxLen, encrypted) == Open(old(rx), record, maxLen, encrypted)
        invariant hasChangeCipherSpec == old(hasChangeCipherSpec) && hasMessage == old(hasMessage)
        decreases |rest|
      {
        var p := ParseFragment(rest);
        if p.Fail? {
          return false, Some(DecodeError);
        }
        alert := TakeFragment(p.value, maxLen, encrypted);
        if alert.Some? {
          return false, alert;
        }
        rest := p.rest;
      }
      return false, None;
    }

    /** dtls1_get_message: the type, the body, and the message as if unfragmented. */
    method GetMessage() returns (found: bool, typ: byte, body: seq<byte>, raw: seq<byte>)
      requires Valid()
      modifies this`hasMessage
      ensures Valid()
      ensures found <==> Report(rx).Some?
      ensures found ==>
                var s := Report(rx).value; typ == s.typ && body == s.body && raw == Unfragmented(s.typ, s.seqNo, s.body)
      ensures hasMessage == (old(hasMessage) || found)
    {
      var frag := slots[readSeq % FLIGHT];
      assert Matches(slots[readSeq % FLIGHT], rx.slots[readSeq % FLIGHT]);
      if frag == null || frag.reassembly != null {
        return false, 0, [], [];
      }
      hasMessage := true;
      assert frag.data[..] == frag.data[..HEADER_LENGTH] + frag.data[HEADER_LENGTH..];
      return true, frag.typ, frag.data[HEADER_LENGTH..], frag.data[..];
    }

    /** dtls1_next_message */
    method NextMessage()
      requires Valid() && Report(rx).Some? && hasMessage
      modifies this`readSeq, this`rx, this`hasMessage, slots
      ensures Valid() && rx == Next(old(rx)) && !hasMessage
    {
      NextKeepsRing(rx);
      slots[readSeq % FLIGHT] := null;
      readSeq := (readSeq + 1) % SEQS;
      rx := Next(rx);
      hasMessage := false;
    }
  }
}
