/**
 * DTLS handshake transport over a network that loses, repeats and reorders: whatever the order in
 * which fragments come, each message is reported when the bytes that arrived inside the window cover
 * it, as it was before it was fragmented, and messages come out once each, in sequence.
 */
module InOrderDelivery {
  import opened Bytes
  import opened Parsing
  import opened Reassembly
  import opened Fragments
  import opened Receiver

  datatype Event =
    | Arrive(frags: seq<Fragment>, maxLen: nat, encrypted: bool)   // one record
    | Release                                                      // dtls1_next_message

  datatype Run = Run(rx: Rx, count: nat, kept: seq<Fragment>, released: seq<seq<byte>>)

  /** The fragments of a record that fall into the window of a receiver that released n messages. */
  function Windowed(frags: seq<Fragment>, n: nat): seq<Fragment> {
    if frags == [] then []
    else (if n <= frags[0].seqNo < n + FLIGHT then [frags[0]] else []) + Windowed(frags[1..], n)
  }

  /** Where a receiver stands after the events; `released` are the messages it reported and moved past. */
  ghost function After(events: seq<Event>): (r: Run)
    ensures |r.rx.slots| == FLIGHT && |r.released| == r.count
  {
    if events == [] then Run(Start(), 0, [], [])
    else
      var r := After(events[..|events| - 1]);
      match events[|events| - 1]
      case Arrive(frags, maxLen, encrypted) =>
        r.(rx := Open(r.rx, Packed(frags), maxLen, encrypted).rx, kept := r.kept + Windowed(frags, r.count))
      case Release =>
        var s := Report(r.rx);
        var raw := if s.Some? then Unfragmented(s.value.typ, s.value.seqNo, s.value.body) else [];
        Run(Next(r.rx), r.count + 1, r.kept, r.released + [raw])
  }

  /**
   * Every fragment is one the sender may have produced, no record is refused, and only complete messages are
   * released.
   */
  ghost predicate Possible(events: seq<Event>, msgs: seq<Message>) {
    events == []
    || (Possible(events[..|events| - 1], msgs)
        && var r := After(events[..|events| - 1]);
           match events[|events| - 1]
           case Arrive(frags, maxLen, encrypted) =>
             AllHonest(frags, msgs) && Open(r.rx, Packed(frags), maxLen, encrypted).alert.None?
           case Release => Report(r.rx).Some?)
  }

  /** The body bytes of message k that the fragments carry. */
  ghost function Gathered(frags: seq<Fragment>, k: nat): set<nat> {
    if frags == [] then {}
    else
      var f := frags[|frags| - 1];
      Gathered(frags[..|frags| - 1], k) + if f.seqNo == k then Range(f.off, f.off + |f.body|) else {}
  }

  ghost predicate Mentions(frags: seq<Fragment>, k: nat) {
    exists i :: 0 <= i < |frags| && frags[i].seqNo == k
  }

  ghost predicate Covered(frags: seq<Fragment>, msgs: seq<Message>, k: nat) {
    k < |msgs| && Mentions(frags, k) && Gathered(frags, k) == Range(0, |msgs[k].body|)
  }

  // ---- The invariant ----

  ghost predicate SlotIs(slot: Option<Slot>, kept: seq<Fragment>, msgs: seq<Message>, k: nat) {
    match slot
    case None => !Mentions(kept, k)
    case Some(s) =>
      Mentions(kept, k) && k < |msgs| && s.typ == msgs[k].typ && s.seqNo == k && |s.body| == |msgs[k].body|
      && s.got == Gathered(kept, k) && s.got <= Range(0, |s.body|)
      && forall j :: j in s.got ==> s.body[j] == msgs[k].body[j]
  }

  ghost predicate Consistent(rx: Rx, kept: seq<Fragment>, msgs: seq<Message>, n: nat) {
    |rx.slots| == FLIGHT && rx.readSeq == n <= |msgs|
    && (forall i :: 0 <= i < |kept| ==> kept[i].seqNo < n + FLIGHT)
    && (forall k :: n <= k < n + FLIGHT ==> SlotIs(rx.slots[k % FLIGHT], kept, msgs, k))
  }

  lemma MentionsMore(kept: seq<Fragment>, f: Fragment, k: nat)
    ensures Mentions(kept + [f], k) <==> Mentions(kept, k) || f.seqNo == k
    ensures Gathered(kept + [f], k) == Gathered(kept, k) + if f.seqNo == k then Range(f.off, f.off + |f.body|) else {}
  {
    assert (kept + [f])[..|kept|] == kept;
    assert (kept + [f])[|kept|] == f;
    forall i | 0 <= i < |kept| ensures (kept + [f])[i] == kept[i] {
    }
    if Mentions(kept, k) {
      var i :| 0 <= i < |kept| && kept[i].seqNo == k;
      assert (kept + [f])[i].seqNo == k;
    }
  }

  /** Whether the receiver goes on after an honest fragment. */
  predicate Welcome(f: Fragment, n: nat, maxLen: nat, encrypted: bool) {
    f.msgLen <= maxLen && f.seqNo != n + FLIGHT && (encrypted ==> f.seqNo == n)
  }

  lemma SlotTakes(slot: Option<Slot>, kept: seq<Fragment>, msgs: seq<Message>, f: Fragment)
    requires SlotIs(slot, kept, msgs, f.seqNo) && Honest(f, msgs)
    ensures slot.Some? ==> slot.value.typ == f.typ && |slot.value.body| == f.msgLen
    ensures SlotIs(Some(Fill(if slot.Some? then slot.value else NewSlot(f), f)), kept + [f], msgs, f.seqNo)
  {
    var k := f.seqNo;
    MentionsMore(kept, f, k);
    if slot.None? {
      NothingGathered(kept, k);
    }
    var s := if slot.Some? then slot.value else NewSlot(f);
    FillAgrees(s, f, msgs[k].body);
    hide Gathered, Mentions, Range, Fill;
  }

  /** A part of a body, put where it belongs, agrees with the body. */
  lemma FillAgrees(s: Slot, f: Fragment, body: seq<byte>)
    requires |s.body| == |body| && f.off + |f.body| <= |body| && f.body == body[f.off..f.off + |f.body|]
    requires s.got <= Range(0, |body|) && forall j :: j in s.got ==> s.body[j] == body[j]
    ensures var s' := Fill(s, f);
            s' == s.(body := s'.body, got := s.got + Range(f.off, f.off + |f.body|))
            && |s'.body| == |body| && s'.got <= Range(0, |body|) && forall j :: j in s'.got ==> s'.body[j] == body[j]
  {
    if Complete(s) {
      assert s.got + Range(f.off, f.off + |f.body|) == s.got;
    }
  }

  lemma {:induction false} NothingGathered(kept: seq<Fragment>, k: nat)
    requires !Mentions(kept, k)
    ensures Gathered(kept, k) == {}
  {
    if kept != [] {
      NothingGathered(kept[..|kept| - 1], k);
      assert kept[|kept| - 1].seqNo != k;
    }
  }

  lemma WindowedFirst(frags: seq<Fragment>, n: nat)
    requires frags != []
    ensures Windowed(frags, n) == Windowed([frags[0]], n) + Windowed(frags[1..], n)
  {
    WindowedOne(frags[0], n);
  }

  lemma WindowedOne(f: Fragment, n: nat)
    ensures Windowed([f], n) == if n <= f.seqNo < n + FLIGHT then [f] else []
  {
    assert [f][1..] == [];
    assert Windowed([f][1..], n) == [];
  }

  /** A fragment of another message changes nothing for a slot. */
  lemma SlotKeeps(slot: Option<Slot>, kept: seq<Fragment>, msgs: seq<Message>, f: Fragment, k: nat)
    requires SlotIs(slot, kept, msgs, k) && f.seqNo != k
    ensures SlotIs(slot, kept + [f], msgs, k)
  {
    hide Gathered, Mentions;
    MentionsMore(kept, f, k);
  }

  lemma PutConsistent(rx: Rx, kept: seq<Fragment>, msgs: seq<Message>, n: nat, f: Fragment, s: Slot)
    requires Consistent(rx, kept, msgs, n) && n <= f.seqNo < n + FLIGHT
    requires SlotIs(Some(s), kept + [f], msgs, f.seqNo)
    ensures Consistent(rx.(slots := rx.slots[f.seqNo % FLIGHT := Some(s)]), kept + [f], msgs, n)
  {
    hide SlotIs;
    var rx' := rx.(slots := rx.slots[f.seqNo % FLIGHT := Some(s)]);
    forall k | n <= k < n + FLIGHT ensures SlotIs(rx'.slots[k % FLIGHT], kept + [f], msgs, k) {
      if k != f.seqNo {
        SlotKeeps(rx.slots[k % FLIGHT], kept, msgs, f, k);
      }
    }
  }

  lemma TakeHonest(rx: Rx, kept: seq<Fragment>, msgs: seq<Message>, n: nat, f: Fragment, maxLen: nat, encrypted: bool)
    requires Consistent(rx, kept, msgs, n) && Honest(f, msgs)
    ensures Take(rx, f, maxLen, encrypted).alert.None? <==> Welcome(f, n, maxLen, encrypted)
    ensures Welcome(f, n, maxLen, encrypted) ==>
              Consistent(Take(rx, f, maxLen, encrypted).rx, kept + Windowed([f], n), msgs, n)
  {
    hide SlotIs, Fill, Range;
    WindowedOne(f, n);
    if n <= f.seqNo < n + FLIGHT {
      var slot := rx.slots[f.seqNo % FLIGHT];
      SlotTakes(slot, kept, msgs, f);
      PutConsistent(rx, kept, msgs, n, f, Fill(if slot.Some? then slot.value else NewSlot(f), f));
    } else {
      assert kept + [] == kept;
    }
  }

  /** Opening a record deals with its first fragment and then with the others. */
  lemma OpenFirst(rx: Rx, frags: seq<Fragment>, maxLen: nat, encrypted: bool)
    requires |rx.slots| == FLIGHT && frags != [] && Encodable(frags[0])
    ensures var o := Take(rx, frags[0], maxLen, encrypted);
            Open(rx, Packed(frags), maxLen, encrypted)
            == if o.alert.Some? then o else Open(o.rx, Packed(frags[1..]), maxLen, encrypted)
  {
    hide Take, ParseFragment, Encodable, HeaderBytes;
    ParseWire(frags[0], Packed(frags[1..]));
  }

  predicate AllWelcome(frags: seq<Fragment>, n: nat, maxLen: nat, encrypted: bool) {
    forall i :: 0 <= i < |frags| ==> Welcome(frags[i], n, maxLen, encrypted)
  }

  lemma WelcomeFirst(frags: seq<Fragment>, n: nat, maxLen: nat, encrypted: bool)
    requires frags != []
    ensures AllWelcome(frags, n, maxLen, encrypted)
            <==> Welcome(frags[0], n, maxLen, encrypted) && AllWelcome(frags[1..], n, maxLen, encrypted)
  {
    var more := frags[1..];
    assert forall i :: 0 < i < |frags| ==> frags[i] == more[i - 1];
  }

  lemma HonestFirst(frags: seq<Fragment>, msgs: seq<Message>)
    requires frags != [] && AllHonest(frags, msgs) && Sendable(msgs)
    ensures Honest(frags[0], msgs) && AllHonest(frags[1..], msgs) && Encodable(frags[0])
  {
    assert Honest(frags[0], msgs);
  }

  /** One record of honest fragments is refused only for a fragment that is not welcome. */
  lemma {:induction false} OpenHonest(rx: Rx, kept: seq<Fragment>, msgs: seq<Message>, n: nat,
                                      frags: seq<Fragment>, maxLen: nat, encrypted: bool)
    requires |rx.slots| == FLIGHT && Consistent(rx, kept, msgs, n) && AllHonest(frags, msgs) && Sendable(msgs)
    ensures var o := Open(rx, Packed(frags), maxLen, encrypted);
            (o.alert.None? <==> AllWelcome(frags, n, maxLen, encrypted))
            && (o.alert.None? ==> Consistent(o.rx, kept + Windowed(frags, n), msgs, n))
    decreases |frags|
  {
    hide *;
    if frags == [] {
      OpenNothing(rx, n, maxLen, encrypted);
      assert kept + Windowed(frags, n) == kept;
    } else {
      var f, more := frags[0], frags[1..];
      HonestFirst(frags, msgs);
      OpenFirst(rx, frags, maxLen, encrypted);
      TakeHonest(rx, kept, msgs, n, f, maxLen, encrypted);
      WelcomeFirst(frags, n, maxLen, encrypted);
      WindowedFirst(frags, n);
      var o := Take(rx, f, maxLen, encrypted);
      if o.alert.None? {
        OpenHonest(o.rx, kept + Windowed([f], n), msgs, n, more, maxLen, encrypted);
        assert kept + Windowed([f], n) + Windowed(more, n) == kept + Windowed(frags, n);
      }
    }
  }

  lemma OpenNothing(rx: Rx, n: nat, maxLen: nat, encrypted: bool)
    requires |rx.slots| == FLIGHT
    ensures Open(rx, Packed([]), maxLen, encrypted) == Opened(rx, None) && Windowed([], n) == []
    ensures AllWelcome([], n, maxLen, encrypted)
  {
  }

  lemma NextHonest(rx: Rx, kept: seq<Fragment>, msgs: seq<Message>, n: nat)
    requires Consistent(rx, kept, msgs, n) && Sendable(msgs) && Report(rx).Some?
    ensures n < |msgs| && Consistent(Next(rx), kept, msgs, n + 1)
    ensures var s := Report(rx).value; Unfragmented(s.typ, s.seqNo, s.body) == RawMessage(msgs, n)
  {
    hide Range, Unfragmented;
    ReportHonest(rx, kept, msgs, n);
    assert SlotIs(None, kept, msgs, n + FLIGHT);
    assert |msgs| < 0x1_0000;
    hide SlotIs, Report, Covered, RawMessage, Sendable;
    var rx' := Next(rx);
    forall k | n + 1 <= k < n + 1 + FLIGHT ensures SlotIs(rx'.slots[k % FLIGHT], kept, msgs, k) {
      if k < n + FLIGHT {
        assert SlotIs(rx.slots[k % FLIGHT], kept, msgs, k);
      }
    }
  }

  lemma ReportHonest(rx: Rx, kept: seq<Fragment>, msgs: seq<Message>, n: nat)
    requires Consistent(rx, kept, msgs, n)
    ensures Report(rx).Some? <==> Covered(kept, msgs, n)
    ensures Report(rx).Some? ==>
              var s := Report(rx).value; Unfragmented(s.typ, s.seqNo, s.body) == RawMessage(msgs, n)
  {
    assert SlotIs(rx.slots[n % FLIGHT], kept, msgs, n);
    if Report(rx).Some? {
      assert Report(rx).value.body == msgs[n].body;
    }
  }

  lemma StartIsConsistent(msgs: seq<Message>)
    ensures Consistent(Start(), [], msgs, 0)
  {
    forall k | 0 <= k < FLIGHT ensures SlotIs(Start().slots[k % FLIGHT], [], msgs, k) {
      assert Start().slots[k].None?;
    }
  }

  lemma {:induction false} RunIsConsistent(events: seq<Event>, msgs: seq<Message>)
    requires Possible(events, msgs) && Sendable(msgs)
    ensures var r := After(events);
            Consistent(r.rx, r.kept, msgs, r.count) && r.released == RawMessages(msgs, r.count)
    decreases |events|
  {
    hide Consistent, Open, Report, Next, RawMessages, Unfragmented, Windowed;
    if events == [] {
      StartIsConsistent(msgs);
      assert RawMessages(msgs, 0) == [];
    } else {
      var before := events[..|events| - 1];
      RunIsConsistent(before, msgs);
      var r := After(before);
      match events[|events| - 1] {
        case Arrive(frags, maxLen, encrypted) =>
          OpenHonest(r.rx, r.kept, msgs, r.count, frags, maxLen, encrypted);
        case Release =>
          NextHonest(r.rx, r.kept, msgs, r.count);
          assert RawMessages(msgs, r.count + 1) == RawMessages(msgs, r.count) + [RawMessage(msgs, r.count)];
      }
    }
  }

  /**
   * For all runs: the messages released so far are exactly the sender's first ones, unfragmented, in
   * order and once each; the next one is reported if and only if what arrived in the window covers it.
   */
  lemma Delivered(events: seq<Event>, msgs: seq<Message>)
    requires Possible(events, msgs) && Sendable(msgs)
    ensures var r := After(events);
            r.count <= |msgs| && r.released == RawMessages(msgs, r.count)
            && (Report(r.rx).Some? <==> Covered(r.kept, msgs, r.count))
            && (Report(r.rx).Some? ==>
                  var s := Report(r.rx).value; Unfragmented(s.typ, s.seqNo, s.body) == RawMessage(msgs, r.count))
  {
    RunIsConsistent(events, msgs);
    var r := After(events);
    assert r.count <= |msgs| by { assert Consistent(r.rx, r.kept, msgs, r.count); }
    ReportHonest(r.rx, r.kept, msgs, r.count);
  }

  /** An honest record is refused exactly for a fragment just past the window, too long, or not alone in its epoch. */
  lemma RefusedIff(events: seq<Event>, msgs: seq<Message>, frags: seq<Fragment>, maxLen: nat, encrypted: bool)
    requires Possible(events, msgs) && Sendable(msgs) && AllHonest(frags, msgs)
    ensures var n := After(events).count;
            Possible(events + [Arrive(frags, maxLen, encrypted)], msgs)
            <==> AllWelcome(frags, n, maxLen, encrypted)
  {
    hide Consistent, Open, Sendable, AllHonest, AllWelcome, Packed, Report;
    RunIsConsistent(events, msgs);
    var r := After(events);
    OpenHonest(r.rx, r.kept, msgs, r.count, frags, maxLen, encrypted);
    var all := events + [Arrive(frags, maxLen, encrypted)];
    assert all[..|all| - 1] == events;
  }
}
