/** The message flows of RFC 5246, section 7.3, as patterns that a handshake's log must match. */
module HandshakeFlow {
  import opened Bytes

  datatype Side = FromClient | FromServer

  datatype MsgType =
    | ClientHello | HelloVerifyRequest | ServerHello | NewSessionTicket | Certificate | CertificateStatus
    | ServerKeyExchange | CertificateRequest | ServerHelloDone | ClientKeyExchange | CertificateVerify
    | NextProto | ChannelId | Finished | OtherType

  /** Something sent or received in a handshake; ChangeCipherSpec is not a handshake message. */
  datatype Item = Handshake(side: Side, typ: MsgType, raw: seq<byte>) | ChangeCipherSpec(side: Side)

  /** The bytes that the transcript hash is to cover. */
  function Hashed(log: seq<Item>): seq<byte> {
    if log == [] then []
    else
      var last := log[|log| - 1];
      Hashed(log[..|log| - 1]) + if last.Handshake? then last.raw else []
  }

  lemma HashedAdd(log: seq<Item>, item: Item)
    ensures Hashed(log + [item]) == Hashed(log) + if item.Handshake? then item.raw else []
  {
    assert (log + [item])[..|log|] == log;
  }

  // ---- Patterns ----

  datatype Place = Message(side: Side, typ: MsgType, optional: bool) | Ccs(side: Side)

  predicate Fits(p: Place, item: Item) {
    match p
    case Message(side, typ, _) => item.Handshake? && item.side == side && item.typ == typ
    case Ccs(side) => item == ChangeCipherSpec(side)
  }

  /** A message of this side and type. */
  function Said(side: Side, typ: MsgType): Place {
    Message(side, typ, false)
  }

  function If(occurs: bool, p: Place): seq<Place> {
    if occurs then [p] else []
  }

  /** The log has grown by exactly such items. */
  predicate Adds(before: seq<Item>, after: seq<Item>, places: seq<Place>) {
    |after| == |before| + |places| && after[..|before|] == before
    && forall i :: 0 <= i < |places| ==> Fits(places[i], after[|before| + i])
  }

  lemma AddsNone(log: seq<Item>)
    ensures Adds(log, log, [])
  {
  }

  lemma AddsOne(log: seq<Item>, item: Item, p: Place)
    requires Fits(p, item)
    ensures Adds(log, log + [item], [p])
  {
  }

  lemma AddsThen(a: seq<Item>, b: seq<Item>, c: seq<Item>, first: seq<Place>, more: seq<Place>)
    requires Adds(a, b, first) && Adds(b, c, more)
    ensures Adds(a, c, first + more)
  {
    var places := first + more;
    assert c[..|a|] == b[..|a|];
    forall i | 0 <= i < |places| ensures Fits(places[i], c[|a| + i]) {
      if i < |first| {
        assert c[|a| + i] == b[|a| + i];
      } else {
        assert places[i] == more[i - |first|];
        assert c[|a| + i] == c[|b| + (i - |first|)];
      }
    }
  }

  predicate Optional(p: Place) {
    p.Message? && p.optional
  }

  predicate Matches(flow: seq<Place>, log: seq<Item>) {
    if flow == [] then log == []
    else
      var p, before := flow[|flow| - 1], flow[..|flow| - 1];
      (Optional(p) && Matches(before, log))
      || (log != [] && Fits(p, log[|log| - 1]) && Matches(before, log[..|log| - 1]))
  }

  /** Figure 1 of RFC 5246, with the extensions that insert messages. */
  function FullFlow(): (flow: seq<Place>)
    ensures |flow| == 17
  {
    [Message(FromClient, ClientHello, false),
     Message(FromServer, ServerHello, false),
     Message(FromServer, Certificate, true),
     Message(FromServer, CertificateStatus, true),
     Message(FromServer, ServerKeyExchange, true),
     Message(FromServer, CertificateRequest, true),
     Message(FromServer, ServerHelloDone, false),
     Message(FromClient, Certificate, true),
     Message(FromClient, ClientKeyExchange, false),
     Message(FromClient, CertificateVerify, true),
     Ccs(FromClient),
     Message(FromClient, NextProto, true),
     Message(FromClient, ChannelId, true),
     Message(FromClient, Finished, false),
     Message(FromServer, NewSessionTicket, true),
     Ccs(FromServer),
     Message(FromServer, Finished, false)]
  }

  /** Figure 2: an abbreviated handshake. */
  function ResumedFlow(): (flow: seq<Place>)
    ensures |flow| == 9
  {
    [Message(FromClient, ClientHello, false),
     Message(FromServer, ServerHello, false),
     Message(FromServer, NewSessionTicket, true),
     Ccs(FromServer),
     Message(FromServer, Finished, false),
     Ccs(FromClient),
     Message(FromClient, NextProto, true),
     Message(FromClient, ChannelId, true),
     Message(FromClient, Finished, false)]
  }

  function Flow(resumed: bool): seq<Place> {
    if resumed then ResumedFlow() else FullFlow()
  }

  /** Where the two ways to finish begin in the flow. */
  function ClientFinishAt(resumed: bool): nat {
    if resumed then 5 else 10
  }

  function ServerFinishAt(resumed: bool): nat {
    if resumed then 2 else 14
  }

  lemma ServerFinish(resumed: bool)
    ensures var n := ServerFinishAt(resumed);
            n + 2 < |Flow(resumed)| && Flow(resumed)[n] == Message(FromServer, NewSessionTicket, true)
            && Flow(resumed)[n + 1] == Ccs(FromServer) && Flow(resumed)[n + 2] == Message(FromServer, Finished, false)
  {
  }

  lemma ClientFinish(resumed: bool)
    ensures var n := ClientFinishAt(resumed);
            n + 3 < |Flow(resumed)| && Flow(resumed)[n] == Ccs(FromClient)
            && Flow(resumed)[n + 1] == Message(FromClient, NextProto, true)
            && Flow(resumed)[n + 2] == Message(FromClient, ChannelId, true)
            && Flow(resumed)[n + 3] == Message(FromClient, Finished, false)
  {
  }

  /** The middle of a full handshake. */
  lemma KeyExchange()
    ensures |Flow(false)| > 9
            && Flow(false)[2] == Message(FromServer, Certificate, true)
            && Flow(false)[3] == Message(FromServer, CertificateStatus, true)
            && Flow(false)[4] == Message(FromServer, ServerKeyExchange, true)
            && Flow(false)[5] == Message(FromServer, CertificateRequest, true)
            && Flow(false)[6] == Message(FromServer, ServerHelloDone, false)
            && Flow(false)[7] == Message(FromClient, Certificate, true)
            && Flow(false)[8] == Message(FromClient, ClientKeyExchange, false)
            && Flow(false)[9] == Message(FromClient, CertificateVerify, true)
  {
  }

  lemma Hellos(resumed: bool)
    ensures |Flow(resumed)| > 2 && Flow(resumed)[0] == Message(FromClient, ClientHello, false)
            && Flow(resumed)[1] == Message(FromServer, ServerHello, false)
  {
  }

  /** The log is what the flow has up to its n-th place. */
  predicate Reached(resumed: bool, n: nat, log: seq<Item>) {
    n <= |Flow(resumed)| && Matches(Flow(resumed)[..n], log)
  }

  lemma NothingReached(resumed: bool, log: seq<Item>)
    ensures Reached(resumed, 0, log) <==> log == []
  {
  }

  lemma Skip(resumed: bool, n: nat, log: seq<Item>)
    requires Reached(resumed, n, log) && n < |Flow(resumed)| && Optional(Flow(resumed)[n])
    ensures Reached(resumed, n + 1, log)
  {
    hide Flow;
    var flow := Flow(resumed);
    assert flow[..n + 1][..n] == flow[..n];
  }

  lemma Take(resumed: bool, n: nat, log: seq<Item>, item: Item)
    requires Reached(resumed, n, log) && n < |Flow(resumed)| && Fits(Flow(resumed)[n], item)
    ensures Reached(resumed, n + 1, log + [item])
  {
    hide Flow;
    var flow := Flow(resumed);
    assert flow[..n + 1][..n] == flow[..n];
    assert (log + [item])[..|log|] == log;
  }

  /** Both flows begin with the two Hellos. */
  lemma SameHellos(log: seq<Item>, n: nat)
    requires n <= 2
    ensures Reached(false, n, log) <==> Reached(true, n, log)
  {
    assert FullFlow()[..n] == ResumedFlow()[..n];
  }

  // ---- What a match says ----

  function Count(log: seq<Item>, side: Side, typ: MsgType): nat {
    if log == [] then 0
    else
      var last := log[|log| - 1];
      Count(log[..|log| - 1], side, typ) + if last.Handshake? && last.side == side && last.typ == typ then 1 else 0
  }

  function Places(flow: seq<Place>, side: Side, typ: MsgType, mandatoryOnly: bool): nat {
    if flow == [] then 0
    else
      var p := flow[|flow| - 1];
      Places(flow[..|flow| - 1], side, typ, mandatoryOnly)
      + if p.Message? && p.side == side && p.typ == typ && !(mandatoryOnly && p.optional) then 1 else 0
  }

  lemma {:induction false} CountWithin(flow: seq<Place>, log: seq<Item>, side: Side, typ: MsgType)
    requires Matches(flow, log)
    ensures Places(flow, side, typ, true) <= Count(log, side, typ) <= Places(flow, side, typ, false)
    decreases |flow|
  {
    if flow != [] {
      var p, before := flow[|flow| - 1], flow[..|flow| - 1];
      if Optional(p) && Matches(before, log) {
        CountWithin(before, log, side, typ);
      } else {
        CountWithin(before, log[..|log| - 1], side, typ);
      }
    }
  }

  /** A log that matches a flow matches its two halves in turn. */
  lemma {:induction false} SplitMatch(flow: seq<Place>, n: nat, log: seq<Item>) returns (k: nat)
    requires n <= |flow| && Matches(flow, log)
    ensures k <= |log| && Matches(flow[..n], log[..k]) && Matches(flow[n..], log[k..])
    decreases |flow|
  {
    if n == |flow| {
      k := |log|;
      assert flow[..n] == flow && log[..k] == log && flow[n..] == [] && log[k..] == [];
    } else {
      var p, before := flow[|flow| - 1], flow[..|flow| - 1];
      assert before[..n] == flow[..n] && flow[n..][..|flow| - n - 1] == before[n..];
      if Optional(p) && Matches(before, log) {
        k := SplitMatch(before, n, log);
      } else {
        k := SplitMatch(before, n, log[..|log| - 1]);
        assert log[..|log| - 1][..k] == log[..k];
        assert log[k..][..|log| - k - 1] == log[..|log| - 1][k..];
      }
    }
  }

  lemma {:induction false} CountAt(log: seq<Item>, side: Side, typ: MsgType, i: nat)
    requires i < |log| && log[i].Handshake? && log[i].side == side && log[i].typ == typ
    ensures Count(log, side, typ) >= 1
    decreases |log|
  {
    if i < |log| - 1 {
      CountAt(log[..|log| - 1], side, typ, i);
    }
  }

  lemma {:induction false} OnlyOne(log: seq<Item>, side: Side, typ: MsgType, i: nat, j: nat)
    requires i < |log| && log[i].Handshake? && log[i].side == side && log[i].typ == typ
    requires j < |log| && log[j].Handshake? && log[j].side == side && log[j].typ == typ
    requires Count(log, side, typ) == 1
    ensures i == j
    decreases |log|
  {
    var before := log[..|log| - 1];
    if i < |log| - 1 {
      CountAt(before, side, typ, i);
    }
    if j < |log| - 1 {
      CountAt(before, side, typ, j);
    }
    if i < |log| - 1 && j < |log| - 1 {
      OnlyOne(before, side, typ, i, j);
    }
  }

  predicate IsFinished(item: Item, side: Side) {
    item.Handshake? && item.side == side && item.typ == Finished
  }

  /** Who finishes first: the client in a full handshake, the server in a resumed one. */
  function First(resumed: bool): Side {
    if resumed then FromServer else FromClient
  }

  function Other(side: Side): Side {
    if side == FromClient then FromServer else FromClient
  }

  /** Where the first of the two Finished messages stands in the flow. */
  function FirstFinished(resumed: bool): nat {
    if resumed then 4 else 13
  }

  lemma NotYetFinished(resumed: bool, i: nat)
    requires i < FirstFinished(resumed)
    ensures Flow(resumed)[i].Message? ==> Flow(resumed)[i].typ != Finished
  {
    if resumed {
      assert ResumedFlow()[i] == Flow(resumed)[i];
    } else {
      assert FullFlow()[i] == Flow(resumed)[i];
    }
  }

  lemma FinishedPlaces(resumed: bool, side: Side, mandatoryOnly: bool)
    ensures var flow, n := Flow(resumed), FirstFinished(resumed) + 1;
            Places(flow[..n], side, Finished, mandatoryOnly) == (if side == First(resumed) then 1 else 0)
            && Places(flow[n..], side, Finished, mandatoryOnly) == (if side == First(resumed) then 0 else 1)
            && Places(flow, side, Finished, mandatoryOnly) == 1
  {
    PlacesOf(Flow(resumed), FirstFinished(resumed), side, mandatoryOnly);
    var flow, n := Flow(resumed), FirstFinished(resumed);
    var early := flow[..n];
    forall i | 0 <= i < |early| ensures PlaceCount(early[i], side, false) == 0 {
      NotYetFinished(resumed, i);
    }
    NoPlaces(early, side, mandatoryOnly);
    var between := flow[n + 1..|flow| - 1];
    assert between == if resumed
                      then [Ccs(FromClient), Message(FromClient, NextProto, true), Message(FromClient, ChannelId, true)]
                      else [Message(FromServer, NewSessionTicket, true), Ccs(FromServer)];
    NoPlaces(between, side, mandatoryOnly);
  }

  /** In a flow whose last place and n-th place are as given. */
  lemma PlacesOf(flow: seq<Place>, n: nat, side: Side, mandatoryOnly: bool)
    requires n + 1 < |flow|
    ensures Places(flow[..n + 1], side, Finished, mandatoryOnly)
            == Places(flow[..n], side, Finished, mandatoryOnly) + PlaceCount(flow[n], side, mandatoryOnly)
    ensures Places(flow[n + 1..], side, Finished, mandatoryOnly)
            == Places(flow[n + 1..|flow| - 1], side, Finished, mandatoryOnly)
              + PlaceCount(flow[|flow| - 1], side, mandatoryOnly)
    ensures Places(flow, side, Finished, mandatoryOnly)
            == Places(flow[..n + 1], side, Finished, mandatoryOnly)
              + Places(flow[n + 1..], side, Finished, mandatoryOnly)
  {
    PlacesLast(flow[..n + 1], side, mandatoryOnly);
    PlacesLast(flow[n + 1..], side, mandatoryOnly);
    hide Places, PlaceCount;
    assert flow[..n + 1][..n] == flow[..n];
    assert flow[n + 1..][..|flow| - n - 2] == flow[n + 1..|flow| - 1];
    PlacesConcat(flow[..n + 1], flow[n + 1..], side, mandatoryOnly);
    assert flow[..n + 1] + flow[n + 1..] == flow;
  }

  lemma PlacesLast(flow: seq<Place>, side: Side, mandatoryOnly: bool)
    requires flow != []
    ensures Places(flow, side, Finished, mandatoryOnly)
            == Places(flow[..|flow| - 1], side, Finished, mandatoryOnly)
              + PlaceCount(flow[|flow| - 1], side, mandatoryOnly)
  {
  }

  function PlaceCount(p: Place, side: Side, mandatoryOnly: bool): nat {
    if p.Message? && p.side == side && p.typ == Finished && !(mandatoryOnly && p.optional) then 1 else 0
  }

  lemma {:induction false} PlacesConcat(a: seq<Place>, b: seq<Place>, side: Side, mandatoryOnly: bool)
    ensures Places(a + b, side, Finished, mandatoryOnly)
            == Places(a, side, Finished, mandatoryOnly) + Places(b, side, Finished, mandatoryOnly)
    decreases |b|
  {
    if b == [] {
      assert a + b == a;
    } else {
      assert (a + b)[..|a + b| - 1] == a + b[..|b| - 1];
      PlacesConcat(a, b[..|b| - 1], side, mandatoryOnly);
    }
  }

  lemma {:induction false} NoPlaces(flow: seq<Place>, side: Side, mandatoryOnly: bool)
    requires forall i :: 0 <= i < |flow| ==> PlaceCount(flow[i], side, false) == 0
    ensures Places(flow, side, Finished, mandatoryOnly) == 0
    decreases |flow|
  {
    if flow != [] {
      NoPlaces(flow[..|flow| - 1], side, mandatoryOnly);
      assert PlaceCount(flow[|flow| - 1], side, false) == 0;
    }
  }

  /**
   * In a log of a whole handshake each side finishes exactly once, and the order is the one that
   * resumption fixes.
   */
  lemma FinishedOnceInOrder(resumed: bool, log: seq<Item>)
    requires Matches(Flow(resumed), log)
    ensures Count(log, FromClient, Finished) == 1 && Count(log, FromServer, Finished) == 1
    ensures forall i, j ::
              (0 <= i < |log| && 0 <= j < |log| && IsFinished(log[i], First(resumed))
               && IsFinished(log[j], Other(First(resumed))))
              ==> i < j
  {
    hide Flow, Matches, Places;
    var flow, n := Flow(resumed), FirstFinished(resumed) + 1;
    FinishedPlaces(resumed, FromClient, true);
    FinishedPlaces(resumed, FromClient, false);
    FinishedPlaces(resumed, FromServer, true);
    FinishedPlaces(resumed, FromServer, false);
    CountWithin(flow, log, FromClient, Finished);
    CountWithin(flow, log, FromServer, Finished);
    LongEnough(resumed);
    var k := SplitMatch(flow, n, log);
    CountWithin(flow[..n], log[..k], Other(First(resumed)), Finished);
    CountWithin(flow[n..], log[k..], First(resumed), Finished);
    forall i, j | 0 <= i < |log| && 0 <= j < |log|
                  && IsFinished(log[i], First(resumed)) && IsFinished(log[j], Other(First(resumed)))
      ensures i < j
    {
      if i >= k {
        CountAt(log[k..], First(resumed), Finished, i - k);
      }
      if j < k {
        CountAt(log[..k], Other(First(resumed)), Finished, j);
      }
    }
  }

  lemma LongEnough(resumed: bool)
    ensures FirstFinished(resumed) + 1 <= |Flow(resumed)|
  {
  }
}
