/** What both handshake machines share: the transcript, the message queue, and the Finished messages. */
module HandshakeConnection {
  import opened Bytes
  import opened Parsing
  import opened HandshakeFlow

  /** enum ssl_hs_wait_t */
  datatype Wait =
    | Proceed | Error | Flush | AwaitServerHello | ReadMessage | ReadChangeCipherSpec | EarlyReturn
    | CertificateSelectionPending | Handoff | X509Lookup | ChannelIdLookup | PrivateKeyOperation
    | PendingSession | PendingTicket | VerifyingCertificate

  /** Waits that the caller of the handshake has to resolve. */
  predicate ForCaller(w: Wait) {
    !(w.Proceed? || w.Error? || w.Flush? || w.AwaitServerHello? || w.ReadMessage? || w.ReadChangeCipherSpec?
      || w.EarlyReturn?)
  }

  datatype Incoming = Incoming(typ: MsgType, raw: seq<byte>)

  /** What the next record from the peer turns out to be. */
  datatype Arrival =
    | HandshakeRecord(messages: seq<Incoming>)   // the messages it completes, if any
    | V2Hello(raw: seq<byte>)
    | CcsRecord
    | BadRecord

  /** The verify data of a Finished message, from the transcript before it and the side it is from. */
  type VerifyData = (seq<byte>, Side) -> seq<byte>

  /** A message without its header. */
  function Body(dtls: bool, raw: seq<byte>): seq<byte> {
    var header := if dtls then 12 else 4;
    if |raw| < header then [] else raw[header..]
  }

  /** A Finished message, if there is one, authenticates the handshake messages before it. */
  predicate Covers(log: seq<Item>, at: Option<nat>, mac: seq<byte>, side: Side) {
    at.Some? ==> at.value < |log| && IsFinished(log[at.value], side) && mac == Hashed(log[..at.value])
  }

  /** A Finished message, if there is one, holds the verify data of what it authenticates. */
  predicate Verified(log: seq<Item>, at: Option<nat>, mac: seq<byte>, side: Side, dtls: bool, verifyData: VerifyData) {
    at.Some? ==>
      at.value < |log| && log[at.value].Handshake? && Body(dtls, log[at.value].raw) == verifyData(mac, side)
  }

  lemma CoversMore(log: seq<Item>, item: Item, at: Option<nat>, mac: seq<byte>, side: Side)
    requires Covers(log, at, mac, side)
    ensures Covers(log + [item], at, mac, side)
  {
    if at.Some? {
      assert (log + [item])[..at.value] == log[..at.value];
    }
  }

  lemma CoversLast(log: seq<Item>, item: Item, side: Side)
    requires IsFinished(item, side)
    ensures Covers(log + [item], Some(|log|), Hashed(log), side)
  {
    assert (log + [item])[..|log|] == log;
  }

  /** What the transport will bring, and what DTLS remembers of what it brought. */
  class Network {
    var arrivals: seq<Arrival>
    var hasCcs: bool          // has_change_cipher_spec: one that came before it was asked for
    ghost var refusals: nat   // how often nothing could be written, or nothing that came could be taken

    constructor (arrivals: seq<Arrival>)
      ensures this.arrivals == arrivals && !hasCcs && refusals == 0
    {
      this.arrivals, hasCcs, refusals := arrivals, false, 0;
    }

    /** BIO_flush */
    method Flush() returns (blocked: bool)
      modifies `refusals
      ensures refusals == old(refusals) + if blocked then 1 else 0
    {
      blocked := *;
      if blocked {
        refusals := refusals + 1;
      }
    }

    /** How much is still to be taken in. */
    function Due(): nat
      reads this
    {
      2 * |arrivals| + if hasCcs then 1 else 0
    }
  }

  class Connection {
    const server: bool
    const dtls: bool
    const verifyData: VerifyData     // GetFinishedMAC, under the keys that the handshake settles
    const sound: bool                // memory does not run out and hashing does not fail
    var transcript: seq<byte>
    var queue: seq<Incoming>
    var isV2Hello: bool
    var v2HelloDone: bool
    ghost var hashed: bool           // the first message of the queue is in the transcript
    ghost var log: seq<Item>         // all that was sent, or received and released, since Init
    ghost var ownAt: Option<nat>     // where in the log the own Finished is
    ghost var peerAt: Option<nat>
    ghost var ownMac: seq<byte>      // the transcript that the own Finished authenticates
    ghost var peerMac: seq<byte>

    function Own(): Side {
      if server then FromServer else FromClient
    }

    /** The transcript is exactly the handshake messages of the log, each once, and the current one if hashed. */
    ghost predicate Synced()
      reads this
    {
      (hashed ==> queue != [])
      && transcript == Hashed(log) + (if hashed then queue[0].raw else [])
      && (isV2Hello ==> hashed)
      && (server && !v2HelloDone ==> queue == [])
      && MacsAgree()
    }

    ghost predicate MacsAgree()
      reads this
    {
      Covers(log, ownAt, ownMac, Own()) && Covers(log, peerAt, peerMac, Other(Own()))
      && Verified(log, ownAt, ownMac, Own(), dtls, verifyData)
      && Verified(log, peerAt, peerMac, Other(Own()), dtls, verifyData)
    }

    /** The Finished messages sent and received, as they stand in the log. */
    ghost function OwnFinished(): seq<byte>
      reads this
    {
      RawAt(ownAt)
    }

    ghost function PeerFinished(): seq<byte>
      reads this
    {
      RawAt(peerAt)
    }

    ghost function RawAt(at: Option<nat>): seq<byte>
      reads this
    {
      if at.Some? && at.value < |log| && log[at.value].Handshake? then log[at.value].raw else []
    }

    /** What appending to the log keeps. */
    lemma Append(item: Item)
      ensures Hashed(log + [item]) == Hashed(log) + if item.Handshake? then item.raw else []
      ensures MacsAgree() ==>
                Covers(log + [item], ownAt, ownMac, Own()) && Covers(log + [item], peerAt, peerMac, Other(Own()))
                && Verified(log + [item], ownAt, ownMac, Own(), dtls, verifyData)
                && Verified(log + [item], peerAt, peerMac, Other(Own()), dtls, verifyData)
    {
      HashedAdd(log, item);
      if MacsAgree() {
        CoversMore(log, item, ownAt, ownMac, Own());
        CoversMore(log, item, peerAt, peerMac, Other(Own()));
      }
    }

    constructor (server: bool, dtls: bool, verifyData: VerifyData, sound: bool)
      ensures Synced() && !hashed && log == [] && ownAt.None? && peerAt.None? && this.server == server
      ensures this.dtls == dtls && this.verifyData == verifyData && this.sound == sound
    {
      this.server, this.dtls, this.verifyData, this.sound := server, dtls, verifyData, sound;
      transcript, queue, isV2Hello, v2HelloDone := [], [], false, false;
      hashed, log, ownAt, peerAt, ownMac, peerMac := false, [], None, None, [], [];
    }

    /** SSLTranscript::Init */
    method InitTranscript()
      requires !hashed && !isV2Hello && (server && !v2HelloDone ==> queue == [])
      modifies `transcript, `log, `ownAt, `peerAt
      ensures Synced() && log == [] && ownAt.None? && peerAt.None?
    {
      transcript, log, ownAt, peerAt := [], [], None, None;
    }

    /** ssl_hash_message, on the current message */
    method HashMessage() returns (ok: bool)
      requires Synced() && queue != [] && (hashed ==> isV2Hello)
      modifies `transcript, `hashed
      ensures (ok ==> Synced() && hashed) && (sound ==> ok)
    {
      if isV2Hello {
        return true;
      }
      ok := *;
      ok := ok || sound;
      if ok {
        transcript := transcript + queue[0].raw;
        hashed := true;
      }
    }

    /** ssl->method->next_message */
    method NextMessage()
      requires queue != []
      modifies `queue, `isV2Hello, `hashed, `log
      ensures queue == old(queue)[1..] && !hashed && !isV2Hello
      ensures log == old(log) + [Handshake(Other(Own()), old(queue)[0].typ, old(queue)[0].raw)]
      ensures old(Synced()) && old(hashed) ==> Synced()
    {
      hide Hashed, Covers;
      ghost var item := Handshake(Other(Own()), queue[0].typ, queue[0].raw);
      assert Hashed(log) + queue[0].raw + [] == Hashed(log) + queue[0].raw;
      Append(item);
      log := log + [item];
      queue := queue[1..];
      isV2Hello, hashed := false, false;
    }

    /** init_message and ssl_add_message_cbb: the message enters the transcript as it is queued. */
    method AddBody(typ: MsgType, body: seq<byte>) returns (ok: bool, ghost item: Item)
      requires Synced() && !hashed
      modifies `transcript, `log
      ensures ok ==> Synced() && log == old(log) + [item] && item.Handshake? && item.side == Own() && item.typ == typ
      ensures ok ==> Body(dtls, item.raw) == body && |item.raw| == |body| + if dtls then 12 else 4
      ensures !ok ==> log == old(log) && transcript == old(transcript)
      ensures sound ==> ok
    {
      hide Hashed, Covers, Verified;
      var length := if dtls then 12 else 4;
      assert |seq(length, _ => 0 as byte)| == length;
      var header: seq<byte> :| |header| == length;
      var raw := header + body;
      item := Handshake(Own(), typ, raw);
      assert Hashed(log) + [] == Hashed(log) && Hashed(log) + raw + [] == Hashed(log) + raw;
      ok := *;
      ok := ok || sound;
      if ok {
        Append(item);
        transcript := transcript + raw;
        log := log + [item];
      }
    }

    /** A message whose body is not looked into here. */
    method AddMessage(typ: MsgType) returns (ok: bool, ghost item: Item)
      requires Synced() && !hashed
      modifies `transcript, `log
      ensures ok ==> Synced() && log == old(log) + [item] && item.Handshake? && item.side == Own() && item.typ == typ
      ensures !ok ==> log == old(log) && transcript == old(transcript)
      ensures sound ==> ok
    {
      var body: seq<byte> := *;
      ok, item := AddBody(typ, body);
    }

    /** add_change_cipher_spec: queued, but not part of the transcript */
    method AddChangeCipherSpec() returns (ok: bool)
      requires Synced()
      modifies `log
      ensures ok ==> Synced() && log == old(log) + [ChangeCipherSpec(Own())]
      ensures !ok ==> log == old(log)
      ensures sound ==> ok
    {
      ok := *;
      ok := ok || sound;
      if ok {
        NoteChangeCipherSpec(Own());
      }
    }

    ghost method NoteChangeCipherSpec(side: Side)
      requires Synced()
      modifies `log
      ensures Synced() && log == old(log) + [ChangeCipherSpec(side)]
    {
      hide Hashed, Covers;
      Append(ChangeCipherSpec(side));
      assert Hashed(log) + [] == Hashed(log);
      log := log + [ChangeCipherSpec(side)];
    }

    /** ssl_send_finished */
    method SendFinished() returns (ok: bool, ghost item: Item)
      requires Synced() && !hashed && ownAt.None?
      modifies `transcript, `log, `ownAt, `ownMac
      ensures ok ==> Synced() && log == old(log) + [item] && IsFinished(item, Own())
      ensures ok ==> ownAt == Some(|old(log)|) && ownMac == Hashed(old(log))
      ensures ok ==> Body(dtls, item.raw) == verifyData(old(transcript), Own())
      ensures sound ==> ok
    {
      hide Hashed, Covers, Body;
      ghost var before := log;
      assert Hashed(before) + [] == Hashed(before);
      var mac: bool := *;
      if !mac && !sound {
        return false, ChangeCipherSpec(Own());
      }
      var body := verifyData(transcript, Own());
      ok, item := AddBody(Finished, body);
      if ok {
        CoversLast(before, item, Own());
        ownAt, ownMac := Some(|before|), Hashed(before);
      }
    }

    /** A Finished message of the peer that holds the verify data of this transcript. */
    predicate Genuine(msg: Incoming, transcript: seq<byte>) {
      msg.typ == Finished && Body(dtls, msg.raw) == verifyData(transcript, Other(Own()))
    }

    /** ssl_get_finished: the hash is taken before the message itself is hashed. */
    method GetFinished() returns (wait: Wait, ghost item: Item)
      requires Synced() && !hashed && peerAt.None?
      modifies `transcript, `hashed, `queue, `isV2Hello, `log, `peerAt, `peerMac
      ensures wait.Proceed? || wait.ReadMessage? || wait.Error?
      ensures wait.ReadMessage? ==>
                Synced() && !hashed && queue == old(queue) && log == old(log) && peerAt == old(peerAt)
                && transcript == old(transcript)
      ensures wait.Proceed? ==> Synced() && !hashed && log == old(log) + [item] && IsFinished(item, Other(Own()))
      ensures wait.Proceed? ==> peerAt == Some(|old(log)|) && peerMac == old(transcript) == Hashed(old(log))
      ensures wait.ReadMessage? <==> old(queue) == []
      ensures wait.Proceed? ==> Genuine(old(queue)[0], old(transcript))
      ensures sound && old(queue) != [] && Genuine(old(queue)[0], old(transcript)) ==> wait.Proceed?
    {
      hide Hashed, Covers, Body;
      item := ChangeCipherSpec(Own());
      if queue == [] {
        return ReadMessage, item;
      }
      if queue[0].typ != Finished {
        return Error, item;
      }
      ghost var before := log;
      assert Hashed(before) + [] == Hashed(before);
      item := Handshake(Other(Own()), Finished, queue[0].raw);
      CoversLast(log, item, Other(Own()));
      var mac: bool := *;
      if !mac && !sound {
        return Error, item;
      }
      var finished := verifyData(transcript, Other(Own()));
      ghost var covered := transcript;
      var ok := HashMessage();
      if !ok {
        return Error, item;
      }
      if Body(dtls, queue[0].raw) != finished {
        return Error, item;   // SSL_R_DIGEST_CHECK_FAILED
      }
      NextMessage();
      peerAt, peerMac := Some(|before|), covered;
      return Proceed, item;
    }

    /** Whether a record can be taken in while handshake messages are awaited. */
    predicate Takes(arrival: Arrival)
      reads `v2HelloDone
    {
      arrival.HandshakeRecord? || (arrival.V2Hello? && server && !dtls && !v2HelloDone) || (arrival.CcsRecord? && dtls)
    }

    /**
     * ssl_open_handshake on the next record: may add messages to the queue, or, in DTLS, remember a
     * ChangeCipherSpec.
     */
    method OpenHandshake(net: Network) returns (ret: int, retry: bool)
      modifies `queue, `v2HelloDone, `isV2Hello, `transcript, `hashed, net
      ensures ret > 0 ==>
                old(net.arrivals) != [] && net.arrivals == old(net.arrivals)[1..]
                && match old(net.arrivals)[0]
                   case HandshakeRecord(messages) =>
                     queue == old(queue) + messages && transcript == old(transcript) && net.hasCcs == old(net.hasCcs)
                   case V2Hello(raw) =>
                     server && !dtls && !old(v2HelloDone) && isV2Hello && queue == [Incoming(ClientHello, raw)]
                     && transcript == old(transcript) + raw && net.hasCcs == old(net.hasCcs)
                   case CcsRecord => dtls && net.hasCcs && !retry && queue == old(queue)
                     && transcript == old(transcript)
                   case _ => false
      ensures ret <= 0 ==>
                queue == old(queue) && transcript == old(transcript) && hashed == old(hashed)
                  && net.hasCcs == old(net.hasCcs)
      ensures ret > 0 <==> old(net.arrivals != [] && Takes(net.arrivals[0]))
      ensures net.refusals == old(net.refusals)
      ensures old(Synced()) ==> Synced()
      ensures !server || dtls ==> hashed == old(hashed)
      ensures old(Synced()) && hashed && !old(hashed) ==> isV2Hello && !old(v2HelloDone)
      ensures old(Synced()) && old(queue) != [] && server ==> queue != [] && queue[0] == old(queue)[0]
      ensures (old(isV2Hello) ==> isV2Hello) && (old(v2HelloDone) ==> v2HelloDone)
      ensures net.Due() <= old(net.Due()) && (ret > 0 ==> net.Due() < old(net.Due()))
    {
      hide Hashed, Covers, Verified;
      if net.arrivals == [] {
        return -1, false;
      }
      var arrival := net.arrivals[0];
      net.arrivals := net.arrivals[1..];
      match arrival {
        case HandshakeRecord(messages) =>
          queue := queue + messages;
          v2HelloDone := true;
          var again := *;
          return 1, again;
        case V2Hello(raw) =>
          if !server || dtls || v2HelloDone {
            return -1, false;
          }
          v2HelloDone, isV2Hello := true, true;
          queue := [Incoming(ClientHello, raw)];
          transcript := transcript + raw;
          hashed := true;
          return 1, false;
        case CcsRecord =>
          if !dtls {
            return -1, false;
          }
          net.hasCcs := true;
          return 1, false;
        case BadRecord =>
          return -1, false;
      }
    }

    /** ssl_open_change_cipher_spec: the next record, or in DTLS one that came early. */
    method OpenChangeCipherSpec(net: Network) returns (ret: int, retry: bool)
      requires Synced()
      modifies `log, `queue, `v2HelloDone, `isV2Hello, `transcript, `hashed, net
      ensures Synced() && hashed == old(hashed) && (old(v2HelloDone) ==> v2HelloDone)
      ensures !dtls ==> queue == old(queue) && (ret > 0 ==> old(net.arrivals) != [] && old(net.arrivals)[0].CcsRecord?)
      ensures net.refusals == old(net.refusals)
      ensures ret > 0 <==> if dtls then old(net.hasCcs || (net.arrivals != [] && Takes(net.arrivals[0])))
                           else old(net.arrivals) != [] && old(net.arrivals)[0].CcsRecord?
      ensures dtls && old(net.hasCcs) ==>
                ret > 0 && !retry && !net.hasCcs && net.arrivals == old(net.arrivals) && queue == old(queue)
      ensures dtls && ret > 0 && !retry ==>
                !net.hasCcs && (old(net.hasCcs) || (old(net.arrivals) != [] && old(net.arrivals)[0].CcsRecord?))
      ensures net.Due() <= old(net.Due()) && (ret > 0 ==> net.Due() < old(net.Due()))
      ensures log == old(log) + if ret > 0 && !retry then [ChangeCipherSpec(Other(Own()))] else []
    {
      hide Hashed, Covers;
      if dtls {
        if !net.hasCcs {
          ret, retry := OpenHandshake(net);
          if ret <= 0 || retry {
            return ret, retry;
          }
        }
        if !net.hasCcs {
          return 1, true;   // discarded: try the next record
        }
        net.hasCcs := false;
      } else {
        if net.arrivals == [] || !net.arrivals[0].CcsRecord? {
          return -1, false;
        }
        net.arrivals := net.arrivals[1..];
        var again := *;
        if again {
          return 1, true;
        }
      }
      NoteChangeCipherSpec(Other(Own()));
      return 1, false;
    }
  }
}
