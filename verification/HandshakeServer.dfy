/** The server's handshake machine for TLS 1.2 and below; cryptography and parsing decide as they please. */
module HandshakeServer {
  import opened HandshakeFlow
  import opened HandshakeConnection

  datatype State =
    | StartAccept | ReadClientHello | SelectCertificate | Tls13 | SelectParameters | SendServerHello
    | SendServerCertificate | SendServerKeyExchange | SendServerHelloDone | ReadClientCertificate
    | VerifyClientCertificate | ReadClientKeyExchange | ReadClientCertificateVerify | ReadCcs
    | ProcessChangeCipherSpec | ReadNextProto | ReadChannelId | ReadClientFinished
    | SendServerFinished | FinishServerHandshake | Done

  predicate BeforeHello(s: State) {
    s.StartAccept? || s.ReadClientHello? || s.SelectCertificate? || s.SelectParameters?
  }

  /** States that only a full handshake passes through. */
  predicate FullOnly(s: State) {
    s.SendServerCertificate? || s.SendServerKeyExchange? || s.SendServerHelloDone? || s.ReadClientCertificate?
    || s.VerifyClientCertificate? || s.ReadClientKeyExchange? || s.ReadClientCertificateVerify?
  }

  /** How far the flow has come when the machine is in a state. */
  function PlaceOf(s: State, resumed: bool, ccsDue: bool): nat {
    match s
    case StartAccept => 0
    case ReadClientHello => 0
    case SelectCertificate => 0
    case Tls13 => 1
    case SelectParameters => 0
    case SendServerHello => 1
    case SendServerCertificate => 2
    case SendServerKeyExchange => 4
    case SendServerHelloDone => 5
    case ReadClientCertificate => 7
    case VerifyClientCertificate => 8
    case ReadClientKeyExchange => 8
    case ReadClientCertificateVerify => 9
    case ReadCcs => if resumed then 5 else 10
    case ProcessChangeCipherSpec => (if resumed then 5 else 10) + if ccsDue then 0 else 1
    case ReadNextProto => if resumed then 6 else 11
    case ReadChannelId => if resumed then 7 else 12
    case ReadClientFinished => if resumed then 8 else 13
    case SendServerFinished => if resumed then 2 else 14
    case FinishServerHandshake => if resumed then 9 else 17
    case Done => if resumed then 9 else 17
  }

  /** Where the machine is on the way to its end; resumption moves the server's Finished to the front. */
  function RankOf(s: State, resumed: bool, tls13Flights: nat): nat {
    match s
    case StartAccept => 34 + tls13Flights
    case ReadClientHello => 33 + tls13Flights
    case SelectCertificate => 32 + tls13Flights
    case Tls13 => 31 + tls13Flights
    case SelectParameters => 30
    case SendServerHello => 29
    case SendServerCertificate => 28
    case SendServerKeyExchange => 27
    case SendServerHelloDone => 26
    case ReadClientCertificate => 25
    case VerifyClientCertificate => 24
    case ReadClientKeyExchange => 23
    case ReadClientCertificateVerify => 22
    case ReadCcs => 20
    case ProcessChangeCipherSpec => 19
    case ReadNextProto => 18
    case ReadChannelId => 17
    case ReadClientFinished => 16
    case SendServerFinished => if resumed then 21 else 15
    case FinishServerHandshake => 1
    case Done => 0
  }

  class Server {
    const conn: Connection
    var state: State
    var wait: Wait
    var session: bool               // ssl->session is set
    var sessionReused: bool
    var handoff: bool
    var certAuth: bool              // ssl_cipher_uses_certificate_auth
    var certificateStatusExpected: bool
    var certRequest: bool
    var serverParams: bool          // hs->server_params is not empty
    var ssl3: bool
    var requirePeerCert: bool       // SSL_VERIFY_FAIL_IF_NO_PEER_CERT
    var peerCertificates: bool
    var nextProtoSeen: bool
    var channelIdValid: bool
    var ticketExpected: bool
    var tls13Flights: nat           // flights the TLS 1.3 machine will still flush
    ghost var tls13: bool
    ghost var ccsDue: bool          // a ChangeCipherSpec was asked for and has not come
    ghost var doubts: nat           // how often a check failed, or a callback or a key was not ready
    ghost var surprised: bool       // the message at hand was out of place when the last state function ran

    ghost function Resumed(): bool
      reads `state, `sessionReused
    {
      !BeforeHello(state) && sessionReused
    }

    ghost function Place(): nat
      reads `state, `sessionReused, `ccsDue
    {
      PlaceOf(state, Resumed(), ccsDue)
    }

    ghost function Rank(): nat
      reads `state, `sessionReused, `tls13Flights
    {
      RankOf(state, Resumed(), tls13Flights)
    }

    /** Only a version 2 ClientHello is in the transcript before it is released. */
    ghost predicate OnCourse()
      reads `state, `session, `sessionReused, `ccsDue, conn
    {
      conn.Synced() && Reached(Resumed(), Place(), conn.log)
      && (if BeforeHello(state) then conn.hashed ==> conn.isV2Hello else !conn.hashed && conn.v2HelloDone)
      && (!BeforeHello(state) ==> session == sessionReused) && (FullOnly(state) ==> !session)
      && (conn.ownAt.Some? <==> Place() > if Resumed() then 4 else 16)
      && (conn.peerAt.Some? <==> Place() > if Resumed() then 8 else 13)
      && (state.SelectCertificate? || state.SelectParameters? ==> conn.queue != [] && conn.queue[0].typ == ClientHello)
      && (ccsDue ==> state == ProcessChangeCipherSpec)
    }

    /** Between states: outside TLS 1.3, what was sent and received is what the flow has up to here. */
    ghost predicate Valid()
      reads `state, `session, `sessionReused, `ccsDue, `tls13, conn
    {
      conn.server
      && if tls13 then (state.Tls13? || state.FinishServerHandshake? || state.Done?)
      && !ccsDue else state != Tls13 && OnCourse()
    }

    /** The message at hand is not one that the state can take. */
    ghost predicate Unexpected()
      reads `state, `certRequest, `ssl3, `requirePeerCert, `peerCertificates, `nextProtoSeen, `channelIdValid, conn
    {
      conn.queue != []
      && match state
         case ReadClientHello => conn.queue[0].typ != ClientHello
         case ReadClientCertificate =>
           certRequest && conn.queue[0].typ != Certificate
           && !(conn.queue[0].typ == ClientKeyExchange && ssl3 && !requirePeerCert)
         case ReadClientKeyExchange => conn.queue[0].typ != ClientKeyExchange
         case ReadClientCertificateVerify => peerCertificates && conn.queue[0].typ != CertificateVerify
         case ReadNextProto => nextProtoSeen && conn.queue[0].typ != NextProto
         case ReadChannelId => channelIdValid && conn.queue[0].typ != ChannelId
         case ReadClientFinished => !conn.Genuine(conn.queue[0], conn.transcript)
         case _ => false
    }

    /** An error or a wait has a cause. */
    ghost predicate Excused(r: Wait, before: nat, unexpected: bool)
      reads `doubts, `tls13, `handoff, conn
    {
      before <= doubts
      && (r.Error? ==> !conn.sound || before < doubts || unexpected || tls13)
      && (ForCaller(r) ==> before < doubts || handoff || tls13)
      && (r.ReadMessage? || r.AwaitServerHello? ==> conn.queue == [] || tls13)
    }

    lemma ExcusedAnyway(r: Wait, before: nat, unexpected: bool)
      ensures Excused(r, before, false) ==> Excused(r, before, unexpected)
    {
    }

    /** Asks whoever decides: a parser, a check, a callback, a key. */
    method Ask() returns (yes: bool)
      modifies `doubts
      ensures doubts == old(doubts) + if yes then 0 else 1
    {
      yes := *;
      if !yes {
        doubts := doubts + 1;
      }
    }

    /** A state function that waits leaves the state and the log as they were. */
    ghost predicate Held(r: Wait, s: State, log: seq<Item>)
      reads `state, conn
    {
      r.Proceed? || r.Flush? || r.ReadChangeCipherSpec? || r.EarlyReturn? || r.Error? || (state == s && conn.log == log)
    }

    /** What a state function leaves behind. */
    ghost predicate Moved(r: Wait, rankBefore: nat)
      reads `state, `session, `sessionReused, `ccsDue, `tls13, `tls13Flights, conn
    {
      r.Error?
      || (Valid() && (ccsDue <==> r.ReadChangeCipherSpec?)
          && if r.Proceed? || r.Flush? || r.ReadChangeCipherSpec? then Rank() < rankBefore else Rank() <= rankBefore)
    }

    constructor (conn: Connection, tls13Flights: nat)
      requires conn.Synced() && !conn.hashed && conn.log == [] && conn.ownAt.None? && conn.peerAt.None? && conn.server
      ensures Valid() && !ccsDue && wait.Proceed? && this.conn == conn && state == StartAccept
    {
      this.conn, this.tls13Flights := conn, tls13Flights;
      state, wait, session, sessionReused, tls13, ccsDue := StartAccept, Proceed, false, false, false, false;
      doubts, surprised := 0, false;
      certRequest, serverParams, peerCertificates, certAuth := false, false, false, false;
      handoff, certificateStatusExpected, ssl3, requirePeerCert := *, *, *, *;
      nextProtoSeen, channelIdValid, ticketExpected := *, *, *;
    }

    /** A state's message does not occur. */
    ghost method Skipped()
      requires OnCourse() && !tls13 && !BeforeHello(state)
      requires Place() < |Flow(Resumed())| && Optional(Flow(Resumed())[Place()])
      ensures Reached(Resumed(), Place() + 1, conn.log) && Adds(conn.log, conn.log, [])
    {
      Skip(Resumed(), Place(), conn.log);
      AddsNone(conn.log);
    }

    method DoStartAccept() returns (r: Wait)
      requires Valid() && state == StartAccept
      modifies this
      ensures Excused(r, old(doubts), false)
      ensures Moved(r, old(Rank())) && Held(r, old(state), old(conn.log))
      ensures r.Proceed? && state == ReadClientHello
    {
      hide Flow, Matches, Reached, Adds, Connection.Synced;
      state := ReadClientHello;
      return Proceed;
    }

    method DoReadClientHello() returns (r: Wait)
      requires Valid() && state == ReadClientHello
      modifies this
      ensures Excused(r, old(doubts), old(Unexpected()))
      ensures Moved(r, old(Rank())) && Held(r, old(state), old(conn.log))
      ensures r.ReadMessage? <==> conn.queue == []
      ensures r.Handoff? ==> handoff
      ensures r.Proceed? ==> state == SelectCertificate && conn.queue[0].typ == ClientHello && !handoff
    {
      hide Flow, Matches, Reached, Adds, Connection.Synced;
      if conn.queue == [] {
        return ReadMessage;
      }
      if conn.queue[0].typ != ClientHello {
        return Error;
      }
      if handoff {
        return Handoff;
      }
      var ready := Ask();
      if !ready {
        return CertificateSelectionPending;
      }
      var works := Ask();
      if !works {
        return Error;
      }
      state := SelectCertificate;
      return Proceed;
    }

    method DoSelectCertificate() returns (r: Wait)
      requires Valid() && state == SelectCertificate
      modifies this
      ensures Excused(r, old(doubts), false)
      ensures Moved(r, old(Rank())) && Held(r, old(state), old(conn.log))
      ensures r.Proceed? ==> state == if tls13 then Tls13 else SelectParameters
    {
      hide Flow, Matches, Reached, Adds, Connection.Synced;
      if conn.queue == [] {
        return ReadMessage;
      }
      var ready := Ask();
      if !ready {
        return X509Lookup;
      }
      var works := Ask();
      var is13: bool := *;
      if !works {
        return Error;
      }
      if is13 {
        state, tls13 := Tls13, true;
        return Proceed;
      }
      var cipherFound := Ask();
      if !cipherFound {
        return Error;
      }
      certAuth := *;
      state := SelectParameters;
      return Proceed;
    }

    /** The TLS 1.3 machine is not part of this model. */
    method DoTls13() returns (r: Wait)
      requires Valid() && state == Tls13
      modifies this
      ensures Excused(r, old(doubts), false)
      ensures Moved(r, old(Rank()))
    {
      r := *;
      if r.Flush? && tls13Flights > 0 {
        tls13Flights := tls13Flights - 1;
      } else if r.Flush? || r.ReadChangeCipherSpec? {
        r := Error;
      } else if r.Proceed? {
        state := FinishServerHandshake;
      }
    }

    /** Hashes the ClientHello, unless it was hashed on arrival, and releases it. */
    method TakeClientHello() returns (ok: bool)
      requires conn.Synced() && (conn.hashed ==> conn.isV2Hello) && conn.server && conn.queue != []
      requires conn.queue[0].typ == ClientHello && conn.log == []
      modifies conn
      ensures ok ==>
                conn.Synced() && !conn.hashed && conn.v2HelloDone && Reached(false, 1, conn.log)
                && Reached(true, 1, conn.log)
      ensures ok ==> conn.ownAt == old(conn.ownAt) && conn.peerAt == old(conn.peerAt)
      ensures ok ==>
                conn.queue == old(conn.queue)[1..] && Adds(old(conn.log), conn.log, [Said(FromClient, ClientHello)])
      ensures conn.sound ==> ok
    {
      assert conn.v2HelloDone;
      hide Flow, Matches, Reached, Adds, Connection.Synced;
      NothingReached(false, conn.log);
      ghost var before, item := conn.log, Handshake(FromClient, ClientHello, conn.queue[0].raw);
      ok := conn.HashMessage();
      if ok {
        conn.NextMessage();
        Hellos(false);
        Take(false, 0, before, item);
        AddsOne(before, item, Said(FromClient, ClientHello));
        SameHellos(conn.log, 1);
      }
    }

    /** What the ClientHello and the session found for it settle. */
    method Negotiated()
      modifies `ticketExpected, `certRequest
      ensures certRequest ==> !session && certAuth
    {
      ticketExpected := *;
      certRequest := *;
      if session || !certAuth {
        certRequest := false;
      }
    }

    /** Where the machine is once the ClientHello is in the transcript. */
    lemma Settled(rankBefore: nat)
      requires state == SendServerHello && session == sessionReused && conn.server && !tls13 && !ccsDue
      requires conn.Synced() && !conn.hashed && conn.v2HelloDone && Reached(session, 1, conn.log)
      requires conn.ownAt.None? && conn.peerAt.None? && rankBefore == RankOf(SelectParameters, false, tls13Flights)
      ensures Moved(Proceed, rankBefore)
    {
      hide Flow, Matches, Reached, Connection.Synced;
    }

    /** What remains once the session is chosen: the ciphers are settled and the ClientHello enters the transcript. */
    method SettleHello(resumable: bool) returns (r: Wait)
      requires Valid() && state == SelectParameters && conn.queue != []
      modifies this, conn
      ensures (r.Proceed? || r.Error?) && doubts == old(doubts) && (r.Error? ==> !conn.sound)
      ensures r.Proceed? ==> Moved(r, old(Rank())) && state == SendServerHello
      ensures r.Proceed? ==> session == sessionReused && (certRequest ==> !session && old(certAuth))
      ensures r.Proceed? ==>
                conn.queue == old(conn.queue)[1..] && Adds(old(conn.log), conn.log, [Said(FromClient, ClientHello)])
    {
      hide Flow, Matches, Reached, Adds, Connection.Synced, RankOf;
      NothingReached(false, conn.log);
      assert conn.ownAt.None? && conn.peerAt.None? && Rank() == RankOf(state, false, tls13Flights);
      hide PlaceOf, Server.Moved;
      session, sessionReused := resumable, resumable;
      Negotiated();
      var ok := TakeClientHello();
      if !ok {
        return Error;
      }
      state := SendServerHello;
      Settled(old(Rank()));
      return Proceed;
    }

    method DoSelectParameters() returns (r: Wait)
      requires Valid() && state == SelectParameters
      modifies this, conn
      ensures Excused(r, old(doubts), false)
      ensures Moved(r, old(Rank())) && Held(r, old(state), old(conn.log))
      ensures r.Proceed? ==>
                state == SendServerHello && session == sessionReused && (certRequest ==> !session && old(certAuth))
      ensures r.Proceed? ==>
                conn.queue == old(conn.queue)[1..] && Adds(old(conn.log), conn.log, [Said(FromClient, ClientHello)])
    {
      hide Flow, Matches, Reached, Adds, Connection.Synced;
      if conn.queue == [] {
        return ReadMessage;
      }
      var ticket: bool, resumable: bool := *, *;
      var ready := Ask();
      if !ready {
        return if ticket then PendingTicket else PendingSession;
      }
      var works := Ask();
      if !works {
        return Error;
      }
      r := SettleHello(resumable);
    }

    /** Adds the message of place n of the flow to the flight. */
    method Send(typ: MsgType, ghost n: nat) returns (ok: bool)
      requires conn.Synced() && !conn.hashed && conn.server && conn.v2HelloDone && Reached(session, n, conn.log)
      requires n < |Flow(session)| && Fits(Flow(session)[n], Handshake(FromServer, typ, []))
      modifies conn
      ensures ok ==> conn.Synced() && !conn.hashed && conn.v2HelloDone && Reached(session, n + 1, conn.log)
      ensures ok ==> conn.ownAt == old(conn.ownAt) && conn.peerAt == old(conn.peerAt)
      ensures ok ==> Adds(old(conn.log), conn.log, [Said(FromServer, typ)])
      ensures conn.sound ==> ok
    {
      hide Flow, Matches, Reached, Adds, Connection.Synced;
      ghost var before := conn.log;
      ghost var item;
      ok, item := conn.AddMessage(typ);
      if ok {
        Take(session, n, before, item);
        AddsOne(before, item, Said(FromServer, typ));
      }
    }

    /** Adds the optional message of place n of the flow, or passes it over. */
    method SendOptional(send: bool, typ: MsgType, ghost n: nat) returns (ok: bool)
      requires conn.Synced() && !conn.hashed && conn.server && conn.v2HelloDone && Reached(session, n, conn.log)
      requires n < |Flow(session)| && Flow(session)[n] == Message(FromServer, typ, true)
      modifies conn
      ensures ok ==> conn.Synced() && !conn.hashed && conn.v2HelloDone && Reached(session, n + 1, conn.log)
      ensures ok ==> conn.ownAt == old(conn.ownAt) && conn.peerAt == old(conn.peerAt)
      ensures ok ==> Adds(old(conn.log), conn.log, If(send, Said(FromServer, typ)))
      ensures conn.sound ==> ok
    {
      hide Flow, Matches, Reached, Adds, Connection.Synced;
      if send {
        ok := Send(typ, n);
      } else {
        Skip(session, n, conn.log);
        AddsNone(conn.log);
        return true;
      }
    }

    method DoSendServerHello() returns (r: Wait)
      requires Valid() && state == SendServerHello
      modifies this, conn
      ensures Excused(r, old(doubts), false)
      ensures Moved(r, old(Rank())) && Held(r, old(state), old(conn.log))
      ensures r.Proceed? ==> state == (if session then SendServerFinished else SendServerCertificate)
      ensures r.Proceed? ==> Adds(old(conn.log), conn.log, [Said(FromServer, ServerHello)])
    {
      hide Flow, Matches, Reached, Adds, Connection.Synced;
      var noChannelId: bool := *;
      if noChannelId {
        channelIdValid := false;
      }
      var works := Ask();
      if !works {
        return Error;
      }
      Hellos(session);
      var ok := Send(ServerHello, 1);
      if !ok {
        return Error;
      }
      state := if session then SendServerFinished else SendServerCertificate;
      return Proceed;
    }

    /** The server's Certificate and CertificateStatus, where the cipher and the client want them. */
    method SendCertificates() returns (ok: bool)
      requires conn.Synced() && !conn.hashed && conn.server && conn.v2HelloDone && !session
               && Reached(session, 2, conn.log)
      modifies conn, `doubts
      ensures ok ==> conn.Synced() && !conn.hashed && conn.v2HelloDone && Reached(session, 4, conn.log)
      ensures ok ==> conn.ownAt == old(conn.ownAt) && conn.peerAt == old(conn.peerAt)
      ensures ok ==> Adds(old(conn.log), conn.log, If(certAuth, Said(FromServer, Certificate))
                                                   + If(certAuth && certificateStatusExpected,
                                                        Said(FromServer, CertificateStatus)))
      ensures old(doubts) <= doubts && (!ok ==> !conn.sound || old(doubts) < doubts)
    {
      hide Flow, Matches, Reached, Adds, Connection.Synced;
      KeyExchange();
      if certAuth {
        var hasCertificate := Ask();
        if !hasCertificate {
          return false;
        }
      }
      ghost var start := conn.log;
      ok := SendOptional(certAuth, Certificate, 2);
      if !ok {
        return false;
      }
      ghost var before := conn.log;
      ok := SendOptional(certAuth && certificateStatusExpected, CertificateStatus, 3);
      if ok {
        AddsThen(start, before, conn.log, If(certAuth, Said(FromServer, Certificate)),
                 If(certAuth && certificateStatusExpected, Said(FromServer, CertificateStatus)));
      }
    }

    method DoSendServerCertificate() returns (r: Wait)
      requires Valid() && state == SendServerCertificate
      modifies this, conn
      ensures Excused(r, old(doubts), false)
      ensures Moved(r, old(Rank())) && Held(r, old(state), old(conn.log))
      ensures r.Proceed? ==> state == SendServerKeyExchange
      ensures r.Proceed? ==> Adds(old(conn.log), conn.log, If(old(certAuth), Said(FromServer, Certificate))
                                                      + If(old(certAuth) && old(certificateStatusExpected),
                                                           Said(FromServer, CertificateStatus)))
    {
      hide Flow, Matches, Reached, Adds, Connection.Synced;
      var ok := SendCertificates();
      var works := Ask();
      if !ok || !works {
        return Error;
      }
      serverParams := *;
      state := SendServerKeyExchange;
      return Proceed;
    }

    method DoSendServerKeyExchange() returns (r: Wait)
      requires Valid() && state == SendServerKeyExchange
      modifies this, conn
      ensures Excused(r, old(doubts), false)
      ensures Moved(r, old(Rank())) && Held(r, old(state), old(conn.log))
      ensures r.Proceed? ==>
                state == SendServerHelloDone
                && Adds(old(conn.log), conn.log, If(old(serverParams), Said(FromServer, ServerKeyExchange)))
      ensures r.PrivateKeyOperation? ==> old(serverParams) && old(certAuth)
    {
      hide Flow, Matches, Reached, Adds, Connection.Synced;
      KeyExchange();
      if !serverParams {
        Skipped();
        state := SendServerHelloDone;
        return Proceed;
      }
      var works := Ask();
      if !works {
        return Error;
      }
      if certAuth {
        var ready := Ask();
        if !ready {
          return PrivateKeyOperation;
        }
      }
      var ok := Send(ServerKeyExchange, 4);
      if !ok {
        return Error;
      }
      serverParams := false;
      state := SendServerHelloDone;
      return Proceed;
    }

    method DoSendServerHelloDone() returns (r: Wait)
      requires Valid() && state == SendServerHelloDone
      modifies this, conn
      ensures Excused(r, old(doubts), false)
      ensures Moved(r, old(Rank())) && Held(r, old(state), old(conn.log))
      ensures r.Flush? ==> state == ReadClientCertificate
      ensures r.Flush? ==>
                Adds(old(conn.log), conn.log,
                     If(old(certRequest), Said(FromServer, CertificateRequest)) + [Said(FromServer, ServerHelloDone)])
    {
      hide Flow, Matches, Reached, Adds, Connection.Synced;
      KeyExchange();
      ghost var start := conn.log;
      var ok := SendOptional(certRequest, CertificateRequest, 5);
      if !ok {
        return Error;
      }
      ghost var before := conn.log;
      ok := Send(ServerHelloDone, 6);
      if !ok {
        return Error;
      }
      AddsThen(start, before, conn.log, If(certRequest, Said(FromServer, CertificateRequest)),
               [Said(FromServer, ServerHelloDone)]);
      state := ReadClientCertificate;
      return Flush;
    }

    /** Reads the message of place n of the flow: checked, hashed, and only then released. */
    method ReadExpected(typ: MsgType, ghost n: nat) returns (r: Wait)
      requires conn.Synced() && !conn.hashed && conn.server && conn.v2HelloDone && Reached(session, n, conn.log)
      requires n < |Flow(session)| && Fits(Flow(session)[n], Handshake(FromClient, typ, []))
      modifies conn, `doubts
      ensures r.Proceed? || r.ReadMessage? || r.PrivateKeyOperation? || r.Error?
      ensures r.PrivateKeyOperation? ==> typ == ClientKeyExchange
      ensures !r.Error? && !r.Proceed? ==> conn.log == old(conn.log)
      ensures r.Proceed? ==>
                old(conn.queue) != [] && old(conn.queue)[0].typ == typ
                && Adds(old(conn.log), conn.log, [Said(FromClient, typ)])
      ensures !r.Error? ==>
                conn.Synced() && !conn.hashed && conn.v2HelloDone
                && Reached(session, if r.Proceed? then n + 1 else n, conn.log)
                && conn.ownAt == old(conn.ownAt) && conn.peerAt == old(conn.peerAt)
      ensures r.ReadMessage? <==> old(conn.queue) == []
      ensures r.ReadMessage? ==> conn.queue == old(conn.queue)
      ensures old(doubts) <= doubts && (r.PrivateKeyOperation? ==> old(doubts) < doubts)
      ensures r.Error? ==> !conn.sound || old(doubts) < doubts || old(conn.queue)[0].typ != typ
    {
      hide Flow, Matches, Reached, Adds, Connection.Synced;
      if conn.queue == [] {
        return ReadMessage;
      }
      if conn.queue[0].typ != typ {
        return Error;
      }
      if typ == ClientKeyExchange {
        var ready := Ask();
        if !ready {
          return PrivateKeyOperation;   // nothing was hashed yet
        }
      }
      var acceptable := Ask();
      if !acceptable {
        return Error;
      }
      ghost var before, item := conn.log, Handshake(FromClient, typ, conn.queue[0].raw);
      var ok := conn.HashMessage();
      var usable := Ask();
      if !ok || !usable {
        return Error;
      }
      conn.NextMessage();
      Take(session, n, before, item);
      AddsOne(before, item, Said(FromClient, typ));
      return Proceed;
    }

    method DoReadClientCertificate() returns (r: Wait)
      requires Valid() && state == ReadClientCertificate
      modifies this, conn
      ensures Excused(r, old(doubts), old(Unexpected()))
      ensures Moved(r, old(Rank())) && Held(r, old(state), old(conn.log))
      ensures r.Proceed? ==> state == VerifyClientCertificate && (old(certRequest) ==> old(conn.queue) != [])
      ensures r.Proceed? && old(certRequest) && old(conn.queue)[0].typ != Certificate ==>
                old(ssl3) && !old(requirePeerCert) && old(conn.queue)[0].typ == ClientKeyExchange
      ensures r.Proceed? ==>
                Adds(old(conn.log), conn.log,
                     If(old(certRequest) && old(conn.queue)[0].typ == Certificate, Said(FromClient, Certificate)))
    {
      hide Flow, Matches, Reached, Adds, Connection.Synced;
      KeyExchange();
      if certRequest && conn.queue == [] {
        return ReadMessage;
      }
      if !certRequest || (conn.queue[0].typ == ClientKeyExchange && ssl3 && !requirePeerCert) {
        // SSL 3.0 leaves the message out to say that there is no certificate.
        Skipped();
        state := VerifyClientCertificate;
        return Proceed;
      }
      r := ReadExpected(Certificate, 7);
      if r.Proceed? {
        peerCertificates := *;
        if !peerCertificates && (ssl3 || requirePeerCert) {
          doubts := doubts + 1;
          return Error;
        }
        state := VerifyClientCertificate;
      }
    }

    method DoVerifyClientCertificate() returns (r: Wait)
      requires Valid() && state == VerifyClientCertificate
      modifies this
      ensures Excused(r, old(doubts), false)
      ensures Moved(r, old(Rank())) && Held(r, old(state), old(conn.log))
      ensures (r.Proceed? ==> state == ReadClientKeyExchange) && (r.VerifyingCertificate? ==> old(peerCertificates))
    {
      hide Flow, Matches, Reached, Adds, Connection.Synced;
      if peerCertificates {
        var ready := Ask();
        if !ready {
          return VerifyingCertificate;
        }
        var valid := Ask();
        if !valid {
          return Error;
        }
      }
      state := ReadClientKeyExchange;
      return Proceed;
    }

    method DoReadClientKeyExchange() returns (r: Wait)
      requires Valid() && state == ReadClientKeyExchange
      modifies this, conn
      ensures Excused(r, old(doubts), old(Unexpected()))
      ensures Moved(r, old(Rank())) && Held(r, old(state), old(conn.log))
      ensures r.Proceed? ==>
                state == ReadClientCertificateVerify
                && Adds(old(conn.log), conn.log, [Said(FromClient, ClientKeyExchange)])
    {
      hide Flow, Matches, Reached, Adds, Connection.Synced;
      KeyExchange();
      r := ReadExpected(ClientKeyExchange, 8);
      if r.Proceed? {
        state := ReadClientCertificateVerify;
      }
    }

    method DoReadClientCertificateVerify() returns (r: Wait)
      requires Valid() && state == ReadClientCertificateVerify
      modifies this, conn
      ensures Excused(r, old(doubts), old(Unexpected()))
      ensures Moved(r, old(Rank())) && Held(r, old(state), old(conn.log))
      ensures r.Proceed? ==>
                state == ReadCcs
                && Adds(old(conn.log), conn.log, If(old(peerCertificates), Said(FromClient, CertificateVerify)))
    {
      hide Flow, Matches, Reached, Adds, Connection.Synced;
      KeyExchange();
      if !peerCertificates {
        Skipped();
        state := ReadCcs;
        return Proceed;
      }
      r := ReadExpected(CertificateVerify, 9);
      if r.Proceed? {
        state := ReadCcs;
      }
    }

    method DoReadChangeCipherSpec() returns (r: Wait)
      requires Valid() && state == ReadCcs
      modifies this
      ensures Excused(r, old(doubts), false)
      ensures Moved(r, old(Rank())) && Held(r, old(state), old(conn.log))
      ensures r.ReadChangeCipherSpec? && state == ProcessChangeCipherSpec
    {
      hide Flow, Matches, Reached, Adds, Connection.Synced;
      state, ccsDue := ProcessChangeCipherSpec, true;
      return ReadChangeCipherSpec;
    }

    method DoProcessChangeCipherSpec() returns (r: Wait)
      requires Valid() && state == ProcessChangeCipherSpec && !ccsDue
      modifies this
      ensures Excused(r, old(doubts), false)
      ensures Moved(r, old(Rank())) && Held(r, old(state), old(conn.log))
      ensures r.Proceed? ==> state == ReadNextProto
    {
      hide Flow, Matches, Reached, Adds, Connection.Synced;
      var keys := Ask();
      if !keys {
        return Error;
      }
      state := ReadNextProto;
      return Proceed;
    }

    method DoReadNextProto() returns (r: Wait)
      requires Valid() && state == ReadNextProto
      modifies this, conn
      ensures Excused(r, old(doubts), old(Unexpected()))
      ensures Moved(r, old(Rank())) && Held(r, old(state), old(conn.log))
      ensures r.Proceed? ==>
                state == ReadChannelId
                && Adds(old(conn.log), conn.log, If(old(nextProtoSeen), Said(FromClient, NextProto)))
    {
      hide Flow, Matches, Reached, Adds, Connection.Synced;
      ClientFinish(session);
      if !nextProtoSeen {
        Skipped();
        state := ReadChannelId;
        return Proceed;
      }
      r := ReadExpected(NextProto, ClientFinishAt(session) + 1);
      if r.Proceed? {
        state := ReadChannelId;
      }
    }

    method DoReadChannelId() returns (r: Wait)
      requires Valid() && state == ReadChannelId
      modifies this, conn
      ensures Excused(r, old(doubts), old(Unexpected()))
      ensures Moved(r, old(Rank())) && Held(r, old(state), old(conn.log))
      ensures r.Proceed? ==>
                state == ReadClientFinished
                && Adds(old(conn.log), conn.log, If(old(channelIdValid), Said(FromClient, ChannelId)))
    {
      hide Flow, Matches, Reached, Adds, Connection.Synced;
      ClientFinish(session);
      if !channelIdValid {
        Skipped();
        state := ReadClientFinished;
        return Proceed;
      }
      r := ReadExpected(ChannelId, ClientFinishAt(session) + 2);
      if r.Proceed? {
        state := ReadClientFinished;
      }
    }

    /** Checks the client's Finished, which is next in the flow. */
    method TakeFinished() returns (r: Wait)
      requires conn.Synced() && !conn.hashed && conn.server && conn.v2HelloDone && conn.peerAt.None?
      requires Reached(session, ClientFinishAt(session) + 3, conn.log)
      modifies conn
      ensures r.Proceed? || r.ReadMessage? || r.Error?
      ensures !r.Error? ==>
                conn.Synced() && !conn.hashed && conn.v2HelloDone && conn.ownAt == old(conn.ownAt)
                && conn.peerAt.Some? == r.Proceed?
      ensures !r.Error? ==> Reached(session, ClientFinishAt(session) + if r.Proceed? then 4 else 3, conn.log)
      ensures r.Proceed? ==> Adds(old(conn.log), conn.log, [Said(FromClient, Finished)])
      ensures r.ReadMessage? ==> conn.log == old(conn.log)
      ensures r.Proceed? ==> old(conn.queue) != [] && conn.Genuine(old(conn.queue)[0], old(conn.transcript))
      ensures conn.sound && old(conn.queue) != [] && conn.Genuine(old(conn.queue)[0], old(conn.transcript)) ==>
                r.Proceed?
      ensures r.ReadMessage? <==> old(conn.queue) == []
      ensures r.ReadMessage? ==> conn.queue == old(conn.queue)
    {
      hide Flow, Matches, Reached, Adds, Connection.Synced;
      ClientFinish(session);
      ghost var before := conn.log;
      ghost var item;
      r, item := conn.GetFinished();
      if r.Proceed? {
        Take(session, ClientFinishAt(session) + 3, before, item);
        AddsOne(before, item, Said(FromClient, Finished));
      }
    }

    method DoReadClientFinished() returns (r: Wait)
      requires Valid() && state == ReadClientFinished
      modifies this, conn
      ensures Excused(r, old(doubts), old(Unexpected()))
      ensures Moved(r, old(Rank())) && Held(r, old(state), old(conn.log))
      ensures r.Proceed? ==>
                state == (if session then FinishServerHandshake else SendServerFinished)
                && Adds(old(conn.log), conn.log, [Said(FromClient, Finished)])
      ensures r.Proceed? ==> old(conn.queue) != [] && conn.Genuine(old(conn.queue)[0], old(conn.transcript))
      ensures conn.sound && old(conn.queue) != [] && conn.Genuine(old(conn.queue)[0], old(conn.transcript)) ==>
                r.Proceed?
    {
      hide Flow, Matches, Reached, Adds, Connection.Synced;
      r := TakeFinished();
      if r.Proceed? {
        state := if session then FinishServerHandshake else SendServerFinished;
        var works: bool := *;
        if !session && channelIdValid && !works && !conn.sound {
          return Error;
        }
      }
    }

    /** The ticket if one is due, ChangeCipherSpec and the server's Finished, which are next in the flow. */
    method QueueFinished() returns (ok: bool)
      requires conn.Synced() && !conn.hashed && conn.server && conn.v2HelloDone && conn.ownAt.None?
      requires Reached(session, ServerFinishAt(session), conn.log)
      modifies conn, `doubts
      ensures ok ==>
                conn.Synced() && !conn.hashed && conn.v2HelloDone && conn.peerAt == old(conn.peerAt) && conn.ownAt.Some?
      ensures ok ==> Reached(session, ServerFinishAt(session) + 3, conn.log)
      ensures ok ==> Adds(old(conn.log), conn.log, LastFlight(ticketExpected))
      ensures old(doubts) <= doubts && (!ok ==> !conn.sound || old(doubts) < doubts)
    {
      hide Flow, Matches, Reached, Adds, Connection.Synced;
      ghost var n := ServerFinishAt(session);
      ServerFinish(session);
      ghost var start, places := conn.log, If(ticketExpected, Said(FromServer, NewSessionTicket));
      ok := SendOptional(ticketExpected, NewSessionTicket, n);
      if !ok {
        return false;
      }
      ghost var before, item := conn.log, ChangeCipherSpec(FromServer);
      ok := conn.AddChangeCipherSpec();
      var keys := Ask();
      if !ok || !keys {
        return false;
      }
      Take(session, n + 1, before, item);
      AddsOne(before, item, Ccs(FromServer));
      AddsThen(start, before, conn.log, places, [Ccs(FromServer)]);
      places, before := places + [Ccs(FromServer)], conn.log;
      ok, item := conn.SendFinished();
      if ok {
        Take(session, n + 2, before, item);
        AddsOne(before, item, Said(FromServer, Finished));
        AddsThen(start, before, conn.log, places, [Said(FromServer, Finished)]);
      }
    }

    /** What the server's last flight holds. */
    function LastFlight(ticket: bool): seq<Place> {
      If(ticket, Said(FromServer, NewSessionTicket)) + [Ccs(FromServer)] + [Said(FromServer, Finished)]
    }

    method DoSendServerFinished() returns (r: Wait)
      requires Valid() && state == SendServerFinished
      modifies this, conn
      ensures Excused(r, old(doubts), false)
      ensures Moved(r, old(Rank())) && Held(r, old(state), old(conn.log))
      ensures r.Flush? ==> state == (if session then ReadCcs else FinishServerHandshake)
      ensures r.Flush? ==> Adds(old(conn.log), conn.log, LastFlight(old(ticketExpected)))
    {
      hide Flow, Matches, Reached, Adds, Connection.Synced;
      var ok := QueueFinished();
      if !ok {
        return Error;
      }
      state := if session then ReadCcs else FinishServerHandshake;
      return Flush;
    }

    method DoFinishServerHandshake() returns (r: Wait)
      requires Valid() && state == FinishServerHandshake
      modifies this
      ensures Excused(r, old(doubts), false)
      ensures Moved(r, old(Rank())) && Held(r, old(state), old(conn.log))
      ensures r.Proceed? && state == Done
    {
      hide Flow, Matches, Reached, Adds, Connection.Synced;
      state := Done;
      return Proceed;
    }

    method Step() returns (r: Wait)
      requires Valid() && !ccsDue && state != Done
      modifies this, conn
      ensures Moved(r, old(Rank())) && Excused(r, old(doubts), surprised)
    {
      hide Server.Moved, Server.Excused, Server.Unexpected, Server.Valid, Server.Rank, Server.Held, RankOf, Adds;
      ghost var unexpected, before := Unexpected(), doubts;
      match state {
        case StartAccept => r := DoStartAccept();
        case ReadClientHello => r := DoReadClientHello();
        case SelectCertificate => r := DoSelectCertificate();
        case Tls13 => r := DoTls13();
        case SelectParameters => r := DoSelectParameters();
        case SendServerHello => r := DoSendServerHello();
        case SendServerCertificate => r := DoSendServerCertificate();
        case SendServerKeyExchange => r := DoSendServerKeyExchange();
        case SendServerHelloDone => r := DoSendServerHelloDone();
        case ReadClientCertificate => r := DoReadClientCertificate();
        case VerifyClientCertificate => r := DoVerifyClientCertificate();
        case ReadClientKeyExchange => r := DoReadClientKeyExchange();
        case ReadClientCertificateVerify => r := DoReadClientCertificateVerify();
        case ReadCcs => r := DoReadChangeCipherSpec();
        case ProcessChangeCipherSpec => r := DoProcessChangeCipherSpec();
        case ReadNextProto => r := DoReadNextProto();
        case ReadChannelId => r := DoReadChannelId();
        case ReadClientFinished => r := DoReadClientFinished();
        case SendServerFinished => r := DoSendServerFinished();
        case FinishServerHandshake => r := DoFinishServerHandshake();
      }
      surprised := unexpected;
      ExcusedAnyway(r, before, unexpected);
    }

    /** ssl_server_handshake: the loop ends because every unblocked step lowers the rank. */
    method RunStates() returns (r: Wait)
      requires Valid() && !ccsDue
      modifies this, conn
      ensures r.Error? || (Valid() && (ccsDue <==> r.ReadChangeCipherSpec?) && Rank() <= old(Rank()))
      ensures r.Proceed? ==> state == Done
      ensures Excused(r, old(doubts), surprised)
      ensures r.Flush? || r.ReadChangeCipherSpec? ==> Rank() < old(Rank())
    {
      while state != Done
        invariant Valid() && !ccsDue && Rank() <= old(Rank()) && old(doubts) <= doubts
        decreases Rank()
      {
        r := Step();
        if !r.Proceed? {
          return r;
        }
      }
      return Proceed;
    }

    /** Between calls: after an error nothing is claimed, and nothing more is done. */
    ghost predicate RunValid()
      reads this, conn
    {
      wait.Error? || (Valid() && (ccsDue <==> wait.ReadChangeCipherSpec?))
    }

    /** ssl_run_handshake */
    method RunHandshake(net: Network) returns (ret: int, earlyReturn: bool)
      requires RunValid()
      modifies this, conn, net
      ensures RunValid()
      ensures ret == 1 && !earlyReturn ==> state == Done && wait.Proceed?
      ensures old(wait).Error? ==> ret == -1 && wait.Error?
      ensures wait.Error? ==> old(wait).Error? || !conn.sound || old(doubts) < doubts || surprised || tls13
      ensures ret == -1 ==>
                wait.Error? || ForCaller(old(wait)) || old(doubts) < doubts || old(net.refusals) < net.refusals
                || handoff || tls13
    {
      hide Server.Valid, Server.Rank;
      earlyReturn := false;
      while true
        invariant RunValid() && (old(wait).Error? ==> wait.Error?)
        invariant old(doubts) <= doubts && old(net.refusals) <= net.refusals
        invariant wait.Error? ==> old(wait).Error? || !conn.sound || old(doubts) < doubts || surprised || tls13
        invariant ForCaller(wait) ==> ForCaller(old(wait)) || old(doubts) < doubts || handoff || tls13
        decreases net.Due(), if wait.Error? then 0 else Rank(), if wait.Proceed? || wait.Flush? then 1 else 0
      {
        if wait.Error? {
          return -1, false;
        }
        if ForCaller(wait) {
          wait := Proceed;
          return -1, false;
        }
        if wait.EarlyReturn? {
          wait := Proceed;
          return 1, true;
        }
        var blocked, retry := Resolve(net);
        if blocked {
          return -1, false;
        }
        if !retry {
          wait := RunStates();
          if wait.Error? {
            return -1, false;
          }
          if wait.Proceed? {
            return 1, false;
          }
        }
      }
    }

    /** What ssl_run_handshake does to resolve a wait: flush, or read a record. */
    method Resolve(net: Network) returns (blocked: bool, retry: bool)
      requires Valid() && (ccsDue <==> wait.ReadChangeCipherSpec?)
      requires wait.Proceed? || wait.Flush? || wait.AwaitServerHello? || wait.ReadMessage? || wait.ReadChangeCipherSpec?
      modifies conn, net, `ccsDue
      ensures Valid() && net.refusals == old(net.refusals) + if blocked then 1 else 0
      ensures blocked && (wait.ReadMessage? || wait.AwaitServerHello?) ==>
                old(net.arrivals == [] || !conn.Takes(net.arrivals[0]))
      ensures blocked && wait.ReadChangeCipherSpec? ==>
                if conn.dtls then old(!net.hasCcs && (net.arrivals == [] || !conn.Takes(net.arrivals[0])))
                else old(net.arrivals == [] || !net.arrivals[0].CcsRecord?)
      ensures if blocked || retry then ccsDue <==> wait.ReadChangeCipherSpec? else !ccsDue
      ensures Rank() == old(Rank()) && net.Due() <= old(net.Due())
      ensures retry && !blocked ==> net.Due() < old(net.Due())
      ensures !blocked && !wait.Proceed? && !wait.Flush? ==> net.Due() < old(net.Due())
    {
      hide Flow, Matches, Reached, Adds, Connection.Synced;
      if wait.Proceed? {
        return false, false;
      }
      if wait.Flush? {
        blocked := net.Flush();
        return blocked, false;
      }
      var ret: int;
      if wait.ReadChangeCipherSpec? {
        ghost var before := conn.log;
        ret, retry := conn.OpenChangeCipherSpec(net);
        if ret > 0 && !retry {
          ClientFinish(sessionReused);
          Take(sessionReused, ClientFinishAt(sessionReused), before, ChangeCipherSpec(FromClient));
          ccsDue := false;
        } else {
          assert before + [] == before;
        }
      } else {
        ret, retry := conn.OpenHandshake(net);
      }
      if ret <= 0 {
        net.refusals := net.refusals + 1;
      }
      return ret <= 0, retry;
    }

    /**
     * A run that is done outside TLS 1.3: one Finished from each side, the peer's checked and the own
     * queued, in the order that resumption fixes, each with the verify data of exactly the messages before it.
     */
    lemma WhenDone()
      requires Valid() && state == Done && !tls13
      ensures Matches(Flow(sessionReused), conn.log)
      ensures Count(conn.log, FromClient, Finished) == 1 && Count(conn.log, FromServer, Finished) == 1
      ensures conn.ownAt.Some? && conn.peerAt.Some?
      ensures var own, peer := conn.ownAt.value, conn.peerAt.value;
              own < |conn.log| && peer < |conn.log|
              && IsFinished(conn.log[own], FromServer) && IsFinished(conn.log[peer], FromClient)
              && (if sessionReused then own < peer else peer < own)
              && conn.ownMac == Hashed(conn.log[..own]) && conn.peerMac == Hashed(conn.log[..peer])
              && Body(conn.dtls, conn.log[own].raw) == conn.verifyData(Hashed(conn.log[..own]), FromServer)
              && Body(conn.dtls, conn.log[peer].raw) == conn.verifyData(Hashed(conn.log[..peer]), FromClient)
      ensures conn.transcript == Hashed(conn.log)
    {
      assert Flow(sessionReused)[..|Flow(sessionReused)|] == Flow(sessionReused);
      hide Flow, Matches, Hashed, Count;
      FinishedOnceInOrder(sessionReused, conn.log);
    }
  }
}
