/** The client's handshake machine for TLS 1.2 and below; cryptography and parsing decide as they please. */
module HandshakeClient {
  import opened HandshakeFlow
  import opened HandshakeConnection

  datatype State =
    | StartConnect | EnterEarlyData | ReadHelloVerifyRequest | ReadServerHello | Tls13
    | ReadServerCertificate | ReadCertificateStatus | VerifyServerCertificate | ReadServerKeyExchange
    | ReadCertificateRequest | ReadServerHelloDone | SendClientCertificate | SendClientKeyExchange
    | SendClientCertificateVerify | SendClientFinished | FinishFlight | ReadSessionTicket
    | ProcessChangeCipherSpec | ReadServerFinished | FinishClientHandshake | Done

  predicate BeforeHello(s: State) {
    s.StartConnect? || s.EnterEarlyData? || s.ReadHelloVerifyRequest? || s.ReadServerHello?
  }

  /** States that only a full handshake passes through. */
  predicate FullOnly(s: State) {
    s.ReadServerCertificate? || s.ReadCertificateStatus? || s.VerifyServerCertificate? || s.ReadServerKeyExchange?
    || s.ReadCertificateRequest? || s.ReadServerHelloDone? || s.SendClientCertificate? || s.SendClientKeyExchange?
    || s.SendClientCertificateVerify?
  }

  /** How far the flow has come when the machine is in a state. */
  function PlaceOf(s: State, resumed: bool, ccsDue: bool): nat {
    match s
    case StartConnect => 0
    case EnterEarlyData => 1
    case ReadHelloVerifyRequest => 1
    case ReadServerHello => 1
    case Tls13 => 2
    case ReadServerCertificate => 2
    case ReadCertificateStatus => 3
    case VerifyServerCertificate => 4
    case ReadServerKeyExchange => 4
    case ReadCertificateRequest => 5
    case ReadServerHelloDone => 6
    case SendClientCertificate => 7
    case SendClientKeyExchange => 8
    case SendClientCertificateVerify => 9
    case SendClientFinished => if resumed then 5 else 10
    case FinishFlight => if resumed then 9 else 14
    case ReadSessionTicket => if resumed then 2 else 14
    case ProcessChangeCipherSpec => (if resumed then 3 else 15) + if ccsDue then 0 else 1
    case ReadServerFinished => if resumed then 4 else 16
    case FinishClientHandshake => if resumed then 9 else 17
    case Done => if resumed then 9 else 17
  }

  /** Where the machine is on the way to its end; resumption moves the client's Finished behind the server's. */
  function RankOf(s: State, resumed: bool, tls13Flights: nat): nat {
    match s
    case StartConnect => 30 + tls13Flights
    case EnterEarlyData => 29 + tls13Flights
    case ReadHelloVerifyRequest => 28 + tls13Flights
    case ReadServerHello => 27 + tls13Flights
    case Tls13 => 26 + tls13Flights
    case ReadServerCertificate => 25
    case ReadCertificateStatus => 24
    case VerifyServerCertificate => 23
    case ReadServerKeyExchange => 22
    case ReadCertificateRequest => 21
    case ReadServerHelloDone => 20
    case SendClientCertificate => 19
    case SendClientKeyExchange => 18
    case SendClientCertificateVerify => 17
    case SendClientFinished => if resumed then 11 else 16
    case FinishFlight => if resumed then 10 else 15
    case ReadSessionTicket => 14
    case ProcessChangeCipherSpec => 13
    case ReadServerFinished => 12
    case FinishClientHandshake => 1
    case Done => 0
  }

  class Client {
    const conn: Connection
    var state: State
    var wait: Wait
    var session: bool               // ssl->session is set
    var sessionReused: bool
    var initialComplete: bool
    var earlyDataOffered: bool
    var certAuth: bool              // ssl_cipher_uses_certificate_auth
    var requiresSke: bool           // ssl_cipher_requires_server_key_exchange
    var certificateStatusExpected: bool
    var certRequest: bool
    var hasCertificate: bool
    var ssl3: bool
    var nextProtoSeen: bool
    var channelIdValid: bool
    var ticketExpected: bool
    var tls13Flights: nat           // flights the TLS 1.3 machine will still flush
    ghost var tls13: bool
    ghost var ccsDue: bool          // a ChangeCipherSpec was asked for and has not come
    ghost var doubts: nat           // how often a check failed, or a callback or a key was not ready
    ghost var surprised: bool       // the message at hand was out of place when the last state function ran

    ghost function Resumed(): bool
      reads `state, `sessionReused
    {
      !BeforeHello(state) && sessionReused
    }

    ghost function Place(): nat
      reads `state, `sessionReused, `ccsDue
    {
      PlaceOf(state, Resumed(), ccsDue)
    }

    ghost function Rank(): nat
      reads `state, `sessionReused, `tls13Flights
    {
      RankOf(state, Resumed(), tls13Flights)
    }

    ghost predicate OnCourse()
      reads `state, `session, `sessionReused, `ccsDue, conn
    {
      conn.Synced() && !conn.hashed && Reached(Resumed(), Place(), conn.log)
      && (!BeforeHello(state) ==> session == sessionReused) && (FullOnly(state) ==> !session)
      && (conn.ownAt.Some? <==> Place() > if Resumed() then 8 else 13)
      && (conn.peerAt.Some? <==> Place() > if Resumed() then 4 else 16)
      && (ccsDue ==> state == ProcessChangeCipherSpec)
    }

    /** Between states: outside TLS 1.3, what was sent and received is what the flow has up to here. */
    ghost predicate Valid()
      reads `state, `session, `sessionReused, `ccsDue, `tls13, conn
    {
      !conn.server
      && if tls13 then (state.Tls13? || state.FinishClientHandshake? || state.Done?)
      && !ccsDue else state != Tls13 && OnCourse()
    }

    /** The message at hand is not one that the state can take. */
    ghost predicate Unexpected()
      reads `state, `earlyDataOffered, `certAuth, `requiresSke, `ticketExpected, conn
    {
      conn.queue != []
      && match state
         case ReadServerHello => conn.queue[0].typ != ServerHello || earlyDataOffered
         case ReadServerCertificate => certAuth && conn.queue[0].typ != Certificate
         case ReadServerKeyExchange => requiresSke && conn.queue[0].typ != ServerKeyExchange
         case ReadCertificateRequest =>
           certAuth && conn.queue[0].typ != ServerHelloDone && conn.queue[0].typ != CertificateRequest
         case ReadServerHelloDone => conn.queue[0].typ != ServerHelloDone
         case ReadSessionTicket => ticketExpected && conn.queue[0].typ != NewSessionTicket
         case ReadServerFinished => !conn.Genuine(conn.queue[0], conn.transcript)
         case _ => false
    }

    /** An error or a wait has a cause. */
    ghost predicate Excused(r: Wait, before: nat, unexpected: bool)
      reads `doubts, `tls13, conn
    {
      before <= doubts
      && (r.Error? ==> !conn.sound || before < doubts || unexpected || tls13)
      && (ForCaller(r) ==> before < doubts || tls13)
      && (r.ReadMessage? || r.AwaitServerHello? ==> conn.queue == [] || tls13)
    }

    lemma ExcusedAnyway(r: Wait, before: nat, unexpected: bool)
      ensures Excused(r, before, false) ==> Excused(r, before, unexpected)
    {
    }

    /** Asks whoever decides: a parser, a check, a callback, a key. */
    method Ask() returns (yes: bool)
      modifies `doubts
      ensures doubts == old(doubts) + if yes then 0 else 1
    {
      yes := *;
      if !yes {
        doubts := doubts + 1;
      }
    }

    /** A state function that waits leaves the state and the log as they were. */
    ghost predicate Held(r: Wait, s: State, log: seq<Item>)
      reads `state, conn
    {
      r.Proceed? || r.Flush? || r.ReadChangeCipherSpec? || r.EarlyReturn? || r.Error? || (state == s && conn.log == log)
    }

    /** What a state function leaves behind. */
    ghost predicate Moved(r: Wait, rankBefore: nat)
      reads `state, `session, `sessionReused, `ccsDue, `tls13, `tls13Flights, conn
    {
      r.Error?
      || (Valid() && (ccsDue <==> r.ReadChangeCipherSpec?)
          && if r.Proceed? || r.Flush? || r.ReadChangeCipherSpec? then Rank() < rankBefore else Rank() <= rankBefore)
    }

    constructor (conn: Connection, session: bool, tls13Flights: nat)
      requires conn.Synced() && !conn.hashed && conn.log == [] && conn.ownAt.None? && conn.peerAt.None? && !conn.server
      ensures Valid() && !ccsDue && wait.Proceed? && this.conn == conn && state == StartConnect
    {
      this.conn, this.session, this.tls13Flights := conn, session, tls13Flights;
      state, wait, sessionReused, tls13, ccsDue, certRequest := StartConnect, Proceed, false, false, false, false;
      doubts, surprised := 0, false;
      initialComplete, earlyDataOffered, certAuth, requiresSke := *, *, *, *;
      certificateStatusExpected, hasCertificate, ssl3, nextProtoSeen, channelIdValid, ticketExpected :=
        *, *, *, *, *, *;
    }

    /** A state's message was not sent. */
    ghost method Skipped(next: State)
      requires OnCourse() && !tls13 && !BeforeHello(state) && !BeforeHello(next)
      requires Place() < |Flow(Resumed())| && Optional(Flow(Resumed())[Place()])
      ensures Reached(Resumed(), old(Place()) + 1, conn.log) && Adds(conn.log, conn.log, [])
    {
      Skip(Resumed(), Place(), conn.log);
      AddsNone(conn.log);
    }

    /** ssl_write_client_hello: the transcript is new. */
    method WriteClientHello() returns (ok: bool)
      requires conn.Synced() && !conn.hashed && !conn.server && conn.log == []
      modifies conn
      ensures ok ==> conn.Synced() && !conn.hashed && Reached(false, 1, conn.log)
      ensures ok ==> conn.queue == old(conn.queue) && Adds([], conn.log, [Said(FromClient, ClientHello)])
      ensures ok ==> conn.ownAt == old(conn.ownAt) && conn.peerAt == old(conn.peerAt)
      ensures conn.sound ==> ok
    {
      hide Flow, Matches, Reached, Adds, Connection.Synced;
      NothingReached(false, conn.log);
      Hellos(false);
      ghost var before := conn.log;
      ghost var item;
      ok, item := conn.AddMessage(ClientHello);
      if ok {
        Take(false, 0, before, item);
        AddsOne([], item, Said(FromClient, ClientHello));
      }
    }

    method DoStartConnect() returns (r: Wait)
      requires Valid() && state == StartConnect
      modifies this, conn
      ensures Excused(r, old(doubts), false)
      ensures Moved(r, old(Rank())) && Held(r, old(state), old(conn.log))
      ensures !sessionReused
              && (r.Flush? ==> state == EnterEarlyData && Adds([], conn.log, [Said(FromClient, ClientHello)]))
      ensures r.Flush? || r.Error?
    {
      hide Flow, Matches, Reached, Adds, Connection.Synced;
      NothingReached(false, conn.log);
      sessionReused := false;
      var drop: bool := *;
      if drop {
        session := false;
      }
      var works := Ask();
      if !works {
        return Error;
      }
      var ok := WriteClientHello();
      if !ok {
        return Error;
      }
      state := EnterEarlyData;
      return Flush;
    }

    method DoEnterEarlyData() returns (r: Wait)
      requires Valid() && state == EnterEarlyData
      modifies this, conn
      ensures Excused(r, old(doubts), false)
      ensures Moved(r, old(Rank())) && Held(r, old(state), old(conn.log))
      ensures conn.log == old(conn.log)
      ensures r.Proceed? ==> state == if conn.dtls then ReadHelloVerifyRequest else ReadServerHello
      ensures r.EarlyReturn? ==> !conn.dtls && old(earlyDataOffered) && state == ReadServerHello
    {
      hide Flow, Matches, Reached, Adds, Connection.Synced;
      if conn.dtls {
        state := ReadHelloVerifyRequest;
        return Proceed;
      }
      if !earlyDataOffered {
        state := ReadServerHello;
        return Proceed;
      }
      // The ChangeCipherSpec of early data belongs to TLS 1.3: a server that then chooses TLS 1.2 is refused.
      var works := Ask();
      if !works {
        return Error;
      }
      state := ReadServerHello;
      return EarlyReturn;
    }

    /** A HelloVerifyRequest takes the first ClientHello out of the transcript, and another begins it. */
    method HelloAgain() returns (ok: bool)
      requires Valid() && state == ReadHelloVerifyRequest && conn.queue != []
      modifies conn
      ensures ok ==>
                conn.Synced() && !conn.hashed && Reached(false, 1, conn.log) && conn.ownAt.None? && conn.peerAt.None?
                && conn.queue == old(conn.queue)[1..] && Adds([], conn.log, [Said(FromClient, ClientHello)])
      ensures conn.sound ==> ok
    {
      hide Flow, Matches, Reached, Adds, Connection.Synced;
      conn.NextMessage();
      conn.InitTranscript();
      ok := WriteClientHello();
    }

    method DoReadHelloVerifyRequest() returns (r: Wait)
      requires Valid() && state == ReadHelloVerifyRequest
      modifies this, conn
      ensures Excused(r, old(doubts), false)
      ensures Moved(r, old(Rank())) && Held(r, old(state), old(conn.log))
      ensures r.ReadMessage? <==> old(conn.queue) == []
      ensures r.Proceed? ==>
                state == ReadServerHello && conn.queue == old(conn.queue) && conn.queue[0].typ != HelloVerifyRequest
                && conn.log == old(conn.log)
      ensures r.Flush? ==>
                state == ReadServerHello && old(conn.queue)[0].typ == HelloVerifyRequest
                && conn.queue == old(conn.queue)[1..]
      ensures r.Flush? ==> Adds([], conn.log, [Said(FromClient, ClientHello)])
    {
      hide Flow, Matches, Reached, Adds, Connection.Synced;
      if conn.queue == [] {
        return ReadMessage;
      }
      if conn.queue[0].typ != HelloVerifyRequest {
        state := ReadServerHello;
        return Proceed;
      }
      var parses := Ask();
      if !parses {
        return Error;
      }
      var ok := HelloAgain();
      if !ok {
        return Error;
      }
      state := ReadServerHello;
      return Flush;
    }

    /** Hashes, checks and releases the ServerHello of a handshake below TLS 1.3. */
    method TakeServerHello() returns (ok: bool)
      requires conn.Synced() && !conn.hashed && !conn.server && conn.queue != [] && conn.queue[0].typ == ServerHello
      requires Reached(false, 1, conn.log)
      modifies conn, `doubts
      ensures ok ==> conn.Synced() && !conn.hashed && conn.ownAt == old(conn.ownAt) && conn.peerAt == old(conn.peerAt)
      ensures ok ==> Reached(false, 2, conn.log) && Reached(true, 2, conn.log)
      ensures ok ==>
                conn.queue == old(conn.queue)[1..] && Adds(old(conn.log), conn.log, [Said(FromServer, ServerHello)])
      ensures old(doubts) <= doubts && (!ok ==> !conn.sound || old(doubts) < doubts)
    {
      hide Flow, Matches, Reached, Adds, Connection.Synced;
      ghost var before, item := conn.log, Handshake(FromServer, ServerHello, conn.queue[0].raw);
      ok := conn.HashMessage();
      var acceptable := Ask();
      if !ok || !acceptable {
        return false;
      }
      conn.NextMessage();
      Hellos(false);
      Take(false, 1, before, item);
      AddsOne(before, item, Said(FromServer, ServerHello));
      SameHellos(conn.log, 2);
    }

    /** What the ServerHello and its extensions settle. */
    method Negotiated()
      modifies `certAuth, `requiresSke, `certificateStatusExpected, `ssl3, `nextProtoSeen, `channelIdValid,
               `ticketExpected
    {
      certAuth, requiresSke, certificateStatusExpected, ssl3 := *, *, *, *;
      nextProtoSeen, channelIdValid, ticketExpected := *, *, *;
    }

    /** Where the machine is once a ServerHello below TLS 1.3 is in the transcript. */
    lemma Settled(rankBefore: nat)
      requires state == (if session then ReadSessionTicket else ReadServerCertificate) && session == sessionReused
      requires !conn.server && !tls13 && !ccsDue && conn.Synced() && !conn.hashed && Reached(session, 2, conn.log)
      requires conn.ownAt.None? && conn.peerAt.None? && rankBefore == RankOf(ReadServerHello, false, tls13Flights)
      ensures Moved(Proceed, rankBefore)
    {
      hide Flow, Matches, Reached, Connection.Synced;
    }

    /** A ServerHello below TLS 1.3 decides on resumption and settles what follows. */
    method ReadHelloBelow13() returns (r: Wait)
      requires Valid() && state == ReadServerHello && conn.queue != [] && conn.queue[0].typ == ServerHello
      modifies this, conn
      ensures r.Proceed? || r.Error?
      ensures old(doubts) <= doubts && (r.Error? ==> !conn.sound || old(doubts) < doubts)
      ensures r.Proceed? ==> Moved(r, old(Rank())) && tls13 == old(tls13)
      ensures r.Proceed? ==> state == if session then ReadSessionTicket else ReadServerCertificate
      ensures r.Proceed? ==> session == sessionReused && (session ==> old(session) && !old(initialComplete))
      ensures r.Proceed? ==>
                conn.queue == old(conn.queue)[1..] && Adds(old(conn.log), conn.log, [Said(FromServer, ServerHello)])
    {
      hide Flow, Matches, Reached, Adds, Connection.Synced, RankOf;
      assert conn.ownAt.None? && conn.peerAt.None? && Rank() == RankOf(state, false, tls13Flights);
      hide PlaceOf, Client.Moved;
      var echoed: bool := *;
      sessionReused := !initialComplete && session && echoed;
      session := sessionReused;
      var ok := TakeServerHello();
      if !ok {
        return Error;
      }
      Negotiated();
      state := if session then ReadSessionTicket else ReadServerCertificate;
      Settled(old(Rank()));
      return Proceed;
    }

    method DoReadServerHello() returns (r: Wait)
      requires Valid() && state == ReadServerHello
      modifies this, conn
      ensures Excused(r, old(doubts), old(Unexpected()))
      ensures Moved(r, old(Rank())) && Held(r, old(state), old(conn.log))
      ensures r.AwaitServerHello? <==> old(conn.queue) == []
      ensures r.Proceed? && tls13 ==> state == Tls13
      ensures r.Proceed? && !tls13 ==>
                !old(earlyDataOffered) && state == (if session then ReadSessionTicket else ReadServerCertificate)
      ensures r.Proceed? && !tls13 ==> session == sessionReused && (session ==> old(session) && !old(initialComplete))
      ensures r.Proceed? && !tls13 ==>
                conn.queue == old(conn.queue)[1..] && Adds(old(conn.log), conn.log, [Said(FromServer, ServerHello)])
    {
      hide Flow, Matches, Reached, Adds, Connection.Synced;
      if conn.queue == [] {
        return AwaitServerHello;
      }
      if conn.queue[0].typ != ServerHello {
        return Error;
      }
      var works := Ask();
      var is13: bool := *;
      if !works {
        return Error;
      }
      if is13 {
        state, tls13 := Tls13, true;
        return Proceed;
      }
      if earlyDataOffered {
        return Error;
      }
      r := ReadHelloBelow13();
    }

    /** The TLS 1.3 machine is not part of this model. */
    method DoTls13() returns (r: Wait)
      requires Valid() && state == Tls13
      modifies this
      ensures Excused(r, old(doubts), false)
      ensures Moved(r, old(Rank()))
    {
      r := *;
      if r.Flush? && tls13Flights > 0 {
        tls13Flights := tls13Flights - 1;
      } else if r.Flush? || r.ReadChangeCipherSpec? {
        r := Error;
      } else if r.Proceed? {
        state := FinishClientHandshake;
      }
    }

    /**
     * Reads the message of the flow's next place: hashed, checked, and only then released. `typ` is
     * the type that the state function expects.
     */
    method ReadExpected(typ: MsgType, next: State) returns (r: Wait)
      requires Valid() && !tls13 && !BeforeHello(state) && !BeforeHello(next) && state != ProcessChangeCipherSpec
               && !ccsDue
      requires Place() < |Flow(Resumed())| && Fits(Flow(Resumed())[Place()], Handshake(FromServer, typ, []))
               && typ != Finished
      modifies conn, `doubts
      ensures r.Proceed? || r.ReadMessage? || r.Error?
      ensures r.ReadMessage? ==> OnCourse() && conn.log == old(conn.log)
      ensures r.Proceed? ==>
                old(conn.queue) != [] && old(conn.queue)[0].typ == typ
                && Adds(old(conn.log), conn.log, [Said(FromServer, typ)])
      ensures r.Proceed? ==>
                conn.Synced() && !conn.hashed && Reached(Resumed(), Place() + 1, conn.log)
                && conn.ownAt == old(conn.ownAt) && conn.peerAt == old(conn.peerAt)
      ensures r.ReadMessage? <==> old(conn.queue) == []
      ensures r.ReadMessage? ==> conn.queue == old(conn.queue)
      ensures old(doubts) <= doubts
      ensures r.Error? ==> !conn.sound || old(doubts) < doubts || old(conn.queue)[0].typ != typ
    {
      hide Flow, Matches, Reached, Adds, Connection.Synced;
      if conn.queue == [] {
        return ReadMessage;
      }
      if conn.queue[0].typ != typ {
        return Error;
      }
      ghost var before, item := conn.log, Handshake(FromServer, typ, conn.queue[0].raw);
      var ok := conn.HashMessage();
      var acceptable := Ask();
      if !ok || !acceptable {
        return Error;
      }
      conn.NextMessage();
      Take(Resumed(), Place(), before, item);
      AddsOne(before, item, Said(FromServer, typ));
      return Proceed;
    }

    method DoReadServerCertificate() returns (r: Wait)
      requires Valid() && state == ReadServerCertificate
      modifies this, conn
      ensures Excused(r, old(doubts), old(Unexpected()))
      ensures Moved(r, old(Rank())) && Held(r, old(state), old(conn.log))
      ensures r.Proceed? ==>
                state == ReadCertificateStatus
                && Adds(old(conn.log), conn.log, If(old(certAuth), Said(FromServer, Certificate)))
    {
      hide Flow, Matches, Reached, Adds, Connection.Synced;
      KeyExchange();
      if !certAuth {
        Skipped(ReadCertificateStatus);
        state := ReadCertificateStatus;
        return Proceed;
      }
      r := ReadExpected(Certificate, ReadCertificateStatus);
      if r.Proceed? {
        state := ReadCertificateStatus;
      }
    }

    method DoReadCertificateStatus() returns (r: Wait)
      requires Valid() && state == ReadCertificateStatus
      modifies this, conn
      ensures Excused(r, old(doubts), false)
      ensures Moved(r, old(Rank())) && Held(r, old(state), old(conn.log))
      ensures r.Proceed? ==>
                state == VerifyServerCertificate && (old(certificateStatusExpected) ==> old(conn.queue) != [])
      ensures r.Proceed? ==>
                Adds(old(conn.log), conn.log,
                     If(old(certificateStatusExpected) && old(conn.queue)[0].typ == CertificateStatus,
                        Said(FromServer, CertificateStatus)))
    {
      hide Flow, Matches, Reached, Adds, Connection.Synced;
      KeyExchange();
      if certificateStatusExpected && conn.queue == [] {
        return ReadMessage;
      }
      if !certificateStatusExpected || conn.queue[0].typ != CertificateStatus {
        Skipped(VerifyServerCertificate);
        state := VerifyServerCertificate;
        return Proceed;
      }
      r := ReadExpected(CertificateStatus, VerifyServerCertificate);
      if r.Proceed? {
        state := VerifyServerCertificate;
      }
    }

    method DoVerifyServerCertificate() returns (r: Wait)
      requires Valid() && state == VerifyServerCertificate
      modifies this, conn
      ensures Excused(r, old(doubts), false)
      ensures Moved(r, old(Rank())) && Held(r, old(state), old(conn.log))
      ensures conn.log == old(conn.log) && (r.Proceed? ==> state == ReadServerKeyExchange)
              && (r.VerifyingCertificate? ==> old(certAuth))
    {
      hide Flow, Matches, Reached, Adds, Connection.Synced;
      if certAuth {
        var ready := Ask();
        if !ready {
          return VerifyingCertificate;
        }
        var valid := Ask();
        if !valid {
          return Error;
        }
      }
      state := ReadServerKeyExchange;
      return Proceed;
    }

    method DoReadServerKeyExchange() returns (r: Wait)
      requires Valid() && state == ReadServerKeyExchange
      modifies this, conn
      ensures Excused(r, old(doubts), old(Unexpected()))
      ensures Moved(r, old(Rank())) && Held(r, old(state), old(conn.log))
      ensures r.Proceed? ==> state == ReadCertificateRequest && old(conn.queue) != []
      ensures r.Proceed? ==> (old(conn.queue)[0].typ == ServerKeyExchange || !old(requiresSke))
      ensures r.Proceed? ==>
                Adds(old(conn.log), conn.log,
                     If(old(conn.queue)[0].typ == ServerKeyExchange, Said(FromServer, ServerKeyExchange)))
    {
      hide Flow, Matches, Reached, Adds, Connection.Synced;
      KeyExchange();
      if conn.queue == [] {
        return ReadMessage;
      }
      if conn.queue[0].typ != ServerKeyExchange {
        if requiresSke {
          return Error;
        }
        Skipped(ReadCertificateRequest);
        state := ReadCertificateRequest;
        return Proceed;
      }
      r := ReadExpected(ServerKeyExchange, ReadCertificateRequest);
      if r.Proceed? {
        state := ReadCertificateRequest;
      }
    }

    method DoReadCertificateRequest() returns (r: Wait)
      requires Valid() && state == ReadCertificateRequest
      modifies this, conn
      ensures Excused(r, old(doubts), old(Unexpected()))
      ensures Moved(r, old(Rank())) && Held(r, old(state), old(conn.log))
      ensures r.Proceed? ==> state == ReadServerHelloDone && (old(certAuth) ==> old(conn.queue) != [])
      ensures r.Proceed? ==> var asked := old(certAuth) && old(conn.queue)[0].typ != ServerHelloDone;
                                (certRequest <==> old(certRequest) || asked)
                                && Adds(old(conn.log), conn.log, If(asked, Said(FromServer, CertificateRequest)))
    {
      hide Flow, Matches, Reached, Adds, Connection.Synced;
      KeyExchange();
      if certAuth && conn.queue == [] {
        return ReadMessage;
      }
      if !certAuth || conn.queue[0].typ == ServerHelloDone {
        Skipped(ReadServerHelloDone);
        state := ReadServerHelloDone;
        return Proceed;
      }
      r := ReadExpected(CertificateRequest, ReadServerHelloDone);
      if r.Proceed? {
        certRequest := true;
        state := ReadServerHelloDone;
      }
    }

    method DoReadServerHelloDone() returns (r: Wait)
      requires Valid() && state == ReadServerHelloDone
      modifies this, conn
      ensures Excused(r, old(doubts), old(Unexpected()))
      ensures Moved(r, old(Rank())) && Held(r, old(state), old(conn.log))
      ensures r.Proceed? ==>
                state == SendClientCertificate && Adds(old(conn.log), conn.log, [Said(FromServer, ServerHelloDone)])
    {
      hide Flow, Matches, Reached, Adds, Connection.Synced;
      KeyExchange();
      r := ReadExpected(ServerHelloDone, SendClientCertificate);
      if r.Proceed? {
        state := SendClientCertificate;
      }
    }

    /** Adds the message of the flow's next place to the flight. */
    method Send(typ: MsgType) returns (ok: bool)
      requires Valid() && !tls13 && !BeforeHello(state) && state != ProcessChangeCipherSpec && !ccsDue
      requires Place() < |Flow(Resumed())| && Fits(Flow(Resumed())[Place()], Handshake(FromClient, typ, []))
               && typ != Finished
      modifies conn
      ensures ok ==>
                conn.Synced() && !conn.hashed && Reached(Resumed(), Place() + 1, conn.log)
                && conn.ownAt == old(conn.ownAt) && conn.peerAt == old(conn.peerAt)
                && Adds(old(conn.log), conn.log, [Said(FromClient, typ)])
      ensures conn.sound ==> ok
    {
      hide Flow, Matches, Reached, Adds, Connection.Synced;
      ghost var before := conn.log;
      ghost var item;
      ok, item := conn.AddMessage(typ);
      if ok {
        Take(Resumed(), Place(), before, item);
        AddsOne(before, item, Said(FromClient, typ));
      }
    }

    /** The client was asked for a certificate, and sends one or says that it has none. */
    method AnswerRequest() returns (ok: bool)
      requires Valid() && state == SendClientCertificate && certRequest
      modifies this, conn
      ensures doubts == old(doubts) && (conn.sound ==> ok)
      ensures ok ==> Moved(Proceed, old(Rank())) && state == SendClientKeyExchange && !tls13
      ensures ok ==> Adds(old(conn.log), conn.log, If(hasCertificate || !old(ssl3), Said(FromClient, Certificate)))
    {
      hide Flow, Matches, Reached, Adds, Connection.Synced;
      KeyExchange();
      hasCertificate := *;   // the callback may have installed one
      if !hasCertificate && ssl3 {
        // A warning alert, which is not a handshake message, takes the place of the Certificate.
        Skipped(SendClientKeyExchange);
        state := SendClientKeyExchange;
        return true;
      }
      ok := Send(Certificate);
      if ok {
        state := SendClientKeyExchange;
      }
    }

    method DoSendClientCertificate() returns (r: Wait)
      requires Valid() && state == SendClientCertificate
      modifies this, conn
      ensures Excused(r, old(doubts), false)
      ensures Moved(r, old(Rank())) && Held(r, old(state), old(conn.log))
      ensures r.Proceed? ==>
                state == SendClientKeyExchange
                && Adds(old(conn.log), conn.log,
                        If(old(certRequest) && (hasCertificate || !old(ssl3)), Said(FromClient, Certificate)))
    {
      hide Flow, Matches, Reached, Adds, Connection.Synced;
      KeyExchange();
      if !certRequest {
        Skipped(SendClientKeyExchange);
        state := SendClientKeyExchange;
        return Proceed;
      }
      var works := Ask();
      if !works {
        return Error;
      }
      var ready := Ask();
      if !ready {
        return X509Lookup;
      }
      var ok := AnswerRequest();
      return if ok then Proceed else Error;
    }

    method DoSendClientKeyExchange() returns (r: Wait)
      requires Valid() && state == SendClientKeyExchange
      modifies this, conn
      ensures Excused(r, old(doubts), false)
      ensures Moved(r, old(Rank())) && Held(r, old(state), old(conn.log))
      ensures r.Proceed? ==>
                state == SendClientCertificateVerify
                && Adds(old(conn.log), conn.log, [Said(FromClient, ClientKeyExchange)])
    {
      hide Flow, Matches, Reached, Adds, Connection.Synced;
      KeyExchange();
      var works := Ask();
      if !works {
        return Error;
      }
      var ok := Send(ClientKeyExchange);
      if !ok {
        return Error;
      }
      state := SendClientCertificateVerify;
      return Proceed;
    }

    method DoSendClientCertificateVerify() returns (r: Wait)
      requires Valid() && state == SendClientCertificateVerify
      modifies this, conn
      ensures Excused(r, old(doubts), false)
      ensures Moved(r, old(Rank())) && Held(r, old(state), old(conn.log))
      ensures r.Proceed? ==>
                state == SendClientFinished
                && Adds(old(conn.log), conn.log,
                        If(old(certRequest) && old(hasCertificate), Said(FromClient, CertificateVerify)))
    {
      hide Flow, Matches, Reached, Adds, Connection.Synced;
      KeyExchange();
      if !certRequest || !hasCertificate {
        Skipped(SendClientFinished);
        state := SendClientFinished;
        return Proceed;
      }
      var works := Ask();
      if !works {
        return Error;
      }
      var ready := Ask();
      if !ready {
        return PrivateKeyOperation;
      }
      var ok := Send(CertificateVerify);
      if !ok {
        return Error;
      }
      state := SendClientFinished;
      return Proceed;
    }

    /** Adds the optional message of place n of the flow, or passes it over. */
    method SendOptional(send: bool, typ: MsgType, ghost n: nat) returns (ok: bool)
      requires conn.Synced() && !conn.hashed && !conn.server && Reached(session, n, conn.log)
      requires n < |Flow(session)| && Flow(session)[n] == Message(FromClient, typ, true)
      modifies conn
      ensures ok ==>
                conn.Synced() && !conn.hashed && Reached(session, n + 1, conn.log)
                && conn.ownAt == old(conn.ownAt) && conn.peerAt == old(conn.peerAt)
                && Adds(old(conn.log), conn.log, If(send, Said(FromClient, typ)))
      ensures conn.sound ==> ok
    {
      hide Flow, Matches, Reached, Adds, Connection.Synced;
      ghost var before := conn.log;
      if !send {
        Skip(session, n, before);
        AddsNone(before);
        return true;
      }
      ghost var item;
      ok, item := conn.AddMessage(typ);
      if ok {
        Take(session, n, before, item);
        AddsOne(before, item, Said(FromClient, typ));
      }
    }

    /** What the client's last flight holds. */
    function LastFlight(nextProto: bool, channelId: bool): seq<Place> {
      [Ccs(FromClient)] + If(nextProto, Said(FromClient, NextProto)) + If(channelId, Said(FromClient, ChannelId))
      + [Said(FromClient, Finished)]
    }

    /** ChangeCipherSpec, the optional messages and the client's Finished, which are next in the flow. */
    method QueueFinished() returns (ok: bool)
      requires conn.Synced() && !conn.hashed && !conn.server && conn.ownAt.None?
      requires Reached(session, ClientFinishAt(session), conn.log)
      modifies conn, `doubts
      ensures ok ==> conn.Synced() && !conn.hashed && conn.peerAt == old(conn.peerAt) && conn.ownAt.Some?
      ensures ok ==> Reached(session, ClientFinishAt(session) + 4, conn.log)
      ensures ok ==> Adds(old(conn.log), conn.log, LastFlight(nextProtoSeen, channelIdValid))
      ensures old(doubts) <= doubts && (!ok ==> !conn.sound || old(doubts) < doubts)
    {
      hide Flow, Matches, Reached, Adds, Connection.Synced;
      ghost var n := ClientFinishAt(session);
      ClientFinish(session);
      ghost var start, item := conn.log, ChangeCipherSpec(FromClient);
      ghost var places := [Ccs(FromClient)];
      ok := conn.AddChangeCipherSpec();
      var keys := Ask();
      if !ok || !keys {
        return false;
      }
      Take(session, n, start, item);
      AddsOne(start, item, Ccs(FromClient));
      ghost var before := conn.log;
      ok := SendOptional(nextProtoSeen, NextProto, n + 1);
      if !ok {
        return false;
      }
      AddsThen(start, before, conn.log, places, If(nextProtoSeen, Said(FromClient, NextProto)));
      places, before := places + If(nextProtoSeen, Said(FromClient, NextProto)), conn.log;
      ok := SendOptional(channelIdValid, ChannelId, n + 2);
      if !ok {
        return false;
      }
      AddsThen(start, before, conn.log, places, If(channelIdValid, Said(FromClient, ChannelId)));
      places, before := places + If(channelIdValid, Said(FromClient, ChannelId)), conn.log;
      ok, item := conn.SendFinished();
      if ok {
        Take(session, n + 3, before, item);
        AddsOne(before, item, Said(FromClient, Finished));
        AddsThen(start, before, conn.log, places, [Said(FromClient, Finished)]);
      }
    }

    method DoSendClientFinished() returns (r: Wait)
      requires Valid() && state == SendClientFinished
      modifies this, conn
      ensures Excused(r, old(doubts), false)
      ensures Moved(r, old(Rank())) && Held(r, old(state), old(conn.log))
      ensures r.ChannelIdLookup? ==> old(channelIdValid)
      ensures r.Flush? ==> state == FinishFlight
      ensures r.Flush? ==> Adds(old(conn.log), conn.log, LastFlight(old(nextProtoSeen), old(channelIdValid)))
    {
      hide Flow, Matches, Reached, Adds, Connection.Synced;
      // Channel ID is resolved before anything that could not be done again.
      if channelIdValid {
        var works := Ask();
        if !works {
          return Error;
        }
        var ready := Ask();
        if !ready {
          return ChannelIdLookup;
        }
      }
      var ok := QueueFinished();
      if !ok {
        return Error;
      }
      state := FinishFlight;
      return Flush;
    }

    method DoFinishFlight() returns (r: Wait)
      requires Valid() && state == FinishFlight
      modifies this, conn
      ensures Excused(r, old(doubts), false)
      ensures Moved(r, old(Rank())) && Held(r, old(state), old(conn.log))
      ensures conn.log == old(conn.log)
              && (r.Proceed? ==> state == if session then FinishClientHandshake else ReadSessionTicket)
      ensures r.EarlyReturn? ==> !session && !conn.dtls && !old(initialComplete) && state == ReadSessionTicket
    {
      hide Flow, Matches, Reached, Adds, Connection.Synced;
      if session {
        state := FinishClientHandshake;
        return Proceed;
      }
      var works := Ask();
      var falseStart: bool := *;
      if !works {
        return Error;
      }
      state := ReadSessionTicket;
      if falseStart && !conn.dtls && !initialComplete {
        return EarlyReturn;
      }
      return Proceed;
    }

    method DoReadSessionTicket() returns (r: Wait)
      requires Valid() && state == ReadSessionTicket
      modifies this, conn
      ensures Excused(r, old(doubts), old(Unexpected()))
      ensures Moved(r, old(Rank())) && Held(r, old(state), old(conn.log))
      ensures r.ReadChangeCipherSpec? ==>
                state == ProcessChangeCipherSpec
                && Adds(old(conn.log), conn.log, If(old(ticketExpected), Said(FromServer, NewSessionTicket)))
    {
      hide Flow, Matches, Reached, Adds, Connection.Synced;
      ServerFinish(session);
      if !ticketExpected {
        Skipped(ProcessChangeCipherSpec);
        state, ccsDue := ProcessChangeCipherSpec, true;
        return ReadChangeCipherSpec;
      }
      r := ReadExpected(NewSessionTicket, ProcessChangeCipherSpec);
      if r.Proceed? {
        var emptyTicket: bool := *;
        if emptyTicket {
          ticketExpected := false;
        }
        state, ccsDue := ProcessChangeCipherSpec, true;
        return ReadChangeCipherSpec;
      }
    }

    method DoProcessChangeCipherSpec() returns (r: Wait)
      requires Valid() && state == ProcessChangeCipherSpec && !ccsDue
      modifies this
      ensures Excused(r, old(doubts), false)
      ensures Moved(r, old(Rank())) && Held(r, old(state), old(conn.log))
      ensures r.Proceed? ==> state == ReadServerFinished
    {
      hide Flow, Matches, Reached, Adds, Connection.Synced;
      var keys := Ask();
      if !keys {
        return Error;
      }
      state := ReadServerFinished;
      return Proceed;
    }

    /** Checks the server's Finished, which is next in the flow. */
    method TakeFinished() returns (r: Wait)
      requires conn.Synced() && !conn.hashed && !conn.server && conn.peerAt.None?
      requires Reached(session, ServerFinishAt(session) + 2, conn.log)
      modifies conn
      ensures r.Proceed? || r.ReadMessage? || r.Error?
      ensures !r.Error? ==>
                conn.Synced() && !conn.hashed && conn.ownAt == old(conn.ownAt) && conn.peerAt.Some? == r.Proceed?
      ensures !r.Error? ==> Reached(session, ServerFinishAt(session) + if r.Proceed? then 3 else 2, conn.log)
      ensures !r.Error? ==> Adds(old(conn.log), conn.log, If(r.Proceed?, Said(FromServer, Finished)))
      ensures r.ReadMessage? ==> conn.log == old(conn.log)
      ensures r.Proceed? ==> old(conn.queue) != [] && conn.Genuine(old(conn.queue)[0], old(conn.transcript))
      ensures conn.sound && old(conn.queue) != [] && conn.Genuine(old(conn.queue)[0], old(conn.transcript)) ==>
                r.Proceed?
      ensures r.ReadMessage? <==> old(conn.queue) == []
      ensures r.ReadMessage? ==> conn.queue == old(conn.queue)
    {
      hide Flow, Matches, Reached, Adds, Connection.Synced;
      ServerFinish(session);
      ghost var before := conn.log;
      ghost var item;
      r, item := conn.GetFinished();
      if r.Proceed? {
        Take(session, ServerFinishAt(session) + 2, before, item);
        AddsOne(before, item, Said(FromServer, Finished));
      } else {
        AddsNone(before);
      }
    }

    method DoReadServerFinished() returns (r: Wait)
      requires Valid() && state == ReadServerFinished
      modifies this, conn
      ensures Excused(r, old(doubts), old(Unexpected()))
      ensures Moved(r, old(Rank())) && Held(r, old(state), old(conn.log))
      ensures r.Proceed? ==>
                state == (if session then SendClientFinished else FinishClientHandshake)
                && Adds(old(conn.log), conn.log, [Said(FromServer, Finished)])
      ensures r.Proceed? ==> old(conn.queue) != [] && conn.Genuine(old(conn.queue)[0], old(conn.transcript))
      ensures conn.sound && old(conn.queue) != [] && conn.Genuine(old(conn.queue)[0], old(conn.transcript)) ==>
                r.Proceed?
    {
      hide Flow, Matches, Reached, Adds, Connection.Synced;
      r := TakeFinished();
      if r.Proceed? {
        state := if session then SendClientFinished else FinishClientHandshake;
      }
    }

    method DoFinishClientHandshake() returns (r: Wait)
      requires Valid() && state == FinishClientHandshake
      modifies this
      ensures Excused(r, old(doubts), false)
      ensures Moved(r, old(Rank())) && Held(r, old(state), old(conn.log))
      ensures r.Proceed? ==> state == Done && initialComplete
    {
      hide Flow, Matches, Reached, Adds, Connection.Synced;
      var works := Ask();
      if !works {
        return Error;
      }
      initialComplete := true;
      state := Done;
      return Proceed;
    }

    method Step() returns (r: Wait)
      requires Valid() && !ccsDue && state != Done
      modifies this, conn
      ensures Moved(r, old(Rank())) && Excused(r, old(doubts), surprised)
    {
      hide Client.Moved, Client.Excused, Client.Unexpected, Client.Valid, Client.Rank, Client.Held, RankOf, Adds;
      ghost var unexpected, before := Unexpected(), doubts;
      match state {
        case StartConnect => r := DoStartConnect();
        case EnterEarlyData => r := DoEnterEarlyData();
        case ReadHelloVerifyRequest => r := DoReadHelloVerifyRequest();
        case ReadServerHello => r := DoReadServerHello();
        case Tls13 => r := DoTls13();
        case ReadServerCertificate => r := DoReadServerCertificate();
        case ReadCertificateStatus => r := DoReadCertificateStatus();
        case VerifyServerCertificate => r := DoVerifyServerCertificate();
        case ReadServerKeyExchange => r := DoReadServerKeyExchange();
        case ReadCertificateRequest => r := DoReadCertificateRequest();
        case ReadServerHelloDone => r := DoReadServerHelloDone();
        case SendClientCertificate => r := DoSendClientCertificate();
        case SendClientKeyExchange => r := DoSendClientKeyExchange();
        case SendClientCertificateVerify => r := DoSendClientCertificateVerify();
        case SendClientFinished => r := DoSendClientFinished();
        case FinishFlight => r := DoFinishFlight();
        case ReadSessionTicket => r := DoReadSessionTicket();
        case ProcessChangeCipherSpec => r := DoProcessChangeCipherSpec();
        case ReadServerFinished => r := DoReadServerFinished();
        case FinishClientHandshake => r := DoFinishClientHandshake();
      }
      surprised := unexpected;
      ExcusedAnyway(r, before, unexpected);
    }

    /** ssl_client_handshake: the loop ends because every unblocked step lowers the rank. */
    method RunStates() returns (r: Wait)
      requires Valid() && !ccsDue
      modifies this, conn
      ensures r.Error? || (Valid() && (ccsDue <==> r.ReadChangeCipherSpec?) && Rank() <= old(Rank()))
      ensures r.Proceed? ==> state == Done
      ensures Excused(r, old(doubts), surprised)
      ensures r.Flush? || r.ReadChangeCipherSpec? ==> Rank() < old(Rank())
    {
      while state != Done
        invariant Valid() && !ccsDue && Rank() <= old(Rank()) && old(doubts) <= doubts
        decreases Rank()
      {
        r := Step();
        if !r.Proceed? {
          return r;
        }
      }
      return Proceed;
    }

    /** Between calls: after an error nothing is claimed, and nothing more is done. */
    ghost predicate RunValid()
      reads this, conn
    {
      wait.Error? || (Valid() && (ccsDue <==> wait.ReadChangeCipherSpec?))
    }

    /** ssl_run_handshake */
    method RunHandshake(net: Network) returns (ret: int, earlyReturn: bool)
      requires RunValid()
      modifies this, conn, net
      ensures RunValid()
      ensures ret == 1 && !earlyReturn ==> state == Done && wait.Proceed?
      ensures old(wait).Error? ==> ret == -1 && wait.Error?
      ensures wait.Error? ==> old(wait).Error? || !conn.sound || old(doubts) < doubts || surprised || tls13
      ensures ret == -1 ==>
                wait.Error? || ForCaller(old(wait)) || old(doubts) < doubts || old(net.refusals) < net.refusals
                || tls13
    {
      hide Client.Valid, Client.Rank;
      earlyReturn := false;
      while true
        invariant RunValid() && (old(wait).Error? ==> wait.Error?)
        invariant old(doubts) <= doubts && old(net.refusals) <= net.refusals
        invariant wait.Error? ==> old(wait).Error? || !conn.sound || old(doubts) < doubts || surprised || tls13
        invariant ForCaller(wait) ==> ForCaller(old(wait)) || old(doubts) < doubts || tls13
        decreases net.Due(), if wait.Error? then 0 else Rank(), if wait.Proceed? || wait.Flush? then 1 else 0
      {
        if wait.Error? {
          return -1, false;
        }
        if ForCaller(wait) {
          wait := Proceed;
          return -1, false;
        }
        if wait.EarlyReturn? {
          wait := Proceed;
          return 1, true;
        }
        var blocked, retry := Resolve(net);
        if blocked {
          return -1, false;
        }
        if !retry {
          wait := RunStates();
          if wait.Error? {
            return -1, false;
          }
          if wait.Proceed? {
            return 1, false;
          }
        }
      }
    }

    /** What ssl_run_handshake does to resolve a wait: flush, or read a record. */
    method Resolve(net: Network) returns (blocked: bool, retry: bool)
      requires Valid() && (ccsDue <==> wait.ReadChangeCipherSpec?)
      requires wait.Proceed? || wait.Flush? || wait.AwaitServerHello? || wait.ReadMessage? || wait.ReadChangeCipherSpec?
      modifies conn, net, `ccsDue
      ensures Valid() && net.refusals == old(net.refusals) + if blocked then 1 else 0
      ensures blocked && (wait.ReadMessage? || wait.AwaitServerHello?) ==>
                old(net.arrivals == [] || !conn.Takes(net.arrivals[0]))
      ensures blocked && wait.ReadChangeCipherSpec? ==>
                if conn.dtls then old(!net.hasCcs && (net.arrivals == [] || !conn.Takes(net.arrivals[0])))
                else old(net.arrivals == [] || !net.arrivals[0].CcsRecord?)
      ensures if blocked || retry then ccsDue <==> wait.ReadChangeCipherSpec? else !ccsDue
      ensures Rank() == old(Rank()) && net.Due() <= old(net.Due())
      ensures retry && !blocked ==> net.Due() < old(net.Due())
      ensures !blocked && !wait.Proceed? && !wait.Flush? ==> net.Due() < old(net.Due())
    {
      hide Flow, Matches, Reached, Adds, Connection.Synced;
      if wait.Proceed? {
        return false, false;
      }
      if wait.Flush? {
        blocked := net.Flush();
        return blocked, false;
      }
      var ret: int;
      if wait.ReadChangeCipherSpec? {
        ghost var before := conn.log;
        ret, retry := conn.OpenChangeCipherSpec(net);
        if ret > 0 && !retry {
          ServerFinish(sessionReused);
          Take(sessionReused, ServerFinishAt(sessionReused) + 1, before, ChangeCipherSpec(FromServer));
          ccsDue := false;
        } else {
          assert before + [] == before;
        }
      } else {
        ret, retry := conn.OpenHandshake(net);
      }
      if ret <= 0 {
        net.refusals := net.refusals + 1;
      }
      return ret <= 0, retry;
    }

    /**
     * A run that is done outside TLS 1.3: one Finished from each side, the peer's checked and the own
     * queued, in the order that resumption fixes, each with the verify data of exactly the messages before it.
     */
    lemma WhenDone()
      requires Valid() && state == Done && !tls13
      ensures Matches(Flow(sessionReused), conn.log)
      ensures Count(conn.log, FromClient, Finished) == 1 && Count(conn.log, FromServer, Finished) == 1
      ensures conn.ownAt.Some? && conn.peerAt.Some?
      ensures var own, peer := conn.ownAt.value, conn.peerAt.value;
              own < |conn.log| && peer < |conn.log|
              && IsFinished(conn.log[own], FromClient) && IsFinished(conn.log[peer], FromServer)
              && (if sessionReused then peer < own else own < peer)
              && conn.ownMac == Hashed(conn.log[..own]) && conn.peerMac == Hashed(conn.log[..peer])
              && Body(conn.dtls, conn.log[own].raw) == conn.verifyData(Hashed(conn.log[..own]), FromClient)
              && Body(conn.dtls, conn.log[peer].raw) == conn.verifyData(Hashed(conn.log[..peer]), FromServer)
      ensures conn.transcript == Hashed(conn.log)
    {
      assert Flow(sessionReused)[..|Flow(sessionReused)|] == Flow(sessionReused);
      hide Flow, Matches, Hashed, Count;
      FinishedOnceInOrder(sessionReused, conn.log);
    }
  }
}
