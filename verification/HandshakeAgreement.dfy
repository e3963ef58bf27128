/** The two handshake machines together. */
module HandshakeAgreement {
  import opened HandshakeFlow
  import HandshakeClient
  import HandshakeServer

  /**
   * When a client and a server that saw the same messages are both done outside TLS 1.3, they agree on
   * resumption, each Finished was computed and checked over the same bytes, and the transcripts are equal.
   */
  lemma SameMessagesSameFinished(client: HandshakeClient.Client, server: HandshakeServer.Server)
    requires client.Valid() && client.state.Done? && !client.tls13
    requires server.Valid() && server.state.Done? && !server.tls13
    requires client.conn.log == server.conn.log
    ensures client.sessionReused == server.sessionReused
    ensures client.conn.ownMac == server.conn.peerMac && client.conn.peerMac == server.conn.ownMac
    ensures client.conn.transcript == server.conn.transcript
  {
    client.WhenDone();
    server.WhenDone();
    hide Matches, Flow, Count, Hashed;
    var log := client.conn.log;
    OnlyOne(log, FromClient, Finished, client.conn.ownAt.value, server.conn.peerAt.value);
    OnlyOne(log, FromServer, Finished, client.conn.peerAt.value, server.conn.ownAt.value);
  }

  /**
   * And without knowing what either saw: if each took the other's Finished, under the same keys, and no two
   * transcripts have the same verify data, then each Finished was computed and checked over the same bytes.
   */
  lemma SameFinishedSameMessages(client: HandshakeClient.Client, server: HandshakeServer.Server)
    requires client.Valid() && client.state.Done? && !client.tls13
    requires server.Valid() && server.state.Done? && !server.tls13
    requires client.conn.dtls == server.conn.dtls && client.conn.verifyData == server.conn.verifyData
    requires forall a, b, side :: client.conn.verifyData(a, side) == client.conn.verifyData(b, side) ==> a == b
    requires client.conn.PeerFinished() == server.conn.OwnFinished()
    requires server.conn.PeerFinished() == client.conn.OwnFinished()
    ensures client.conn.ownMac == server.conn.peerMac && client.conn.peerMac == server.conn.ownMac
  {
    client.WhenDone();
    server.WhenDone();
    hide Matches, Flow, Count, Hashed;
    var verifyData := client.conn.verifyData;
    assert verifyData(client.conn.ownMac, FromClient) == verifyData(server.conn.peerMac, FromClient);
    assert verifyData(server.conn.ownMac, FromServer) == verifyData(client.conn.peerMac, FromServer);
  }
}
