/** What the connection protocol guarantees over whole runs. */
module Protocol {
  import opened Bytes
  import opened Messages
  import opened Connection
  import opened ConnectionInvariant
  import Handshake

  lemma ReceivedPrefix(p: Peer, front: seq<byte>, reader: View, way: seq<byte>, writer: View, sent: seq<Message>)
    requires ReadingIsSound(p) && forall m <- sent :: m.Framed()
    requires reader.consumed == front + ReadSoFar(p)
    requires Flows(reader, way, writer, front + EncodeAll(sent))
    ensures p.incoming <= sent
    ensures p.reading == HeaderIn && reader.got + way + writer.left + writer.future == [] ==> p.incoming == sent
  {
    var tail := reader.got + way + writer.left + writer.future;
    assert front + ReadSoFar(p) + tail
        == front + ReadSoFar(p) + reader.got + way + writer.left + writer.future;
    IncomingIsPrefix(p, front, tail, sent);
    EncodesSomething(sent[|p.incoming|..]);
  }

  /** An end past its handshake with nothing queued has nothing more to write. */
  lemma QuietWritesNothing(p: Peer, way: seq<byte>, k: Script)
    requires IsSound(p, k) && HandshakeIsSent(p) && Quiet(p, way)
    ensures ViewOf(p, k).left == [] && ViewOf(p, k).future == []
  {
  }

  lemma ClientReceives(n: Net, k: Script)
    requires Sound(n, k)
    ensures n.client.incoming <= n.sentByServer
    ensures IsPast(n.client) ==> n.client.id == k.id
    ensures var v, w := ViewOf(n.client, k), ViewOf(n.server, k);
      n.client.reading == HeaderIn && v.got + n.toClient + w.left + w.future == []
      ==> n.client.incoming == n.sentByServer
  {
    if IsPast(n.client) {
      var front := k.challenge + k.proof + k.id;
      assert ViewOf(n.client, k).consumed == front + ReadSoFar(n.client);
      ReceivedPrefix(n.client, front, ViewOf(n.client, k), n.toClient, ViewOf(n.server, k), n.sentByServer);
    }
  }

  lemma ServerReceives(n: Net, k: Script)
    requires Sound(n, k)
    ensures n.server.incoming <= n.sentByClient
    ensures var v, w := ViewOf(n.server, k), ViewOf(n.client, k);
      n.server.reading == HeaderIn && v.got + n.toServer + w.left + w.future == []
      ==> n.server.incoming == n.sentByClient
  {
    if IsPast(n.server) {
      assert ViewOf(n.server, k).consumed == k.answer + ReadSoFar(n.server);
      ReceivedPrefix(n.server, k.answer, ViewOf(n.server, k), n.toServer, ViewOf(n.client, k), n.sentByClient);
    }
  }

  /** Nothing is on its way from one end, and nothing is queued there. */
  predicate Quiet(writer: Peer, way: seq<byte>) {
    writer.writes == [] && writer.outgoing == [] && way == []
  }

  /**
    For every cipher, every challenge, every interleaving and every way in which the operations hand
    over their bytes: each end has received a prefix of the messages sent at the other, in order and
    unchanged, and all of them once nothing is under way; the client ends up with the id the server
    gave it; neither end rejects the other, and as long as no socket fails both stay connected.
   */
  lemma MessagesArriveInOrder(k: Script, encrypt: Cipher, actions: seq<Action>)
    requires Honest(k, encrypt)
    requires IsRun(Start(k.challenge, k.id, encrypt), actions, encrypt)
    requires DisciplinedRun(Start(k.challenge, k.id, encrypt), actions, encrypt)
    ensures var n := Run(Start(k.challenge, k.id, encrypt), actions, encrypt);
      && n.client.incoming <= n.sentByServer && n.server.incoming <= n.sentByClient
      && (IsPast(n.client) ==> n.client.id == k.id)
      && (HandshakeIsSent(n.server) && Quiet(n.server, n.toClient) && n.client.reading == HeaderIn && n.client.got == []
          ==> n.client.incoming == n.sentByServer)
      && (HandshakeIsSent(n.client) && Quiet(n.client, n.toServer) && n.server.reading == HeaderIn && n.server.got == []
          ==> n.server.incoming == n.sentByClient)
      && !n.server.rejected && !n.client.rejected
      && ((forall a <- actions :: !a.Break?) ==> n.server.connected && n.client.connected)
  {
    StartIsSound(k, encrypt);
    RunKeeps(Start(k.challenge, k.id, encrypt), actions, k, encrypt);
    var n := Run(Start(k.challenge, k.id, encrypt), actions, encrypt);
    ClientReceives(n, k);
    ServerReceives(n, k);
    if HandshakeIsSent(n.server) && Quiet(n.server, n.toClient) { QuietWritesNothing(n.server, n.toClient, k); }
    if HandshakeIsSent(n.client) && Quiet(n.client, n.toServer) { QuietWritesNothing(n.client, n.toServer, k); }
  }

  /** The cipher of an end takes the representation of a challenge to that of what Encrypt() answers. */
  lemma CipherIsEncrypt(owner: Handshake.Owner, challenge: bv64)
    ensures CipherOf(owner)(Handshake.Word(challenge)) == Handshake.Word(Handshake.Encrypt(owner, challenge))
  {
    Handshake.EncryptWordAnswers(owner, challenge);
  }

  /** A client rejects exactly what is not the proof it expects, and stays connected and stops reading if it does. */
  lemma ClientAcceptsExactly(c: Peer, encrypt: Cipher)
    requires c.IsClient() && c.reading == Validation3In && |c.got| == 8 && !c.rejected
    ensures var t := Read(c, encrypt);
      && (t.rejected <==> c.got != c.validationCheck)
      && t.connected == c.connected && t.reading == if t.rejected then NoRead else Validation4In
  {
  }

  /** A server accepts exactly the encryption of its challenge, and so never what a peer-to-peer node answers. */
  lemma ServerAcceptsExactly(s: Peer, challenge: Word8)
    requires s.IsServer() && s.connected && s.reading == Validation2In && |s.got| == 8
    requires s.validationCheck == CipherOf(Handshake.DedicatedServer)(challenge)
    ensures Read(s, CipherOf(Handshake.DedicatedServer)).connected
            <==> s.got == CipherOf(Handshake.DedicatedClient)(challenge)
    ensures s.got == CipherOf(Handshake.PeerToPeerNode)(challenge)
            ==> !Read(s, CipherOf(Handshake.DedicatedServer)).connected
  {
    Handshake.AnswersOnTheWire(challenge);
  }
}
