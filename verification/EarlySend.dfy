/**
  When it is safe to send. A message that an end sends before it has handed over the last byte of its
  own part in the handshake can overtake what is left of it; from that byte on, it cannot.
 */
module EarlySend {
  import opened Bytes
  import opened Messages
  import opened Connection
  import opened ConnectionInvariant
  import opened ConnectionProgress
  import opened Protocol

  // ---------------------------------------------------------------- a message posted too early

  /** What is displaced by a message that overtakes: the rest of the word that the other end waits for. */
  ghost function Displaced(p: Peer, k: Script): seq<byte> {
    if Final(p) then Left(p)
    else if p.IsClient() then k.answer
    else if Writing(p, Validation3Out) then k.id
    else k.proof
  }

  /** The read that the other end has for that word. */
  ghost function Awaited(p: Peer): ReadTask {
    if p.IsClient() then Validation2In
    else if Final(p) || Writing(p, Validation3Out) then Validation4In
    else Validation3In
  }

  /** The state after Send(m) at one end. */
  ghost function Posted(n: Net, side: Side, m: Message): Net {
    var t := n.With(side, Send(n.At(side), m));
    if side == ServerSide then t.(sentByServer := t.sentByServer + [m])
    else t.(sentByClient := t.sentByClient + [m])
  }

  function Other(side: Side): Side {
    if side == ServerSide then ClientSide else ServerSide
  }

  /** The bytes on their way from one end. */
  ghost function Way(n: Net, side: Side): seq<byte> {
    if side == ServerSide then n.toClient else n.toServer
  }

  /** The steps by which the other end is brought to wait: its own, and the handing over of a word already begun. */
  ghost predicate Drives(a: Action, side: Side, drain: bool) {
    IsInternal(a) && (a.side == Other(side) || (drain && a.side == side && a.Transmit? && a.i == 0))
  }

  /** Those steps do not notice that a message has been posted. */
  lemma PostedStep(n: Net, side: Side, m: Message, a: Action, drain: bool, encrypt: Cipher)
    requires Drives(a, side, drain) && Enabled(n, a) && n.At(side).outgoing == []
    ensures Next(n, a, encrypt).At(side).outgoing == []
    ensures Enabled(Posted(n, side, m), a)
    ensures Next(Posted(n, side, m), a, encrypt) == Posted(Next(n, a, encrypt), side, m)
  {
    if a.side == side {
      var p := n.At(side);
      var w := p.writes[0].(left := p.writes[0].left[a.k..]);
      assert (p.writes + [Write(HeaderOut, Header(m))])[0 := w] == p.writes[0 := w] + [Write(HeaderOut, Header(m))];
    }
  }

  /** An end that has still to send a part of its handshake: what it is doing, but for bytes handed over. */
  ghost predicate SameBut(p: Peer, q: Peer, drain: bool) {
    && q == p.(writes := q.writes) && |q.writes| == |p.writes| <= 1
    && (p.writes != [] ==> q.writes[0].task == p.writes[0].task)
    && (!drain ==> q == p)
  }

  lemma DriveKeeps(n: Net, side: Side, a: Action, drain: bool, encrypt: Cipher)
    requires Drives(a, side, drain) && Enabled(n, a) && |n.At(side).writes| <= 1
    ensures SameBut(n.At(side), Next(n, a, encrypt).At(side), drain)
    ensures a.side != side ==> Next(n, a, encrypt).At(side) == n.At(side)
  {
  }

  lemma DriveStep(n: Net, side: Side, m: Message, a: Action, drain: bool, k: Script, encrypt: Cipher)
    requires Honest(k, encrypt) && Sound(n, k) && n.server.connected && n.client.connected
    requires !HandshakeIsSent(n.At(side)) && (drain ==> !Final(n.At(side)))
    requires Drives(a, side, drain) && Enabled(n, a)
    ensures var t := Next(n, a, encrypt);
      && Sound(t, k) && t.server.connected && t.client.connected && Measure(t, k) < Measure(n, k)
      && SameBut(n.At(side), t.At(side), drain) && !HandshakeIsSent(t.At(side))
      && Enabled(Posted(n, side, m), a) && Next(Posted(n, side, m), a, encrypt) == Posted(t, side, m)
  {
    assert |n.At(side).writes| <= 1 && n.At(side).outgoing == [];
    StepKeeps(n, a, k, encrypt);
    StepDecreases(n, a, k, encrypt);
    DriveKeeps(n, side, a, drain, encrypt);
    PostedStep(n, side, m, a, drain, encrypt);
  }

  /** Behind the back of a posted message, the other end is brought to a state in which it only waits. */
  lemma {:induction false} Settle(o: Net, n: Net, side: Side, m: Message, drain: bool, k: Script, encrypt: Cipher)
      returns (t: Net)
    requires Honest(k, encrypt) && Sound(n, k) && n.server.connected && n.client.connected
    requires !HandshakeIsSent(n.At(side)) && (drain ==> !Final(n.At(side)))
    requires Reaches(o, Posted(n, side, m), encrypt)
    ensures Sound(t, k) && t.server.connected && t.client.connected
    ensures SameBut(n.At(side), t.At(side), drain) && !HandshakeIsSent(t.At(side))
    ensures Reaches(o, Posted(t, side, m), encrypt)
    ensures forall a :: Drives(a, side, drain) ==> !Enabled(t, a)
    decreases Measure(n, k)
  {
    if a :| Drives(a, side, drain) && Enabled(n, a) {
      DriveStep(n, side, m, a, drain, k, encrypt);
      ReachesNext(o, Posted(n, side, m), a, encrypt);
      t := Settle(o, Next(n, a, encrypt), side, m, drain, k, encrypt);
    } else {
      t := n;
      assert |n.At(side).writes| <= 1;
    }
  }

  /** What the server has still to write of its part, when no byte of a word already begun is left. */
  lemma OwedByServer(s: Peer, k: Script)
    requires ServerIsSound(s, k) && !HandshakeIsSent(s) && (Final(s) || Left(s) == [])
    ensures Left(s) + ServerFuture(s, k)
         == if Final(s) || Writing(s, Validation3Out) then Displaced(s, k) else Displaced(s, k) + k.id
    ensures 0 < |Displaced(s, k)| <= 8
    ensures !Final(s) ==> |Displaced(s, k)| == 8
  {
  }

  /** The client waits for exactly what the server still owes it. */
  lemma ClientWaits(t: Net, k: Script)
    requires Sound(t, k) && !HandshakeIsSent(t.server) && t.toClient == []
    requires t.client.reading != NoRead && |t.client.got| < t.client.Want()
    requires Final(t.server) || Left(t.server) == []
    ensures var c := t.client;
      if Final(t.server) || Writing(t.server, Validation3Out)
      then c.reading == Validation4In && c.got + Displaced(t.server, k) == k.id
      else c.reading == Validation3In && c.got + Displaced(t.server, k) == k.proof
  {
    var s, c := t.server, t.client;
    OwedByServer(s, k);
    assert ClientConsumed(c, k) + c.got + (Left(s) + ServerFuture(s, k)) == k.challenge + k.proof + k.id by {
      RestOfFlow(ViewOf(c, k), [], ViewOf(s, k), Downstream(k, []));
      assert [] + Left(s) + ServerFuture(s, k) == Left(s) + ServerFuture(s, k);
      assert Downstream(k, []) == k.challenge + k.proof + k.id;
    }
    if Final(s) || Writing(s, Validation3Out) {
      WordIsAwaited(c, k, Displaced(s, k));
    } else {
      TwoWordsAreAwaited(c, k, Displaced(s, k));
    }
  }

  lemma WordIsAwaited(c: Peer, k: Script, owed: seq<byte>)
    requires ClientIsSound(c, k) && c.reading != NoRead && |c.got| < c.Want() && 0 < |owed| <= 8
    requires ClientConsumed(c, k) + c.got + owed == k.challenge + k.proof + k.id
    ensures c.reading == Validation4In && c.got + owed == k.id
  {
    var consumed := ClientConsumed(c, k);
    assert |consumed| + |c.got| + |owed| == 24;
    assert IsPast(c) ==> |consumed| == 24 + |ReadSoFar(c)|;
    assert c.reading != Validation1In && c.reading != Validation3In && !IsPast(c);
    ClientReadsInOrder(c, k);
    assert consumed == k.challenge + k.proof;
    assert consumed + [] + (c.got + owed) == consumed + c.got + owed;
    assert consumed + [] + k.id == consumed + k.id;
    SplitAfter(consumed, [], c.got + owed, [], k.id);
  }

  lemma ClientReadsInOrder(c: Peer, k: Script)
    requires ClientIsSound(c, k) && c.reading != NoRead
    ensures c.reading == Validation1In || c.reading == Validation3In || c.reading == Validation4In || IsPast(c)
    ensures !Final(c)
  {
  }

  lemma TwoWordsAreAwaited(c: Peer, k: Script, owed: seq<byte>)
    requires ClientIsSound(c, k) && c.reading != NoRead && |c.got| < c.Want() && owed == k.proof
    requires ClientConsumed(c, k) + c.got + (owed + k.id) == k.challenge + k.proof + k.id
    ensures c.reading == Validation3In && c.got == []
  {
    assert |ClientConsumed(c, k)| + |c.got| + 16 == 24;
  }

  lemma ServerWaits(t: Net, k: Script)
    requires Sound(t, k) && !HandshakeIsSent(t.client) && t.toServer == []
    requires t.server.reading != NoRead && |t.server.got| < t.server.Want()
    ensures t.server.reading == Validation2In && t.server.got + Displaced(t.client, k) == k.answer
  {
    var s, c := t.server, t.client;
    var owed := Left(c) + ClientFuture(c, k);
    assert ServerConsumed(s, k) + s.got + owed == Upstream(k, []) == k.answer;
    assert owed == Displaced(c, k) && owed != [];
    assert s.reading != Validation2In ==> |ServerConsumed(s, k)| >= 8;
  }

  /** The message's header is handed over at once, and read in place of what it has displaced. */
  lemma Overtake(o: Net, t: Net, side: Side, m: Message, j: nat, encrypt: Cipher) returns (u: Net)
    requires t.server.connected && t.client.connected
    requires t.At(side).outgoing == [] && Reaches(o, Posted(t, side, m), encrypt) && Way(t, side) == []
    requires t.At(Other(side)).reading != NoRead && 0 < j <= 8
    requires |t.At(Other(side)).got| + j == t.At(Other(side)).Want()
    ensures Reaches(o, u, encrypt)
    ensures var q := t.At(Other(side)); u.At(Other(side)) == Read(q.(got := q.got + Header(m)[..j]), encrypt)
  {
    var posted, i := Posted(t, side, m), |t.At(side).writes|;
    assert posted.At(side).writes[i] == Write(HeaderOut, Header(m));
    ReachesNext(o, posted, Transmit(side, i, j), encrypt);
    var sent := Next(posted, Transmit(side, i, j), encrypt);
    assert Way(sent, side) == [] + Header(m)[..j] == Header(m)[..j];
    assert sent.At(Other(side)) == t.At(Other(side)) && Header(m)[..j][..j] == Header(m)[..j];
    ReachesNext(o, sent, Deliver(Other(side), j), encrypt);
    var given := Next(sent, Deliver(Other(side), j), encrypt);
    ReachesNext(o, given, Finish(Other(side)), encrypt);
    u := Next(given, Finish(Other(side)), encrypt);
  }

  // ---------------------------------------------------------------- the exact condition

  /** The word displaced is not empty, and no longer than a header. */
  lemma DisplacedIsWord(n: Net, side: Side, k: Script)
    requires Sound(n, k) && !HandshakeIsSent(n.At(side))
    ensures 0 < |Displaced(n.At(side), k)| <= 8
  {
    if side == ClientSide && Final(n.client) {
      assert |ServerConsumed(n.server, k) + n.server.got + n.toServer + Left(n.client) + ClientFuture(n.client, k)|
          == |Upstream(k, [])| == 8;
    }
  }

  /** This end, in this read, waits for no more than this word. */
  ghost predicate Awaits(q: Peer, task: ReadTask, word: seq<byte>, k: Script) {
    && IsSound(q, k) && q.reading == task && |q.got| + |word| == 8
    && match task
       case Validation2In => q.IsServer() && q.got + word == k.answer
       case Validation3In => q.IsClient() && q.got + word == k.proof
       case Validation4In => q.IsClient() && q.got + word == k.id
       case _ => false
  }

  lemma OtherEndAwaits(t: Net, side: Side, drain: bool, k: Script)
    requires Sound(t, k) && t.server.connected && t.client.connected && !HandshakeIsSent(t.At(side))
    requires drain <==> !Final(t.At(side))
    requires forall a :: Drives(a, side, drain) ==> !Enabled(t, a)
    ensures Awaits(t.At(Other(side)), Awaited(t.At(side)), Displaced(t.At(side), k), k) && Way(t, side) == []
  {
    StillEndWaits(t, Other(side), k);
    if side == ServerSide {
      if drain && t.server.writes != [] {
        assert !Enabled(t, Transmit(side, 0, 1));
      }
      ClientWaits(t, k);
    } else {
      ServerWaits(t, k);
    }
  }

  /** An end has rejected the other, or has taken a wrong id from it. */
  ghost predicate Misread(p: Peer, k: Script) {
    p.rejected || (p.IsClient() && IsPast(p) && p.id != k.id)
  }

  /** An end has misread the other or lost it, or messages are not received as they were sent. */
  ghost predicate Broken(n: Net, k: Script) {
    || Misread(n.server, k) || Misread(n.client, k) || !n.server.connected || !n.client.connected
    || !(n.client.incoming <= n.sentByServer) || !(n.server.incoming <= n.sentByClient)
  }

  /** What has become of an end that read m's header in place of that word. */
  ghost predicate IsHarmed(r: Peer, task: ReadTask, word: seq<byte>, m: Message, k: Script) {
    if task == Validation4In then
      r.IsClient() && IsPast(r) && r.id != k.id && (|word| == 8 ==> r.id == Header(m))
    else
      r.rejected && (task == Validation2In ==> !r.connected)
  }

  lemma HeaderInPlaceHarms(q: Peer, task: ReadTask, word: seq<byte>, m: Message, k: Script, encrypt: Cipher)
    requires Awaits(q, task, word, k) && |word| <= 8 && !(word <= Header(m))
    ensures IsHarmed(Read(q.(got := q.got + Header(m)[..|word|]), encrypt), task, word, m, k)
  {
    var other := Header(m)[..|word|];
    var i :| 0 <= i < |word| && other[i] != word[i];
    assert (q.got + other)[|q.got| + i] != (q.got + word)[|q.got| + i];
    assert |word| == 8 ==> q.got + other == Header(m);
  }

  /** Handing over a word already begun does not change which word is displaced. */
  lemma SameIsDisplaced(p: Peer, q: Peer, drain: bool, k: Script)
    requires SameBut(p, q, drain) && (drain <==> !Final(p))
    requires !HandshakeIsSent(p) && !HandshakeIsSent(q)
    ensures Displaced(q, k) == Displaced(p, k) && Awaited(q) == Awaited(p) && (Final(q) <==> Final(p))
  {
  }

  lemma EarlyEndIsIdle(p: Peer, k: Script)
    requires IsSound(p, k) && !HandshakeIsSent(p)
    ensures p.outgoing == []
  {
  }

  /** Once m is posted, the connection can come to where the other end waits for the word that m displaces. */
  lemma AwaitedBehind(o: Net, n: Net, side: Side, m: Message, k: Script, encrypt: Cipher) returns (t: Net)
    requires Honest(k, encrypt) && Sound(n, k) && n.server.connected && n.client.connected
    requires !HandshakeIsSent(n.At(side)) && o == Posted(n, side, m)
    ensures t.server.connected && t.client.connected && t.At(side).outgoing == [] && Way(t, side) == []
    ensures Reaches(o, Posted(t, side, m), encrypt)
    ensures Awaits(t.At(Other(side)), Awaited(n.At(side)), Displaced(n.At(side), k), k)
  {
    var drain := !Final(n.At(side));
    ReachesItself(o, encrypt);
    t := Settle(o, n, side, m, drain, k, encrypt);
    SameIsDisplaced(n.At(side), t.At(side), drain, k);
    OtherEndAwaits(t, side, drain, k);
    EarlyEndIsIdle(t.At(side), k);
  }

  lemma HeaderIsMisread(o: Net, t: Net, side: Side, task: ReadTask, word: seq<byte>, m: Message, k: Script,
                        encrypt: Cipher) returns (u: Net)
    requires t.server.connected && t.client.connected && t.At(side).outgoing == [] && Way(t, side) == []
    requires Reaches(o, Posted(t, side, m), encrypt) && Awaits(t.At(Other(side)), task, word, k)
    requires 0 < |word| <= 8 && !(word <= Header(m))
    ensures Reaches(o, u, encrypt) && IsHarmed(u.At(Other(side)), task, word, m, k)
  {
    u := Overtake(o, t, side, m, |word|, encrypt);
    HeaderInPlaceHarms(t.At(Other(side)), task, word, m, k, encrypt);
  }

  /**
    A message that an end sends before it has handed over its part in the handshake can break the
    connection: the other end reads the message's header in place of a word of the handshake. It rejects
    it, or, if the word is the client's id, takes it for that.
   */
  lemma EarlySendBreaks(n: Net, side: Side, m: Message, k: Script, encrypt: Cipher) returns (t: Net)
    requires Honest(k, encrypt) && Sound(n, k) && n.server.connected && n.client.connected
    requires !HandshakeIsSent(n.At(side)) && !(Displaced(n.At(side), k) <= Header(m))
    ensures Reaches(Next(n, PostSend(side, m), encrypt), t, encrypt)
    ensures IsHarmed(t.At(Other(side)), Awaited(n.At(side)), Displaced(n.At(side), k), m, k)
  {
    DisplacedIsWord(n, side, k);
    var o := Posted(n, side, m);
    assert Next(n, PostSend(side, m), encrypt) == o;
    var u := AwaitedBehind(o, n, side, m, k, encrypt);
    t := HeaderIsMisread(o, u, side, Awaited(n.At(side)), Displaced(n.At(side), k), m, k, encrypt);
  }

  /** A server that sends from its OnValidate can have the client take the header for its id. */
  lemma SendFromOnValidateCorruptsId(n: Net, m: Message, k: Script, encrypt: Cipher) returns (t: Net)
    requires Honest(k, encrypt) && Sound(n, k) && n.server.connected && n.client.connected
    requires Writing(n.server, Validation3Out) && Header(m) != k.id
    ensures Reaches(Next(n, PostSend(ServerSide, m), encrypt), t, encrypt)
    ensures IsPast(t.client) && t.client.id == Header(m)
  {
    assert Displaced(n.server, k) == k.id && Awaited(n.server) == Validation4In;
    assert !(k.id <= Header(m));
    t := EarlySendBreaks(n, ServerSide, m, k, encrypt);
  }

  /** A client that sends before it has read the challenge can have the header taken for its answer. */
  lemma SendBeforeAnswerIsRejected(n: Net, m: Message, k: Script, encrypt: Cipher) returns (t: Net)
    requires Honest(k, encrypt) && Sound(n, k) && n.server.connected && n.client.connected
    requires n.client.reading == Validation1In && Header(m) != k.answer
    ensures Reaches(Next(n, PostSend(ClientSide, m), encrypt), t, encrypt)
    ensures t.server.rejected && !t.server.connected
  {
    assert !HandshakeIsSent(n.client) && Displaced(n.client, k) == k.answer && Awaited(n.client) == Validation2In;
    assert !(k.answer <= Header(m));
    t := EarlySendBreaks(n, ClientSide, m, k, encrypt);
  }

  lemma SomeMessageClashes(word: seq<byte>) returns (m: Message)
    requires word != []
    ensures m.Framed() && !(word <= Header(m))
  {
    m := Message(if word[0] == 0 then 1 else 0, 0, []);
    assert Header(m)[0] == m.id % 0x100;
  }

  lemma SoundIsNotBroken(n: Net, k: Script)
    requires Sound(n, k) && n.server.connected && n.client.connected
    ensures !Broken(n, k)
  {
    ClientReceives(n, k);
    ServerReceives(n, k);
  }

  /** Nothing that the end could send now breaks the connection, whatever it comes to by itself. */
  ghost predicate IsSafe(n: Net, side: Side, k: Script, encrypt: Cipher)
    requires n.At(side).connected
  {
    forall m: Message, t: Net ::
      m.Framed() && Reaches(Next(n, PostSend(side, m), encrypt), t, encrypt) ==> !Broken(t, k)
  }

  lemma LateSendIsSafe(n: Net, side: Side, m: Message, t: Net, k: Script, encrypt: Cipher)
    requires Honest(k, encrypt) && Sound(n, k) && n.server.connected && n.client.connected
    requires HandshakeIsSent(n.At(side)) && m.Framed()
    requires Reaches(Next(n, PostSend(side, m), encrypt), t, encrypt)
    ensures !Broken(t, k)
  {
    var o := Next(n, PostSend(side, m), encrypt);
    PostStepKeeps(n, PostSend(side, m), k, encrypt);
    var actions: seq<Action> :|
      IsRun(o, actions, encrypt) && Run(o, actions, encrypt) == t && forall a <- actions :: IsInternal(a);
    InternalRunKeeps(o, actions, k, encrypt);
    SoundIsNotBroken(t, k);
  }

  lemma EarlySendIsUnsafe(n: Net, side: Side, k: Script, encrypt: Cipher)
    requires Honest(k, encrypt) && Sound(n, k) && n.server.connected && n.client.connected
    requires !HandshakeIsSent(n.At(side))
    ensures !IsSafe(n, side, k, encrypt)
  {
    DisplacedIsWord(n, side, k);
    var m := SomeMessageClashes(Displaced(n.At(side), k));
    var t := EarlySendBreaks(n, side, m, k, encrypt);
    HarmIsBroken(t, side, Awaited(n.At(side)), Displaced(n.At(side), k), m, k);
  }

  lemma HarmIsBroken(n: Net, side: Side, task: ReadTask, word: seq<byte>, m: Message, k: Script)
    requires IsHarmed(n.At(Other(side)), task, word, m, k)
    ensures Broken(n, k)
  {
  }

  /**
    Sending is safe at an end exactly from the moment when it has handed over the last byte of its own
    part in the handshake: then no message can break the connection, and before, some message can.
   */
  lemma SendIsSafeExactly(n: Net, side: Side, k: Script, encrypt: Cipher)
    requires Honest(k, encrypt) && Sound(n, k) && n.server.connected && n.client.connected
    ensures HandshakeIsSent(n.At(side)) <==> IsSafe(n, side, k, encrypt)
  {
    if HandshakeIsSent(n.At(side)) {
      forall m: Message, t: Net | m.Framed() && Reaches(Next(n, PostSend(side, m), encrypt), t, encrypt)
        ensures !Broken(t, k)
      {
        LateSendIsSafe(n, side, m, t, k, encrypt);
      }
    } else {
      EarlySendIsUnsafe(n, side, k, encrypt);
    }
  }

  // ---------------------------------------------------------------- what a program can see

  /** Once the client has its id, both ends have sent their parts in the handshake. */
  lemma PastClientMeansSent(n: Net, k: Script)
    requires Sound(n, k) && IsPast(n.client)
    ensures HandshakeIsSent(n.client) && HandshakeIsSent(n.server)
  {
    ServerOwes(n.server, k);
    assert |ClientConsumed(n.client, k) + n.client.got + n.toClient + Left(n.server) + ServerFuture(n.server, k)|
        == |Downstream(k, n.sentByServer)|;
    assert n.sentByServer == [] ==> |Left(n.server)| + |ServerFuture(n.server, k)| == 0;
  }

  lemma ServerOwes(s: Peer, k: Script)
    requires ServerIsSound(s, k)
    ensures HandshakeIsSent(s) || |Left(s)| + |ServerFuture(s, k)| > 0
  {
  }

  /**
    An end that has received a message may send, and so may both ends once the client has its id, which
    is when its OnValidate is called. A server that answers to nothing but its own OnConnect or
    OnValidate, or sends to all the clients it has accepted, may send too early.
   */
  lemma WhenToSend(n: Net, k: Script, encrypt: Cipher)
    requires Honest(k, encrypt) && Sound(n, k) && n.server.connected && n.client.connected
    ensures n.server.incoming != [] ==> IsSafe(n, ServerSide, k, encrypt)
    ensures n.client.incoming != [] || IsPast(n.client)
        ==> IsSafe(n, ClientSide, k, encrypt) && IsSafe(n, ServerSide, k, encrypt)
    ensures Writing(n.server, Validation1Out) || n.server.reading == Validation2In || Writing(n.server, Validation3Out)
        ==> !IsSafe(n, ServerSide, k, encrypt)
    ensures n.client.reading == Validation1In ==> !IsSafe(n, ClientSide, k, encrypt)
  {
    if IsPast(n.client) { PastClientMeansSent(n, k); }
    SendIsSafeExactly(n, ServerSide, k, encrypt);
    SendIsSafeExactly(n, ClientSide, k, encrypt);
  }
}
