/** Handshakes complete and messages arrive: no run can go on without end, and one that cannot go on is done. */
module ConnectionProgress {
  import opened Bytes
  import opened Messages
  import opened Connection
  import opened ConnectionInvariant

  /** What the connection does by itself: nothing is sent, and no socket fails. */
  predicate IsInternal(a: Action) {
    !a.PostSend? && !a.Break?
  }

  // ---------------------------------------------------------------- no run without end

  ghost function Weight(v: View, writes: nat): nat {
    4 * |v.future| + 3 * |v.left| + |v.got| + writes
  }

  /** How far the bytes have still to go, and how many handlers of writes have still to run. */
  ghost function Measure(n: Net, k: Script): nat {
    Weight(ViewOf(n.server, k), |n.server.writes|) + Weight(ViewOf(n.client, k), |n.client.writes|)
    + 2 * |n.toServer| + 2 * |n.toClient|
  }

  lemma CompleteIsLighter(p: Peer, q: Peer, k: Script)
    requires Completes(p, q, k)
    ensures Weight(ViewOf(q, k), |q.writes|) < Weight(ViewOf(p, k), |p.writes|)
  {
    var v, w := ViewOf(p, k), ViewOf(q, k);
    assert |w.left + w.future| == |v.left + v.future|;
    assert w.left == Left(q) && v.left == Left(p);
  }

  lemma FinishIsLighter(p: Peer, q: Peer, k: Script)
    requires Finishes(p, q, k) && p.got != []
    ensures Weight(ViewOf(q, k), |q.writes|) < Weight(ViewOf(p, k), |p.writes|)
  {
    var v, w := ViewOf(p, k), ViewOf(q, k);
    assert |w.left + w.future| == |v.left + v.future|;
    assert w.left == Left(q) && v.left == Left(p);
  }

  lemma CompleteDecreases(n: Net, a: Action, k: Script, encrypt: Cipher)
    requires Sound(n, k) && Enabled(n, a) && a.Complete?
    ensures Measure(Next(n, a, encrypt), k) < Measure(n, k)
  {
    var q := CompletedEnd(n, a, k, encrypt);
    CompleteIsLighter(n.At(a.side), q, k);
    LighterEnd(n, a.side, q, k);
  }

  lemma LighterEnd(n: Net, side: Side, q: Peer, k: Script)
    requires Weight(ViewOf(q, k), |q.writes|) < Weight(ViewOf(n.At(side), k), |n.At(side).writes|)
    ensures Measure(n.With(side, q), k) < Measure(n, k)
  {
  }

  /** The bytes that an end is reading, and those it waits for, are the stream that the other writes. */
  lemma ReadIsExpected(n: Net, side: Side, k: Script) returns (rest: seq<byte>, sent: seq<Message>)
    requires Sound(n, k)
    ensures Expects(n.At(side), k, rest, sent)
  {
    var server, client := ViewOf(n.server, k), ViewOf(n.client, k);
    if side == ServerSide {
      rest, sent := n.toServer + client.left + client.future, n.sentByClient;
      RestOfFlow(server, n.toServer, client, Upstream(k, sent));
    } else {
      rest, sent := n.toClient + server.left + server.future, n.sentByServer;
      RestOfFlow(client, n.toClient, server, Downstream(k, sent));
    }
  }

  lemma FinishDecreases(n: Net, a: Action, k: Script, encrypt: Cipher)
    requires Honest(k, encrypt) && Sound(n, k) && Enabled(n, a) && a.Finish?
    ensures Measure(Next(n, a, encrypt), k) < Measure(n, k)
  {
    var p := n.At(a.side);
    var rest, sent := ReadIsExpected(n, a.side, k);
    FinishView(p, k, encrypt, rest, sent);
    FinishIsLighter(p, Read(p, encrypt), k);
    LighterEnd(n, a.side, Read(p, encrypt), k);
  }

  lemma MoveDecreases(n: Net, a: Action, k: Script, encrypt: Cipher)
    requires Sound(n, k) && Enabled(n, a) && (a.Transmit? || a.Deliver?)
    ensures Measure(Next(n, a, encrypt), k) < Measure(n, k)
  {
    var p := n.At(a.side);
    if a.Transmit? {
      TransmitView(p, a.i, a.k, k);
    } else {
      DeliverView(p, if a.side == ServerSide then n.toServer[..a.k] else n.toClient[..a.k], k);
    }
  }

  lemma StepDecreases(n: Net, a: Action, k: Script, encrypt: Cipher)
    requires Honest(k, encrypt) && Sound(n, k) && Enabled(n, a) && IsInternal(a)
    ensures Measure(Next(n, a, encrypt), k) < Measure(n, k)
  {
    if a.Complete? {
      CompleteDecreases(n, a, k, encrypt);
    } else if a.Finish? {
      FinishDecreases(n, a, k, encrypt);
    } else {
      MoveDecreases(n, a, k, encrypt);
    }
  }

  /** Left to itself, a connection takes no more steps than its measure allows. */
  lemma {:induction false} InternalRunsAreBounded(n: Net, actions: seq<Action>, k: Script, encrypt: Cipher)
    requires Honest(k, encrypt) && Sound(n, k) && IsRun(n, actions, encrypt) && forall a <- actions :: IsInternal(a)
    ensures |actions| <= Measure(n, k)
    decreases |actions|
  {
    if actions != [] {
      assert actions[0] in actions && forall a <- actions[1..] :: a in actions;
      StepKeeps(n, actions[0], k, encrypt);
      StepDecreases(n, actions[0], k, encrypt);
      InternalRunsAreBounded(Next(n, actions[0], encrypt), actions[1..], k, encrypt);
    }
  }

  // ---------------------------------------------------------------- a run that cannot go on is done

  /** No handler of this end can run, and no bytes can move to or from its operations. */
  ghost predicate IsStill(n: Net, side: Side) {
    forall a: Action :: a.side == side && IsInternal(a) ==> !Enabled(n, a)
  }

  /** An operation that writes can always go on. */
  lemma WriterHasStep(n: Net, side: Side, k: Script) returns (a: Action)
    requires Sound(n, k) && n.At(side).connected && n.At(side).writes != []
    ensures a.side == side && IsInternal(a) && Enabled(n, a)
  {
    var p := n.At(side);
    var i := |p.writes| - 1;
    if p.writes[i].left != [] {
      a := Transmit(side, i, 1);
    } else {
      assert p.writes[i].task == HeaderOut || p.writes[i].task == BodyOut ==> p.outgoing != [];
      a := Complete(side, i);
    }
  }

  /** A still end has no write in progress, and waits in a read for bytes that are not under way. */
  lemma StillEndWaits(n: Net, side: Side, k: Script)
    requires Sound(n, k) && n.At(side).connected && IsStill(n, side)
    ensures var p := n.At(side);
      && p.writes == [] && p.outgoing == [] && p.reading != NoRead && |p.got| < p.Want()
      && (if side == ServerSide then n.toServer else n.toClient) == []
  {
    if n.At(side).writes != [] {
      var a := WriterHasStep(n, side, k);
    } else {
      IdleEndReads(n.At(side), k);
      StillReaderWaits(n, side);
    }
  }

  lemma StillReaderWaits(n: Net, side: Side)
    requires IsStill(n, side) && n.At(side).connected
    requires n.At(side).reading != NoRead && |n.At(side).got| <= n.At(side).Want()
    ensures |n.At(side).got| < n.At(side).Want()
    ensures (if side == ServerSide then n.toServer else n.toClient) == []
  {
    assert !Enabled(n, Finish(side)) && !Enabled(n, Deliver(side, 1));
  }

  lemma IdleEndReads(p: Peer, k: Script)
    requires IsSound(p, k) && p.writes == []
    ensures p.outgoing == [] && p.reading != NoRead && |p.got| <= p.Want() && Left(p) == []
    ensures Sending(p) ==> ViewOf(p, k).future == []
  {
  }

  /** With nothing under way and nothing to write, an end in the handshake has the word it waits for. */
  lemma ServerHasItsWord(n: Net, k: Script)
    requires Sound(n, k) && n.server.writes == [] && n.client.writes == []
    requires n.toServer == [] && n.toClient == [] && n.server.reading == Validation2In
    ensures |n.server.got| >= 8 || |n.client.got| >= 8
  {
    var s, c := n.server, n.client;
    IdleEndReads(s, k);
    IdleEndReads(c, k);
    if c.reading == Validation1In {
      assert ClientConsumed(c, k) == [] && ServerFuture(s, k) == k.proof + k.id;
      assert |[] + c.got + [] + [] + (k.proof + k.id)| == |Downstream(k, n.sentByServer)|;
    } else {
      assert ServerConsumed(s, k) == [] && ClientFuture(c, k) == [];
      assert |[] + s.got + [] + [] + []| == |Upstream(k, n.sentByClient)|;
    }
  }

  lemma ClientHasItsWord(n: Net, k: Script)
    requires Sound(n, k) && IsPast(n.server) && n.server.writes == [] && n.toClient == []
    requires n.client.reading != NoRead && !IsPast(n.client)
    ensures |n.client.got| >= 8
  {
    var s, c := n.server, n.client;
    IdleEndReads(s, k);
    assert |ClientConsumed(c, k) + c.got + [] + [] + []| == |Downstream(k, n.sentByServer)|;
  }

  /** If the last messages of a stream are not read yet but nothing is under way, what is awaited is there. */
  lemma RestIsThere(p: Peer, rest: seq<Message>)
    requires IsPast(p) && rest != [] && rest[0].Framed() && Begun(p) + p.got == EncodeAll(rest)
    ensures |p.got| >= p.Want()
  {
    var first, more := rest[0], EncodeAll(rest[1..]);
    assert Begun(p) + p.got == Header(first) + (first.body + more);
    if p.reading == BodyIn {
      assert [] + Header(p.temp) == Header(p.temp) && [] + Header(first) == Header(first);
      SplitAfter([], Header(p.temp), p.got, Header(first), first.body + more);
      HeaderRoundTrip(p.temp);
      HeaderRoundTrip(first);
    }
  }

  /** An end that waits for more of a message, when there is no more, has read them all. */
  lemma NothingIsMissing(p: Peer, front: seq<byte>, sent: seq<Message>)
    requires ReadingIsSound(p) && IsPast(p) && |p.got| < p.Want() && forall m <- sent :: m.Framed()
    requires front + ReadSoFar(p) + p.got == front + EncodeAll(sent)
    ensures p.incoming == sent
  {
    IncomingIsPrefix(p, front, p.got, sent);
    var rest := sent[|p.incoming|..];
    if rest != [] {
      RestIsThere(p, rest);
    }
  }

  /**
    A sound state in which both ends are connected and neither can take a step by itself is one in
    which both handshakes are over, the client has its id, and every message sent has been received.
   */
  lemma StillMeansDone(n: Net, k: Script)
    requires Sound(n, k) && n.server.connected && n.client.connected
    requires IsStill(n, ServerSide) && IsStill(n, ClientSide)
    ensures IsPast(n.server) && IsPast(n.client) && n.client.id == k.id
    ensures n.client.incoming == n.sentByServer && n.server.incoming == n.sentByClient
  {
    var s, c := n.server, n.client;
    StillEndWaits(n, ServerSide, k);
    StillEndWaits(n, ClientSide, k);
    if s.reading == Validation2In {
      ServerHasItsWord(n, k);
    } else if !IsPast(c) {
      ClientHasItsWord(n, k);
    } else {
      EverythingIsRead(n, k);
    }
  }

  lemma EverythingIsRead(n: Net, k: Script)
    requires Sound(n, k) && IsPast(n.server) && IsPast(n.client)
    requires n.server.writes == [] && n.client.writes == [] && n.toServer == [] && n.toClient == []
    requires |n.server.got| < n.server.Want() && |n.client.got| < n.client.Want()
    ensures n.client.incoming == n.sentByServer && n.server.incoming == n.sentByClient
  {
    var s, c := n.server, n.client;
    var opening := k.challenge + k.proof + k.id;
    assert opening + ReadSoFar(c) + c.got == opening + EncodeAll(n.sentByServer) by { IdleEndReads(s, k); }
    assert k.answer + ReadSoFar(s) + s.got == k.answer + EncodeAll(n.sentByClient) by { IdleEndReads(c, k); }
    NothingIsMissing(c, opening, n.sentByServer);
    NothingIsMissing(s, k.answer, n.sentByClient);
  }

  // ---------------------------------------------------------------- what a connection can come to by itself

  /** t can come about from n without a send and without a socket failing. */
  ghost predicate Reaches(n: Net, t: Net, encrypt: Cipher) {
    exists actions: seq<Action> ::
      && IsRun(n, actions, encrypt) && Run(n, actions, encrypt) == t
      && forall a <- actions :: IsInternal(a)
  }

  lemma ReachesItself(n: Net, encrypt: Cipher)
    ensures Reaches(n, n, encrypt)
  {
    assert IsRun(n, [], encrypt) && Run(n, [], encrypt) == n;
  }

  lemma {:induction false} RunAppend(n: Net, actions: seq<Action>, a: Action, encrypt: Cipher)
    requires IsRun(n, actions, encrypt) && Enabled(Run(n, actions, encrypt), a)
    ensures IsRun(n, actions + [a], encrypt)
    ensures Run(n, actions + [a], encrypt) == Next(Run(n, actions, encrypt), a, encrypt)
    decreases |actions|
  {
    if actions == [] {
      assert actions + [a] == [a] && [a][1..] == [];
    } else {
      assert (actions + [a])[1..] == actions[1..] + [a];
      RunAppend(Next(n, actions[0], encrypt), actions[1..], a, encrypt);
    }
  }

  lemma ReachesNext(n: Net, t: Net, a: Action, encrypt: Cipher)
    requires Reaches(n, t, encrypt) && Enabled(t, a) && IsInternal(a)
    ensures Reaches(n, Next(t, a, encrypt), encrypt)
  {
    var actions: seq<Action> :|
      IsRun(n, actions, encrypt) && Run(n, actions, encrypt) == t && forall b <- actions :: IsInternal(b);
    RunAppend(n, actions, a, encrypt);
  }

  lemma {:induction false} InternalRunKeeps(n: Net, actions: seq<Action>, k: Script, encrypt: Cipher)
    requires Honest(k, encrypt) && Sound(n, k) && IsRun(n, actions, encrypt) && forall a <- actions :: IsInternal(a)
    requires n.server.connected && n.client.connected
    ensures var t := Run(n, actions, encrypt); Sound(t, k) && t.server.connected && t.client.connected
    decreases |actions|
  {
    if actions != [] {
      assert actions[0] in actions && forall a <- actions[1..] :: a in actions;
      StepKeeps(n, actions[0], k, encrypt);
      InternalRunKeeps(Next(n, actions[0], encrypt), actions[1..], k, encrypt);
    }
  }

  /** Every connection that is left alone can finish: the handshakes complete, and all that was sent arrives. */
  lemma EveryConnectionCanFinish(n: Net, k: Script, encrypt: Cipher) returns (t: Net)
    requires Honest(k, encrypt) && Sound(n, k) && n.server.connected && n.client.connected
    ensures Reaches(n, t, encrypt)
    ensures IsPast(t.server) && IsPast(t.client) && t.client.id == k.id
    ensures t.client.incoming == n.sentByServer && t.server.incoming == n.sentByClient
  {
    ReachesItself(n, encrypt);
    t := RunUntilStill(n, n, k, encrypt);
    StillMeansDone(t, k);
  }

  lemma {:induction false} RunUntilStill(o: Net, n: Net, k: Script, encrypt: Cipher) returns (t: Net)
    requires Honest(k, encrypt) && Sound(n, k) && n.server.connected && n.client.connected
    requires Reaches(o, n, encrypt)
    ensures Sound(t, k) && t.server.connected && t.client.connected && Reaches(o, t, encrypt)
    ensures t.sentByServer == n.sentByServer && t.sentByClient == n.sentByClient
    ensures IsStill(t, ServerSide) && IsStill(t, ClientSide)
    decreases Measure(n, k)
  {
    if a: Action :| IsInternal(a) && Enabled(n, a) {
      StepKeeps(n, a, k, encrypt);
      StepDecreases(n, a, k, encrypt);
      ReachesNext(o, n, a, encrypt);
      t := RunUntilStill(o, Next(n, a, encrypt), k, encrypt);
    } else {
      t := n;
    }
  }
}
