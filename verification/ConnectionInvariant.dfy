/**
  What every step of a connection keeps: in both directions, the bytes consumed, being read, under
  way, being written and still to be written make up one stream, the handshake and then the messages.
 */
module ConnectionInvariant {
  import opened Bytes
  import opened Messages
  import opened Connection
  import opened Handshake

  // ---------------------------------------------------------------- when an end may send

  /** The last write of an end's own part in the handshake. */
  function FinalTask(p: Peer): WriteTask {
    if p.IsServer() then Validation4Out else Validation2Out
  }

  /** That write is in progress; it is then the oldest one. */
  predicate Final(p: Peer) {
    p.writes != [] && p.writes[0].task == FinalTask(p)
  }

  /** The end reads messages: its handshake is over. */
  predicate IsPast(p: Peer) {
    p.reading == HeaderIn || p.reading == BodyIn
  }

  /** The handlers of all its handshake writes have run. */
  predicate Later(p: Peer) {
    IsPast(p) || (!p.IsServer() && (p.reading == Validation3In || p.reading == Validation4In))
  }

  /** No byte of the end's own part in the handshake is still to be handed over. */
  predicate HandshakeIsSent(p: Peer) {
    if Final(p) then p.writes[0].left == [] else Later(p)
  }

  /** Messages are sent only once the handshake has been, and with headers that are right. */
  ghost predicate Disciplined(n: Net, a: Action) {
    a.PostSend? ==> HandshakeIsSent(n.At(a.side)) && a.m.Framed()
  }

  // ---------------------------------------------------------------- one end

  /** What the writes in progress have still to hand over. */
  ghost function Left(p: Peer): seq<byte> {
    if p.writes == [] then []
    else p.writes[0].left + (if |p.writes| > 1 then p.writes[1].left else [])
  }

  /** The write of a message, if there is one; an exhausted handshake write can be older. */
  ghost function MessageWrites(p: Peer): seq<Write> {
    if Final(p) then p.writes[1..] else p.writes
  }

  /** What is still to be written of a queue whose first message is being written by ws. */
  ghost function QueuedOf(ws: seq<Write>, outgoing: seq<Message>): seq<byte> {
    if ws == [] || outgoing == [] then []
    else if ws[0].task == HeaderOut then outgoing[0].body + EncodeAll(outgoing[1..])
    else EncodeAll(outgoing[1..])
  }

  /** What the end will write after that, for the messages it has queued. */
  ghost function Queued(p: Peer): seq<byte> {
    QueuedOf(MessageWrites(p), p.outgoing)
  }

  /** The queue is empty, or exactly its first message is being written. */
  ghost predicate QueueIsSound(p: Peer) {
    var ws := MessageWrites(p);
    && (ws == [] <==> p.outgoing == [])
    && (ws != [] ==> |ws| == 1 && (ws[0].task == HeaderOut || ws[0].task == BodyOut))
  }

  /** An end that has sent its part in the handshake. */
  ghost predicate Sending(p: Peer) {
    HandshakeIsSent(p) && QueueIsSound(p) && (Final(p) ==> p.reading == NoRead)
  }

  /** An end that has still to send a part of it, and is writing this one. */
  ghost predicate Writing(p: Peer, task: WriteTask) {
    && |p.writes| == 1 && p.writes[0].task == task && p.outgoing == [] && p.reading == NoRead
    && !HandshakeIsSent(p)
  }

  /** The values of a handshake: the challenge, its answer, the answer to the answer, and the client's id. */
  datatype Script = Script(challenge: Word8, answer: Word8, proof: Word8, id: Word8)

  ghost predicate Honest(k: Script, encrypt: Cipher) {
    k.answer == encrypt(k.challenge) && k.proof == encrypt(k.answer)
  }

  /** The header of the message being read. */
  ghost function Begun(p: Peer): seq<byte> {
    if p.reading == BodyIn then Header(p.temp) else []
  }

  /** The messages read so far, with the header of the one being read. */
  ghost function ReadSoFar(p: Peer): seq<byte> {
    EncodeAll(p.incoming) + Begun(p)
  }

  ghost predicate ReadingIsSound(p: Peer) {
    && |p.got| <= p.Want()
    && (forall m <- p.incoming :: m.Framed())
    && (p.reading == BodyIn ==> p.temp.size > 0 && p.temp.body == [])
  }

  ghost predicate ServerIsSound(s: Peer, k: Script) {
    && s.IsServer() && s.id == k.id && !s.rejected && ReadingIsSound(s)
    && (IsPast(s) || s.incoming == [])
    && (|| (Writing(s, Validation1Out) && s.validationCheck == k.answer)
        || (s.writes == [] && s.outgoing == [] && s.reading == Validation2In && s.validationCheck == k.answer)
        || Writing(s, Validation3Out)
        || (Writing(s, Validation4Out) && |s.writes[0].left| <= 8)
        || Sending(s))
  }

  /** What the server has still to write after the writes in progress. */
  ghost function ServerFuture(s: Peer, k: Script): seq<byte> {
    if Sending(s) then Queued(s)
    else if Writing(s, Validation4Out) then []
    else if Writing(s, Validation3Out) then k.id
    else k.proof + k.id
  }

  /** What the server's handlers have consumed. */
  ghost function ServerConsumed(s: Peer, k: Script): seq<byte> {
    if Writing(s, Validation1Out) || s.reading == Validation2In then []
    else k.answer + ReadSoFar(s)
  }

  ghost predicate ClientIsSound(c: Peer, k: Script) {
    && c.IsClient() && !c.rejected && ReadingIsSound(c)
    && (if IsPast(c) then c.id == k.id else c.incoming == [])
    && (Final(c) || c.reading == Validation3In ==> c.validationCheck == k.proof)
    && (|| (c.writes == [] && c.outgoing == [] && c.reading == Validation1In)
        || Writing(c, Validation2Out)
        || Sending(c))
  }

  ghost function ClientFuture(c: Peer, k: Script): seq<byte> {
    if Sending(c) then Queued(c)
    else if Writing(c, Validation2Out) then []
    else k.answer
  }

  ghost function ClientConsumed(c: Peer, k: Script): seq<byte> {
    if c.reading == Validation1In then []
    else if Final(c) || c.reading == Validation3In then k.challenge
    else if c.reading == Validation4In then k.challenge + k.proof
    else k.challenge + k.proof + k.id + ReadSoFar(c)
  }

  /** Everything one direction carries in a whole run: its part of the handshake, then the messages. */
  ghost function Downstream(k: Script, sent: seq<Message>): seq<byte> {
    k.challenge + k.proof + k.id + EncodeAll(sent)
  }

  ghost function Upstream(k: Script, sent: seq<Message>): seq<byte> {
    k.answer + EncodeAll(sent)
  }

  /** What one end has consumed and is reading of one stream, and is writing and will write of the other. */
  datatype View = View(consumed: seq<byte>, got: seq<byte>, left: seq<byte>, future: seq<byte>)

  ghost function ViewOf(p: Peer, k: Script): View {
    if p.IsServer() then View(ServerConsumed(p, k), p.got, Left(p), ServerFuture(p, k))
    else View(ClientConsumed(p, k), p.got, Left(p), ClientFuture(p, k))
  }

  ghost predicate IsSound(p: Peer, k: Script) {
    if p.IsServer() then ServerIsSound(p, k) else ClientIsSound(p, k)
  }

  /** Consumed, being read, under way, being written and still to write make up the stream. */
  ghost predicate Flows(reader: View, way: seq<byte>, writer: View, whole: seq<byte>) {
    reader.consumed + reader.got + way + writer.left + writer.future == whole
  }

  ghost predicate Sound(n: Net, k: Script) {
    && (forall m <- n.sentByServer :: m.Framed()) && (forall m <- n.sentByClient :: m.Framed())
    && n.server.IsServer() && n.client.IsClient() && IsSound(n.server, k) && IsSound(n.client, k)
    && (HandshakeIsSent(n.server) || n.sentByServer == [])
    && (HandshakeIsSent(n.client) || n.sentByClient == [])
    && Flows(ViewOf(n.client, k), n.toClient, ViewOf(n.server, k), Downstream(k, n.sentByServer))
    && Flows(ViewOf(n.server, k), n.toServer, ViewOf(n.client, k), Upstream(k, n.sentByClient))
  }

  // ---------------------------------------------------------------- what one step does to one end

  lemma SplitAfter<T>(front: seq<T>, a: seq<T>, b: seq<T>, x: seq<T>, y: seq<T>)
    requires |a| == |x| && front + a + b == front + x + y
    ensures a == x && b == y
  {
    var i, j := |front|, |front| + |a|;
    assert a == (front + a + b)[i..j] && x == (front + x + y)[i..j];
    assert b == (front + a + b)[j..] && y == (front + x + y)[j..];
  }

  lemma PostToIdleKeeps(p: Peer, m: Message)
    requires Sending(p) && p.outgoing == []
    ensures var q := Send(p, m);
      && q == p.(outgoing := q.outgoing, writes := q.writes) && Sending(q)
      && Left(q) + Queued(q) == Left(p) + Queued(p) + Encode(m)
  {
    var q := Send(p, m);
    assert q.outgoing == [m] && q.outgoing[1..] == [] && q.writes == p.writes + [Write(HeaderOut, Header(m))];
    assert MessageWrites(q) == [Write(HeaderOut, Header(m))];
  }

  lemma QueuedGrows(ws: seq<Write>, outgoing: seq<Message>, m: Message)
    requires ws != [] && outgoing != []
    ensures QueuedOf(ws, outgoing + [m]) == QueuedOf(ws, outgoing) + Encode(m)
  {
    var rest := outgoing[1..];
    assert (outgoing + [m])[1..] == rest + [m];
    EncodeAllOfConcat(rest, [m]);
    assert EncodeAll([m]) == Encode(m);
    Regroup(outgoing[0].body, EncodeAll(rest), Encode(m));
  }

  lemma PostToBusyKeeps(p: Peer, m: Message)
    requires Sending(p) && p.outgoing != []
    ensures var q := Send(p, m);
      && q == p.(outgoing := q.outgoing, writes := q.writes) && Sending(q)
      && Left(q) + Queued(q) == Left(p) + Queued(p) + Encode(m)
  {
    var q := p.(outgoing := p.outgoing + [m]);
    assert Send(p, m) == q;
    assert MessageWrites(q) == MessageWrites(p) && Left(q) == Left(p);
    QueuedGrows(MessageWrites(p), p.outgoing, m);
  }

  /** The end without write operation i. */
  function Without(p: Peer, i: nat): Peer
    requires i < |p.writes|
  {
    p.(writes := p.writes[..i] + p.writes[i + 1..])
  }

  /** A handler that begins another write hands over more bytes to it than the one before had left. */
  ghost predicate WritesOn(p: Peer, q: Peer) {
    && |Left(q)| >= |Left(p)| && |q.writes| <= |p.writes|
    && (|q.writes| == |p.writes| ==> |Left(q)| > |Left(p)|)
  }

  /** The handler of a message's write begins at most one more write, behind those in progress. */
  lemma NextWrite(p: Peer, task: WriteTask)
    requires (task == HeaderOut || task == BodyOut) && p.outgoing != []
    ensures var q := Written(p, task);
      && q == p.(outgoing := q.outgoing, writes := q.writes)
      && (q.outgoing == [] ==> q.writes == p.writes && QueuedOf([Write(task, [])], p.outgoing) == [])
      && (q.outgoing != [] ==>
            exists w: Write ::
              && q.writes == p.writes + [w] && w.left != [] && (w.task == HeaderOut || w.task == BodyOut)
              && w.left + QueuedOf([w], q.outgoing) == QueuedOf([Write(task, [])], p.outgoing))
  {
    var q, rest := Written(p, task), p.outgoing[1..];
    if task == HeaderOut && |p.outgoing[0].body| > 0 {
      var w := Write(BodyOut, p.outgoing[0].body);
      assert q.writes == p.writes + [w];
    } else if rest != [] {
      var w := Write(HeaderOut, Header(rest[0]));
      assert q.writes == p.writes + [w] && q.outgoing == rest;
      assert w.left + QueuedOf([w], rest) == EncodeAll(rest);
    }
  }

  lemma MessageKeeps(p: Peer, i: nat)
    requires Sending(p) && i < |p.writes| && p.writes[i].left == [] && i == if Final(p) then 1 else 0
    ensures p.outgoing != [] && (p.writes[i].task == HeaderOut || p.writes[i].task == BodyOut)
    ensures var q := Written(Without(p, i), p.writes[i].task);
      && q == p.(outgoing := q.outgoing, writes := q.writes) && Sending(q) && (Final(p) <==> Final(q))
      && Left(q) + Queued(q) == Queued(p) && WritesOn(p, q) && Left(p) == []
  {
    var base, q := Without(p, i), Written(Without(p, i), p.writes[i].task);
    NextWrite(base, p.writes[i].task);
    assert base.writes == if Final(p) then [p.writes[0]] else [];
    assert MessageWrites(p) == [Write(p.writes[i].task, [])];
    if q.outgoing == [] {
      assert MessageWrites(q) == [];
    } else {
      var w :| q.writes == base.writes + [w] && w.left != [] && (w.task == HeaderOut || w.task == BodyOut)
               && w.left + QueuedOf([w], q.outgoing) == QueuedOf(MessageWrites(p), p.outgoing);
      assert MessageWrites(q) == [w] && Left(q) == w.left;
    }
  }

  lemma AddKeeps(p: Peer)
    requires p.temp.Framed() && forall m <- p.incoming :: m.Framed()
    ensures var q := AddToIncoming(p);
      && (forall m <- q.incoming :: m.Framed())
      && EncodeAll(q.incoming) == EncodeAll(p.incoming) + Encode(p.temp)
  {
    EncodeAllOfConcat(p.incoming, [p.temp]);
    assert EncodeAll([p.temp]) == Encode(p.temp);
  }

  /** What reading a message, or its header, changes and keeps. */
  ghost predicate ReadsOn(p: Peer, q: Peer) {
    && q == p.(reading := q.reading, got := [], temp := q.temp, incoming := q.incoming)
    && ReadingIsSound(q) && (q.reading == HeaderIn || q.reading == BodyIn)
    && ReadSoFar(q) == ReadSoFar(p) + p.got
  }

  lemma HeaderReadsOn(p: Peer, encrypt: Cipher)
    requires ReadingIsSound(p) && p.reading == HeaderIn && |p.got| == 8
    ensures ReadsOn(p, Read(p, encrypt))
  {
    ParseHeaderRoundTrip(p.got);
    if ParseHeader(p.got).size == 0 {
      EmptyMessageIsAdded(p, ParseHeader(p.got));
    } else {
      BodyIsOpened(p, ParseHeader(p.got));
    }
  }

  lemma BodyIsOpened(p: Peer, h: Message)
    requires ReadingIsSound(p) && p.reading == HeaderIn && Header(h) == p.got && h.size > 0 && h.body == []
    ensures ReadsOn(p, p.(reading := BodyIn, got := [], temp := h))
  {
  }

  lemma EmptyMessageIsAdded(p: Peer, h: Message)
    requires ReadingIsSound(p) && p.reading == HeaderIn && Header(h) == p.got && h.size == 0 && h.body == []
    ensures ReadsOn(p, AddToIncoming(p.(reading := NoRead, got := [], temp := h)))
  {
    AddKeeps(p.(reading := NoRead, got := [], temp := h));
    assert Encode(h) == p.got;
  }

  lemma BodyReadsOn(p: Peer, encrypt: Cipher)
    requires ReadingIsSound(p) && p.reading == BodyIn && |p.got| == p.temp.size
    ensures ReadsOn(p, Read(p, encrypt))
  {
    var m, q := p.temp.(body := p.got), Read(p, encrypt);
    AddKeeps(p.(reading := NoRead, got := [], temp := m));
    assert Encode(m) == Header(p.temp) + p.got && ReadSoFar(q) == EncodeAll(q.incoming);
    assert ReadSoFar(p) + p.got == EncodeAll(p.incoming) + (Header(p.temp) + p.got);
  }

  lemma DeliverView(p: Peer, bytes: seq<byte>, k: Script)
    requires IsSound(p, k) && |p.got + bytes| <= p.Want()
    ensures var q := p.(got := p.got + bytes);
      && IsSound(q, k) && (HandshakeIsSent(p) ==> HandshakeIsSent(q))
      && ViewOf(q, k) == ViewOf(p, k).(got := p.got + bytes)
  {
  }

  /** q is p with another queue and other writes, and has sent its part in the handshake like p. */
  lemma SendingView(p: Peer, q: Peer, k: Script)
    requires IsSound(p, k) && Sending(p) && Sending(q) && q == p.(outgoing := q.outgoing, writes := q.writes)
    requires Final(p) <==> Final(q)
    ensures IsSound(q, k) && ViewOf(q, k) == ViewOf(p, k).(left := Left(q), future := Queued(q))
    ensures ViewOf(p, k).future == Queued(p)
  {
  }

  /** Handing bytes over shortens what is left, and nothing else. */
  lemma TransmitView(p: Peer, i: nat, n: nat, k: Script)
    requires IsSound(p, k) && i < |p.writes| && 0 < n <= |p.writes[i].left|
    ensures var w := p.writes[i];
      var q := p.(writes := p.writes[i := w.(left := w.left[n..])]);
      && IsSound(q, k) && (HandshakeIsSent(p) ==> HandshakeIsSent(q))
      && w.left == Left(p) && ViewOf(q, k) == ViewOf(p, k).(left := w.left[n..])
  {
    var w := p.writes[i];
    var q := p.(writes := p.writes[i := w.(left := w.left[n..])]);
    if Sending(p) {
      MessageTransmits(p, i, n);
      SendingView(p, q, k);
    } else {
      HandshakeTransmits(p, n, k);
    }
  }

  lemma MessageTransmits(p: Peer, i: nat, n: nat)
    requires Sending(p) && i < |p.writes| && 0 < n <= |p.writes[i].left|
    ensures var w := p.writes[i];
      var q := p.(writes := p.writes[i := w.(left := w.left[n..])]);
      && Sending(q) && (Final(p) <==> Final(q))
      && w.left == Left(p) && Left(q) == w.left[n..] && Queued(q) == Queued(p)
  {
    var w := p.writes[i];
    var q := p.(writes := p.writes[i := w.(left := w.left[n..])]);
    assert MessageWrites(q) == [w.(left := w.left[n..])] && MessageWrites(p) == [w];
  }

  lemma HandshakeTransmits(p: Peer, n: nat, k: Script)
    requires IsSound(p, k) && !Sending(p) && p.writes != [] && 0 < n <= |p.writes[0].left|
    ensures |p.writes| == 1
    ensures var w := p.writes[0];
      var q := p.(writes := [w.(left := w.left[n..])]);
      IsSound(q, k) && w.left == Left(p) && ViewOf(q, k) == ViewOf(p, k).(left := w.left[n..])
  {
    var w := p.writes[0];
    var q := p.(writes := [w.(left := w.left[n..])]);
    if Final(q) {
      assert MessageWrites(q) == [];
    }
  }

  /** What Send() changes: the message comes last in what the end will write, and nothing else is different. */
  ghost predicate Posts(p: Peer, q: Peer, m: Message, k: Script) {
    var v, w := ViewOf(p, k), ViewOf(q, k);
    && IsSound(q, k) && q.owner == p.owner && q.connected == p.connected && HandshakeIsSent(q)
    && w.consumed == v.consumed && w.got == v.got && w.left + w.future == v.left + v.future + Encode(m)
  }

  lemma PostView(p: Peer, m: Message, k: Script)
    requires IsSound(p, k) && HandshakeIsSent(p)
    ensures Posts(p, Send(p, m), m, k)
  {
    assert Sending(p);
    if p.outgoing == [] { PostToIdleKeeps(p, m); } else { PostToBusyKeeps(p, m); }
    SendingView(p, Send(p, m), k);
  }

  /** What the handler of a write changes: what it had planned is what it now writes. */
  ghost predicate Completes(p: Peer, q: Peer, k: Script) {
    var v, w := ViewOf(p, k), ViewOf(q, k);
    && IsSound(q, k) && q.owner == p.owner && q.connected == p.connected
    && (HandshakeIsSent(p) ==> HandshakeIsSent(q))
    && w.consumed == v.consumed && w.got == v.got && w.left + w.future == v.left + v.future
    && WritesOn(p, q)
  }

  lemma MessageWriteView(p: Peer, i: nat, k: Script)
    requires IsSound(p, k) && Sending(p) && i < |p.writes| && p.writes[i].left == []
    requires p.writes[i].task == HeaderOut || p.writes[i].task == BodyOut
    ensures p.outgoing != [] && Completes(p, Written(Without(p, i), p.writes[i].task), k)
  {
    MessageKeeps(p, i);
    SendingView(p, Written(Without(p, i), p.writes[i].task), k);
  }

  lemma FinalWriteKeeps(p: Peer, q: Peer)
    requires Sending(p) && Final(p) && (p.IsServer() || p.IsClient())
    requires q == p.(writes := p.writes[1..], reading := if p.IsServer() then HeaderIn else Validation3In)
    ensures !Final(q) && Sending(q) && Left(q) == Left(p) && Queued(q) == Queued(p) && |q.writes| < |p.writes|
  {
    assert MessageWrites(q) == MessageWrites(p) == p.writes[1..];
  }

  lemma ServerFinalView(p: Peer, q: Peer, k: Script)
    requires p.IsServer() && IsSound(p, k) && Final(p) && p.writes[0].left == []
    requires q == p.(writes := p.writes[1..], reading := HeaderIn)
    ensures Completes(p, q, k)
  {
    assert Sending(p);
    FinalWriteKeeps(p, q);
  }

  lemma ClientFinalView(p: Peer, q: Peer, k: Script)
    requires p.IsClient() && IsSound(p, k) && Final(p) && p.writes[0].left == []
    requires q == p.(writes := p.writes[1..], reading := Validation3In)
    ensures Completes(p, q, k)
  {
    assert Sending(p);
    FinalWriteKeeps(p, q);
  }

  /** The handler of the last handshake write, whether or not a message is already being written. */
  lemma FinalWriteView(p: Peer, k: Script)
    requires IsSound(p, k) && Final(p) && p.writes[0].left == []
    ensures Completes(p, Written(Without(p, 0), p.writes[0].task), k)
  {
    assert p.writes[..0] + p.writes[1..] == p.writes[1..];
    var q := Written(Without(p, 0), p.writes[0].task);
    if p.IsServer() { ServerFinalView(p, q, k); } else { ClientFinalView(p, q, k); }
  }

  lemma EarlyWriteView(p: Peer, k: Script)
    requires IsSound(p, k) && !Sending(p) && p.writes != [] && p.writes[0].left == []
    ensures Completes(p, Written(Without(p, 0), p.writes[0].task), k)
  {
    assert p.writes[..0] + p.writes[1..] == [];
    var q := Written(Without(p, 0), p.writes[0].task);
    assert q.writes == [] || q.writes == [Write(Validation4Out, k.id)];
  }

  lemma CompleteView(p: Peer, i: nat, k: Script)
    requires IsSound(p, k) && i < |p.writes| && p.writes[i].left == []
    requires p.writes[i].task == HeaderOut || p.writes[i].task == BodyOut ==> p.outgoing != []
    ensures Completes(p, Written(Without(p, i), p.writes[i].task), k)
  {
    if !Sending(p) {
      EarlyWriteView(p, k);
    } else if Final(p) && i == 0 {
      FinalWriteView(p, k);
    } else {
      MessageWriteView(p, i, k);
    }
  }

  /** What the handler of a read changes: the bytes are consumed, and an answer that was due is begun. */
  ghost predicate Finishes(p: Peer, q: Peer, k: Script) {
    var v, w := ViewOf(p, k), ViewOf(q, k);
    && IsSound(q, k) && q.owner == p.owner && q.connected == p.connected
    && (HandshakeIsSent(p) ==> HandshakeIsSent(q))
    && w.consumed == v.consumed + v.got && w.got == [] && w.left + w.future == v.left + v.future
    && |Left(q)| >= |Left(p)| && (|q.writes| == |p.writes| || (|q.writes| == |p.writes| + 1 && |Left(q)| > |Left(p)|))
  }

  /** The server accepts the answer: nothing else can be at the front of the stream. */
  lemma AnswerIsAccepted(s: Peer, k: Script, encrypt: Cipher)
    requires Honest(k, encrypt) && s.IsServer() && IsSound(s, k) && s.reading == Validation2In && s.got == k.answer
    ensures Finishes(s, Read(s, encrypt), k)
  {
    assert Read(s, encrypt).writes == [Write(Validation3Out, k.proof)];
  }

  lemma ChallengeIsAnswered(c: Peer, k: Script, encrypt: Cipher)
    requires Honest(k, encrypt) && c.IsClient() && IsSound(c, k) && c.reading == Validation1In && c.got == k.challenge
    ensures Finishes(c, Read(c, encrypt), k)
  {
    assert Read(c, encrypt).writes == [Write(Validation2Out, k.answer)];
  }

  /** The client accepts the server's proof. */
  lemma ProofIsAccepted(c: Peer, k: Script, encrypt: Cipher)
    requires c.IsClient() && IsSound(c, k) && c.reading == Validation3In && c.got == k.proof
    ensures Finishes(c, Read(c, encrypt), k)
  {
  }

  lemma IdIsTaken(c: Peer, k: Script, encrypt: Cipher)
    requires c.IsClient() && IsSound(c, k) && c.reading == Validation4In && c.got == k.id
    ensures Finishes(c, Read(c, encrypt), k)
  {
  }

  lemma ServerReadsOn(p: Peer, t: Peer, k: Script)
    requires p.IsServer() && IsSound(p, k) && IsPast(p) && ReadsOn(p, t)
    ensures Finishes(p, t, k)
  {
    assert Sending(p) && Sending(t);
    assert k.answer + ReadSoFar(t) == (k.answer + ReadSoFar(p)) + p.got;
  }

  lemma ClientReadsOn(p: Peer, t: Peer, k: Script)
    requires p.IsClient() && IsSound(p, k) && IsPast(p) && ReadsOn(p, t)
    ensures Finishes(p, t, k)
  {
    assert Sending(p) && Sending(t);
    var opening := k.challenge + k.proof + k.id;
    assert opening + ReadSoFar(t) == (opening + ReadSoFar(p)) + p.got;
  }

  lemma MessageIsRead(p: Peer, k: Script, encrypt: Cipher)
    requires IsSound(p, k) && IsPast(p) && |p.got| == p.Want()
    ensures Finishes(p, Read(p, encrypt), k)
  {
    var t := Read(p, encrypt);
    if p.reading == HeaderIn { HeaderReadsOn(p, encrypt); } else { BodyReadsOn(p, encrypt); }
    if p.IsServer() { ServerReadsOn(p, t, k); } else { ClientReadsOn(p, t, k); }
  }

  /** In the handshake, what has been read is the word that the stream has at that place. */
  lemma AnswerIsExpected(p: Peer, k: Script, rest: seq<byte>, sent: seq<Message>)
    requires p.reading == Validation2In && |p.got| == 8
    requires ServerConsumed(p, k) + p.got + rest == Upstream(k, sent)
    ensures p.got == k.answer
  {
    SplitAfter([], p.got, rest, k.answer, EncodeAll(sent));
  }

  lemma WordIsExpected(p: Peer, k: Script, rest: seq<byte>, all: seq<byte>)
    requires p.reading == Validation1In || p.reading == Validation3In || p.reading == Validation4In
    requires |p.got| == 8 && !Final(p)
    requires ClientConsumed(p, k) + p.got + rest == k.challenge + k.proof + k.id + all
    ensures p.reading == Validation1In ==> p.got == k.challenge
    ensures p.reading == Validation3In ==> p.got == k.proof
    ensures p.reading == Validation4In ==> p.got == k.id
  {
    if p.reading == Validation1In {
      assert k.challenge + k.proof + k.id + all == [] + k.challenge + (k.proof + k.id + all);
      SplitAfter([], p.got, rest, k.challenge, k.proof + k.id + all);
    } else if p.reading == Validation3In {
      assert ClientConsumed(p, k) == k.challenge;
      assert k.challenge + k.proof + k.id + all == k.challenge + k.proof + (k.id + all);
      SplitAfter(k.challenge, p.got, rest, k.proof, k.id + all);
    } else {
      assert ClientConsumed(p, k) == k.challenge + k.proof;
      SplitAfter(k.challenge + k.proof, p.got, rest, k.id, all);
    }
  }

  /** The bytes read and being read, and the rest, are the stream that this end reads. */
  ghost predicate Expects(p: Peer, k: Script, rest: seq<byte>, sent: seq<Message>) {
    ViewOf(p, k).consumed + p.got + rest == if p.IsServer() then Upstream(k, sent) else Downstream(k, sent)
  }

  /** A read that has finished is what the other end wrote at that place, so it is always accepted. */
  lemma FinishView(p: Peer, k: Script, encrypt: Cipher, rest: seq<byte>, sent: seq<Message>)
    requires Honest(k, encrypt) && IsSound(p, k) && p.reading != NoRead && |p.got| == p.Want()
    requires Expects(p, k, rest, sent)
    ensures Finishes(p, Read(p, encrypt), k)
  {
    if IsPast(p) {
      MessageIsRead(p, k, encrypt);
    } else {
      if p.IsServer() { AnswerIsExpected(p, k, rest, sent); } else { WordIsExpected(p, k, rest, EncodeAll(sent)); }
      if p.reading == Validation1In { ChallengeIsAnswered(p, k, encrypt); }
      else if p.reading == Validation2In { AnswerIsAccepted(p, k, encrypt); }
      else if p.reading == Validation3In { ProofIsAccepted(p, k, encrypt); }
      else { IdIsTaken(p, k, encrypt); }
    }
  }

  // ---------------------------------------------------------------- every step

  /** A new server end plans exactly its own part of the handshake. */
  lemma ServerBegins(k: Script, encrypt: Cipher)
    requires Honest(k, encrypt)
    ensures var s := ConnectToClient(NewPeer(DedicatedServer, k.id), k.challenge, encrypt);
      && IsSound(s, k) && ViewOf(s, k) == View([], [], k.challenge, k.proof + k.id)
  {
    var s := ConnectToClient(NewPeer(DedicatedServer, k.id), k.challenge, encrypt);
    assert s.writes == [Write(Validation1Out, k.challenge)];
  }

  /** A new client end plans to give the answer, once it has read the challenge. */
  lemma ClientBegins(k: Script)
    ensures var c := ConnectToServer(NewPeer(DedicatedClient, ZERO_WORD));
      && IsSound(c, k) && ViewOf(c, k) == View([], [], [], k.answer)
  {
  }

  lemma StartIsSound(k: Script, encrypt: Cipher)
    requires Honest(k, encrypt)
    ensures Sound(Start(k.challenge, k.id, encrypt), k)
  {
    ServerBegins(k, encrypt);
    ClientBegins(k);
    assert [] + [] + [] + k.challenge + (k.proof + k.id) == Downstream(k, []);
    assert [] + [] + [] + [] + k.answer == Upstream(k, []);
  }

  /** Bytes that move along one direction leave the whole of it as it was. */
  lemma TransmitFlows(reader: View, way: seq<byte>, writer: View, whole: seq<byte>, k: nat)
    requires Flows(reader, way, writer, whole) && k <= |writer.left|
    ensures Flows(reader, way + writer.left[..k], writer.(left := writer.left[k..]), whole)
  {
  }

  lemma DeliverFlows(reader: View, way: seq<byte>, writer: View, whole: seq<byte>, k: nat)
    requires Flows(reader, way, writer, whole) && k <= |way|
    ensures Flows(reader.(got := reader.got + way[..k]), way[k..], writer, whole)
  {
  }

  /** What is left and what will follow can change places, and a message can be added to both sides. */
  lemma WriterFlows(reader: View, way: seq<byte>, v: View, w: View, more: seq<byte>, whole: seq<byte>)
    requires Flows(reader, way, v, whole) && w.left + w.future == v.left + v.future + more
    ensures Flows(reader, way, w, whole + more)
  {
    var front := reader.consumed + reader.got + way;
    assert front + w.left + w.future == front + (w.left + w.future);
    assert front + (v.left + v.future + more) == front + v.left + v.future + more;
  }

  lemma ReaderFlows(v: View, w: View, way: seq<byte>, writer: View, whole: seq<byte>)
    requires Flows(v, way, writer, whole) && w.consumed == v.consumed + v.got && w.got == []
    ensures Flows(w, way, writer, whole)
  {
  }

  lemma TransmitKeeps(n: Net, a: Action, k: Script, encrypt: Cipher)
    requires Sound(n, k) && Enabled(n, a) && a.Transmit?
    ensures Sound(Next(n, a, encrypt), k)
  {
    var server, client := ViewOf(n.server, k), ViewOf(n.client, k);
    TransmitView(n.At(a.side), a.i, a.k, k);
    if a.side == ServerSide {
      TransmitFlows(client, n.toClient, server, Downstream(k, n.sentByServer), a.k);
    } else {
      TransmitFlows(server, n.toServer, client, Upstream(k, n.sentByClient), a.k);
    }
  }

  lemma DeliverKeeps(n: Net, a: Action, k: Script, encrypt: Cipher)
    requires Sound(n, k) && Enabled(n, a) && a.Deliver?
    ensures Sound(Next(n, a, encrypt), k)
  {
    var server, client := ViewOf(n.server, k), ViewOf(n.client, k);
    if a.side == ServerSide {
      DeliverView(n.server, n.toServer[..a.k], k);
      DeliverFlows(server, n.toServer, client, Upstream(k, n.sentByClient), a.k);
    } else {
      DeliverView(n.client, n.toClient[..a.k], k);
      DeliverFlows(client, n.toClient, server, Downstream(k, n.sentByServer), a.k);
    }
  }

  /** A writer that only rearranges what is left and what will follow. */
  lemma SameWriterFlows(reader: View, way: seq<byte>, v: View, w: View, whole: seq<byte>)
    requires Flows(reader, way, v, whole) && w.left + w.future == v.left + v.future
    ensures Flows(reader, way, w, whole)
  {
    assert v.left + v.future + [] == v.left + v.future && whole + [] == whole;
    WriterFlows(reader, way, v, w, [], whole);
  }

  lemma ServerChangeKeeps(n: Net, s: Peer, k: Script)
    requires Sound(n, k) && Completes(n.server, s, k)
    ensures Sound(n.(server := s), k)
  {
    SameWriterFlows(ViewOf(n.client, k), n.toClient, ViewOf(n.server, k), ViewOf(s, k), Downstream(k, n.sentByServer));
  }

  lemma ClientChangeKeeps(n: Net, c: Peer, k: Script)
    requires Sound(n, k) && Completes(n.client, c, k)
    ensures Sound(n.(client := c), k)
  {
    SameWriterFlows(ViewOf(n.server, k), n.toServer, ViewOf(n.client, k), ViewOf(c, k), Upstream(k, n.sentByClient));
  }

  lemma ChangeKeeps(n: Net, side: Side, q: Peer, k: Script)
    requires Sound(n, k) && Completes(n.At(side), q, k)
    ensures Sound(n.With(side, q), k)
  {
    if side == ServerSide { ServerChangeKeeps(n, q, k); } else { ClientChangeKeeps(n, q, k); }
  }

  /** The end whose handler has run, and what that handler changes. */
  lemma CompletedEnd(n: Net, a: Action, k: Script, encrypt: Cipher) returns (q: Peer)
    requires Sound(n, k) && Enabled(n, a) && a.Complete?
    ensures Next(n, a, encrypt) == n.With(a.side, q) && Completes(n.At(a.side), q, k)
  {
    var p := n.At(a.side);
    q := Written(Without(p, a.i), p.writes[a.i].task);
    CompleteView(p, a.i, k);
  }

  lemma CompleteKeeps(n: Net, a: Action, k: Script, encrypt: Cipher)
    requires Sound(n, k) && Enabled(n, a) && a.Complete?
    ensures Sound(Next(n, a, encrypt), k) && Next(n, a, encrypt).At(a.side).connected
  {
    var q := CompletedEnd(n, a, k, encrypt);
    ChangeKeeps(n, a.side, q, k);
  }

  lemma StreamsGrow(k: Script, sent: seq<Message>, m: Message)
    ensures Downstream(k, sent + [m]) == Downstream(k, sent) + Encode(m)
    ensures Upstream(k, sent + [m]) == Upstream(k, sent) + Encode(m)
  {
    EncodeAllOfConcat(sent, [m]);
    assert EncodeAll([m]) == Encode(m);
  }

  lemma PostStepKeeps(n: Net, a: Action, k: Script, encrypt: Cipher)
    requires Sound(n, k) && Enabled(n, a) && a.PostSend? && Disciplined(n, a)
    ensures Sound(Next(n, a, encrypt), k) && Next(n, a, encrypt).At(a.side).connected
  {
    var server, client, t := ViewOf(n.server, k), ViewOf(n.client, k), Next(n, a, encrypt);
    PostView(n.At(a.side), a.m, k);
    if a.side == ServerSide {
      StreamsGrow(k, n.sentByServer, a.m);
      WriterFlows(client, n.toClient, server, ViewOf(t.server, k), Encode(a.m), Downstream(k, n.sentByServer));
    } else {
      StreamsGrow(k, n.sentByClient, a.m);
      WriterFlows(server, n.toServer, client, ViewOf(t.client, k), Encode(a.m), Upstream(k, n.sentByClient));
    }
  }

  lemma RestOfFlow(reader: View, way: seq<byte>, writer: View, whole: seq<byte>)
    requires Flows(reader, way, writer, whole)
    ensures reader.consumed + reader.got + (way + writer.left + writer.future) == whole
  {
  }

  lemma ServerFinishStepKeeps(n: Net, k: Script, encrypt: Cipher)
    requires Honest(k, encrypt) && Sound(n, k) && Enabled(n, Finish(ServerSide))
    ensures var t := Next(n, Finish(ServerSide), encrypt); Sound(t, k) && t.server.connected
  {
    var server, client, s := ViewOf(n.server, k), ViewOf(n.client, k), Read(n.server, encrypt);
    assert Next(n, Finish(ServerSide), encrypt) == n.(server := s);
    var up := Upstream(k, n.sentByClient);
    var rest := n.toServer + client.left + client.future;
    RestOfFlow(server, n.toServer, client, up);
    FinishView(n.server, k, encrypt, rest, n.sentByClient);
    ReaderFlows(server, ViewOf(s, k), n.toServer, client, up);
    SameWriterFlows(client, n.toClient, server, ViewOf(s, k), Downstream(k, n.sentByServer));
  }

  lemma ClientFinishStepKeeps(n: Net, k: Script, encrypt: Cipher)
    requires Honest(k, encrypt) && Sound(n, k) && Enabled(n, Finish(ClientSide))
    ensures var t := Next(n, Finish(ClientSide), encrypt); Sound(t, k) && t.client.connected
  {
    var server, client, c := ViewOf(n.server, k), ViewOf(n.client, k), Read(n.client, encrypt);
    assert Next(n, Finish(ClientSide), encrypt) == n.(client := c);
    var down := Downstream(k, n.sentByServer);
    var rest := n.toClient + server.left + server.future;
    RestOfFlow(client, n.toClient, server, down);
    FinishView(n.client, k, encrypt, rest, n.sentByServer);
    ReaderFlows(client, ViewOf(c, k), n.toClient, server, down);
    SameWriterFlows(server, n.toServer, client, ViewOf(c, k), Upstream(k, n.sentByClient));
  }

  /** Every step keeps the streams whole, and no step but a failing operation disconnects an end. */
  lemma StepKeeps(n: Net, a: Action, k: Script, encrypt: Cipher)
    requires Honest(k, encrypt) && Sound(n, k) && Enabled(n, a) && Disciplined(n, a)
    ensures Sound(Next(n, a, encrypt), k)
    ensures !a.Break? ==> Next(n, a, encrypt).At(a.side).connected
  {
    match a
    case PostSend(_, _) => PostStepKeeps(n, a, k, encrypt);
    case Transmit(_, _, _) => TransmitKeeps(n, a, k, encrypt);
    case Complete(_, _) => CompleteKeeps(n, a, k, encrypt);
    case Deliver(_, _) => DeliverKeeps(n, a, k, encrypt);
    case Finish(side) =>
      if side == ServerSide { ServerFinishStepKeeps(n, k, encrypt); } else { ClientFinishStepKeeps(n, k, encrypt); }
    case Break(side) => BreakKeeps(n.At(side), k);
  }

  lemma BreakKeeps(p: Peer, k: Script)
    requires IsSound(p, k)
    ensures var q := p.(connected := false);
      IsSound(q, k) && ViewOf(q, k) == ViewOf(p, k) && HandshakeIsSent(q) == HandshakeIsSent(p)
  {
    if p.IsServer() { ServerBreakKeeps(p, k); } else { ClientBreakKeeps(p, k); }
  }

  lemma ServerBreakKeeps(s: Peer, k: Script)
    requires ServerIsSound(s, k)
    ensures var q := s.(connected := false);
      ServerIsSound(q, k) && ServerConsumed(q, k) == ServerConsumed(s, k) && ServerFuture(q, k) == ServerFuture(s, k)
  {
  }

  lemma ClientBreakKeeps(c: Peer, k: Script)
    requires ClientIsSound(c, k)
    ensures var q := c.(connected := false);
      ClientIsSound(q, k) && ClientConsumed(q, k) == ClientConsumed(c, k) && ClientFuture(q, k) == ClientFuture(c, k)
  {
  }

  // ---------------------------------------------------------------- whole runs

  ghost predicate DisciplinedRun(n: Net, actions: seq<Action>, encrypt: Cipher)
    requires IsRun(n, actions, encrypt)
    decreases |actions|
  {
    actions == [] ||
    (Disciplined(n, actions[0]) && DisciplinedRun(Next(n, actions[0], encrypt), actions[1..], encrypt))
  }

  lemma {:induction false} RunKeeps(n: Net, actions: seq<Action>, k: Script, encrypt: Cipher)
    requires Honest(k, encrypt) && Sound(n, k) && IsRun(n, actions, encrypt) && DisciplinedRun(n, actions, encrypt)
    ensures var t := Run(n, actions, encrypt);
      && Sound(t, k)
      && ((forall a <- actions :: !a.Break?) && n.server.connected && n.client.connected
          ==> t.server.connected && t.client.connected)
    decreases |actions|
  {
    if actions != [] {
      StepKeeps(n, actions[0], k, encrypt);
      RunKeeps(Next(n, actions[0], encrypt), actions[1..], k, encrypt);
      assert actions[0] in actions && forall a <- actions[1..] :: a in actions;
    }
  }

  lemma IncomingIsPrefix(p: Peer, front: seq<byte>, tail: seq<byte>, sent: seq<Message>)
    requires ReadingIsSound(p) && forall m <- sent :: m.Framed()
    requires front + ReadSoFar(p) + tail == front + EncodeAll(sent)
    ensures p.incoming <= sent
    ensures Begun(p) + tail == EncodeAll(sent[|p.incoming|..])
  {
    assert front + [] + (ReadSoFar(p) + tail) == front + ReadSoFar(p) + tail;
    assert front + [] + EncodeAll(sent) == front + EncodeAll(sent);
    SplitAfter(front, [], ReadSoFar(p) + tail, [], EncodeAll(sent));
    assert EncodeAll(p.incoming) + (Begun(p) + tail) == ReadSoFar(p) + tail;
    ReadIsPrefixOfWritten(p.incoming, Begun(p) + tail, sent);
  }

  lemma EncodesSomething(ms: seq<Message>)
    ensures EncodeAll(ms) == [] <==> ms == []
  {
  }
}
