/**
  net::Connection: the two ends of one connection, each a state machine driven by the completion
  handlers of its asynchronous reads and writes, and the two byte streams between them. A write
  operation hands its bytes over piecemeal, so two that overlap can interleave.
 */
module Connection {
  import opened Bytes
  import opened Messages
  import opened Handshake

  /** The object representation of a uint64_t, and the encryption that a connection uses. */
  type Word8 = w: seq<byte> | |w| == 8 witness [0, 0, 0, 0, 0, 0, 0, 0]
  type Cipher = Word8 -> Word8

  datatype WriteTask = Validation1Out | Validation2Out | Validation3Out | Validation4Out | HeaderOut | BodyOut

  datatype ReadTask = NoRead | Validation1In | Validation2In | Validation3In | Validation4In | HeaderIn | BodyIn

  /** An async_write that has not completed, and the bytes it has still to hand over. */
  datatype Write = Write(task: WriteTask, left: seq<byte>)

  /**
    One end. reading and got are its async_read; connected tells whether its socket is open, and
    rejected whether OnInvalidate has been called.
   */
  datatype Peer = Peer(owner: Owner, id: Word8, validationOut: Word8, validationCheck: Word8,
                       outgoing: seq<Message>, writes: seq<Write>,
                       reading: ReadTask, got: seq<byte>, temp: Message, incoming: seq<Message>,
                       connected: bool, rejected: bool)
  {
    predicate IsServer() {
      owner == DedicatedServer
    }

    predicate IsClient() {
      owner == DedicatedClient
    }

    /** How many bytes the read in progress is for. */
    function Want(): nat {
      if reading == NoRead then 0 else if reading == BodyIn then temp.size else 8
    }
  }

  /** Encrypt() of one kind of end. */
  function CipherOf(owner: Owner): Cipher {
    (w: Word8) => EncryptWord(owner, w)
  }

  const ZERO_WORD: Word8 := [0, 0, 0, 0, 0, 0, 0, 0]

  function NewPeer(owner: Owner, id: Word8): Peer {
    Peer(owner, id, ZERO_WORD, ZERO_WORD, [], [], NoRead, [], Message(0, 0, []), [], true, false)
  }

  function StartWrite(p: Peer, task: WriteTask, bytes: seq<byte>): Peer {
    p.(writes := p.writes + [Write(task, bytes)])
  }

  /** ConnectToClient(), at the time given by the clock. */
  function ConnectToClient(p: Peer, now: Word8, encrypt: Cipher): Peer {
    if p.connected && p.IsServer() then
      StartWrite(p.(validationOut := now, validationCheck := encrypt(now)), Validation1Out, now)
    else p
  }

  /** ConnectToServer(), once the socket is connected. */
  function ConnectToServer(p: Peer): Peer {
    if p.IsClient() then p.(reading := Validation1In) else p
  }

  /** The function that Send() posts. */
  function Send(p: Peer, m: Message): Peer {
    var q := p.(outgoing := p.outgoing + [m]);
    if p.outgoing == [] then WriteHeader(q) else q
  }

  function WriteHeader(p: Peer): Peer
    requires p.outgoing != []
  {
    StartWrite(p, HeaderOut, Header(p.outgoing[0]))
  }

  /** The end of a message: it leaves the queue, and the next one, if any, is begun. */
  function PopFront(p: Peer): Peer
    requires p.outgoing != []
  {
    var q := p.(outgoing := p.outgoing[1..]);
    if q.outgoing != [] then WriteHeader(q) else q
  }

  /** The handlers of the write operations. */
  function Written(p: Peer, task: WriteTask): Peer
    requires task == HeaderOut || task == BodyOut ==> p.outgoing != []
  {
    match task
    case Validation1Out => if p.IsServer() then p.(reading := Validation2In) else p
    case Validation2Out => if p.IsClient() then p.(reading := Validation3In) else p
    case Validation3Out => if p.IsServer() then StartWrite(p, Validation4Out, p.id) else p
    case Validation4Out => p.(reading := HeaderIn)
    case HeaderOut => if |p.outgoing[0].body| > 0 then StartWrite(p, BodyOut, p.outgoing[0].body) else PopFront(p)
    case BodyOut => PopFront(p)
  }

  /**
    Disconnect(), by way of the owner: a server drops the connection, which closes its socket; a
    client closes a socket of its own that was never connected, and so leaves the connection's open.
   */
  function Disconnect(p: Peer): Peer {
    if p.IsServer() then p.(connected := false) else p
  }

  /** The handlers of the read operations, for the bytes that were read. */
  function Read(p: Peer, encrypt: Cipher): Peer
    requires p.reading != NoRead && |p.got| == p.Want()
  {
    var q := p.(reading := NoRead, got := []);
    match p.reading
    case Validation1In =>
      var answer := encrypt(p.got);
      var r := q.(validationOut := answer, validationCheck := encrypt(answer));
      if p.IsClient() then StartWrite(r, Validation2Out, answer) else r
    case Validation2In =>
      if p.got != p.validationCheck then Disconnect(q.(rejected := true))
      else
        var answer := encrypt(p.got);
        var r := q.(validationOut := answer);
        if p.IsServer() then StartWrite(r, Validation3Out, answer) else r
    case Validation3In =>
      if p.got != p.validationCheck then Disconnect(q.(rejected := true))
      else if p.IsClient() then q.(reading := Validation4In)
      else q
    case Validation4In => q.(id := p.got, reading := HeaderIn)
    case HeaderIn =>
      var h := ParseHeader(p.got);
      if h.size > 0 then q.(temp := h, reading := BodyIn) else AddToIncoming(q.(temp := h))
    case BodyIn => AddToIncoming(q.(temp := p.temp.(body := p.got)))
    case NoRead => q
  }

  /** AddToIncomingMessageQueue() */
  function AddToIncoming(p: Peer): Peer {
    p.(incoming := p.incoming + [p.temp], temp := p.temp.(size := 0, body := []), reading := HeaderIn)
  }

  // ---------------------------------------------------------------- the two ends together

  datatype Side = ServerSide | ClientSide

  /** Both ends, the bytes on their way to each, and the messages handed to Send() at each. */
  datatype Net = Net(server: Peer, client: Peer, toClient: seq<byte>, toServer: seq<byte>,
                     sentByServer: seq<Message>, sentByClient: seq<Message>)
  {
    function At(side: Side): Peer {
      if side == ServerSide then server else client
    }

    function With(side: Side, p: Peer): Net {
      if side == ServerSide then this.(server := p) else this.(client := p)
    }
  }

  datatype Action =
    | PostSend(side: Side, m: Message)
    | Transmit(side: Side, i: nat, k: nat)  // write operation i hands over its next k bytes
    | Complete(side: Side, i: nat)          // the handler of write operation i runs
    | Deliver(side: Side, k: nat)           // the read in progress is given the next k bytes
    | Finish(side: Side)                    // the handler of the read runs
    | Break(side: Side)                     // the socket fails: nothing more is read or written here

  function Start(now: Word8, id: Word8, encrypt: Cipher): Net {
    Net(ConnectToClient(NewPeer(DedicatedServer, id), now, encrypt),
        ConnectToServer(NewPeer(DedicatedClient, ZERO_WORD)),
        [], [], [], [])
  }

  ghost predicate Enabled(n: Net, a: Action) {
    var p := n.At(a.side);
    p.connected &&
    match a
    case PostSend(_, _) => true
    case Transmit(_, i, k) => i < |p.writes| && 0 < k <= |p.writes[i].left|
    case Complete(_, i) =>
      && i < |p.writes| && p.writes[i].left == []
      && (p.writes[i].task == HeaderOut || p.writes[i].task == BodyOut ==> p.outgoing != [])
    case Deliver(side, k) => 0 < k <= |if side == ServerSide then n.toServer else n.toClient| && |p.got| + k <= p.Want()
    case Finish(_) => p.reading != NoRead && |p.got| == p.Want()
    case Break(_) => true
  }

  ghost function Next(n: Net, a: Action, encrypt: Cipher): Net
    requires Enabled(n, a)
  {
    var p := n.At(a.side);
    match a
    case PostSend(side, m) =>
      var t := n.With(side, Send(p, m));
      if side == ServerSide then t.(sentByServer := t.sentByServer + [m])
      else t.(sentByClient := t.sentByClient + [m])
    case Transmit(side, i, k) =>
      var w := p.writes[i];
      var t := n.With(side, p.(writes := p.writes[i := w.(left := w.left[k..])]));
      if side == ServerSide then t.(toClient := t.toClient + w.left[..k]) else t.(toServer := t.toServer + w.left[..k])
    case Complete(side, i) =>
      n.With(side, Written(p.(writes := p.writes[..i] + p.writes[i + 1..]), p.writes[i].task))
    case Deliver(side, k) =>
      if side == ServerSide then
        n.(server := p.(got := p.got + n.toServer[..k]), toServer := n.toServer[k..])
      else
        n.(client := p.(got := p.got + n.toClient[..k]), toClient := n.toClient[k..])
    case Finish(side) => n.With(side, Read(p, encrypt))
    case Break(side) => n.With(side, p.(connected := false))
  }

  ghost predicate IsRun(n: Net, actions: seq<Action>, encrypt: Cipher)
    decreases |actions|
  {
    actions == [] || (Enabled(n, actions[0]) && IsRun(Next(n, actions[0], encrypt), actions[1..], encrypt))
  }

  ghost function Run(n: Net, actions: seq<Action>, encrypt: Cipher): Net
    requires IsRun(n, actions, encrypt)
    decreases |actions|
  {
    if actions == [] then n else Run(Next(n, actions[0], encrypt), actions[1..], encrypt)
  }
}
