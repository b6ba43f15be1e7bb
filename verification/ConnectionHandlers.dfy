/** net::Message and net::Connection as the objects they are: what their methods and handlers do to the fields. */
module ConnectionHandlers {
  import opened Bytes
  import M = Messages
  import opened C = Connection
  import I = ConnectionInvariant
  import H = Handshake

  class Message {
    var id: M.uint32
    var size: M.uint32
    var body: seq<byte>

    ghost function State(): M.Message
      reads this
    {
      M.Message(id, size, body)
    }

    constructor (id: M.uint32)
      ensures State() == M.Message(id, 0, []) && State().Framed()
    {
      this.id, size, body := id, 0, [];
    }

    /** operator<<, for a value whose object representation is data */
    method Push(data: seq<byte>)
      modifies this
      ensures State() == M.Push(old(State()), data)
      ensures old(State().Framed()) ==> (State().Framed() <==> |body| < TWO_TO_THE_32)
    {
      body := body + data;
      size := (size + |data|) % TWO_TO_THE_32;
    }

    /** operator>>, for a value of n bytes; the body must hold that many */
    method Pop(n: nat) returns (data: seq<byte>)
      requires n <= |body|
      modifies this
      ensures (State(), data) == M.Pop(old(State()), n)
      ensures body + data == old(body) && |data| == n
      ensures old(State().Framed()) ==> State().Framed()
    {
      var newBodySize := |body| - n;
      data := body[newBodySize..];
      body := body[..newBodySize];
      size := (size - n) % TWO_TO_THE_32;
    }
  }

  class Connection {
    const owner: H.Owner
    const encrypt: Cipher // Encrypt(), which depends on the owner alone
    var connected: bool
    var rejected: bool
    var outgoing: seq<M.Message>
    var incoming: seq<M.Message>
    var temp: M.Message
    var id: Word8
    var validationOut: Word8
    var validationCheck: Word8

    // the asynchronous operations that have not completed
    var writes: seq<Write>
    var reading: ReadTask
    var got: seq<byte>

    ghost function State(): Peer
      reads this
    {
      Peer(owner, id, validationOut, validationCheck, outgoing, writes, reading, got, temp, incoming,
           connected, rejected)
    }

    constructor (owner: H.Owner)
      ensures State() == NewPeer(owner, ZERO_WORD) && encrypt == CipherOf(owner)
    {
      this.owner, encrypt := owner, CipherOf(owner);
      connected, rejected := true, false;
      outgoing, incoming, temp := [], [], M.Message(0, 0, []);
      id, validationOut, validationCheck := ZERO_WORD, ZERO_WORD, ZERO_WORD;
      writes, reading, got := [], NoRead, [];
    }

    /**
      A new server end then has its whole part in the handshake ahead of it: the challenge being written,
      and the proof and the id to follow. An end of another kind, or without a socket, is left alone.
     */
    method ConnectToClient(now: Word8, id: Word8)
      modifies this
      ensures var before := old(State());
        var named := before.(id := if connected && before.IsServer() then id else before.id);
        State() == C.ConnectToClient(named, now, encrypt)
      ensures !old(connected) || owner != H.DedicatedServer ==> State() == old(State())
      ensures old(State()) == NewPeer(H.DedicatedServer, ZERO_WORD) ==>
        forall k: I.Script :: I.Honest(k, encrypt) && k.challenge == now && k.id == id ==>
          && I.IsSound(State(), k)
          && I.ViewOf(State(), k) == I.View([], [], k.challenge, k.proof + k.id)
    {
      if connected {
        if owner == H.DedicatedServer {
          this.id := id;
          validationOut := now;
          validationCheck := encrypt(validationOut);
          AsyncWrite(Validation1Out, validationOut);
        }
      }
      if old(State()) == NewPeer(H.DedicatedServer, ZERO_WORD) {
        forall k: I.Script | I.Honest(k, encrypt) && k.challenge == now && k.id == id
          ensures I.IsSound(State(), k) && I.ViewOf(State(), k) == I.View([], [], k.challenge, k.proof + k.id)
        {
          I.ServerBegins(k, encrypt);
        }
      }
    }

    /** The completion of async_connect. A new client end then has its answer ahead of it. */
    method ConnectToServer()
      modifies this
      ensures State() == C.ConnectToServer(old(State()))
      ensures owner != H.DedicatedClient ==> State() == old(State())
      ensures old(State()) == NewPeer(H.DedicatedClient, ZERO_WORD) ==>
        forall k: I.Script :: I.IsSound(State(), k) && I.ViewOf(State(), k) == I.View([], [], [], k.answer)
    {
      if owner == H.DedicatedClient {
        AsyncRead(Validation1In);
      }
      if old(State()) == NewPeer(H.DedicatedClient, ZERO_WORD) {
        forall k: I.Script
          ensures I.IsSound(State(), k) && I.ViewOf(State(), k) == I.View([], [], [], k.answer)
        {
          I.ClientBegins(k);
        }
      }
    }

    /** What the owner does: a server drops the connection; a client closes a socket that is not this one. */
    method Disconnect()
      modifies this`connected
      ensures connected == (old(connected) && owner != H.DedicatedServer)
    {
      if owner == H.DedicatedServer {
        connected := false;
      }
    }

    /**
      The function that Send() posts. Once the end's part in the handshake is sent, the message comes last
      in what it has still to write, whether or not another one is being written.
     */
    method Send(m: M.Message)
      modifies this
      ensures State() == C.Send(old(State()), m)
      ensures forall k: I.Script :: I.IsSound(old(State()), k) && I.HandshakeIsSent(old(State())) ==>
        I.Posts(old(State()), State(), m, k)
    {
      ghost var before := State();
      var notWritingMessage := outgoing == [];
      outgoing := outgoing + [m];
      if notWritingMessage {
        WriteHeader();
      }
      forall k: I.Script | I.IsSound(before, k) && I.HandshakeIsSent(before)
        ensures I.Posts(before, State(), m, k)
      {
        I.PostView(before, m, k);
      }
    }

    method AsyncWrite(task: WriteTask, bytes: seq<byte>)
      modifies this`writes
      ensures State() == StartWrite(old(State()), task, bytes)
    {
      writes := writes + [Write(task, bytes)];
    }

    method AsyncRead(task: ReadTask)
      modifies this`reading
      ensures reading == task
    {
      reading := task;
    }

    method WriteHeader()
      requires outgoing != []
      modifies this`writes
      ensures State() == C.WriteHeader(old(State()))
    {
      AsyncWrite(HeaderOut, M.Header(outgoing[0]));
    }

    method PopFront()
      requires outgoing != []
      modifies this`outgoing, this`writes
      ensures State() == C.PopFront(old(State()))
    {
      outgoing := outgoing[1..];
      if outgoing != [] {
        WriteHeader();
      }
    }

    /** The handlers of WriteValidation1 to 4, WriteHeader and WriteBody, for an operation without error. */
    method HandleWrite(task: WriteTask)
      requires task == HeaderOut || task == BodyOut ==> outgoing != []
      modifies this
      ensures State() == Written(old(State()), task)
    {
      match task
      case Validation1Out =>
        if owner == H.DedicatedServer {
          AsyncRead(Validation2In);
        }
      case Validation2Out =>
        if owner == H.DedicatedClient {
          AsyncRead(Validation3In);
        }
      case Validation3Out =>
        if owner == H.DedicatedServer {
          AsyncWrite(Validation4Out, id);
        }
      case Validation4Out =>
        AsyncRead(HeaderIn);
      case HeaderOut =>
        if |outgoing[0].body| > 0 {
          AsyncWrite(BodyOut, outgoing[0].body);
        } else {
          PopFront();
        }
      case BodyOut =>
        PopFront();
    }

    /**
      Write operation i has handed over its bytes. What the end had still to write is unchanged: the
      handler begins the next piece of it, if there is one, and the piece after that is not begun yet.
     */
    method HandleWritten(i: nat)
      requires i < |writes| && writes[i].left == []
      requires writes[i].task == HeaderOut || writes[i].task == BodyOut ==> outgoing != []
      modifies this
      ensures State() == Written(I.Without(old(State()), i), old(writes[i].task))
      ensures forall k: I.Script :: I.IsSound(old(State()), k) ==> I.Completes(old(State()), State(), k)
    {
      ghost var before := State();
      var task := writes[i].task;
      writes := writes[..i] + writes[i + 1..];
      HandleWrite(task);
      forall k: I.Script | I.IsSound(before, k)
        ensures I.Completes(before, State(), k)
      {
        I.CompleteView(before, i, k);
      }
    }

    /** The handlers of ReadValidation1 to 4, ReadHeader and ReadBody, for an operation without error. */
    method HandleBytes()
      requires reading != NoRead && |got| == State().Want()
      modifies this
      ensures State() == Read(old(State()), encrypt)
    {
      match reading
      case Validation1In => HandleValidation1();
      case Validation2In => HandleValidation2();
      case Validation3In => HandleValidation3();
      case Validation4In => HandleValidation4();
      case HeaderIn => HandleHeader();
      case BodyIn => HandleBody();
    }

    /**
      The read has all its bytes. If they are those of the stream, they are consumed and accepted, and the
      answer that is due, if any, is begun.
     */
    method HandleRead()
      requires reading != NoRead && |got| == State().Want()
      modifies this
      ensures State() == Read(old(State()), encrypt)
      ensures forall k: I.Script, rest: seq<byte>, sent: seq<M.Message> ::
        I.Honest(k, encrypt) && I.IsSound(old(State()), k) && I.Expects(old(State()), k, rest, sent)
        ==> I.Finishes(old(State()), State(), k)
    {
      ghost var before := State();
      HandleBytes();
      forall k: I.Script, rest: seq<byte>, sent: seq<M.Message>
        | I.Honest(k, encrypt) && I.IsSound(before, k) && I.Expects(before, k, rest, sent)
        ensures I.Finishes(before, State(), k)
      {
        I.FinishView(before, k, encrypt, rest, sent);
      }
    }

    /** The bytes that a completed operation has read. */
    method TakeBytes() returns (bytes: seq<byte>)
      modifies this`reading, this`got
      ensures bytes == old(got) && reading == NoRead && got == []
    {
      bytes := got;
      reading, got := NoRead, [];
    }

    method HandleValidation1()
      requires reading == Validation1In && |got| == 8
      modifies this
      ensures State() == Read(old(State()), encrypt)
    {
      var validationIn := TakeBytes();
      validationOut := encrypt(validationIn);
      validationCheck := encrypt(validationOut);
      if owner == H.DedicatedClient {
        AsyncWrite(Validation2Out, validationOut);
      }
    }

    /** The server rejects exactly a wrong answer, and then the connection is closed. */
    method HandleValidation2()
      requires reading == Validation2In && |got| == 8
      modifies this
      ensures State() == Read(old(State()), encrypt)
      ensures rejected <==> old(rejected) || old(got) != validationCheck
      ensures owner == H.DedicatedServer ==> (connected <==> old(connected) && old(got) == validationCheck)
    {
      var validationIn := TakeBytes();
      if validationIn == validationCheck {
        validationOut := encrypt(validationIn);
        if owner == H.DedicatedServer {
          AsyncWrite(Validation3Out, validationOut);
        }
      } else {
        rejected := true;
        Disconnect();
      }
    }

    /** The client rejects exactly a wrong proof. Its connection stays open, but nothing more is read from it. */
    method HandleValidation3()
      requires reading == Validation3In && |got| == 8
      modifies this
      ensures State() == Read(old(State()), encrypt)
      ensures rejected <==> old(rejected) || old(got) != validationCheck
      ensures owner == H.DedicatedClient ==> connected == old(connected)
      ensures owner == H.DedicatedClient ==> (reading == NoRead <==> old(got) != validationCheck)
    {
      var validationIn := TakeBytes();
      if validationIn == validationCheck {
        if owner == H.DedicatedClient {
          AsyncRead(Validation4In);
        }
      } else {
        rejected := true;
        Disconnect();
      }
    }

    method HandleValidation4()
      requires reading == Validation4In && |got| == 8
      modifies this
      ensures State() == Read(old(State()), encrypt)
    {
      id := TakeBytes();
      AsyncRead(HeaderIn);
    }

    method HandleHeader()
      requires reading == HeaderIn && |got| == 8
      modifies this
      ensures State() == Read(old(State()), encrypt)
    {
      var bytes := TakeBytes();
      temp := M.ParseHeader(bytes);
      if temp.size > 0 {
        AsyncRead(BodyIn);
      } else {
        AddToIncomingMessageQueue();
      }
    }

    method HandleBody()
      requires reading == BodyIn && |got| == temp.size
      modifies this
      ensures State() == Read(old(State()), encrypt)
    {
      var bytes := TakeBytes();
      temp := temp.(body := bytes);
      AddToIncomingMessageQueue();
    }

    /** A framed message extends what has been received by exactly its form on the wire. */
    method AddToIncomingMessageQueue()
      modifies this`incoming, this`temp, this`reading
      ensures State() == AddToIncoming(old(State()))
      ensures reading == HeaderIn && temp.id == old(temp.id)
      ensures old(temp.Framed()) && (forall m <- old(incoming) :: m.Framed()) ==>
        && (forall m <- incoming :: m.Framed())
        && I.ReadSoFar(State()) == M.EncodeAll(old(incoming)) + M.Encode(old(temp))
    {
      ghost var before := State();
      incoming := incoming + [temp];
      temp := temp.(body := [], size := 0);
      AsyncRead(HeaderIn);
      if before.temp.Framed() && forall m <- before.incoming :: m.Framed() {
        I.AddKeeps(before);
        assert I.ReadSoFar(State()) == M.EncodeAll(incoming);
      }
    }
  }
}
