/**
  The state of a basic_socket_streambuf as a value, and what each of its operations does to it.
  The class in SocketStreamBuf.dfy is proved to perform exactly these transitions.
 */
module SocketStream {
  import opened Bytes
  import opened SocketCalls

  const BUFFER_SIZE := 512
  const PUTBACK_MAX := 8
  const FILL_ROOM := BUFFER_SIZE - PUTBACK_MAX

  /**
    The socket base object: the bytes it has accepted and delivered so far, and the turns of the
    world it has not met yet.
   */
  datatype Socket = Socket(wire: seq<byte>, arrived: seq<byte>, sends: seq<SendTurn>, recvs: seq<RecvTurn>)

  /** The int_type a put returns: the eof value, another value, or no return yet. */
  datatype Reply = NotEof | IsEof | NoReply

  /** Positions are offsets into the two vectors; null positions are offsets into an empty put buffer. */
  datatype Stream = Stream(getBuffer: seq<byte>, eback: int, gptr: int, egptr: int,
                           putBuffer: seq<byte>, pbase: int, pptr: int, epptr: int,
                           ec: Error, expiry: Expiry, socket: Socket)
  {
    /** Unbuffered mode is an empty put buffer with a null put area; otherwise the area ends where the buffer does. */
    ghost predicate Valid() {
      && |getBuffer| == BUFFER_SIZE && 0 == eback && PUTBACK_MAX <= gptr <= egptr <= BUFFER_SIZE
      && (|putBuffer| == BUFFER_SIZE || |putBuffer| == 0)
      && 0 <= pbase <= pptr <= epptr == |putBuffer|
    }

    /** The characters received and not yet read. */
    ghost function Unread(): seq<byte>
      requires Valid()
    {
      Window(getBuffer, gptr, egptr)
    }

    /** The characters put and not yet sent. */
    ghost function Pending(): seq<byte>
      requires Valid()
    {
      Window(putBuffer, pbase, pptr)
    }

    ghost predicate Buffered() {
      putBuffer != []
    }
  }

  ghost function Blank(n: nat): seq<byte> {
    seq(n, _ => 0)
  }

  /** init_buffers() */
  ghost function InitBuffers(s: Stream): Stream {
    s.(eback := 0, gptr := PUTBACK_MAX, egptr := PUTBACK_MAX, pbase := 0, pptr := 0, epptr := |s.putBuffer|)
  }

  ghost function Constructed(socket: Socket): Stream {
    InitBuffers(Stream(Blank(BUFFER_SIZE), 0, 0, 0, Blank(BUFFER_SIZE), 0, 0, 0, NoError, Never, socket))
  }

  /** What the flush loop does to the socket and the error code. */
  ghost function Sent(s: Stream, output: seq<byte>): (r: (Stream, Ending))
    ensures r.1 == Finished ==> r.0.socket.wire == s.socket.wire + output
    ensures s.socket.wire <= r.0.socket.wire <= s.socket.wire + output
    ensures r.1 != Finished ==> |r.0.socket.wire| < |s.socket.wire| + |output|
    ensures r.0 == s.(ec := r.0.ec, socket := r.0.socket) && r.0.socket.arrived == s.socket.arrived
  {
    var f := Flush(|output|, s.expiry, s.socket.sends, s.ec);
    (s.(ec := f.ec, socket := s.socket.(wire := s.socket.wire + output[..f.sent], sends := f.rest)), f.end)
  }

  ghost function ReplyOf(e: Ending): Reply {
    match e case Finished => NotEof case Failed => IsEof case Waiting => NoReply
  }

  /** overflow(c) */
  ghost function Overflow(s: Stream, c: IntType): (Stream, Reply)
    requires s.Valid()
  {
    if !s.Buffered() then
      if c.Eof? then (s, NotEof) else
      var (t, end) := Sent(s, [c.c]);
      (t, ReplyOf(end))
    else
      var (t, end) := Sent(s, s.Pending());
      if end != Finished then (t, ReplyOf(end))
      else if c.Eof? then (t.(pbase := 0, pptr := 0), NotEof)
      else (t.(putBuffer := t.putBuffer[0 := c.c], pbase := 0, pptr := 1), NotEof)
  }

  /** sputc(c) */
  ghost function Put(s: Stream, c: byte): (Stream, Reply)
    requires s.Valid()
  {
    if s.pptr < s.epptr then (s.(putBuffer := s.putBuffer[s.pptr := c], pptr := s.pptr + 1), NotEof)
    else Overflow(s, Char(c))
  }

  /** setbuf(s, n): unbuffer tells whether both arguments are zero. */
  ghost function SetBuf(s: Stream, unbuffer: bool): (Stream, bool)
    requires s.Valid()
  {
    if s.pptr == s.pbase && unbuffer then (s.(putBuffer := [], pbase := 0, pptr := 0, epptr := 0), true)
    else (s, false)
  }

  /** The second half of close(): the socket is closed, and on success the buffers are reset. */
  ghost function Shut(s: Stream, closeError: Error): (Stream, bool)
    requires s.Valid()
  {
    var t := s.(ec := closeError);
    if closeError == NoError then (InitBuffers(t), true) else (t, false)
  }

  /** close() */
  ghost function Close(s: Stream, closeError: Error): (Stream, Reply)
    requires s.Valid()
  {
    var (t, reply) := Overflow(s, Eof);
    if reply == NoReply then (t, NoReply) else
    OverflowIsSafe(s, Eof);
    var (u, closed) := Shut(t, closeError);
    (u, if closed then NotEof else IsEof)
  }

  /** connect(), once ec_ has been set: cleared for a given endpoint, or the resolver's error. */
  ghost function Connect(s: Stream, ec: Error, attempts: seq<Attempt>): Stream
    requires s.Valid()
  {
    InitBuffers(s).(ec := if ec != NoError then ec else Search(s.expiry, attempts, NotFound))
  }

  /** What the fill loop does to the socket and the error code. */
  ghost function Received(s: Stream): (r: (Stream, seq<byte>, Ending))
    ensures |r.1| <= FILL_ROOM && (r.2 == Finished <==> r.1 != [])
    ensures r.0 == s.(ec := r.0.ec, socket := r.0.socket) && r.0.socket.wire == s.socket.wire
    ensures r.0.socket.arrived == s.socket.arrived + r.1
  {
    var f := Fill(FILL_ROOM, s.expiry, s.socket.recvs, s.ec);
    (s.(ec := f.ec, socket := s.socket.(arrived := s.socket.arrived + f.chunk, recvs := f.rest)), f.chunk, f.end)
  }

  /** underflow() */
  ghost function Underflow(s: Stream): (Stream, IntType, Reply)
    requires s.Valid()
  {
    if s.gptr != s.egptr then (s, Eof, IsEof) else
    var (t, chunk, end) := Received(s);
    if end != Finished then (t, Eof, ReplyOf(end))
    else
      (t.(getBuffer := Stored(t.getBuffer, chunk), gptr := PUTBACK_MAX, egptr := PUTBACK_MAX + |chunk|),
      Char(chunk[0]), NotEof)
  }

  /** The get buffer after recv has written a chunk behind the putback gap. */
  ghost function Stored(buffer: seq<byte>, chunk: seq<byte>): (r: seq<byte>)
    requires |buffer| == BUFFER_SIZE && |chunk| <= FILL_ROOM
    ensures |r| == BUFFER_SIZE
  {
    seq(BUFFER_SIZE, i requires 0 <= i < BUFFER_SIZE =>
      if PUTBACK_MAX <= i < PUTBACK_MAX + |chunk| then chunk[i - PUTBACK_MAX] else buffer[i])
  }

  /** sgetc() */
  ghost function Peek(s: Stream): (Stream, IntType, Reply)
    requires s.Valid()
  {
    if s.gptr < s.egptr then (s, Char(s.getBuffer[s.gptr]), NotEof) else Underflow(s)
  }

  /** sbumpc() */
  ghost function Take(s: Stream): (Stream, IntType, Reply)
    requires s.Valid()
  {
    var (t, c, reply) := Peek(s);
    (if c.Char? then t.(gptr := t.gptr + 1) else t, c, reply)
  }

  /** The stream a move construction or assignment builds from s. */
  ghost function MovedTo(s: Stream): Stream {
    s.(pbase := s.pptr)
  }

  /** put_buffer_.resize(buffer_size), of a buffer that is full-sized or empty. */
  ghost function Refilled(putBuffer: seq<byte>): seq<byte> {
    if |putBuffer| == BUFFER_SIZE then putBuffer else Blank(BUFFER_SIZE)
  }

  /** What the move leaves of s, over the vectors and the socket it is given in exchange. */
  ghost function MovedFrom(getBuffer: seq<byte>, putBuffer: seq<byte>, vacated: Socket): Stream {
    InitBuffers(Stream(getBuffer, 0, 0, 0, putBuffer, 0, 0, 0, NoError, Never, vacated))
  }

  // ---------------------------------------------------------------- a new stream

  /** A new stream has nothing to read and nothing pending, no error and no expiry time, and a put buffer of 512. */
  lemma NewStreamIsEmpty(socket: Socket)
    ensures var s := Constructed(socket);
      && s.Valid() && s.Buffered() && s.Unread() == [] && s.Pending() == [] && s.epptr - s.pptr == 512
      && s.gptr - s.eback == 8
      && s.ec == NoError && s.expiry == Never && s.socket == socket
  {
  }

  // ---------------------------------------------------------------- output

  lemma OverflowIsSafe(s: Stream, c: IntType)
    requires s.Valid()
    ensures Overflow(s, c).0.Valid()
  {
  }

  /**
    A flush of the pending characters, with or without a new one. If it succeeds exactly the pending
    characters reach the wire; if not they all stay pending, although a proper prefix has been sent.
   */
  lemma OverflowSends(s: Stream, c: IntType)
    requires s.Valid() && s.Buffered()
    ensures var (t, reply) := Overflow(s, c);
      && t.Valid() && t.Unread() == s.Unread() && t.socket.arrived == s.socket.arrived
      && (reply == NotEof ==>
            && t.socket.wire == s.socket.wire + s.Pending()
            && t.Pending() == if c.Char? then [c.c] else [])
      && (reply != NotEof ==>
            && t.Pending() == s.Pending() && t.putBuffer == s.putBuffer
            && exists k :: 0 <= k < |s.Pending()| && t.socket.wire == s.socket.wire + s.Pending()[..k])
  {
  }

  /** What a flush for c has to send: everything pending, or in unbuffered mode the character itself. */
  ghost function Output(s: Stream, c: IntType): seq<byte>
    requires s.Valid()
  {
    if s.Buffered() then s.Pending() else if c.Char? then [c.c] else []
  }

  /**
    What a flush for c comes to, if turn j is the first in which send gives up: it sends what is accepted
    before that turn, succeeds exactly if that is all there is to send, and otherwise keeps everything
    pending and reports why it gave up. Input is not affected.
   */
  ghost predicate FlushesAs(s: Stream, c: IntType, j: nat, t: Stream, reply: Reply)
    requires s.Valid() && t.Valid() && j <= |s.socket.sends|
  {
    var output, sends := Output(s, c), s.socket.sends;
    var accepted := Accepted(sends[..j]);
    && (reply == NotEof <==> accepted >= |output|)
    && (reply == IsEof <==> accepted < |output| && j < |sends|)
    && t.socket.wire == s.socket.wire + output[..Min(|output|, accepted)]
    && t.Pending() == (if reply != NotEof then s.Pending() else if s.Buffered() && c.Char? then [c.c] else [])
    && (reply == NotEof ==> t.ec == if output == [] then s.ec else NoError)
    && (reply == IsEof ==> j < |sends| && t.socket.sends == sends[j + 1..] && IsReason(t.ec, s.expiry, sends[j]))
    && t.expiry == s.expiry && (t.Buffered() <==> s.Buffered())
    && t.Unread() == s.Unread() && t.socket.arrived == s.socket.arrived && t.socket.recvs == s.socket.recvs
  }

  /** overflow(c), for every state, every character or eof, and every world. */
  lemma OverflowExactly(s: Stream, c: IntType, j: nat)
    requires s.Valid() && SendEndsFirstAt(s.expiry, s.socket.sends, j)
    ensures var (t, reply) := Overflow(s, c); t.Valid() && FlushesAs(s, c, j, t, reply)
  {
    FlushExactly(|Output(s, c)|, s.expiry, s.socket.sends, s.ec, j);
  }

  lemma OverflowAlways(s: Stream, c: IntType)
    requires s.Valid()
    ensures var (t, reply) := Overflow(s, c);
      && t.Valid()
      && forall j: nat :: SendEndsFirstAt(s.expiry, s.socket.sends, j) ==> FlushesAs(s, c, j, t, reply)
  {
    forall j: nat | SendEndsFirstAt(s.expiry, s.socket.sends, j)
      ensures FlushesAs(s, c, j, Overflow(s, c).0, Overflow(s, c).1)
    {
      OverflowExactly(s, c, j);
    }
  }

  /** sputc(c): with room in the put area the socket is not asked, and else this is a flush for c. */
  lemma PutExactly(s: Stream, c: byte, j: nat)
    requires s.Valid() && SendEndsFirstAt(s.expiry, s.socket.sends, j)
    ensures var (t, reply) := Put(s, c);
      && t.Valid()
      && (s.pptr < s.epptr ==>
            && reply == NotEof && t.Pending() == s.Pending() + [c] && t.Unread() == s.Unread()
            && t.socket == s.socket && t.ec == s.ec && t.expiry == s.expiry && t.pptr == s.pptr + 1)
      && (s.pptr == s.epptr ==> FlushesAs(s, Char(c), j, t, reply))
  {
    OverflowExactly(s, Char(c), j);
  }

  /** close(), for every outcome of the flush and of the socket's close. */
  lemma CloseExactly(s: Stream, closeError: Error, j: nat)
    requires s.Valid() && SendEndsFirstAt(s.expiry, s.socket.sends, j)
    ensures var (t, reply) := Close(s, closeError);
      var (pending, accepted) := (s.Pending(), Accepted(s.socket.sends[..j]));
      && t.Valid()
      && (reply == NoReply <==> accepted < |pending| && j == |s.socket.sends|)
      && t.socket.wire == s.socket.wire + pending[..Min(|pending|, accepted)]
      && t.expiry == s.expiry && (t.Buffered() <==> s.Buffered()) && t.socket.arrived == s.socket.arrived
      && (reply != NoReply ==>
            && t.ec == closeError && (reply == NotEof <==> closeError == NoError)
            && t.Pending() == (if closeError == NoError || accepted >= |pending| then [] else pending)
            && t.Unread() == if closeError == NoError then [] else s.Unread())
  {
    assert Output(s, Eof) == s.Pending();
    OverflowExactly(s, Eof, j);
  }

  /** connect(), of the endpoints that were resolved, or with the resolver's error. */
  lemma ConnectExactly(s: Stream, resolved: Error, attempts: seq<Attempt>, j: nat)
    requires s.Valid() && EndsFirstAt(s.expiry, attempts, j)
    ensures var t := Connect(s, resolved, attempts);
      && t.Valid() && t.Pending() == [] && t.Unread() == []
      && t.socket == s.socket && t.expiry == s.expiry && t.putBuffer == s.putBuffer
      && t.gptr - t.eback == 8 && t.epptr - t.pptr == |s.putBuffer|
      && if resolved != NoError then t.ec == resolved else IsOutcome(t.ec, s.expiry, attempts, NotFound, j)
  {
    SearchIsDecidedByFirstEnd(s.expiry, attempts, NotFound, j);
  }

  /** Putting one character: in unbuffered mode a refused one has not reached the wire. */
  lemma PutSends(s: Stream, c: byte)
    requires s.Valid()
    ensures var (t, reply) := Put(s, c);
      && t.Valid() && t.Unread() == s.Unread() && t.socket.arrived == s.socket.arrived
      && (reply == NotEof ==> t.socket.wire + t.Pending() == s.socket.wire + s.Pending() + [c])
      && (reply != NotEof ==> t.Pending() == s.Pending())
      && (reply != NotEof && !s.Buffered() ==> t.socket.wire == s.socket.wire)
      && (reply != NotEof ==>
            exists k :: 0 <= k <= |s.Pending()| && t.socket.wire == s.socket.wire + s.Pending()[..k])
  {
    var (t, reply) := Put(s, c);
    if s.pptr < s.epptr {
      assert t.Pending() == s.Pending() + [c];
    } else if s.Buffered() {
      OverflowSends(s, Char(c));
      assert reply == NotEof ==> t.Pending() == [c];
    } else {
      assert s.Pending() == [] && t.Pending() == [];
      assert reply != NotEof ==> t.socket.wire == s.socket.wire + s.Pending()[..0];
    }
  }

  /** Unbuffered mode is entered only with nothing pending, and then nothing is left to send. */
  lemma SetBufNeedsNothingPending(s: Stream, unbuffer: bool)
    requires s.Valid()
    ensures var (t, done) := SetBuf(s, unbuffer);
      && t.Valid() && (done <==> unbuffer && s.Pending() == [])
      && (done ==> !t.Buffered() && Overflow(t, Eof) == (t, NotEof))
      && t.Pending() == s.Pending() && t.Unread() == s.Unread() && t.socket == s.socket
      && t.ec == s.ec && t.expiry == s.expiry
      && (!done ==> t == s)
  {
  }

  /**
    close() forgets output exactly when the flush failed and the socket closed, and it then reports
    success: the flush's error code has been overwritten.
   */
  lemma CloseForgetsExactly(s: Stream, closeError: Error)
    requires s.Valid() && Overflow(s, Eof).1 != NoReply
    ensures var (t, reply) := Close(s, closeError);
      && t.Valid()
      && t.ec == closeError
      && (reply == NotEof <==> closeError == NoError)
      && (reply == NotEof ==> t.Pending() == [] && t.Unread() == [])
      && ((exists k :: 0 <= k < |s.Pending()| && t.socket.wire + t.Pending() == s.socket.wire + s.Pending()[..k])
          <==> Overflow(s, Eof).1 == IsEof && closeError == NoError)
  {
  }

  /**
    A move hands over the unread input exactly, and the pending output exactly when there is none:
    the new put area starts at the old pptr.
   */
  lemma MoveForgetsExactly(s: Stream)
    requires s.Valid()
    ensures var t := MovedTo(s);
      && t.Valid() && t.Unread() == s.Unread() && t.socket == s.socket
      && t.Pending() == [] && (t.Pending() == s.Pending() <==> s.pptr == s.pbase)
      && t.ec == s.ec && t.expiry == s.expiry && (t.Buffered() <==> s.Buffered())
      && t.epptr - t.pptr == s.epptr - s.pptr
  {
  }

  /** The source of a move is as good as new: buffered, with nothing to read and nothing pending. */
  lemma MovedFromIsFresh(getBuffer: seq<byte>, putBuffer: seq<byte>, vacated: Socket)
    requires |getBuffer| == BUFFER_SIZE && (|putBuffer| == BUFFER_SIZE || |putBuffer| == 0)
    ensures var t := MovedFrom(getBuffer, Refilled(putBuffer), vacated);
      && t.Valid() && t.Buffered() && t.Unread() == [] && t.Pending() == []
      && t.ec == NoError && t.expiry == Never && t.socket == vacated && t.epptr - t.pptr == BUFFER_SIZE
  {
  }

  // ---------------------------------------------------------------- input

  /**
    What a refill comes to, if turn j is the first in which recv returns, and the first n characters it
    delivers are then taken: it succeeds exactly if that turn is in time and delivers something, of which
    up to 504 characters are kept, behind room for 8 that are put back; and otherwise it reports why not.
    Output is not affected.
   */
  ghost predicate RefillsAs(s: Stream, j: nat, n: nat, t: Stream, c: IntType, reply: Reply)
    requires s.Valid() && t.Valid() && j <= |s.socket.recvs| && n <= 1
  {
    && (reply == NoReply <==> j == |s.socket.recvs|)
    && (reply == NotEof <==> c.Char?)
    && (j < |s.socket.recvs| ==>
          var r := s.socket.recvs[j];
          && t.socket.recvs == s.socket.recvs[j + 1..]
          && (reply == NotEof <==> !Expired(s.expiry, r.now) && !r.failed && r.chunk != [])
          && (Expired(s.expiry, r.now) ==> t.ec == TimedOut)
          && (!Expired(s.expiry, r.now) && !r.failed ==> t.ec == if r.chunk == [] then EndOfFile else NoError)
          && (!Expired(s.expiry, r.now) && r.failed ==>
                t.ec == if Retry(r.recvError) then r.pollError else r.recvError))
    && (if reply != NotEof then t.Unread() == [] && t.socket.arrived == s.socket.arrived
        else
          && j < |s.socket.recvs| && s.socket.recvs[j].chunk != []
          && var kept := s.socket.recvs[j].chunk[..Min(|s.socket.recvs[j].chunk|, 504)];
          && c == Char(kept[0]) && t.Unread() == kept[n..] && t.gptr - t.eback == 8 + n
          && t.socket.arrived == s.socket.arrived + kept)
    && t.expiry == s.expiry && (t.Buffered() <==> s.Buffered())
    && t.Pending() == s.Pending() && t.socket.wire == s.socket.wire && t.socket.sends == s.socket.sends
  }

  /** underflow(), for every state with nothing unread and every world. */
  lemma UnderflowExactly(s: Stream, j: nat)
    requires s.Valid() && s.Unread() == [] && RecvEndsFirstAt(s.expiry, s.socket.recvs, j)
    ensures var (t, c, reply) := Underflow(s); t.Valid() && RefillsAs(s, j, 0, t, c, reply)
  {
    FillExactly(FILL_ROOM, s.expiry, s.socket.recvs, s.ec, j);
  }

  lemma UnderflowAlways(s: Stream)
    requires s.Valid() && s.Unread() == []
    ensures var (t, c, reply) := Underflow(s);
      && t.Valid()
      && forall j: nat :: RecvEndsFirstAt(s.expiry, s.socket.recvs, j) ==> RefillsAs(s, j, 0, t, c, reply)
  {
    forall j: nat | RecvEndsFirstAt(s.expiry, s.socket.recvs, j)
      ensures RefillsAs(s, j, 0, Underflow(s).0, Underflow(s).1, Underflow(s).2)
    {
      UnderflowExactly(s, j);
    }
  }

  /** sgetc(): with something unread the socket is not asked, and else this is a refill. */
  lemma PeekExactly(s: Stream, j: nat)
    requires s.Valid() && RecvEndsFirstAt(s.expiry, s.socket.recvs, j)
    ensures var (t, c, reply) := Peek(s);
      && t.Valid()
      && (s.Unread() != [] ==> (t, c, reply) == (s, Char(s.Unread()[0]), NotEof))
      && (s.Unread() == [] ==> RefillsAs(s, j, 0, t, c, reply))
  {
    if s.Unread() == [] {
      UnderflowExactly(s, j);
    }
  }

  /** sbumpc(): likewise, and the character is then taken. */
  lemma TakeExactly(s: Stream, j: nat)
    requires s.Valid() && RecvEndsFirstAt(s.expiry, s.socket.recvs, j)
    ensures var (t, c, reply) := Take(s);
      && t.Valid()
      && (s.Unread() != [] ==>
            && c == Char(s.Unread()[0]) && reply == NotEof && t.Unread() == s.Unread()[1..]
            && t.Pending() == s.Pending() && t.socket == s.socket && t.ec == s.ec && t.expiry == s.expiry)
      && (s.Unread() == [] ==> RefillsAs(s, j, 1, t, c, reply))
  {
    PeekExactly(s, j);
  }

  /** sbumpc() delivers the characters in the order in which they arrived, across refills. */
  lemma TakeDelivers(s: Stream)
    requires s.Valid()
    ensures var (t, c, reply) := Take(s);
      && t.Valid() && t.Pending() == s.Pending() && t.socket.wire == s.socket.wire
      && (reply == NotEof <==> c.Char?)
      && s.socket.arrived <= t.socket.arrived
      && (if c.Char? then s.Unread() + t.socket.arrived[|s.socket.arrived|..] == [c.c] + t.Unread()
          else t.socket.arrived == s.socket.arrived && s.Unread() == t.Unread() == [])
  {
    var (t, c, reply) := Take(s);
    if s.gptr < s.egptr {
      assert t.socket.arrived[|s.socket.arrived|..] == [];
    } else {
      assert t.socket.arrived[|s.socket.arrived|..] == Received(s).1;
    }
  }

  lemma PeekKeeps(s: Stream)
    requires s.Valid()
    ensures var (t, c, reply) := Peek(s);
      && t.Valid() && t.Pending() == s.Pending() && t.socket.wire == s.socket.wire
      && (reply == NotEof <==> c.Char?)
      && s.socket.arrived <= t.socket.arrived
      && s.Unread() + t.socket.arrived[|s.socket.arrived|..] == t.Unread()
      && (c == if t.Unread() == [] then Eof else Char(t.Unread()[0]))
  {
    var (t, c, reply) := Peek(s);
    if s.gptr < s.egptr {
      assert t.socket.arrived[|s.socket.arrived|..] == [];
    } else {
      assert t.socket.arrived[|s.socket.arrived|..] == Received(s).1;
    }
  }
}
