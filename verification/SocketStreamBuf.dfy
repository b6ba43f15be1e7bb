/** asio::basic_socket_streambuf: a buffered duplex character stream over a socket. */
module SocketStreamBuf {
  import opened Bytes
  import opened SocketCalls
  import opened S = SocketStream

  class SocketStreamBuf {
    var getBuffer: array<byte>
    var putBuffer: array<byte>

    // the std::streambuf positions, as offsets into the two vectors
    var eback: int
    var gptr: int
    var egptr: int
    var pbase: int
    var pptr: int
    var epptr: int

    var ec: Error
    var expiry: Expiry
    // the basic_socket base object
    var socket: Socket

    ghost function State(): Stream
      reads this, getBuffer, putBuffer
    {
      Stream(getBuffer[..], eback, gptr, egptr, putBuffer[..], pbase, pptr, epptr, ec, expiry, socket)
    }

    ghost predicate Valid()
      reads this, getBuffer, putBuffer
    {
      State().Valid() && getBuffer != putBuffer
    }

    constructor (socket: Socket)
      ensures Valid() && fresh(getBuffer) && fresh(putBuffer)
      ensures State() == S.Constructed(socket)
    {
      getBuffer := new byte[BUFFER_SIZE](_ => 0);
      putBuffer := new byte[BUFFER_SIZE](_ => 0);
      this.socket := socket;
      ec := NoError;
      expiry := Never;
      eback, gptr, egptr := 0, PUTBACK_MAX, PUTBACK_MAX;
      pbase, pptr, epptr := 0, 0, BUFFER_SIZE;
      new;
      assert getBuffer[..] == Blank(BUFFER_SIZE) && putBuffer[..] == Blank(BUFFER_SIZE);
    }

    /** basic_socket_streambuf(basic_socket_streambuf&&): vacated is the socket the source is left with. */
    constructor Move(other: SocketStreamBuf, vacated: Socket)
      requires other.Valid()
      modifies other
      ensures Valid() && State() == MovedTo(old(other.State()))
      ensures other.Valid() && other.State() == MovedFrom(Blank(BUFFER_SIZE), Blank(BUFFER_SIZE), vacated)
      ensures getBuffer == old(other.getBuffer) && putBuffer == old(other.putBuffer)
      ensures fresh(other.getBuffer) && fresh(other.putBuffer)
    {
      getBuffer := new byte[BUFFER_SIZE](_ => 0);
      putBuffer := new byte[BUFFER_SIZE](_ => 0);
      socket := vacated;
      new;
      assert getBuffer[..] == Blank(BUFFER_SIZE) && putBuffer[..] == Blank(BUFFER_SIZE);
      Adopt(other, vacated);
    }

    /** operator=(basic_socket_streambuf&&), between distinct objects. */
    method Assign(other: SocketStreamBuf, closeError: Error, vacated: Socket) returns (reply: Reply)
      requires Valid() && other.Valid() && other != this
      requires {getBuffer, putBuffer} !! {other.getBuffer, other.putBuffer}
      modifies this, putBuffer, other
      ensures Valid() && other.Valid()
      ensures reply == S.Close(old(State()), closeError).1
      ensures reply == NoReply ==> State() == S.Close(old(State()), closeError).0 && other.State() == old(other.State())
      ensures reply != NoReply ==> State() == MovedTo(old(other.State()))
      ensures reply != NoReply ==>
                var closed := S.Close(old(State()), closeError).0;
                other.State() == MovedFrom(closed.getBuffer, Refilled(closed.putBuffer), vacated)
    {
      reply := Close(closeError);
      if reply != NoReply {
        Adopt(other, vacated);
      }
    }

    /** What both moves share: the buffers are swapped, and the source starts afresh over the others. */
    method Adopt(other: SocketStreamBuf, vacated: Socket)
      requires other != this && other.Valid()
      requires getBuffer.Length == BUFFER_SIZE && (putBuffer.Length == BUFFER_SIZE || putBuffer.Length == 0)
      requires getBuffer != putBuffer
      modifies this, other
      ensures Valid() && State() == MovedTo(old(other.State()))
      ensures getBuffer == old(other.getBuffer) && putBuffer == old(other.putBuffer)
      ensures other.State() == MovedFrom(old(getBuffer[..]), Refilled(old(putBuffer[..])), vacated)
      ensures other.getBuffer == old(getBuffer)
      ensures other.putBuffer == old(putBuffer) || fresh(other.putBuffer)
      ensures other.Valid()
    {
      SwapIn(other);
      other.StartAfresh(vacated);
    }

    /** The receiving side of a move. */
    method SwapIn(other: SocketStreamBuf)
      requires other != this && other.Valid()
      modifies this, other`getBuffer, other`putBuffer
      ensures State() == MovedTo(old(other.State()))
      ensures getBuffer == old(other.getBuffer) && putBuffer == old(other.putBuffer)
      ensures other.getBuffer == old(getBuffer) && other.putBuffer == old(putBuffer)
    {
      getBuffer, other.getBuffer := other.getBuffer, getBuffer;
      putBuffer, other.putBuffer := other.putBuffer, putBuffer;
      CopyPositions(other);
    }

    method CopyPositions(other: SocketStreamBuf)
      requires other != this
      modifies this`eback, this`gptr, this`egptr, this`pbase, this`pptr, this`epptr, this`ec, this`expiry, this`socket
      ensures eback == other.eback && gptr == other.gptr && egptr == other.egptr
      ensures pbase == pptr == other.pptr && epptr == other.epptr
      ensures ec == other.ec && expiry == other.expiry && socket == other.socket
    {
      eback, gptr, egptr := other.eback, other.gptr, other.egptr;
      pbase, pptr, epptr := other.pptr, other.pptr, other.epptr;
      ec, expiry, socket := other.ec, other.expiry, other.socket;
    }

    /** The source's side of a move, after the swaps. */
    method StartAfresh(vacated: Socket)
      requires putBuffer.Length == BUFFER_SIZE || putBuffer.Length == 0
      modifies this
      ensures State() == MovedFrom(old(getBuffer[..]), Refilled(old(putBuffer[..])), vacated)
      ensures getBuffer == old(getBuffer)
      ensures putBuffer == old(putBuffer) || fresh(putBuffer)
    {
      ec, expiry, socket := NoError, Never, vacated;
      if putBuffer.Length != BUFFER_SIZE {
        putBuffer := new byte[BUFFER_SIZE](_ => 0);
      }
      assert putBuffer[..] == Refilled(old(putBuffer[..]));
      InitBuffers();
    }

    /** The destructor's flush; what it cannot send is gone with the object. */
    method Destroy() returns (reply: Reply)
      requires Valid()
      modifies this, putBuffer
      ensures reply == S.Overflow(old(State()), Eof).1 && socket.wire == S.Overflow(old(State()), Eof).0.socket.wire
      ensures forall j: nat :: SendEndsFirstAt(old(expiry), old(socket.sends), j) ==>
        (reply == NotEof <==> Accepted(old(socket.sends)[..j]) >= |old(State().Pending())|)
      ensures reply == NotEof ==> socket.wire == old(socket.wire + State().Pending())
      ensures reply != NotEof ==>
                exists k :: 0 <= k < |old(State().Pending())|
                  && socket.wire == old(socket.wire) + old(State().Pending())[..k]
    {
      OverflowAlways(State(), Eof);
      assert Output(State(), Eof) == State().Pending();
      if pptr != pbase {
        OverflowSends(State(), Eof);
        reply := Overflow(Eof);
      } else {
        reply := NotEof;
      }
    }

    /** connect(endpoint), with resolved clear, and connect(query...), with the resolver's error. */
    method Connect(resolved: Error, attempts: seq<Attempt>) returns (connected: bool)
      requires Valid()
      modifies this
      ensures Valid() && State() == S.Connect(old(State()), resolved, attempts)
      ensures connected <==> ec == NoError
      ensures State().Pending() == [] && State().Unread() == []
    {
      InitBuffers();
      ec := resolved;
      ConnectToEndpoints(attempts);
      connected := ec == NoError;
    }

    method Close(closeError: Error) returns (reply: Reply)
      requires Valid()
      modifies this, putBuffer
      ensures Valid() && (State(), reply) == S.Close(old(State()), closeError)
      ensures getBuffer == old(getBuffer) && putBuffer == old(putBuffer)
    {
      reply := Sync();
      if reply == NoReply {
        return;
      }
      ec := closeError;
      if ec == NoError {
        InitBuffers();
        reply := NotEof;
      } else {
        reply := IsEof;
      }
    }

    method Underflow() returns (c: IntType, reply: Reply)
      requires Valid()
      modifies this, getBuffer
      ensures Valid() && (State(), c, reply) == S.Underflow(old(State()))
      ensures old(State().Unread()) != [] ==> (State(), c, reply) == (old(State()), Eof, IsEof)
      ensures old(State().Unread()) == [] ==>
        forall j: nat :: RecvEndsFirstAt(old(expiry), old(socket.recvs), j) ==>
          RefillsAs(old(State()), j, 0, State(), c, reply)
      ensures getBuffer == old(getBuffer) && putBuffer == old(putBuffer)
    {
      if gptr != egptr {
        return Eof, IsEof;
      }
      UnderflowAlways(State());
      var chunk, end := ReceiveOnce();
      if end != Finished {
        return Eof, if end == Failed then IsEof else NoReply;
      }
      StoreChunk(chunk);
      gptr, egptr := PUTBACK_MAX, PUTBACK_MAX + |chunk|;
      return Char(getBuffer[gptr]), NotEof;
    }

    /** The fill loop of underflow(). */
    method ReceiveOnce() returns (chunk: seq<byte>, end: Ending)
      modifies this`ec, this`socket
      ensures var f := Fill(FILL_ROOM, expiry, old(socket.recvs), old(ec));
        && chunk == f.chunk && end == f.end && ec == f.ec
        && socket == old(socket).(arrived := old(socket.arrived) + f.chunk, recvs := f.rest)
    {
      ghost var whole := Fill(FILL_ROOM, expiry, socket.recvs, ec);
      while |socket.recvs| > 0
        invariant whole == Fill(FILL_ROOM, expiry, socket.recvs, ec)
        invariant socket == old(socket).(recvs := socket.recvs)
        decreases |socket.recvs|
      {
        var t := socket.recvs[0];
        socket := socket.(recvs := socket.recvs[1..]);
        if Expired(expiry, t.now) {
          ec := TimedOut;
          return [], Failed;
        }

        // recv
        chunk := if t.failed then [] else Delivered(t, FILL_ROOM);
        ec := if t.failed then t.recvError else NoError;
        if |chunk| > 0 {
          socket := socket.(arrived := socket.arrived + chunk);
          return chunk, Finished;
        }
        if !t.failed {
          ec := EndOfFile;
          return [], Failed;
        }
        if ec != WouldBlock && ec != TryAgain {
          return [], Failed;
        }

        // poll_read
        ec := if t.polled < 0 then t.pollError else NoError;
        if t.polled < 0 {
          return [], Failed;
        }
      }
      assert socket.recvs == [];
      return [], Waiting;
    }

    /** recv's stores into the get buffer, behind the putback gap. */
    method StoreChunk(chunk: seq<byte>)
      requires getBuffer.Length == BUFFER_SIZE && |chunk| <= FILL_ROOM
      modifies getBuffer
      ensures getBuffer[..] == Stored(old(getBuffer[..]), chunk)
    {
      forall i | 0 <= i < |chunk| {
        getBuffer[PUTBACK_MAX + i] := chunk[i];
      }
    }

    method Overflow(c: IntType) returns (reply: Reply)
      requires Valid()
      modifies this, putBuffer
      ensures Valid() && (State(), reply) == S.Overflow(old(State()), c)
      ensures forall j: nat :: SendEndsFirstAt(old(expiry), old(socket.sends), j) ==>
        FlushesAs(old(State()), c, j, State(), reply)
      ensures getBuffer == old(getBuffer) && putBuffer == old(putBuffer)
    {
      OverflowAlways(State(), c);
      var output;
      if putBuffer.Length == 0 {
        if c.Eof? {
          return NotEof;
        }
        output := [c.c];
      } else {
        WindowIsSlice(putBuffer[..], pbase, pptr);
        output := putBuffer[pbase..pptr];
      }

      var end := SendAll(output);
      if end != Finished {
        return if end == Failed then IsEof else NoReply;
      }

      if putBuffer.Length != 0 {
        pbase, pptr, epptr := 0, 0, putBuffer.Length;
        if c.Eof? {
          return NotEof;
        }
        putBuffer[0] := c.c;
        pptr := 1;
      }
      return NotEof;
    }

    /** The flush loop of overflow(). */
    method SendAll(output: seq<byte>) returns (end: Ending)
      modifies this`ec, this`socket
      ensures var f := Flush(|output|, expiry, old(socket.sends), old(ec));
        && end == f.end && ec == f.ec
        && socket == old(socket).(wire := old(socket.wire) + output[..f.sent], sends := f.rest)
    {
      var done := 0;
      ghost var wire, whole := socket.wire, Flush(|output|, expiry, socket.sends, ec);
      assert wire + output[..0] == wire;
      while done < |output|
        invariant 0 <= done <= |output|
        invariant socket == old(socket).(wire := wire + output[..done], sends := socket.sends)
        invariant Continues(whole, done, Flush(|output| - done, expiry, socket.sends, ec))
        decreases |socket.sends|
      {
        if |socket.sends| == 0 {
          return Waiting;
        }
        var t := socket.sends[0];
        socket := socket.(sends := socket.sends[1..]);
        if Expired(expiry, t.now) {
          ec := TimedOut;
          return Failed;
        }

        // send
        var bytes := SendCount(t, |output| - done);
        ec := SendError(t, |output| - done);
        if bytes > 0 {
          assert output[..done] + output[done..done + bytes] == output[..done + bytes];
          socket := socket.(wire := socket.wire + output[done..done + bytes]);
          done := done + bytes;
          continue;
        }
        if ec != WouldBlock && ec != TryAgain {
          return Failed;
        }

        // poll_write
        ec := if t.polled < 0 then t.pollError else NoError;
        if t.polled < 0 {
          return Failed;
        }
      }
      return Finished;
    }

    method Sync() returns (reply: Reply)
      requires Valid()
      modifies this, putBuffer
      ensures Valid() && (State(), reply) == S.Overflow(old(State()), Eof)
      ensures getBuffer == old(getBuffer) && putBuffer == old(putBuffer)
    {
      reply := Overflow(Eof);
    }

    /** setbuf(s, n): nullAndZero tells whether s is null and n is 0. */
    method SetBuf(nullAndZero: bool) returns (done: bool)
      requires Valid()
      modifies this, putBuffer
      ensures Valid() && (State(), done) == S.SetBuf(old(State()), nullAndZero)
      ensures done <==> nullAndZero && old(State().Pending()) == []
      ensures done ==> !State().Buffered()
    {
      SetBufNeedsNothingPending(State(), nullAndZero);
      if pptr == pbase && nullAndZero {
        putBuffer := new byte[0];
        pbase, pptr, epptr := 0, 0, 0;
        var _ := Sync();
        return true;
      }
      return false;
    }

    method InitBuffers()
      modifies this`eback, this`gptr, this`egptr, this`pbase, this`pptr, this`epptr
      ensures State() == S.InitBuffers(old(State()))
    {
      eback, gptr, egptr := 0, PUTBACK_MAX, PUTBACK_MAX;
      pbase, pptr, epptr := 0, 0, putBuffer.Length;
    }

    method ConnectToEndpoints(attempts: seq<Attempt>)
      modifies this`ec
      ensures ec == if old(ec) != NoError then old(ec) else Search(expiry, attempts, NotFound)
      ensures old(ec) == NoError ==>
        forall j: nat :: EndsFirstAt(expiry, attempts, j) ==> IsOutcome(ec, expiry, attempts, NotFound, j)
    {
      SearchOutcomes(expiry, attempts, NotFound);
      if ec != NoError {
        return;
      }
      ec := NotFound;
      for i := 0 to |attempts|
        invariant Search(expiry, attempts, NotFound) == Search(expiry, attempts[i..], ec)
      {
        var a := attempts[i];
        assert attempts[i..][1..] == attempts[i + 1..];
        if Expired(expiry, a.now) {
          ec := TimedOut;
          return;
        }

        // close, then open
        ec := a.openError;
        if ec != NoError {
          continue;
        }

        ec := a.connectError;
        if ec == NoError {
          return;
        }
        if ec != InProgress && ec != WouldBlock {
          continue;
        }

        // poll_connect
        ec := if a.polled < 0 then a.pollError else NoError;
        if a.polled < 0 {
          continue;
        }

        // getsockopt(SO_ERROR)
        ec := if a.optionFailed then a.optionError else NoError;
        if a.optionFailed {
          return;
        }
        ec := a.socketError;
        if ec == NoError {
          return;
        }
      }
    }

    // ---------------------------------------------------------------- ISO C++11 section 27.6.3.2

    method SPutC(c: byte) returns (reply: Reply)
      requires Valid()
      modifies this, putBuffer
      ensures Valid() && (State(), reply) == S.Put(old(State()), c)
    {
      if pptr < epptr {
        putBuffer[pptr] := c;
        pptr := pptr + 1;
        reply := NotEof;
      } else {
        reply := Overflow(Char(c));
      }
    }

    method SGetC() returns (c: IntType, reply: Reply)
      requires Valid()
      modifies this, getBuffer
      ensures Valid() && (State(), c, reply) == S.Peek(old(State()))
    {
      if gptr < egptr {
        return Char(getBuffer[gptr]), NotEof;
      }
      c, reply := Underflow();
    }

    method SBumpC() returns (c: IntType, reply: Reply)
      requires Valid()
      modifies this, getBuffer
      ensures Valid() && (State(), c, reply) == S.Take(old(State()))
    {
      if gptr < egptr {
        c, reply := Char(getBuffer[gptr]), NotEof;
        gptr := gptr + 1;
      } else {
        c, reply := Underflow();
        if c != Eof {
          gptr := gptr + 1;
        }
      }
    }
  }
}
