/** asio::basic_streambuf: a growable byte queue over one contiguous vector. */
module StreamBuf {
  import opened Bytes
  import opened L = Layout
  import Storage

  class StreamBuf {
    const maxSize: size_t
    var buffer: array<byte>
    // vector::capacity(), which the vector chooses
    var capacity: size_t

    // the std::streambuf positions, as offsets into buffer
    var eback: int
    var gptr: int
    var egptr: int
    var pbase: int
    var pptr: int
    var epptr: int

    ghost function State(): Layout
      reads this, buffer
    {
      Layout(buffer[..], eback, gptr, egptr, pbase, pptr, epptr, maxSize)
    }

    ghost predicate Valid()
      reads this, buffer
    {
      State().Valid() && buffer.Length <= capacity
    }

    constructor (maximumSize: size_t)
      ensures maxSize == maximumSize && fresh(buffer)
      ensures Valid() && State() == Constructed(maximumSize)
      ensures State().Data() == [] && |State().Room()| == Min(maximumSize, BUFFER_DELTA)
    {
      var pend := Min(maximumSize, BUFFER_DELTA);
      maxSize := maximumSize;
      buffer := new byte[Max(pend, 1)](_ => 0);
      eback, gptr, egptr := 0, 0, 0;
      pbase, pptr, epptr := 0, 0, pend;
      capacity := Max(pend, 1);
      new;
    }

    method SetG(beg: nat, next: nat, end: nat)
      modifies this`eback, this`gptr, this`egptr
      ensures eback == beg && gptr == next && egptr == end
    {
      eback, gptr, egptr := beg, next, end;
    }

    method SetP(beg: nat, end: nat)
      modifies this`pbase, this`pptr, this`epptr
      ensures pbase == pptr == beg && epptr == end
    {
      pbase, pptr, epptr := beg, beg, end;
    }

    method Size() returns (n: size_t)
      requires Valid()
      ensures n == |State().Data()| && n <= maxSize
    {
      n := pptr - gptr;
    }

    method Data() returns (bytes: seq<byte>)
      requires Valid()
      ensures bytes == State().Data()
    {
      WindowIsSlice(buffer[..], gptr, pptr);
      bytes := buffer[gptr..pptr];
    }

    /** Returns the length of the writable area at pptr when it does not throw. */
    method Prepare(n: size_t) returns (exit: Exit, length: size_t)
      requires Valid()
      modifies this, buffer
      ensures Valid() && (buffer == old(buffer) || fresh(buffer))
      ensures (State(), exit) == L.Reserve(old(State()), n)
      ensures exit == LengthError <==> |old(State().Data())| + n > maxSize
      ensures exit == Returned ==> length == n <= |State().Room()| && State().Data() == old(State().Data())
      ensures exit == LengthError ==> State().Data() == Smeared(old(State().Data()), old(gptr))
    {
      if State().Size() + n > maxSize {
        ThrowingReserveSmears(State(), n);
      }
      exit := Reserve(n);
      length := n;
    }

    /** The caller of prepare() stores bytes at the start of the area it was given. */
    method Fill(bytes: seq<byte>)
      requires Valid() && |bytes| <= |State().Room()|
      modifies buffer
      ensures Valid() && State() == L.Fill(old(State()), bytes)
    {
      forall i | 0 <= i < |bytes| {
        buffer[pptr + i] := bytes[i];
      }
    }

    method Commit(n: size_t)
      requires Valid()
      modifies this
      ensures buffer == old(buffer) && State() == L.Commit(old(State()), n)
      ensures (Valid() && State().Data() == old(State().Data() + State().Room()[..Min(n, |State().Room()|)]))
              <==> Min(n, |old(State().Room())|) <= INT_MAX
    {
      CommitAppendsExactly(State(), n);
      var count: size_t := Min(n, epptr - pptr);
      pptr := pptr + CastToInt(count);
      egptr := pptr;
    }

    method Consume(n: size_t)
      requires Valid()
      modifies this
      ensures buffer == old(buffer) && State() == L.Consume(old(State()), n)
      ensures (Valid() && State().Data() == old(State().Data()[Min(n, State().Size())..]))
              <==> Min(n, old(State().Size())) <= INT_MAX
    {
      ConsumeDropsExactly(State(), n);
      if egptr < pptr {
        SetG(0, gptr, pptr);
      }
      var count := n;
      if gptr + count > pptr {
        count := pptr - gptr;
      }
      gptr := gptr + CastToInt(count);
    }

    method Underflow() returns (c: IntType)
      requires Valid()
      modifies this
      ensures Valid() && buffer == old(buffer)
      ensures (State(), c) == L.Underflow(old(State()))
    {
      if gptr < pptr {
        SetG(0, gptr, pptr);
        c := Char(buffer[gptr]);
      } else {
        c := Eof;
      }
    }

    method Overflow(c: IntType) returns (exit: Exit)
      requires Valid()
      modifies this, buffer
      ensures Valid() && (buffer == old(buffer) || fresh(buffer))
      ensures (State(), exit) == L.Overflow(old(State()), c)
      ensures c.Eof? ==> exit == Returned && State() == old(State())
      ensures c.Char? ==> (exit == LengthError <==> |old(State().Data())| == maxSize)
      ensures exit == LengthError ==> State() == old(State())
      ensures c.Char? && exit == Returned ==> State().Data() == old(State().Data()) + [c.c]
    {
      if c.Eof? {
        return Returned;
      }
      PutAppends(State(), c.c);
      exit := MakeRoom();
      if exit == Returned {
        StoreNext(c.c);
      }
    }

    /** The first half of overflow(): extend a full put area. */
    method MakeRoom() returns (exit: Exit)
      requires Valid()
      modifies this, buffer
      ensures Valid() && (buffer == old(buffer) || fresh(buffer))
      ensures (State(), exit) == L.MakeRoom(old(State()))
    {
      if pptr < epptr {
        return Returned;
      }
      var bufferSize: size_t := pptr - gptr;
      if bufferSize < maxSize && maxSize - bufferSize < BUFFER_DELTA {
        exit := Reserve(maxSize - bufferSize);
      } else {
        exit := Reserve(BUFFER_DELTA);
      }
    }

    /** *pptr() = c followed by pbump(1) */
    method StoreNext(c: byte)
      requires Valid() && pptr < epptr
      modifies this`pptr, buffer
      ensures Valid()
      ensures State() == old(State()).(mem := old(State()).mem[old(pptr) := c], pptr := old(pptr) + 1)
    {
      buffer[pptr] := c;
      pptr := pptr + 1;
    }

    method Reserve(n: size_t) returns (exit: Exit)
      requires Valid()
      modifies this, buffer
      ensures Valid() && (buffer == old(buffer) || fresh(buffer))
      ensures (State(), exit) == L.Reserve(old(State()), n)
    {
      var pnext: size_t, pend: size_t := pptr, epptr;
      if n <= pend - pnext {
        return Returned;
      }

      ghost var before := State();
      pnext := ShiftDown();
      if n > pend - pnext {
        if n <= maxSize && pnext <= maxSize - n {
          pend := pnext + n;
          Storage.ShiftThenGrow(before.mem, before.gptr, before.pptr, Max(pend, 1));
          Grow(Max(pend, 1));
        } else {
          return LengthError;
        }
      }

      SetG(0, 0, pnext);
      SetP(pnext, pend);
      return Returned;
    }

    /** The second step of reserve(): the live window is copied to the start of the vector. */
    method ShiftDown() returns (pnext: size_t)
      requires Valid()
      modifies buffer
      ensures pnext == pptr - gptr
      ensures buffer[..] == Storage.Shifted(old(buffer[..]), gptr, pptr, buffer.Length)
    {
      var gnext: size_t := gptr;
      pnext := pptr;
      if gnext > 0 {
        pnext := pnext - gnext;
        Storage.MoveDown(buffer, gnext, pnext);
      } else {
        assert buffer[..] == Storage.Shifted(buffer[..], 0, pnext, buffer.Length);
      }
    }

    /** buffer_.resize(size) */
    method Grow(size: size_t)
      requires buffer.Length <= size && buffer.Length <= capacity
      modifies this`buffer, this`capacity
      ensures fresh(buffer) && buffer[..] == Storage.Shifted(old(buffer[..]), 0, 0, size)
      ensures buffer.Length <= capacity
    {
      buffer := Storage.Resize(buffer, size);
      if capacity < size {
        var chosen: size_t :| size <= chosen;
        capacity := chosen;
      }
    }

    /** m bytes are within the limit and max_size(), and are at most 512 or fit the vector without reallocation. */
    ghost predicate MayAskFor(m: nat, limit: size_t)
      requires Valid()
      reads this, buffer
    {
      && m <= limit && |State().Data()| + m <= maxSize
      && (m <= 512 || m <= capacity - |State().Data()|)
    }

    /** read_size_helper(sb, limit): how much a read operation asks prepare() for. */
    method ReadSizeHelper(limit: size_t) returns (n: size_t)
      requires Valid()
      ensures n <= limit && |State().Data()| + n <= maxSize
      ensures n > 0 <==> limit > 0 && |State().Data()| < maxSize
      ensures MayAskFor(n, limit) && forall m: nat :: MayAskFor(m, limit) ==> m <= n
      ensures L.Reserve(State(), n).1 == Returned
    {
      var spare: size_t, left: size_t := capacity - (pptr - gptr), maxSize - (pptr - gptr);
      n := Min(Max(512, spare), Min(limit, left));
    }

    // ---------------------------------------------------------------- ISO C++11 section 27.6.3.2

    method SPutC(c: byte) returns (exit: Exit)
      requires Valid()
      modifies this, buffer
      ensures Valid() && (buffer == old(buffer) || fresh(buffer))
      ensures (State(), exit) == L.Overflow(old(State()), Char(c))
      ensures exit == LengthError <==> |old(State().Data())| == maxSize
      ensures exit == LengthError ==> State() == old(State())
      ensures exit == Returned ==> State().Data() == old(State().Data()) + [c]
    {
      PutAppends(State(), c);
      if pptr < epptr {
        StoreNext(c);
        exit := Returned;
      } else {
        exit := Overflow(Char(c));
      }
    }

    method SGetC() returns (c: IntType)
      requires Valid()
      modifies this
      ensures Valid() && buffer == old(buffer)
      ensures (State(), c) == L.Peek(old(State()))
      ensures State().Data() == old(State().Data())
      ensures c == if State().Data() == [] then Eof else Char(State().Data()[0])
    {
      TakeIsFirst(State());
      if gptr < egptr {
        c := Char(buffer[gptr]);
      } else {
        c := Underflow();
      }
    }

    method SBumpC() returns (c: IntType)
      requires Valid()
      modifies this
      ensures Valid() && buffer == old(buffer)
      ensures (State(), c) == L.Take(old(State()))
      ensures c.Eof? <==> old(State().Data()) == []
      ensures c.Char? ==> old(State().Data()) == [c.c] + State().Data()
    {
      TakeIsFirst(State());
      if gptr < egptr {
        c := Char(buffer[gptr]);
        gptr := gptr + 1;
      } else {
        c := Underflow();
        if c != Eof {
          gptr := gptr + 1;
        }
      }
    }
  }
}
