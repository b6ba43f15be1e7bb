/**
  The state of a basic_streambuf as a value, and what each of its operations does to it.
  The class in StreamBuf.dfy is proved to perform exactly these transitions.
 */
module Layout {
  import opened Bytes
  import opened Storage

  const BUFFER_DELTA := 128

  /** Whether a call came back, or threw std::length_error. */
  datatype Exit = Returned | LengthError

  /** The vector's bytes and the six stream positions, as offsets into it. */
  datatype Layout = Layout(mem: seq<byte>,
                           eback: int, gptr: int, egptr: int,
                           pbase: int, pptr: int, epptr: int,
                           maxSize: size_t)
  {
    /** The invariant behind the documented size() <= max_size(). */
    ghost predicate Valid() {
      && 0 == eback <= gptr <= egptr <= pptr <= epptr <= maxSize
      && 0 <= pbase <= pptr
      && |mem| == Max(epptr, 1)
    }

    /** size() */
    ghost function Size(): nat
      requires Valid()
    {
      pptr - gptr
    }

    /** data(): the bytes of the input sequence. */
    ghost function Data(): seq<byte>
      requires Valid()
    {
      Window(mem, gptr, pptr)
    }

    /** The output sequence: the bytes a caller may fill before commit(). */
    ghost function Room(): seq<byte>
      requires Valid()
    {
      Window(mem, pptr, epptr)
    }
  }

  ghost function Constructed(maxSize: size_t): Layout {
    var pend := Min(maxSize, BUFFER_DELTA);
    Layout(seq(Max(pend, 1), _ => 0), 0, 0, 0, 0, 0, pend, maxSize)
  }

  /** What reserve() ends with when it had to shift: the live bytes first, then room up to epptr. */
  ghost function Compacted(s: Layout, epptr: int): Layout
    requires s.Valid() && s.epptr <= epptr
  {
    var size := s.Size();
    s.(mem := Shifted(s.mem, s.gptr, s.pptr, Max(epptr, 1)),
    gptr := 0, egptr := size, pbase := size, pptr := size, epptr := epptr)
  }

  /** reserve(n) */
  ghost function Reserve(s: Layout, n: size_t): (r: (Layout, Exit))
    requires s.Valid()
    ensures r.0.Valid()
    ensures r.0.Size() == s.Size() && r.0.maxSize == s.maxSize
    ensures |s.mem| <= |r.0.mem| && s.epptr <= r.0.epptr
    ensures r.1 == LengthError <==> s.Size() + n > s.maxSize
    ensures r.1 == Returned ==> r.0.Data() == s.Data() && n <= |r.0.Room()|
  {
    if n <= s.epptr - s.pptr then
      (s, Returned)
    else
      var size := s.Size();
      if n <= s.epptr - size then
        (Compacted(s, s.epptr), Returned)
      else if n <= s.maxSize && size <= s.maxSize - n then
        (Compacted(s, size + n), Returned)
      else
        (s.(mem := Shifted(s.mem, s.gptr, s.pptr, |s.mem|)), LengthError)
  }

  /** A caller stores bytes through the buffer that prepare() returned. */
  ghost function Fill(s: Layout, bytes: seq<byte>): Layout
    requires s.Valid() && |bytes| <= s.epptr - s.pptr
  {
    s.(mem := seq(|s.mem|, i requires 0 <= i < |s.mem| =>
      if s.pptr <= i < s.pptr + |bytes| then bytes[i - s.pptr] else s.mem[i]))
  }

  /** commit(n), with its conversion of the count to int. */
  ghost function Commit(s: Layout, n: size_t): Layout
    requires s.Valid()
  {
    var pptr := s.pptr + CastToInt(Min(n, s.epptr - s.pptr));
    s.(pptr := pptr, egptr := pptr)
  }

  /** consume(n), with its conversion of the count to int. */
  ghost function Consume(s: Layout, n: size_t): Layout
    requires s.Valid()
  {
    s.(egptr := s.pptr, gptr := s.gptr + CastToInt(Min(n, s.pptr - s.gptr)))
  }

  /** What overflow() asks reserve() for when the put area is full. */
  ghost function Growth(s: Layout): size_t
    requires s.Valid()
  {
    var size := s.pptr - s.gptr;
    if size < s.maxSize && s.maxSize - size < BUFFER_DELTA then s.maxSize - size else BUFFER_DELTA
  }

  /** The first half of overflow(): a full put area is extended. */
  ghost function MakeRoom(s: Layout): (r: (Layout, Exit))
    requires s.Valid()
    ensures r.0.Valid()
    ensures r.1 == Returned ==> r.0.pptr < r.0.epptr
  {
    if s.pptr == s.epptr then Reserve(s, Growth(s)) else (s, Returned)
  }

  /** overflow(c) */
  ghost function Overflow(s: Layout, c: IntType): (Layout, Exit)
    requires s.Valid()
  {
    if c.Eof? then
      (s, Returned)
    else
      var (t, exit) := MakeRoom(s);
      if exit == LengthError then (t, exit)
      else (t.(mem := t.mem[t.pptr := c.c], pptr := t.pptr + 1), Returned)
  }

  /** underflow() */
  ghost function Underflow(s: Layout): (Layout, IntType)
    requires s.Valid()
  {
    if s.gptr < s.pptr then (s.(egptr := s.pptr), Char(s.mem[s.gptr])) else (s, Eof)
  }

  /** sgetc(): the next character, through underflow() when the get area has none left. */
  ghost function Peek(s: Layout): (Layout, IntType)
    requires s.Valid()
  {
    if s.gptr < s.egptr then (s, Char(s.mem[s.gptr])) else Underflow(s)
  }

  /** sbumpc(): the next character, which is then passed over. */
  ghost function Take(s: Layout): (Layout, IntType)
    requires s.Valid()
  {
    var (t, c) := Peek(s);
    (if c.Eof? then t else t.(gptr := t.gptr + 1), c)
  }

  // ---------------------------------------------------------------- a throwing prepare

  /** What a throwing reserve leaves behind: the shift has run, the positions have not moved. */
  ghost function Smeared(data: seq<byte>, g: nat): (r: seq<byte>)
    ensures |r| == |data|
  {
    seq(|data|, i requires 0 <= i < |data| => if g + i < |data| then data[g + i] else data[i])
  }

  lemma ThrowingReserveSmears(s: Layout, n: size_t)
    requires s.Valid() && s.Size() + n > s.maxSize
    ensures var t := Reserve(s, n).0;
      t == s.(mem := t.mem) && t.Valid() && t.Data() == Smeared(s.Data(), s.gptr)
  {
  }

  /** The positions for which no content at all can be lost by a throwing prepare(). */
  lemma SmearKeepsEveryContent(size: nat, g: nat)
    ensures (forall data: seq<byte> :: |data| == size ==> Smeared(data, g) == data) <==> g == 0 || g >= size
  {
    if 0 < g < size {
      var data: seq<byte> := [0] + seq(size - 1, _ => 1);
      assert data[g] == 1 && Smeared(data, g)[0] == data[g];
    }
  }

  // ---------------------------------------------------------------- the input and output sequences

  /** A new buffer holds nothing, and has room for 128 bytes or as many as its maximum size allows. */
  lemma NewBufferIsEmpty(maxSize: size_t)
    ensures var s := Constructed(maxSize);
      s.Valid() && s.Data() == [] && |s.Room()| == Min(maxSize, 128) && s.maxSize == maxSize
  {
  }

  /** Putting a character throws exactly in a full buffer, and then nothing has changed. */
  lemma PutAppends(s: Layout, c: byte)
    requires s.Valid()
    ensures var (t, exit) := Overflow(s, Char(c));
      && t.Valid()
      && (exit == LengthError <==> s.Size() == s.maxSize)
      && (exit == LengthError ==> t == s)
      && (exit == Returned ==> t.Data() == s.Data() + [c])
  {
    var (m, exit) := MakeRoom(s);
    if s.Size() == s.maxSize {
      assert s.gptr == 0 && Shifted(s.mem, s.gptr, s.pptr, |s.mem|) == s.mem;
    } else {
      assert m.Data() == s.Data() && exit == Returned;
      assert Overflow(s, Char(c)).0.Data() == m.Data() + [c];
    }
  }

  /** commit(n) is "append min(n, |room|) bytes of the room" exactly when that count fits an int. */
  lemma CommitAppendsExactly(s: Layout, n: size_t)
    requires s.Valid()
    ensures var t, k := Commit(s, n), Min(n, |s.Room()|);
      (t.Valid() && t.Data() == s.Data() + s.Room()[..k]) <==> k <= INT_MAX
    ensures var t, k := Commit(s, n), Min(n, |s.Room()|);
      k <= INT_MAX ==> t.Room() == s.Room()[k..]
  {
  }

  /** consume(n) is "drop min(n, size) bytes" exactly when that count fits an int. */
  lemma ConsumeDropsExactly(s: Layout, n: size_t)
    requires s.Valid()
    ensures var t, k := Consume(s, n), Min(n, s.Size());
      (t.Valid() && t.Data() == s.Data()[k..]) <==> k <= INT_MAX
  {
  }

  /** The protocol the documentation prescribes: prepare, store, commit. */
  lemma PrepareFillCommit(s: Layout, n: size_t, bytes: seq<byte>, k: nat)
    requires s.Valid() && s.Size() + n <= s.maxSize
    requires k <= |bytes| <= n && k <= INT_MAX
    ensures var t := Reserve(s, n).0;
      && t.Valid() && |bytes| <= t.epptr - t.pptr
      && Fill(t, bytes).Valid()
      && Commit(Fill(t, bytes), k).Valid()
      && Commit(Fill(t, bytes), k).Data() == s.Data() + bytes[..k]
  {
    var t := Reserve(s, n).0;
    var f := Fill(t, bytes);
    assert f.Data() == t.Data() && f.Room()[..k] == bytes[..k];
    CommitAppendsExactly(f, k);
  }

  /**
    reserve(n) is thrifty: with room for n nothing changes at all; otherwise the data moves to the front,
    and the vector grows only if it must, and then to exactly what is needed.
   */
  lemma ReserveIsThrifty(s: Layout, n: size_t)
    requires s.Valid() && s.Size() + n <= s.maxSize
    ensures var t := Reserve(s, n).0;
      && (n <= |s.Room()| ==> t == s)
      && (n > |s.Room()| ==> t.gptr == 0)
      && t.epptr == Max(s.epptr, s.Size() + n)
  {
  }

  /** A character put into a full put area makes room for 128, or for as many as the maximum size leaves. */
  lemma PutGrowsByDelta(s: Layout, c: byte)
    requires s.Valid() && s.Size() < s.maxSize
    ensures var t := Overflow(s, Char(c)).0;
      && t.Valid()
      && (s.Room() == [] ==> |t.Room()| >= Min(128, s.maxSize - s.Size()) - 1)
      && (s.Room() != [] ==> t == s.(mem := t.mem, pptr := s.pptr + 1))
  {
    if s.Room() == [] {
      assert MakeRoom(s) == Reserve(s, Growth(s));
    }
  }

  /** Reading through the lagging get area sees the whole input sequence, in order. */
  lemma TakeIsFirst(s: Layout)
    requires s.Valid()
    ensures var (t, c), (u, d) := Peek(s), Take(s);
      && t.Valid() && u.Valid() && c == d && t.Data() == s.Data()
      && (c.Eof? <==> s.Data() == [])
      && (c.Char? ==> s.Data() == [c.c] + u.Data())
      && (c.Eof? ==> u == s)
  {
  }
}
