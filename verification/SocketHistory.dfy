/**
  The wire of a basic_socket_streambuf explained character by character: over every run it is made up of
  whole flushes, and of the beginnings of the flushes that failed.
 */
module SocketHistory {
  import opened Bytes
  import opened SocketCalls
  import opened SocketStream
  import opened SocketRuns

  /** What became of the characters that were pending, or of one that was never: sent, sent in part, or forgotten. */
  datatype Piece = Whole(chars: seq<byte>) | Partial(chars: seq<byte>, sent: nat) | Lost(chars: seq<byte>)
  {
    ghost predicate Valid() {
      Partial? ==> sent < |chars|
    }
  }

  ghost function OnWire(p: Piece): seq<byte>
    requires p.Valid()
  {
    match p
    case Whole(chars) => chars
    case Partial(chars, sent) => chars[..sent]
    case Lost(_) => []
  }

  /** The characters that are no longer pending: those of a flush that failed still are. */
  ghost function Gone(p: Piece): seq<byte> {
    if p.Partial? then [] else p.chars
  }

  ghost function AllOnWire(h: seq<Piece>): seq<byte>
    requires forall p <- h :: p.Valid()
  {
    if h == [] then [] else OnWire(h[0]) + AllOnWire(h[1..])
  }

  ghost function AllGone(h: seq<Piece>): seq<byte> {
    if h == [] then [] else Gone(h[0]) + AllGone(h[1..])
  }

  /** What one call adds to the history. */
  ghost function Record(s: Stream, e: Event): (h: seq<Piece>)
    requires s.Valid()
    ensures |h| <= 1
  {
    var (t, _, reply) := Step(s, e);
    if e.MoveOn? || Resets(e, reply) then [Lost(s.Pending())]
    else if e.PutChar? && reply == NotEof then
      if s.pptr < s.epptr then [] else [Whole(if s.Buffered() then s.Pending() else [e.c])]
    else if e.FlushNow? && reply == NotEof then [Whole(s.Pending())]
    else if (e.PutChar? || e.FlushNow?) && s.Pending() != [] then
      [Partial(s.Pending(), Max(0, |t.socket.wire| - |s.socket.wire|))]
    else []
  }

  ghost function History(s: Stream, events: seq<Event>): seq<Piece>
    requires s.Valid()
    decreases |events|
  {
    if events == [] then []
    else
      StepIsSafe(s, events[0]);
      var (t, _, reply) := Step(s, events[0]);
      Record(s, events[0]) + if reply == NoReply then [] else History(t, events[1..])
  }

  /** The character that a call adds to the output. */
  ghost function Added(s: Stream, e: Event): seq<byte>
    requires s.Valid()
  {
    if e.PutChar? && Step(s, e).2 == NotEof then [e.c] else []
  }

  ghost predicate IsExplained(s: Stream, e: Event)
    requires s.Valid() && Step(s, e).0.Valid()
  {
    var t, h := Step(s, e).0, Record(s, e);
    && (forall p <- h :: p.Valid() && (p.Partial? ==> p.chars == s.Pending()))
    && t.socket.wire == s.socket.wire + AllOnWire(h)
    && AllGone(h) + t.Pending() == s.Pending() + Added(s, e)
  }

  lemma PutIsExplained(s: Stream, c: byte)
    requires s.Valid()
    ensures Step(s, PutChar(c)).0.Valid() && IsExplained(s, PutChar(c))
  {
    PutSends(s, c);
    var t, h := Step(s, PutChar(c)).0, Record(s, PutChar(c));
    if s.pptr < s.epptr {
      assert t.Pending() == s.Pending() + [c];
    } else if s.Buffered() {
      OverflowSends(s, Char(c));
    } else {
      assert s.Pending() == [];
    }
  }

  lemma FlushIsExplained(s: Stream)
    requires s.Valid()
    ensures Step(s, FlushNow).0.Valid() && IsExplained(s, FlushNow)
  {
    if s.Buffered() {
      OverflowSends(s, Eof);
    } else {
      assert s.Pending() == [];
    }
  }

  lemma RestIsExplained(s: Stream, e: Event)
    requires s.Valid() && !e.PutChar? && !e.FlushNow?
    ensures Step(s, e).0.Valid() && IsExplained(s, e)
  {
    if e.PeekChar? {
      PeekKeeps(s);
    } else if e.TakeChar? {
      TakeDelivers(s);
    }
  }

  lemma StepIsExplained(s: Stream, e: Event)
    requires s.Valid()
    ensures Step(s, e).0.Valid() && IsExplained(s, e)
  {
    if e.PutChar? {
      PutIsExplained(s, e.c);
    } else if e.FlushNow? {
      FlushIsExplained(s);
    } else {
      RestIsExplained(s, e);
    }
  }

  lemma {:induction false} Joined(h: seq<Piece>, more: seq<Piece>)
    requires |h| <= 1 && (forall p <- h :: p.Valid()) && (forall p <- more :: p.Valid())
    ensures AllOnWire(h + more) == AllOnWire(h) + AllOnWire(more)
    ensures AllGone(h + more) == AllGone(h) + AllGone(more)
  {
    if h == [] {
      assert h + more == more;
    } else {
      assert (h + more)[1..] == more && h[1..] == [];
    }
  }

  /** The flushes that failed did so with everything pending that had been put and was not gone yet. */
  ghost predicate PartialsFit(gone: seq<byte>, h: seq<Piece>, put: seq<byte>) {
    forall i :: 0 <= i < |h| && h[i].Partial? ==> gone + AllGone(h[..i]) + h[i].chars <= put
  }

  /** What is known of a run: from s with these characters gone, to t with these put. */
  ghost predicate Explains(s: Stream, gone: seq<byte>, h: seq<Piece>, t: Stream, put: seq<byte>)
    requires s.Valid() && t.Valid()
  {
    && (forall p <- h :: p.Valid())
    && t.socket.wire == s.socket.wire + AllOnWire(h)
    && gone + AllGone(h) + t.Pending() == put && gone + s.Pending() <= put
    && PartialsFit(gone, h, put)
  }

  lemma {:induction false} RecordExplains(s: Stream, gone: seq<byte>, h: seq<Piece>, t: Stream, added: seq<byte>)
    requires s.Valid() && t.Valid() && |h| <= 1
    requires forall p <- h :: p.Valid() && (p.Partial? ==> p.chars == s.Pending())
    requires t.socket.wire == s.socket.wire + AllOnWire(h) && AllGone(h) + t.Pending() == s.Pending() + added
    ensures Explains(s, gone, h, t, gone + s.Pending() + added)
  {
    Regroup(gone, AllGone(h), t.Pending());
    Regroup(gone, s.Pending(), added);
    if h != [] {
      assert h[..0] == [] && h[0] in h && gone + [] == gone;
    }
  }

  lemma StepExplains(s: Stream, a: Account, e: Event, gone: seq<byte>)
    requires s.Valid() && gone + s.Pending() == a.put
    ensures Step(s, e).0.Valid() && Explains(s, gone, Record(s, e), Step(s, e).0, Book(a, s, e).put)
  {
    StepIsExplained(s, e);
    RecordExplains(s, gone, Record(s, e), Step(s, e).0, Added(s, e));
    assert Book(a, s, e).put == a.put + Added(s, e);
  }

  lemma {:induction false} ExplanationsJoin(s: Stream, gone: seq<byte>, h: seq<Piece>, t: Stream, put: seq<byte>,
                                            more: seq<Piece>, u: Stream, all: seq<byte>)
    requires s.Valid() && t.Valid() && u.Valid() && |h| <= 1
    requires Explains(s, gone, h, t, put) && Explains(t, gone + AllGone(h), more, u, all)
    ensures Explains(s, gone, h + more, u, all)
  {
    Joined(h, more);
    Regroup(gone, AllGone(h), AllGone(more));
    Regroup(s.socket.wire, AllOnWire(h), AllOnWire(more));
    PartialsJoin(gone, h, more, put, all);
  }

  lemma {:induction false} PartialsJoin(gone: seq<byte>, h: seq<Piece>, more: seq<Piece>, put: seq<byte>,
                                        all: seq<byte>)
    requires |h| <= 1 && put <= all && PartialsFit(gone, h, put) && PartialsFit(gone + AllGone(h), more, all)
    requires (forall p <- h :: p.Valid()) && (forall p <- more :: p.Valid())
    ensures PartialsFit(gone, h + more, all)
  {
    forall i | 0 <= i < |h + more| && (h + more)[i].Partial?
      ensures gone + AllGone((h + more)[..i]) + (h + more)[i].chars <= all
    {
      PartialFits(gone, h, more, put, all, i);
    }
  }

  lemma {:induction false} PartialFits(gone: seq<byte>, h: seq<Piece>, more: seq<Piece>, put: seq<byte>,
                                       all: seq<byte>, i: nat)
    requires |h| <= 1 && put <= all && PartialsFit(gone, h, put) && PartialsFit(gone + AllGone(h), more, all)
    requires (forall p <- h :: p.Valid()) && (forall p <- more :: p.Valid())
    requires i < |h + more| && (h + more)[i].Partial?
    ensures gone + AllGone((h + more)[..i]) + (h + more)[i].chars <= all
  {
    if i < |h| {
      assert (h + more)[..i] == h[..i];
    } else {
      assert (h + more)[..i] == h + more[..i - |h|];
      Joined(h, more[..i - |h|]);
      Regroup(gone, AllGone(h), AllGone(more[..i - |h|]));
    }
  }

  lemma {:induction false} RunIsExplained(s: Stream, a: Account, events: seq<Event>, gone: seq<byte>)
    requires s.Valid() && gone + s.Pending() == a.put
    ensures Explains(s, gone, History(s, events), Run(s, a, events).0, Run(s, a, events).1.put)
    decreases |events|
  {
    if events == [] {
      assert gone + [] == gone && s.socket.wire + [] == s.socket.wire;
    } else {
      var (t, _, reply) := Step(s, events[0]);
      var h := Record(s, events[0]);
      StepExplains(s, a, events[0], gone);
      if reply == NoReply {
        assert h + [] == h;
      } else {
        RunIsExplained(t, Book(a, s, events[0]), events[1..], gone + AllGone(h));
        var (u, b) := Run(t, Book(a, s, events[0]), events[1..]);
        ExplanationsJoin(s, gone, h, t, Book(a, s, events[0]).put, History(t, events[1..]), u, b.put);
      }
    }
  }

  /**
    Over every run of a new stream, in every world: the wire is made up of whole flushes and of proper
    prefixes of those that failed, in order; the characters put are those flushed whole or forgotten,
    then those pending; and each flush that failed was one of the characters next in that order, so that
    what it sent is sent again by the flush that follows.
   */
  lemma WireIsExplained(sends: seq<SendTurn>, recvs: seq<RecvTurn>, events: seq<Event>)
    ensures var start := Constructed(Socket([], [], sends, recvs));
      start.Valid() &&
      var (s, a) := Run(start, EMPTY_ACCOUNT, events);
      var h := History(start, events);
      && (forall p <- h :: p.Valid())
      && s.socket.wire == AllOnWire(h)
      && a.put == AllGone(h) + s.Pending()
      && forall i :: 0 <= i < |h| && h[i].Partial? ==> AllGone(h[..i]) + h[i].chars <= a.put
  {
    var start := Constructed(Socket([], [], sends, recvs));
    assert start.Pending() == [];
    RunIsExplained(start, EMPTY_ACCOUNT, events, []);
    var h := History(start, events);
    assert [] + AllOnWire(h) == AllOnWire(h) && [] + AllGone(h) == AllGone(h);
    assert forall i :: 0 <= i < |h| ==> [] + AllGone(h[..i]) == AllGone(h[..i]);
  }
}
