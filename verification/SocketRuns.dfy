/**
  Whole runs of a basic_socket_streambuf against an arbitrary world: what reaches the wire compared
  with what was put, and what was read compared with what arrived, on every run, with failures,
  reconnections, moves and changes of mode.
 */
module SocketRuns {
  import opened Bytes
  import opened SocketCalls
  import opened SocketStream
  import opened Subsequences

  /**
    What a client can do. FlushNow is sync() or the destructor; close() is FlushNow followed by
    ShutDown; after MoveOn the run is that of the stream moved to.
   */
  datatype Event =
    | PutChar(c: byte) | FlushNow | PeekChar | TakeChar
    | ChangeBuffer(nullAndZero: bool) | SetExpiry(expiry: Expiry)
    | ShutDown(closeError: Error) | ConnectTo(resolved: Error, attempts: seq<Attempt>) | MoveOn

  ghost function Step(s: Stream, e: Event): (Stream, IntType, Reply)
    requires s.Valid()
  {
    match e
    case PutChar(c) => var (t, reply) := Put(s, c); (t, Eof, reply)
    case FlushNow => var (t, reply) := Overflow(s, Eof); (t, Eof, reply)
    case PeekChar => Peek(s)
    case TakeChar => Take(s)
    case ChangeBuffer(zero) => var (t, done) := SetBuf(s, zero); (t, Eof, if done then NotEof else IsEof)
    case SetExpiry(expiry) => (s.(expiry := expiry), Eof, NotEof)
    case ShutDown(error) => var (t, closed) := Shut(s, error); (t, Eof, if closed then NotEof else IsEof)
    case ConnectTo(resolved, attempts) => (Connect(s, resolved, attempts), Eof, NotEof)
    case MoveOn => (MovedTo(s), Eof, NotEof)
  }

  /**
    The account of a run, kept from what its calls return and from the wire.
    put: the characters whose put succeeded; resent: how much the wire grew during puts and flushes
    that did not succeed; lost: how much output was pending when the stream was moved, connected or
    successfully closed; taken: the characters read; dropped: the input unread at those resets.
   */
  datatype Account = Account(put: seq<byte>, resent: nat, lost: nat, taken: seq<byte>, dropped: nat)

  predicate Resets(e: Event, reply: Reply) {
    e.ConnectTo? || (e.ShutDown? && reply == NotEof)
  }

  ghost function Book(a: Account, s: Stream, e: Event): Account
    requires s.Valid()
  {
    var (t, c, reply) := Step(s, e);
    var growth := |t.socket.wire| - |s.socket.wire|;
    a.(put := if e.PutChar? && reply == NotEof then a.put + [e.c] else a.put,
    resent := if (e.PutChar? || e.FlushNow?) && reply != NotEof then a.resent + Max(growth, 0) else a.resent,
    lost := if e.MoveOn? || Resets(e, reply) then a.lost + |s.Pending()| else a.lost,
    taken := if e.TakeChar? && c.Char? then a.taken + [c.c] else a.taken,
    dropped := if Resets(e, reply) then a.dropped + |s.Unread()| else a.dropped)
  }

  /** A call without a reply is the last one of a run. */
  ghost function Run(s: Stream, a: Account, events: seq<Event>): (r: (Stream, Account))
    requires s.Valid()
    ensures r.0.Valid()
    decreases |events|
  {
    if events == [] then (s, a)
    else
      StepIsSafe(s, events[0]);
      var (t, _, reply) := Step(s, events[0]);
      if reply == NoReply then (t, Book(a, s, events[0])) else Run(t, Book(a, s, events[0]), events[1..])
  }

  /** Every operation keeps the buffer sizes, the order of the positions and the mode invariant. */
  lemma StepIsSafe(s: Stream, e: Event)
    requires s.Valid()
    ensures Step(s, e).0.Valid()
    ensures e.SetExpiry? ==> Step(s, e).0 == s.(expiry := e.expiry)
  {
    match e
    case PutChar(c) => PutSends(s, c);
    case FlushNow => OverflowIsSafe(s, Eof);
    case PeekChar => PeekKeeps(s);
    case TakeChar => TakeDelivers(s);
    case _ =>
  }

  // ---------------------------------------------------------------- output

  ghost function Out(s: Stream): seq<byte>
    requires s.Valid()
  {
    s.socket.wire + s.Pending()
  }

  /** What the account says about the output. */
  ghost predicate OutputBalances(s: Stream, a: Account)
    requires s.Valid()
  {
    && |Out(s)| + a.lost == |a.put| + a.resent
    && (a.lost == 0 ==> Within(a.put, Out(s)))
    && (a.resent == 0 ==> Within(Out(s), a.put))
  }

  /** The four things one step can do to the output. */
  lemma OutputMoves(s: Stream, e: Event)
    requires s.Valid()
    ensures var (t, _, reply) := Step(s, e);
      t.Valid() &&
      if e.MoveOn? || Resets(e, reply) then Out(t) == s.socket.wire
      else if e.PutChar? && reply == NotEof then Out(t) == Out(s) + [e.c]
      else if e.PutChar? || e.FlushNow? then
        && (reply == NotEof ==> Out(t) == Out(s))
        && (reply != NotEof ==> t.Pending() == s.Pending() && s.socket.wire <= t.socket.wire)
      else Out(t) == Out(s)
  {
    StepIsSafe(s, e);
    match e
    case PutChar(c) => PutSends(s, c);
    case FlushNow => if s.Buffered() { OverflowSends(s, Eof); }
    case PeekChar => PeekKeeps(s);
    case TakeChar => TakeDelivers(s);
    case _ =>
  }

  lemma StepBalancesOutput(s: Stream, a: Account, e: Event)
    requires s.Valid() && OutputBalances(s, a)
    ensures Step(s, e).0.Valid() && OutputBalances(Step(s, e).0, Book(a, s, e))
  {
    OutputMoves(s, e);
    var (t, _, reply) := Step(s, e);
    var b := Book(a, s, e);
    if e.MoveOn? || Resets(e, reply) {
      assert s.Pending() == [] ==> Out(s) == s.socket.wire;
      if a.resent == 0 { DropEnd(s.socket.wire, s.Pending(), a.put); }
    } else if e.PutChar? && reply == NotEof {
      if a.lost == 0 { ExtendBoth(a.put, Out(s), [e.c]); }
      if a.resent == 0 { ExtendBoth(Out(s), a.put, [e.c]); }
    } else if (e.PutChar? || e.FlushNow?) && reply != NotEof {
      var again := t.socket.wire[|s.socket.wire|..];
      assert t.socket.wire == s.socket.wire + again;
      if a.lost == 0 { Insert(a.put, s.socket.wire, again, s.Pending()); }
      assert b.resent == 0 ==> Out(t) == Out(s);
    }
  }

  /** Output over whole runs, whatever fails. */
  lemma {:induction false} RunBalancesOutput(s: Stream, a: Account, events: seq<Event>)
    requires s.Valid() && OutputBalances(s, a)
    ensures OutputBalances(Run(s, a, events).0, Run(s, a, events).1)
    decreases |events|
  {
    if events != [] {
      StepBalancesOutput(s, a, events[0]);
      var (t, _, reply) := Step(s, events[0]);
      if reply != NoReply {
        RunBalancesOutput(t, Book(a, s, events[0]), events[1..]);
      }
    }
  }

  // ---------------------------------------------------------------- input

  ghost predicate InputBalances(s: Stream, a: Account)
    requires s.Valid()
  {
    && |a.taken + s.Unread()| + a.dropped == |s.socket.arrived|
    && Within(a.taken + s.Unread(), s.socket.arrived)
  }

  /** The three things one step can do to the input. */
  lemma InputMoves(s: Stream, e: Event)
    requires s.Valid()
    ensures var (t, c, reply) := Step(s, e);
      && t.Valid() && s.socket.arrived <= t.socket.arrived
      && if Resets(e, reply) then t.Unread() == [] && t.socket.arrived == s.socket.arrived
         else s.Unread() + t.socket.arrived[|s.socket.arrived|..]
              == (if e.TakeChar? && c.Char? then [c.c] else []) + t.Unread()
  {
    StepIsSafe(s, e);
    var (t, c, reply) := Step(s, e);
    if e.PeekChar? {
      PeekKeeps(s);
    } else if e.TakeChar? {
      TakeDelivers(s);
    } else if !Resets(e, reply) {
      if e.PutChar? {
        PutSends(s, e.c);
      } else if e.FlushNow? && s.Buffered() {
        OverflowSends(s, Eof);
      }
      SameInput(s, t);
    }
  }

  lemma SameInput(s: Stream, t: Stream)
    requires s.Valid() && t.Valid() && t.Unread() == s.Unread() && t.socket.arrived == s.socket.arrived
    ensures s.Unread() + t.socket.arrived[|s.socket.arrived|..] == [] + t.Unread()
  {
  }

  lemma StepBalancesInput(s: Stream, a: Account, e: Event)
    requires s.Valid() && InputBalances(s, a)
    ensures Step(s, e).0.Valid() && InputBalances(Step(s, e).0, Book(a, s, e))
  {
    InputMoves(s, e);
    var (t, c, reply) := Step(s, e);
    if Resets(e, reply) {
      DropEnd(a.taken, s.Unread(), s.socket.arrived);
      assert a.taken + t.Unread() == a.taken;
    } else {
      var more := t.socket.arrived[|s.socket.arrived|..];
      assert t.socket.arrived == s.socket.arrived + more;
      var read := if e.TakeChar? && c.Char? then [c.c] else [];
      ReadOn(a.taken, s.Unread(), s.socket.arrived, more, read, t.Unread());
      assert a.taken + [] == a.taken;
    }
  }

  lemma ReadOn<T(!new)>(taken: seq<T>, unread: seq<T>, arrived: seq<T>, more: seq<T>, read: seq<T>, left: seq<T>)
    requires Within(taken + unread, arrived) && unread + more == read + left
    ensures Within((taken + read) + left, arrived + more)
  {
    ExtendBoth(taken + unread, arrived, more);
    assert (taken + unread) + more == taken + (unread + more) == (taken + read) + left;
  }

  lemma {:induction false} RunBalancesInput(s: Stream, a: Account, events: seq<Event>)
    requires s.Valid() && InputBalances(s, a)
    ensures InputBalances(Run(s, a, events).0, Run(s, a, events).1)
    decreases |events|
  {
    if events != [] {
      StepBalancesInput(s, a, events[0]);
      var (t, _, reply) := Step(s, events[0]);
      if reply != NoReply {
        RunBalancesInput(t, Book(a, s, events[0]), events[1..]);
      }
    }
  }

  // ---------------------------------------------------------------- from construction

  const EMPTY_ACCOUNT := Account([], 0, 0, [], 0)

  /**
    Over every run of a new stream: if no pending output was lost, every character put is on the wire
    or pending, in order; if no failed flush sent anything, nothing else is; and then the two are
    equal exactly when both hold.
   */
  lemma OutputIsConserved(sends: seq<SendTurn>, recvs: seq<RecvTurn>, events: seq<Event>)
    ensures var start := Constructed(Socket([], [], sends, recvs));
      start.Valid() &&
      var (s, a) := Run(start, EMPTY_ACCOUNT, events);
      && |s.socket.wire| + |s.Pending()| + a.lost == |a.put| + a.resent
      && (a.lost == 0 ==> Within(a.put, s.socket.wire + s.Pending()))
      && (a.resent == 0 ==> Within(s.socket.wire + s.Pending(), a.put))
      && (a.lost == 0 ==> (s.socket.wire + s.Pending() == a.put <==> a.resent == 0))
      && (a.resent == 0 ==> (s.socket.wire + s.Pending() == a.put <==> a.lost == 0))
  {
    var start := Constructed(Socket([], [], sends, recvs));
    assert Out(start) == [];
    RunBalancesOutput(start, EMPTY_ACCOUNT, events);
    var (s, a) := Run(start, EMPTY_ACCOUNT, events);
    if a.lost == 0 { WithinIsShorter(a.put, Out(s)); }
    if a.resent == 0 { WithinIsShorter(Out(s), a.put); }
  }

  /** The characters read, then those unread, are those that arrived: all of them exactly when no reset dropped any. */
  lemma InputIsConserved(sends: seq<SendTurn>, recvs: seq<RecvTurn>, events: seq<Event>)
    ensures var start := Constructed(Socket([], [], sends, recvs));
      start.Valid() &&
      var (s, a) := Run(start, EMPTY_ACCOUNT, events);
      && Within(a.taken + s.Unread(), s.socket.arrived)
      && (a.taken + s.Unread() == s.socket.arrived <==> a.dropped == 0)
  {
    var start := Constructed(Socket([], [], sends, recvs));
    assert EMPTY_ACCOUNT.taken + start.Unread() == [];
    RunBalancesInput(start, EMPTY_ACCOUNT, events);
    var (s, a) := Run(start, EMPTY_ACCOUNT, events);
    WithinIsShorter(a.taken + s.Unread(), s.socket.arrived);
  }

  // ---------------------------------------------------------------- unbuffered mode

  lemma StepStaysUnbuffered(s: Stream, a: Account, e: Event)
    requires s.Valid() && !s.Buffered()
    ensures var t := Step(s, e).0;
      && t.Valid() && !t.Buffered()
      && Book(a, s, e).resent == a.resent && Book(a, s, e).lost == a.lost
  {
  }

  lemma {:induction false} RunStaysUnbuffered(s: Stream, a: Account, events: seq<Event>)
    requires s.Valid() && !s.Buffered()
    ensures var (t, b) := Run(s, a, events);
      !t.Buffered() && b.resent == a.resent && b.lost == a.lost
    decreases |events|
  {
    if events != [] {
      StepStaysUnbuffered(s, a, events[0]);
      var (t, _, reply) := Step(s, events[0]);
      if reply != NoReply {
        RunStaysUnbuffered(t, Book(a, s, events[0]), events[1..]);
      }
    }
  }

  /**
    A stream that is unbuffered before its first put has exactly the characters whose put succeeded
    on the wire, at every moment and through failures, reconnections and moves.
   */
  lemma UnbufferedOutputIsExact(sends: seq<SendTurn>, recvs: seq<RecvTurn>, events: seq<Event>)
    ensures var start := Constructed(Socket([], [], sends, recvs));
      start.Valid() &&
      var (s, a) := Run(start, EMPTY_ACCOUNT, [ChangeBuffer(true)] + events);
      s.socket.wire == a.put && s.Pending() == []
  {
    var start, all := Constructed(Socket([], [], sends, recvs)), [ChangeBuffer(true)] + events;
    OutputIsConserved(sends, recvs, all);
    SetBufNeedsNothingPending(start, true);
    assert all[1..] == events;
    var t := Step(start, all[0]).0;
    assert Book(EMPTY_ACCOUNT, start, all[0]) == EMPTY_ACCOUNT;
    assert Run(start, EMPTY_ACCOUNT, all) == Run(t, EMPTY_ACCOUNT, events);
    RunStaysUnbuffered(t, EMPTY_ACCOUNT, events);
    var (s, a) := Run(t, EMPTY_ACCOUNT, events);
    assert s.Pending() == [] && s.socket.wire + [] == s.socket.wire;
  }

  // ---------------------------------------------------------------- where conservation fails

  /**
    After any failing flush, in any world, the next flush starts again with the first pending character:
    of the pending characters p, the first k have been sent, and now p is, or again a proper prefix of it.
    How many k is, the turns of the first flush say.
   */
  lemma FailedFlushResends(s: Stream)
    requires s.Valid() && Step(s, FlushNow).2 == IsEof
    ensures var (p, k) := (s.Pending(), Flush(|s.Pending()|, s.expiry, s.socket.sends, s.ec).sent);
      var (t, _, _) := Step(s, FlushNow);
      && t.Valid() && t.Pending() == p && k < |p| && t.socket.wire == s.socket.wire + p[..k]
      && (forall j: nat :: SendEndsFirstAt(s.expiry, s.socket.sends, j) ==> k == Accepted(s.socket.sends[..j]))
      && var (u, _, again) := Step(t, FlushNow);
      && u.Valid()
      && (again == NotEof ==> u.Pending() == [] && u.socket.wire == s.socket.wire + p[..k] + p)
      && (again != NotEof ==>
            && u.Pending() == p
            && exists l: nat :: l < |p| && u.socket.wire == s.socket.wire + p[..k] + p[..l])
  {
    OverflowSends(s, Eof);
    var t := Step(s, FlushNow).0;
    OverflowSends(t, Eof);
    forall j: nat | SendEndsFirstAt(s.expiry, s.socket.sends, j)
      ensures Flush(|s.Pending()|, s.expiry, s.socket.sends, s.ec).sent == Accepted(s.socket.sends[..j])
    {
      FlushExactly(|s.Pending()|, s.expiry, s.socket.sends, s.ec, j);
    }
  }
}
