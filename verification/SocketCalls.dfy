/**
  The outside world of a socket stream buffer, and the three loops that face it. Every answer of
  the clock and of the socket is arbitrary, within what the calls themselves guarantee: a count
  never exceeds the buffer given, a negative result comes with a nonzero error code, and a result
  that is not negative clears the code.
 */
module SocketCalls {
  import opened Bytes

  datatype Error =
    | NoError | WouldBlock | TryAgain | InProgress | TimedOut | EndOfFile | NotFound | Os(code: int)

  type Failure = e: Error | e != NoError witness TimedOut

  datatype Expiry = Never | At(time: int)

  predicate Expired(expiry: Expiry, now: int) {
    expiry.At? && expiry.time < now
  }

  /** How a call ended, or that the observed part of the world ends while it is still waiting. */
  datatype Ending = Finished | Failed | Waiting

  /** One turn of the flush loop: what the clock, send and poll_write report. */
  datatype SendTurn = SendTurn(now: int, sent: int, sendError: Failure, polled: int, pollError: Failure)

  /** One turn of the fill loop. recv has failed, or it delivers a chunk, or (an empty one) the end of file. */
  datatype RecvTurn =
    RecvTurn(now: int, failed: bool, chunk: seq<byte>, recvError: Failure, polled: int, pollError: Failure)

  /** What each call an attempt to connect to one endpoint could make would report. */
  datatype Attempt =
    Attempt(now: int, openError: Error, connectError: Error, polled: int, pollError: Failure,
            optionFailed: bool, optionError: Failure, socketError: Error)

  predicate Retry(e: Error) {
    e == WouldBlock || e == TryAgain
  }

  // ---------------------------------------------------------------- send

  function SendCount(t: SendTurn, size: nat): int {
    Min(t.sent, size)
  }

  function SendError(t: SendTurn, size: nat): Error {
    if SendCount(t, size) < 0 then t.sendError else NoError
  }

  datatype Flushed = Flushed(sent: nat, end: Ending, ec: Error, rest: seq<SendTurn>)

  /** Sending size bytes, turn by turn. */
  function Flush(size: nat, expiry: Expiry, turns: seq<SendTurn>, ec: Error): (r: Flushed)
    ensures r.sent <= size
    ensures r.end == Finished <==> r.sent == size
    ensures r.end == Waiting ==> r.rest == []
    decreases |turns|
  {
    if size == 0 then Flushed(0, Finished, ec, turns)
    else if turns == [] then Flushed(0, Waiting, ec, [])
    else
      var t, rest := turns[0], turns[1..];
      if expiry.At? && expiry.time < t.now then Flushed(0, Failed, TimedOut, rest)
      else if SendCount(t, size) > 0 then
        var r := Flush(size - SendCount(t, size), expiry, rest, NoError);
        r.(sent := SendCount(t, size) + r.sent)
      else if SendError(t, size) != WouldBlock && SendError(t, size) != TryAgain then
        Flushed(0, Failed, SendError(t, size), rest)
      else if t.polled < 0 then Flushed(0, Failed, t.pollError, rest)
      else Flush(size, expiry, rest, NoError)
  }

  /** A flush that starts to loop carries on as a flush of what is left. */
  ghost predicate Continues(whole: Flushed, sent: nat, left: Flushed) {
    whole == left.(sent := sent + left.sent)
  }

  /** A turn in which the loop gives up, if it still has something to send. */
  ghost predicate SendEnds(expiry: Expiry, t: SendTurn) {
    Expired(expiry, t.now) || t.sent == 0 || (t.sent < 0 && (!Retry(t.sendError) || t.polled < 0))
  }

  /** j is the first such turn, or the number of turns if there is none. */
  ghost predicate SendEndsFirstAt(expiry: Expiry, turns: seq<SendTurn>, j: nat) {
    && j <= |turns| && (forall i :: 0 <= i < j ==> !SendEnds(expiry, turns[i]))
    && (j < |turns| ==> SendEnds(expiry, turns[j]))
  }

  /** How many bytes send would accept in all of these turns. */
  ghost function Accepted(turns: seq<SendTurn>): nat {
    if turns == [] then 0 else Max(0, turns[0].sent) + Accepted(turns[1..])
  }

  /** Why the loop gives up in that turn. It has no error code to show if send has accepted nothing. */
  ghost predicate IsReason(ec: Error, expiry: Expiry, t: SendTurn) {
    && (Expired(expiry, t.now) ==> ec == TimedOut)
    && (!Expired(expiry, t.now) && t.sent == 0 ==> ec == NoError)
    && (!Expired(expiry, t.now) && t.sent < 0 ==> ec == if Retry(t.sendError) then t.pollError else t.sendError)
  }

  lemma FlushGoesOn(size: nat, expiry: Expiry, turns: seq<SendTurn>, ec: Error)
    requires size > 0 && turns != [] && !SendEnds(expiry, turns[0])
    ensures var n := Max(0, SendCount(turns[0], size));
      Continues(Flush(size, expiry, turns, ec), n, Flush(size - n, expiry, turns[1..], NoError))
  {
  }

  lemma FlushStops(size: nat, expiry: Expiry, turns: seq<SendTurn>, ec: Error)
    requires size > 0 && (turns != [] ==> SendEnds(expiry, turns[0]))
    ensures var r := Flush(size, expiry, turns, ec);
      && r.sent == 0 && (r.end == if turns == [] then Waiting else Failed)
      && (turns != [] ==> r.rest == turns[1..] && IsReason(r.ec, expiry, turns[0]))
  {
  }

  lemma SendEndsLater(expiry: Expiry, turns: seq<SendTurn>, j: nat)
    requires j > 0 && SendEndsFirstAt(expiry, turns, j)
    ensures SendEndsFirstAt(expiry, turns[1..], j - 1) && (j < |turns| ==> turns[1..][j..] == turns[j + 1..])
  {
    assert forall i :: 0 <= i < |turns[1..]| ==> turns[1..][i] == turns[i + 1];
  }

  lemma AcceptedSplits(turns: seq<SendTurn>, j: nat)
    requires 0 < j <= |turns|
    ensures Accepted(turns[..j]) == Max(0, turns[0].sent) + Accepted(turns[1..][..j - 1])
  {
    assert turns[..j] == [turns[0]] + turns[1..][..j - 1];
  }

  /**
    How a flush ends: it sends what is accepted before the first turn in which it would give up, finishes
    exactly if that is enough, and otherwise reports why it gave up.
   */
  ghost predicate EndsAs(r: Flushed, size: nat, expiry: Expiry, turns: seq<SendTurn>, ec: Error, j: nat)
    requires j <= |turns|
  {
    var accepted := Accepted(turns[..j]);
    && r.sent == Min(size, accepted)
    && (r.end == Finished <==> accepted >= size)
    && (r.end == Failed <==> accepted < size && j < |turns|)
    && (r.end == Failed ==> j < |turns| && r.rest == turns[j + 1..] && IsReason(r.ec, expiry, turns[j]))
    && (r.end == Finished ==> r.ec == if size == 0 then ec else NoError)
  }

  lemma EndsAlike(whole: Flushed, left: Flushed, n: nat, size: nat, expiry: Expiry, turns: seq<SendTurn>, ec: Error,
                  j: nat)
    requires size > 0 && 0 < j <= |turns| && n == Max(0, SendCount(turns[0], size)) && Continues(whole, n, left)
    requires EndsAs(left, size - n, expiry, turns[1..], NoError, j - 1)
    ensures EndsAs(whole, size, expiry, turns, ec, j)
  {
    AcceptedSplits(turns, j);
    assert j < |turns| ==> turns[1..][j..] == turns[j + 1..];
  }

  lemma {:induction false} FlushExactly(size: nat, expiry: Expiry, turns: seq<SendTurn>, ec: Error, j: nat)
    requires SendEndsFirstAt(expiry, turns, j)
    ensures EndsAs(Flush(size, expiry, turns, ec), size, expiry, turns, ec, j)
    decreases |turns|
  {
    if size == 0 {
    } else if j == 0 {
      FlushStops(size, expiry, turns, ec);
      assert turns[..0] == [];
    } else {
      var n := Max(0, SendCount(turns[0], size));
      assert !SendEnds(expiry, turns[0]);
      SendEndsLater(expiry, turns, j);
      FlushExactly(size - n, expiry, turns[1..], NoError, j - 1);
      FlushGoesOn(size, expiry, turns, ec);
      EndsAlike(Flush(size, expiry, turns, ec), Flush(size - n, expiry, turns[1..], NoError), n, size, expiry, turns,
                ec, j);
    }
  }

  /** A flush that finishes uses up the turns it needs, and no more. */
  lemma {:induction false} FlushUsesWhatItNeeds(size: nat, expiry: Expiry, turns: seq<SendTurn>, ec: Error)
    requires Flush(size, expiry, turns, ec).end == Finished
    ensures var rest := Flush(size, expiry, turns, ec).rest;
      var i := |turns| - |rest|;
      && 0 <= i && rest == turns[i..] && Accepted(turns[..i]) >= size
      && (i > 0 ==> Accepted(turns[..i - 1]) < size)
    decreases |turns|
  {
    if size == 0 {
      assert turns[..0] == [];
    } else {
      var n, more := Max(0, SendCount(turns[0], size)), turns[1..];
      if SendEnds(expiry, turns[0]) { FlushStops(size, expiry, turns, ec); }
      FlushGoesOn(size, expiry, turns, ec);
      FlushUsesWhatItNeeds(size - n, expiry, more, NoError);
      var i := |more| - |Flush(size - n, expiry, more, NoError).rest| + 1;
      assert more[i - 1..] == turns[i..];
      AcceptedSplits(turns, i);
      if i > 1 {
        AcceptedSplits(turns, i - 1);
      } else {
        assert turns[..0] == [];
      }
    }
  }

  lemma FirstSendEnd(expiry: Expiry, turns: seq<SendTurn>) returns (j: nat)
    ensures SendEndsFirstAt(expiry, turns, j)
  {
    j := 0;
    while j < |turns| && !SendEnds(expiry, turns[j])
      invariant j <= |turns| && forall i :: 0 <= i < j ==> !SendEnds(expiry, turns[i])
    {
      j := j + 1;
    }
  }

  /** A flush fails without an error code exactly when it gives up because send accepts nothing, before expiry. */
  lemma FailureIsReported(size: nat, expiry: Expiry, turns: seq<SendTurn>, ec: Error)
    ensures var r := Flush(size, expiry, turns, ec);
      r.end == Failed && r.ec == NoError <==>
        exists j :: 0 <= j < |turns| && SendEndsFirstAt(expiry, turns, j) && Accepted(turns[..j]) < size
                    && !Expired(expiry, turns[j].now) && turns[j].sent == 0
  {
    var j := FirstSendEnd(expiry, turns);
    FlushExactly(size, expiry, turns, ec, j);
    assert forall i: nat :: SendEndsFirstAt(expiry, turns, i) ==> i == j;
  }

  // ---------------------------------------------------------------- recv

  datatype Filled = Filled(chunk: seq<byte>, end: Ending, ec: Error, rest: seq<RecvTurn>)

  function Delivered(t: RecvTurn, room: nat): seq<byte> {
    t.chunk[..Min(|t.chunk|, room)]
  }

  /** Receiving one chunk of at most room bytes, turn by turn. */
  function Fill(room: nat, expiry: Expiry, turns: seq<RecvTurn>, ec: Error): (r: Filled)
    requires room > 0
    ensures |r.chunk| <= room
    ensures r.end == Finished <==> r.chunk != []
    ensures r.end == Failed ==> r.ec != NoError
    ensures r.end == Waiting ==> r.rest == []
    decreases |turns|
  {
    if turns == [] then Filled([], Waiting, ec, [])
    else
      var t, rest := turns[0], turns[1..];
      if expiry.At? && expiry.time < t.now then Filled([], Failed, TimedOut, rest)
      else if !t.failed && t.chunk != [] then Filled(Delivered(t, room), Finished, NoError, rest)
      else if !t.failed then Filled([], Failed, EndOfFile, rest)
      else if t.recvError != WouldBlock && t.recvError != TryAgain then Filled([], Failed, t.recvError, rest)
      else if t.polled < 0 then Filled([], Failed, t.pollError, rest)
      else Fill(room, expiry, rest, NoError)
  }

  /** A turn in which the loop returns. */
  ghost predicate RecvEnds(expiry: Expiry, t: RecvTurn) {
    Expired(expiry, t.now) || !t.failed || !Retry(t.recvError) || t.polled < 0
  }

  /** j is the first such turn, or the number of turns if there is none. */
  ghost predicate RecvEndsFirstAt(expiry: Expiry, turns: seq<RecvTurn>, j: nat) {
    && j <= |turns| && (forall i :: 0 <= i < j ==> !RecvEnds(expiry, turns[i]))
    && (j < |turns| ==> RecvEnds(expiry, turns[j]))
  }

  lemma FirstRecvEnd(expiry: Expiry, turns: seq<RecvTurn>) returns (j: nat)
    ensures RecvEndsFirstAt(expiry, turns, j)
  {
    j := 0;
    while j < |turns| && !RecvEnds(expiry, turns[j])
      invariant j <= |turns| && forall i :: 0 <= i < j ==> !RecvEnds(expiry, turns[i])
    {
      j := j + 1;
    }
  }

  /** How every fill ends: in the first such turn, with its chunk or with its reason. */
  lemma {:induction false} FillExactly(room: nat, expiry: Expiry, turns: seq<RecvTurn>, ec: Error, j: nat)
    requires room > 0 && RecvEndsFirstAt(expiry, turns, j)
    ensures var r := Fill(room, expiry, turns, ec);
      && (r.end == Waiting <==> j == |turns|)
      && (j < |turns| ==>
            var t := turns[j];
            && r.rest == turns[j + 1..]
            && (r.end == Finished <==> !Expired(expiry, t.now) && !t.failed && t.chunk != [])
            && (r.end == Finished ==> r.ec == NoError && r.chunk == t.chunk[..Min(|t.chunk|, room)])
            && (Expired(expiry, t.now) ==> r.ec == TimedOut)
            && (!Expired(expiry, t.now) && !t.failed && t.chunk == [] ==> r.ec == EndOfFile)
            && (!Expired(expiry, t.now) && t.failed ==>
                  r.ec == if Retry(t.recvError) then t.pollError else t.recvError))
    decreases |turns|
  {
    if j > 0 {
      var rest := turns[1..];
      assert !RecvEnds(expiry, turns[0]);
      assert forall i :: 0 <= i < |rest| ==> rest[i] == turns[i + 1];
      assert rest[j - 1..] == turns[j..];
      FillExactly(room, expiry, rest, NoError, j - 1);
    }
  }

  // ---------------------------------------------------------------- termination

  /** The clock never goes back, and advances over every turn in which nothing could be sent. */
  ghost predicate ClockAdvances(turns: seq<SendTurn>) {
    forall i :: 0 < i < |turns| ==>
      turns[i - 1].now + (if turns[i - 1].sent > 0 then 0 else 1) <= turns[i].now
  }

  /**
    With a finite expiry time the flush loop returns: bytes left to send, then ticks left, decrease.
    A world of that many turns cannot still be waiting.
   */
  lemma {:induction false} FlushReturns(size: nat, deadline: int, turns: seq<SendTurn>, ec: Error)
    requires ClockAdvances(turns)
    requires turns != [] ==> |turns| > size + Max(0, deadline - turns[0].now + 1)
    requires turns == [] ==> size == 0
    ensures Flush(size, At(deadline), turns, ec).end != Waiting
    decreases |turns|
  {
    if size > 0 && !Expired(At(deadline), turns[0].now) {
      var t, rest := turns[0], turns[1..];
      assert forall i :: 0 <= i < |rest| ==> rest[i] == turns[i + 1];
      assert rest[0] == turns[1];
      var n := SendCount(t, size);
      if n > 0 {
        FlushReturns(size - n, deadline, rest, NoError);
      } else if Retry(SendError(t, size)) && t.polled >= 0 {
        FlushReturns(size, deadline, rest, NoError);
      }
    }
  }

  lemma {:induction false} FillReturns(room: nat, deadline: int, turns: seq<RecvTurn>, ec: Error)
    requires room > 0 && turns != []
    requires forall i :: 0 < i < |turns| ==> turns[i - 1].now + 1 <= turns[i].now
    requires |turns| > Max(0, deadline - turns[0].now + 1)
    ensures Fill(room, At(deadline), turns, ec).end != Waiting
    decreases |turns|
  {
    var t, rest := turns[0], turns[1..];
    if !Expired(At(deadline), t.now) && t.failed && Retry(t.recvError) && t.polled >= 0 {
      assert forall i :: 0 <= i < |rest| ==> rest[i] == turns[i + 1];
      assert rest[0] == turns[1];
      FillReturns(room, deadline, rest, NoError);
    }
  }

  /** Without an expiry time there is no such bound: a world can keep a flush waiting for any number of turns. */
  lemma {:induction false} FlushCanWait(size: nat, turns: seq<SendTurn>, ec: Error)
    requires size > 0 && forall t <- turns :: t.sent < 0 && t.sendError == WouldBlock && t.polled >= 0
    ensures Flush(size, Never, turns, ec).end == Waiting
    decreases |turns|
  {
    if turns != [] {
      assert turns[0] in turns && forall t <- turns[1..] :: t in turns;
      FlushCanWait(size, turns[1..], NoError);
    }
  }

  // ---------------------------------------------------------------- connect

  /** What one attempt tells the search: to stop, or to try the next endpoint; and the error it leaves. */
  datatype Verdict = Stop(ec: Error) | Next(ec: Error)

  function Judge(expiry: Expiry, a: Attempt): Verdict {
    if expiry.At? && expiry.time < a.now then Stop(TimedOut)
    else if a.openError != NoError then Next(a.openError)
    else if a.connectError == NoError then Stop(NoError)
    else if a.connectError != InProgress && a.connectError != WouldBlock then Next(a.connectError)
    else if a.polled < 0 then Next(a.pollError)
    else if a.optionFailed then Stop(a.optionError)
    else if a.socketError == NoError then Stop(NoError)
    else Next(a.socketError)
  }

  /** The error code a search through the endpoints ends with, when it starts with ec. */
  function Search(expiry: Expiry, attempts: seq<Attempt>, ec: Error): Error {
    if attempts == [] then ec
    else
      var v := Judge(expiry, attempts[0]);
      if v.Stop? then v.ec else Search(expiry, attempts[1..], v.ec)
  }

  /** The calls report a connection: connect() succeeds, or the wait ends and SO_ERROR is clear. */
  ghost predicate Established(a: Attempt) {
    && a.openError == NoError
    && (|| a.connectError == NoError
        || (&& (a.connectError == InProgress || a.connectError == WouldBlock)
            && a.polled > 0 && !a.optionFailed && a.socketError == NoError))
  }

  /** The wait times out; the connection is still being made, so that SO_ERROR is clear as well. */
  ghost predicate TimesOutSilently(a: Attempt) {
    && a.openError == NoError && (a.connectError == InProgress || a.connectError == WouldBlock)
    && a.polled == 0 && !a.optionFailed && a.socketError == NoError
  }

  /** What the search takes for a connection. */
  ghost predicate Connects(a: Attempt) {
    Established(a) || TimesOutSilently(a)
  }

  /** Whether the socket has an established connection when the search returns, and had one before. */
  ghost function IsEstablished(expiry: Expiry, attempts: seq<Attempt>, before: bool): bool {
    if attempts == [] || Expired(expiry, attempts[0].now) then before
    else if Judge(expiry, attempts[0]).Stop? then Established(attempts[0])
    else IsEstablished(expiry, attempts[1..], false)
  }

  /** getsockopt() was reached and failed. */
  ghost predicate OptionFails(a: Attempt) {
    && a.openError == NoError && (a.connectError == InProgress || a.connectError == WouldBlock)
    && a.polled >= 0 && a.optionFailed
  }

  /** The error of the call that failed for this endpoint, if one did. */
  ghost function LastError(a: Attempt): Error {
    if a.openError != NoError then a.openError
    else if a.connectError !in {InProgress, WouldBlock} then a.connectError
    else if a.polled < 0 then a.pollError
    else a.socketError
  }

  /** The attempt ends the search: in success, at expiry, or at a getsockopt failure. */
  ghost predicate Ends(expiry: Expiry, a: Attempt) {
    Expired(expiry, a.now) || Connects(a) || OptionFails(a)
  }

  /** j is the first such attempt, or the number of attempts if there is none. */
  ghost predicate EndsFirstAt(expiry: Expiry, attempts: seq<Attempt>, j: nat) {
    && j <= |attempts| && (forall i :: 0 <= i < j ==> !Ends(expiry, attempts[i]))
    && (j < |attempts| ==> Ends(expiry, attempts[j]))
  }

  lemma FirstEnd(expiry: Expiry, attempts: seq<Attempt>) returns (j: nat)
    ensures EndsFirstAt(expiry, attempts, j)
  {
    j := 0;
    while j < |attempts| && !Ends(expiry, attempts[j])
      invariant j <= |attempts| && forall i :: 0 <= i < j ==> !Ends(expiry, attempts[i])
    {
      j := j + 1;
    }
  }

  /** The error that a search leaves, which starts with ec and is ended by attempt j. */
  ghost predicate IsOutcome(r: Error, expiry: Expiry, attempts: seq<Attempt>, ec: Error, j: nat)
    requires j <= |attempts|
  {
    if attempts == [] then r == ec
    else if j == |attempts| then r != NoError && r == LastError(attempts[j - 1])
    else
      var a := attempts[j];
      && (r == NoError <==> !Expired(expiry, a.now) && Connects(a))
      && (Expired(expiry, a.now) ==> r == TimedOut)
      && (!Expired(expiry, a.now) && OptionFails(a) ==> r == a.optionError)
  }

  /**
    The search is decided by the first attempt that ends it, and only a connection leaves no error.
    If none ends it, what remains is the error of the call that failed for the last endpoint.
   */
  lemma {:induction false} SearchIsDecidedByFirstEnd(expiry: Expiry, attempts: seq<Attempt>, ec: Error, j: nat)
    requires EndsFirstAt(expiry, attempts, j)
    ensures IsOutcome(Search(expiry, attempts, ec), expiry, attempts, ec, j)
    decreases |attempts|
  {
    if j > 0 {
      var rest := attempts[1..];
      assert forall i :: 0 <= i < |rest| ==> rest[i] == attempts[i + 1];
      assert !Ends(expiry, attempts[0]);
      SearchIsDecidedByFirstEnd(expiry, rest, Judge(expiry, attempts[0]).ec, j - 1);
    }
  }

  lemma SearchOutcomes(expiry: Expiry, attempts: seq<Attempt>, ec: Error)
    ensures forall j: nat :: EndsFirstAt(expiry, attempts, j) ==>
      IsOutcome(Search(expiry, attempts, ec), expiry, attempts, ec, j)
  {
    forall j: nat | EndsFirstAt(expiry, attempts, j)
      ensures IsOutcome(Search(expiry, attempts, ec), expiry, attempts, ec, j)
    {
      SearchIsDecidedByFirstEnd(expiry, attempts, ec, j);
    }
  }

  /** Attempt j ends the search, and not because of the expiry time. */
  ghost predicate DecidesSearch(expiry: Expiry, attempts: seq<Attempt>, j: nat) {
    && j < |attempts| && Ends(expiry, attempts[j]) && !Expired(expiry, attempts[j].now)
    && forall i :: 0 <= i < j ==> !Ends(expiry, attempts[i])
  }

  lemma {:induction false} EstablishedAtEnd(expiry: Expiry, attempts: seq<Attempt>, before: bool, j: nat)
    requires DecidesSearch(expiry, attempts, j)
    ensures IsEstablished(expiry, attempts, before) == Established(attempts[j])
    decreases |attempts|
  {
    if j > 0 {
      var rest := attempts[1..];
      assert !Ends(expiry, attempts[0]);
      assert forall i :: 0 <= i < |rest| ==> rest[i] == attempts[i + 1];
      EstablishedAtEnd(expiry, rest, false, j - 1);
    }
  }

  /**
    The search reports success exactly when the attempt that ends it is a connection or a wait that timed
    out. In the first case there is a connection, as documented; in the second there is none.
   */
  lemma {:induction false} SearchSucceedsExactly(expiry: Expiry, attempts: seq<Attempt>, ec: Failure, before: bool)
    ensures Search(expiry, attempts, ec) == NoError && IsEstablished(expiry, attempts, before)
      <==> exists j: nat :: DecidesSearch(expiry, attempts, j) && Established(attempts[j])
    ensures Search(expiry, attempts, ec) == NoError && !IsEstablished(expiry, attempts, before)
      <==> exists j: nat :: DecidesSearch(expiry, attempts, j) && TimesOutSilently(attempts[j])
  {
    var j := FirstEnd(expiry, attempts);
    SearchIsDecidedByFirstEnd(expiry, attempts, ec, j);
    if DecidesSearch(expiry, attempts, j) {
      EstablishedAtEnd(expiry, attempts, before, j);
    }
    assert forall i: nat :: DecidesSearch(expiry, attempts, i) ==> i == j;
  }

  /** One endpoint, in progress until the expiry time: connect() reports success, and there is no connection. */
  lemma TimedOutConnectSucceeds(expiry: Expiry, now: int, pollError: Failure, optionError: Failure, before: bool)
    requires !Expired(expiry, now)
    ensures var attempts := [Attempt(now, NoError, InProgress, 0, pollError, false, optionError, NoError)];
      Search(expiry, attempts, NotFound) == NoError && !IsEstablished(expiry, attempts, before)
  {
  }
}
