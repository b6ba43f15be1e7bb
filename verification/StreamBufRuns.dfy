/**
  Whole runs of a basic_streambuf. The reference is a plain byte queue with a maximum size; the
  buffer is shown to be indistinguishable from it, however often it compacts, grows or brings the
  get area up to date.
 */
module StreamBufRuns {
  import opened Bytes
  import opened Layout

  /** What a client can do. Receive is the documented protocol: prepare(n), store bytes, commit(k). */
  datatype Op =
    | PutOne(c: byte)
    | PrepareOnly(n: size_t)
    | Receive(n: size_t, bytes: seq<byte>, k: nat)
    | Drop(n: size_t)
    | PeekOne
    | TakeOne
  {
    /** The client stores no more than it asked room for, and commits no more than it stored. */
    ghost predicate WellFormed() {
      Receive? ==> k <= |bytes| <= n
    }
  }

  /** What the client sees of one call. */
  datatype Observation = Threw | Done | Got(c: IntType)

  ghost function Step(s: Layout, op: Op): (Layout, Observation)
    requires s.Valid() && op.WellFormed()
  {
    match op
    case PutOne(c) =>
      var (t, exit) := Overflow(s, Char(c));
      (t, if exit == LengthError then Threw else Done)
    case PrepareOnly(n) =>
      var (t, exit) := Reserve(s, n);
      (t, if exit == LengthError then Threw else Done)
    case Receive(n, bytes, k) =>
      var (t, exit) := Reserve(s, n);
      if exit == LengthError then (t, Threw) else (Commit(Fill(t, bytes), k), Done)
    case Drop(n) =>
      (Consume(s, n), Done)
    case PeekOne =>
      var (t, c) := Peek(s);
      (t, Got(c))
    case TakeOne =>
      var (t, c) := Take(s);
      (t, Got(c))
  }

  // ---------------------------------------------------------------- the reference queue

  ghost function QueueStep(maxSize: size_t, q: seq<byte>, op: Op): (seq<byte>, Observation)
    requires op.WellFormed()
  {
    match op
    case PutOne(c) => if |q| == maxSize then (q, Threw) else (q + [c], Done)
    case PrepareOnly(n) => (q, if |q| + n > maxSize then Threw else Done)
    case Receive(n, bytes, k) => if |q| + n > maxSize then (q, Threw) else (q + bytes[..k], Done)
    case Drop(n) => (q[Min(n, |q|)..], Done)
    case PeekOne => (q, Got(if q == [] then Eof else Char(q[0])))
    case TakeOne => if q == [] then (q, Got(Eof)) else (q[1..], Got(Char(q[0])))
  }

  /** The bytes an operation adds at the back of the queue. */
  ghost function Added(maxSize: size_t, q: seq<byte>, op: Op): seq<byte>
    requires op.WellFormed()
  {
    if QueueStep(maxSize, q, op).1 == Threw then []
    else if op.PutOne? then [op.c]
    else if op.Receive? then op.bytes[..op.k]
    else []
  }

  /** The bytes an operation removes from the front of the queue. */
  ghost function Removed(q: seq<byte>, op: Op): seq<byte> {
    if op.Drop? then q[..Min(op.n, |q|)]
    else if op.TakeOne? && q != [] then [q[0]]
    else []
  }

  // ---------------------------------------------------------------- one step

  /**
    A byte count that is converted to int fits one. Exact by CommitAppendsExactly and
    ConsumeDropsExactly; always true of a buffer whose maximum size fits an int.
   */
  ghost predicate Exact(s: Layout, op: Op)
    requires s.Valid()
  {
    match op
    case Receive(n, bytes, k) => s.Size() + n <= s.maxSize ==> k <= INT_MAX
    case Drop(n) => Min(n, s.Size()) <= INT_MAX
    case _ => true
  }

  /** A prepare() that throws finds nothing to shift over. Exact by SmearKeepsEveryContent. */
  ghost predicate Harmless(s: Layout, op: Op)
    requires s.Valid()
  {
    (op.PrepareOnly? || op.Receive?) && s.Size() + op.n > s.maxSize ==> s.gptr == 0 || s.gptr >= s.Size()
  }

  /** Every operation keeps the invariant, the throwing ones included, and the vector never shrinks. */
  lemma StepIsSound(s: Layout, op: Op)
    requires s.Valid() && op.WellFormed() && Exact(s, op)
    ensures var t := Step(s, op).0;
      t.Valid() && t.Size() <= t.maxSize == s.maxSize && |s.mem| <= |t.mem|
  {
    match op
    case PutOne(c) => PutAppends(s, c);
    case PrepareOnly(n) =>
    case Receive(n, bytes, k) => if s.Size() + n <= s.maxSize { PrepareFillCommit(s, n, bytes, k); }
    case Drop(n) => ConsumeDropsExactly(s, n);
    case PeekOne => TakeIsFirst(s);
    case TakeOne => TakeIsFirst(s);
  }

  lemma ThrowIsHarmless(s: Layout, n: size_t)
    requires s.Valid() && s.Size() + n > s.maxSize && (s.gptr == 0 || s.gptr >= s.Size())
    ensures Reserve(s, n).0.Data() == s.Data()
  {
  }

  /** One call of the buffer is one call of the queue. */
  lemma StepRefines(s: Layout, op: Op)
    requires s.Valid() && op.WellFormed() && Exact(s, op) && Harmless(s, op)
    ensures Step(s, op).0.Valid()
    ensures (Step(s, op).0.Data(), Step(s, op).1) == QueueStep(s.maxSize, s.Data(), op)
  {
    StepIsSound(s, op);
    if op.PutOne? {
      PutAppends(s, op.c);
    } else if op.PrepareOnly? || op.Receive? {
      if s.Size() + op.n > s.maxSize {
        ThrowIsHarmless(s, op.n);
      } else if op.Receive? {
        PrepareFillCommit(s, op.n, op.bytes, op.k);
      }
    } else if op.Drop? {
      ConsumeDropsExactly(s, op.n);
    } else {
      TakeIsFirst(s);
    }
  }

  lemma QueueConserves(maxSize: size_t, q: seq<byte>, op: Op)
    requires op.WellFormed()
    ensures Removed(q, op) + QueueStep(maxSize, q, op).0 == q + Added(maxSize, q, op)
  {
  }

  // ---------------------------------------------------------------- whole runs

  ghost predicate ExactRun(s: Layout, ops: seq<Op>)
    requires s.Valid()
    decreases |ops|
  {
    ops == [] ||
    (&& ops[0].WellFormed() && Exact(s, ops[0])
     && (StepIsSound(s, ops[0]);
         ExactRun(Step(s, ops[0]).0, ops[1..])))
  }

  ghost function Run(s: Layout, ops: seq<Op>): (r: (Layout, seq<Observation>))
    requires s.Valid() && ExactRun(s, ops)
    ensures r.0.Valid() && r.0.Size() <= r.0.maxSize == s.maxSize && |s.mem| <= |r.0.mem|
    decreases |ops|
  {
    if ops == [] then (s, []) else
    StepIsSound(s, ops[0]);
    var (t, seen) := Step(s, ops[0]);
    var (u, more) := Run(t, ops[1..]);
    (u, [seen] + more)
  }

  ghost predicate HarmlessRun(s: Layout, ops: seq<Op>)
    requires s.Valid() && ExactRun(s, ops)
    decreases |ops|
  {
    ops == [] || (Harmless(s, ops[0]) && (StepIsSound(s, ops[0]); HarmlessRun(Step(s, ops[0]).0, ops[1..])))
  }

  ghost function QueueRun(maxSize: size_t, q: seq<byte>, ops: seq<Op>): (seq<byte>, seq<Observation>)
    requires forall op <- ops :: op.WellFormed()
    decreases |ops|
  {
    if ops == [] then (q, []) else
    var (r, seen) := QueueStep(maxSize, q, ops[0]);
    var (u, more) := QueueRun(maxSize, r, ops[1..]);
    (u, [seen] + more)
  }

  lemma {:induction false} ExactRunIsWellFormed(s: Layout, ops: seq<Op>)
    requires s.Valid() && ExactRun(s, ops)
    ensures forall op <- ops :: op.WellFormed()
    decreases |ops|
  {
    if ops != [] {
      StepIsSound(s, ops[0]);
      ExactRunIsWellFormed(Step(s, ops[0]).0, ops[1..]);
      assert ops == [ops[0]] + ops[1..];
    }
  }

  /** FIFO refinement: no client can tell the buffer from the queue. */
  lemma {:induction false} RunRefines(s: Layout, ops: seq<Op>)
    requires s.Valid() && ExactRun(s, ops) && HarmlessRun(s, ops)
    ensures forall op <- ops :: op.WellFormed()
    ensures (Run(s, ops).0.Data(), Run(s, ops).1) == QueueRun(s.maxSize, s.Data(), ops)
    decreases |ops|
  {
    ExactRunIsWellFormed(s, ops);
    if ops != [] {
      StepIsSound(s, ops[0]);
      StepRefines(s, ops[0]);
      RunRefines(Step(s, ops[0]).0, ops[1..]);
    }
  }

  ghost function AllAdded(maxSize: size_t, q: seq<byte>, ops: seq<Op>): seq<byte>
    requires forall op <- ops :: op.WellFormed()
    decreases |ops|
  {
    if ops == [] then []
    else Added(maxSize, q, ops[0]) + AllAdded(maxSize, QueueStep(maxSize, q, ops[0]).0, ops[1..])
  }

  ghost function AllRemoved(maxSize: size_t, q: seq<byte>, ops: seq<Op>): seq<byte>
    requires forall op <- ops :: op.WellFormed()
    decreases |ops|
  {
    if ops == [] then []
    else Removed(q, ops[0]) + AllRemoved(maxSize, QueueStep(maxSize, q, ops[0]).0, ops[1..])
  }

  /** Two conservation laws in sequence make one. */
  lemma Telescope<T>(out0: seq<T>, mid: seq<T>, start: seq<T>, in0: seq<T>, out1: seq<T>, end: seq<T>, in1: seq<T>)
    requires out0 + mid == start + in0 && out1 + end == mid + in1
    ensures (out0 + out1) + end == start + (in0 + in1)
  {
    assert (out0 + out1) + end == out0 + (out1 + end) == (out0 + mid) + in1;
  }

  lemma {:induction false} QueueRunConserves(maxSize: size_t, q: seq<byte>, ops: seq<Op>)
    requires forall op <- ops :: op.WellFormed()
    ensures AllRemoved(maxSize, q, ops) + QueueRun(maxSize, q, ops).0 == q + AllAdded(maxSize, q, ops)
    decreases |ops|
  {
    if ops == [] {
    } else {
      var r := QueueStep(maxSize, q, ops[0]).0;
      QueueConserves(maxSize, q, ops[0]);
      QueueRunConserves(maxSize, r, ops[1..]);
      Telescope(Removed(q, ops[0]), r, q, Added(maxSize, q, ops[0]), AllRemoved(maxSize, r, ops[1..]),
                QueueRun(maxSize, r, ops[1..]).0, AllAdded(maxSize, r, ops[1..]));
    }
  }

  /** The runs the documentation speaks of: every prepare() stays within max_size(). */
  ghost predicate PreparesFit(maxSize: size_t, q: seq<byte>, ops: seq<Op>)
    requires forall op <- ops :: op.WellFormed()
    decreases |ops|
  {
    ops == [] ||
    (&& (ops[0].PrepareOnly? || ops[0].Receive? ==> |q| + ops[0].n <= maxSize)
     && PreparesFit(maxSize, QueueStep(maxSize, q, ops[0]).0, ops[1..]))
  }

  /** In a buffer whose maximum size fits an int, every run of calls is exact. */
  lemma {:induction false} SmallBuffersAreExact(s: Layout, ops: seq<Op>)
    requires s.Valid() && s.maxSize <= INT_MAX && forall op <- ops :: op.WellFormed()
    ensures ExactRun(s, ops)
    decreases |ops|
  {
    if ops != [] {
      assert ops[0] in ops;
      StepIsSound(s, ops[0]);
      SmallBuffersAreExact(Step(s, ops[0]).0, ops[1..]);
    }
  }

  lemma {:induction false} FittingRunsAreHarmless(s: Layout, ops: seq<Op>)
    requires s.Valid() && ExactRun(s, ops) && forall op <- ops :: op.WellFormed()
    requires PreparesFit(s.maxSize, s.Data(), ops)
    ensures HarmlessRun(s, ops)
    decreases |ops|
  {
    if ops != [] {
      StepIsSound(s, ops[0]);
      StepRefines(s, ops[0]);
      FittingRunsAreHarmless(Step(s, ops[0]).0, ops[1..]);
    }
  }

  /** From construction on, the bytes removed so far followed by data() are the bytes added, in order. */
  lemma RunConserves(maxSize: size_t, ops: seq<Op>)
    requires maxSize <= INT_MAX && forall op <- ops :: op.WellFormed()
    requires PreparesFit(maxSize, [], ops)
    ensures Constructed(maxSize).Valid() && ExactRun(Constructed(maxSize), ops)
    ensures AllRemoved(maxSize, [], ops) + Run(Constructed(maxSize), ops).0.Data() == AllAdded(maxSize, [], ops)
  {
    var s := Constructed(maxSize);
    assert s.Data() == [];
    SmallBuffersAreExact(s, ops);
    FittingRunsAreHarmless(s, ops);
    RunRefines(s, ops);
    QueueRunConserves(maxSize, [], ops);
  }

  // ---------------------------------------------------------------- space

  /** Every state of the run holds at most k bytes and every prepare() in it asks for at most n. */
  ghost predicate StaysWithin(s: Layout, ops: seq<Op>, k: nat, n: nat)
    requires s.Valid() && ExactRun(s, ops)
    decreases |ops|
  {
    && s.Size() <= k
    && (ops == [] ||
        (&& (ops[0].PrepareOnly? || ops[0].Receive? ==> ops[0].n <= n)
         && (StepIsSound(s, ops[0]);
             StaysWithin(Step(s, ops[0]).0, ops[1..], k, n))))
  }

  ghost function SpaceBound(maxSize: size_t, k: nat, n: nat): nat {
    Max(Min(maxSize, BUFFER_DELTA), k + Max(n, BUFFER_DELTA))
  }

  lemma StepStaysWithin(s: Layout, op: Op, k: nat, n: nat)
    requires s.Valid() && op.WellFormed() && s.Size() <= k
    requires op.PrepareOnly? || op.Receive? ==> op.n <= n
    ensures Step(s, op).0.epptr <= Max(s.epptr, k + Max(n, BUFFER_DELTA))
  {
  }

  lemma {:induction false} SpaceStaysBounded(s: Layout, ops: seq<Op>, k: nat, n: nat)
    requires s.Valid() && ExactRun(s, ops) && StaysWithin(s, ops, k, n)
    requires s.epptr <= SpaceBound(s.maxSize, k, n)
    ensures Run(s, ops).0.epptr <= SpaceBound(s.maxSize, k, n)
    decreases |ops|
  {
    if ops != [] {
      StepIsSound(s, ops[0]);
      StepStaysWithin(s, ops[0], k, n);
      SpaceStaysBounded(Step(s, ops[0]).0, ops[1..], k, n);
    }
  }

  /** However many bytes pass through, the vector is no longer than its fullest moment needs. */
  lemma SpaceIsBounded(maxSize: size_t, ops: seq<Op>, k: nat, n: nat)
    requires ExactRun(Constructed(maxSize), ops) && StaysWithin(Constructed(maxSize), ops, k, n)
    ensures var t := Run(Constructed(maxSize), ops).0;
      t.epptr <= SpaceBound(maxSize, k, n) && |t.mem| <= Max(SpaceBound(maxSize, k, n), 1)
  {
    SpaceStaysBounded(Constructed(maxSize), ops, k, n);
  }

  // ---------------------------------------------------------------- where the buffer is not a queue

  /** A reachable state in which a throwing prepare() changes the input sequence. */
  lemma ThrowingPrepareCanLoseData()
    ensures var ops := [PutOne(1), PutOne(2), PutOne(3), TakeOne];
      && Constructed(4).Valid() && ExactRun(Constructed(4), ops)
      && var s := Run(Constructed(4), ops).0;
         var (t, seen) := Step(s, PrepareOnly(3));
         s.Data() == [2, 3] && seen == Threw && t.Valid() && t.Data() == [3, 3]
  {
  }

  /** commit() of 2^31 prepared bytes leaves the put position below the start of the vector. */
  lemma HugeCommitBreaksTheBuffer()
    ensures var n := INT_MAX + 1;
      && Constructed(TWO_TO_THE_32).Valid()
      && Reserve(Constructed(TWO_TO_THE_32), n).1 == Returned
      && Commit(Reserve(Constructed(TWO_TO_THE_32), n).0, n).pptr == -n
  {
  }

  const MANY_ZEROS: seq<byte> := seq(INT_MAX, _ => 0)

  /** A reachable state that holds 2^31 bytes: consume() of them all leaves the get position below the vector. */
  lemma HugeConsumeBreaksTheBuffer()
    ensures |MANY_ZEROS| == INT_MAX
    ensures var start, ops := Constructed(TWO_TO_THE_32), [Receive(INT_MAX, MANY_ZEROS, INT_MAX), PutOne(0)];
      && start.Valid() && (forall op <- ops :: op.WellFormed()) && ExactRun(start, ops)
      && var s := Run(start, ops).0;
         s.Valid() && s.Size() == INT_MAX + 1 && Consume(s, INT_MAX + 1).gptr == -(INT_MAX + 1)
  {
    var start := Constructed(TWO_TO_THE_32);
    var filled := Step(start, Receive(INT_MAX, MANY_ZEROS, INT_MAX)).0;
    assert filled.gptr == 0 && filled.pptr == filled.epptr == INT_MAX;
    StepIsSound(start, Receive(INT_MAX, MANY_ZEROS, INT_MAX));
    var s := Step(filled, PutOne(0)).0;
    StepIsSound(filled, PutOne(0));
    assert s.gptr == 0 && s.pptr == INT_MAX + 1;
    var ops := [Receive(INT_MAX, MANY_ZEROS, INT_MAX), PutOne(0)];
    assert ops[1..] == [PutOne(0)] && ops[1..][1..] == [];
    assert ExactRun(s, []) && Run(s, []).0 == s;
    assert ExactRun(filled, ops[1..]) && Run(filled, ops[1..]).0 == s;
  }
}
