/** net::Message: building and taking apart a message, and its form on the wire. */
module Messages {
  import opened Bytes

  type uint32 = n: int | 0 <= n < TWO_TO_THE_32

  const HEADER_SIZE := 8

  /** The header's id and size, and the body. */
  datatype Message = Message(id: uint32, size: uint32, body: seq<byte>)
  {
    /** The header tells the length of the body. The receiver has nothing else to go by. */
    ghost predicate Framed() {
      size == |body|
    }
  }

  // ---------------------------------------------------------------- operator<< and operator>>

  /** message << data, where data is the object representation of a trivially copyable value. */
  function Push(m: Message, data: seq<byte>): Message {
    m.(size := (m.size + |data|) % TWO_TO_THE_32, body := m.body + data)
  }

  /** message >> data, for a value of n bytes: the message left, and the bytes. */
  function Pop(m: Message, n: nat): (Message, seq<byte>)
    requires n <= |m.body|
  {
    var left := |m.body| - n;
    (m.(size := (m.size - n) % TWO_TO_THE_32, body := m.body[..left]), m.body[left..])
  }

  ghost function PushAll(m: Message, items: seq<seq<byte>>): Message
    decreases |items|
  {
    if items == [] then m else PushAll(Push(m, items[0]), items[1..])
  }

  /** Takes out values of the given lengths, and returns them in the order in which they came out. */
  ghost function PopAll(m: Message, lengths: seq<nat>): (r: (Message, seq<seq<byte>>))
    requires Total(lengths) <= |m.body|
    ensures |r.1| == |lengths| && |r.0.body| == |m.body| - Total(lengths)
    decreases |lengths|
  {
    if lengths == [] then (m, [])
    else
      var (left, item) := Pop(m, lengths[0]);
      var (end, items) := PopAll(left, lengths[1..]);
      (end, [item] + items)
  }

  ghost function Total(lengths: seq<nat>): nat {
    if lengths == [] then 0 else lengths[0] + Total(lengths[1..])
  }

  ghost function Reversed<T>(s: seq<T>): seq<T> {
    if s == [] then [] else Reversed(s[1..]) + [s[0]]
  }

  ghost function Lengths(items: seq<seq<byte>>): seq<nat> {
    if items == [] then [] else Lengths(items[1..]) + [|items[0]|]
  }

  lemma PopUndoesPush(m: Message, data: seq<byte>)
    ensures Pop(Push(m, data), |data|) == (m, data)
  {
  }

  /** A value is taken from the end of the body, and nothing else but the size changes. */
  lemma PopTakesFromTheEnd(m: Message, n: nat)
    requires n <= |m.body|
    ensures var (left, data) := Pop(m, n);
      left.body + data == m.body && |data| == n && left.id == m.id
  {
  }

  lemma {:induction false} TotalOfConcat(a: seq<nat>, b: seq<nat>)
    ensures Total(a + b) == Total(a) + Total(b)
  {
    if a == [] {
      assert a + b == b;
    } else {
      assert (a + b)[1..] == a[1..] + b;
      TotalOfConcat(a[1..], b);
    }
  }

  lemma {:induction false} PopAllOfConcat(m: Message, a: seq<nat>, b: seq<nat>)
    requires Total(a) + Total(b) <= |m.body|
    ensures Total(a + b) <= |m.body| && Total(b) <= |PopAll(m, a).0.body|
    ensures var (mid, first) := PopAll(m, a);
      var (end, second) := PopAll(mid, b);
      PopAll(m, a + b) == (end, first + second)
    decreases |a|
  {
    TotalOfConcat(a, b);
    if a == [] {
      assert a + b == b && [] + PopAll(m, b).1 == PopAll(m, b).1;
    } else {
      var (left, item) := Pop(m, a[0]);
      assert (a + b)[1..] == a[1..] + b;
      PopAllOfConcat(left, a[1..], b);
      var (mid, first) := PopAll(left, a[1..]);
      var second := PopAll(mid, b).1;
      assert [item] + (first + second) == ([item] + first) + second;
    }
  }

  lemma {:induction false} PushAllLength(m: Message, items: seq<seq<byte>>)
    ensures |PushAll(m, items).body| == |m.body| + Total(Lengths(items))
    decreases |items|
  {
    if items != [] {
      PushAllLength(Push(m, items[0]), items[1..]);
      TotalOfConcat(Lengths(items[1..]), [|items[0]|]);
    }
  }

  /** Values come out of a message in the reverse of the order in which they went in, whatever their sizes. */
  lemma {:induction false} LastInFirstOut(m: Message, items: seq<seq<byte>>)
    ensures Total(Lengths(items)) <= |PushAll(m, items).body|
    ensures PopAll(PushAll(m, items), Lengths(items)) == (m, Reversed(items))
    decreases |items|
  {
    PushAllLength(m, items);
    if items == [] {
      assert Lengths(items) == [] && Reversed(items) == [];
    } else {
      var pushed := Push(m, items[0]);
      PushAllLength(pushed, items[1..]);
      LastInFirstOut(pushed, items[1..]);
      TotalOfConcat(Lengths(items[1..]), [|items[0]|]);
      PopAllOfConcat(PushAll(m, items), Lengths(items[1..]), [|items[0]|]);
      PopUndoesPush(m, items[0]);
      assert [|items[0]|][1..] == [];
      assert PopAll(m, []) == (m, []) && [items[0]] + [] == [items[0]];
      assert PopAll(pushed, [|items[0]|]) == (m, [items[0]]);
    }
  }

  /**
    The assert in operator<< cannot fail, since it compares in 64 bits, so the header's size can wrap;
    it goes on telling the length of the body exactly up to 2^32 - 1 bytes.
   */
  lemma PushKeepsFramedExactly(m: Message, data: seq<byte>)
    requires m.Framed()
    ensures Push(m, data).Framed() <==> |m.body| + |data| < TWO_TO_THE_32
    ensures forall n: nat | n <= |m.body| :: Pop(m, n).0.Framed()
  {
  }

  // ---------------------------------------------------------------- the wire

  /** The count bytes of n, the lowest first. */
  function LittleEndian(n: nat, count: nat): (s: seq<byte>)
    ensures |s| == count
  {
    if count == 0 then [] else [Low(n)] + LittleEndian(n / 0x100, count - 1)
  }

  function Low(n: nat): byte {
    n % 0x100
  }

  function FromLittleEndian(s: seq<byte>): (n: nat)
    ensures n < Span(|s|)
    decreases |s|
  {
    if s == [] then 0 else
    var low: nat, high := s[0], FromLittleEndian(s[1..]);
    low + 0x100 * high
  }

  /** How many values fit in so many bytes. */
  function Span(count: nat): nat {
    if count == 0 then 1 else 0x100 * Span(count - 1)
  }

  lemma SpanOf4()
    ensures Span(4) == TWO_TO_THE_32
  {
  }

  lemma {:induction false} LittleEndianRoundTrip(n: nat, count: nat)
    requires n < Span(count)
    ensures FromLittleEndian(LittleEndian(n, count)) == n
  {
    if count > 0 {
      LittleEndianRoundTrip(n / 0x100, count - 1);
      assert LittleEndian(n, count)[1..] == LittleEndian(n / 0x100, count - 1);
    }
  }

  lemma {:induction false} FromLittleEndianRoundTrip(s: seq<byte>)
    ensures LittleEndian(FromLittleEndian(s), |s|) == s
    decreases |s|
  {
    if s != [] {
      DivideByOctet(s[0], FromLittleEndian(s[1..]));
      FromLittleEndianRoundTrip(s[1..]);
      assert s == [s[0]] + s[1..];
    }
  }

  lemma DivideByOctet(low: nat, high: nat)
    requires low < 0x100
    ensures (low + 0x100 * high) / 0x100 == high && Low(low + 0x100 * high) == low
  {
  }

  function Header(m: Message): (s: seq<byte>)
    ensures |s| == HEADER_SIZE
  {
    LittleEndian(m.id, 4) + LittleEndian(m.size, 4)
  }

  /** What the receiver makes of eight bytes: a header, with no body yet. */
  function ParseHeader(s: seq<byte>): Message
    requires |s| == HEADER_SIZE
  {
    SpanOf4();
    Message(FromLittleEndian(s[..4]), FromLittleEndian(s[4..]), [])
  }

  function Encode(m: Message): seq<byte> {
    Header(m) + m.body
  }

  ghost function EncodeAll(ms: seq<Message>): seq<byte> {
    if ms == [] then [] else Encode(ms[0]) + EncodeAll(ms[1..])
  }

  /** The id comes first and then the size, each with its lowest byte first. */
  lemma HeaderLayout(m: Message)
    ensures var h := Header(m);
      && m.id == FourBytes(h[..4])
      && m.size == FourBytes(h[4..])
  {
    assert Header(m)[..4] == LittleEndian(m.id, 4) && Header(m)[4..] == LittleEndian(m.size, 4);
    LittleEndianIsFourBytes(m.id);
    LittleEndianIsFourBytes(m.size);
  }

  function FourBytes(s: seq<byte>): int
    requires |s| == 4
  {
    var b0: int, b1: int, b2: int, b3: int := s[0], s[1], s[2], s[3];
    b0 + 0x100 * b1 + 0x10000 * b2 + 0x1000000 * b3
  }

  lemma LittleEndianIsFourBytes(n: uint32)
    ensures FourBytes(LittleEndian(n, 4)) == n
  {
    var a, b, c := n / 0x100, n / 0x100 / 0x100, n / 0x100 / 0x100 / 0x100;
    assert LittleEndian(c, 1) == [Low(c)];
    assert LittleEndian(b, 2) == [Low(b)] + LittleEndian(c, 1);
    assert LittleEndian(a, 3) == [Low(a)] + LittleEndian(b, 2);
    assert LittleEndian(n, 4) == [Low(n)] + LittleEndian(a, 3);
  }

  lemma HeaderRoundTrip(m: Message)
    ensures ParseHeader(Header(m)) == Message(m.id, m.size, [])
  {
    SpanOf4();
    assert Header(m)[..4] == LittleEndian(m.id, 4) && Header(m)[4..] == LittleEndian(m.size, 4);
    LittleEndianRoundTrip(m.id, 4);
    LittleEndianRoundTrip(m.size, 4);
  }

  lemma ParseHeaderRoundTrip(s: seq<byte>)
    requires |s| == HEADER_SIZE
    ensures Header(ParseHeader(s)) == s
  {
    FromLittleEndianRoundTrip(s[..4]);
    FromLittleEndianRoundTrip(s[4..]);
    assert s == s[..4] + s[4..];
  }

  /** The reading of one message from a stream: eight bytes, then as many as they announce. */
  function ReadOne(s: seq<byte>): (r: (bool, Message, seq<byte>))
  {
    if |s| < HEADER_SIZE then (false, Message(0, 0, []), s)
    else
      var h := ParseHeader(s[..HEADER_SIZE]);
      if |s| < HEADER_SIZE + h.size then (false, Message(0, 0, []), s)
      else (true, h.(body := s[HEADER_SIZE..HEADER_SIZE + h.size]), s[HEADER_SIZE + h.size..])
  }

  /** A message is read back as it was written, and no more is read, exactly when its header is right. */
  lemma ReadBackExactly(m: Message, rest: seq<byte>)
    ensures ReadOne(Encode(m) + rest) == (true, m, rest) <==> m.Framed()
  {
    var s := Encode(m) + rest;
    assert s[..HEADER_SIZE] == Header(m);
    HeaderRoundTrip(m);
    if m.Framed() {
      assert s[HEADER_SIZE..HEADER_SIZE + m.size] == m.body && s[HEADER_SIZE + m.size..] == rest;
    }
  }

  lemma {:induction false} EncodeAllOfConcat(a: seq<Message>, b: seq<Message>)
    ensures EncodeAll(a + b) == EncodeAll(a) + EncodeAll(b)
  {
    if a == [] {
      assert a + b == b;
    } else {
      assert (a + b)[1..] == a[1..] + b;
      EncodeAllOfConcat(a[1..], b);
    }
  }

  /**
    The form on the wire is a prefix code: if what one side read, followed by anything, is what the
    other wrote, then the messages read are the first of those written.
   */
  lemma {:induction false} ReadIsPrefixOfWritten(read: seq<Message>, tail: seq<byte>, written: seq<Message>)
    requires forall m <- read :: m.Framed()
    requires forall m <- written :: m.Framed()
    requires EncodeAll(read) + tail == EncodeAll(written)
    ensures read <= written && tail == EncodeAll(written[|read|..])
  {
    if read == [] {
      assert tail == EncodeAll(written) && written[0..] == written;
    } else {
      assert |EncodeAll(written)| > 0 && written != [];
      var r, w := EncodeAll(read[1..]) + tail, EncodeAll(written[1..]);
      assert read[0] in read && written[0] in written;
      assert EncodeAll(read) + tail == Encode(read[0]) + r;
      ReadBackExactly(read[0], r);
      ReadBackExactly(written[0], w);
      assert forall m <- read[1..] :: m in read;
      assert forall m <- written[1..] :: m in written;
      ReadIsPrefixOfWritten(read[1..], tail, written[1..]);
      assert read == [read[0]] + read[1..] && written == [written[0]] + written[1..];
      assert written[|read|..] == written[1..][|read[1..]|..];
    }
  }
}
