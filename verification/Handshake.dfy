/** The challenge that the two ends of a net::Connection put to each other. */
module Handshake {
  import opened Bytes

  datatype Owner = DedicatedServer | DedicatedClient | PeerToPeerNode

  function SwapNibbles(data: bv64): bv64 {
    ((data & 0xF0F0F0F0F0F0F0F0) >> 4) | ((data & 0x0F0F0F0F0F0F0F0F) << 4)
  }

  function Scramble(data: bv64, first: bv64, last: bv64): bv64 {
    SwapNibbles(data ^ first) ^ last
  }

  function Encrypt(owner: Owner, data: bv64): bv64 {
    match owner
    case PeerToPeerNode => Scramble(data, 0xC0DECAFEDEADBEEF, 0x12345678C0DEFACE)
    case _ => Scramble(data, 0xDEADBEEFC0DECAFE, 0xC0DEFACE12345678)
  }

  /** The challenge that a value answers. */
  function Decrypt(owner: Owner, answer: bv64): bv64 {
    match owner
    case PeerToPeerNode => Scramble(answer, 0x12345678C0DEFACE, 0xC0DECAFEDEADBEEF)
    case _ => Scramble(answer, 0xC0DEFACE12345678, 0xDEADBEEFC0DECAFE)
  }

  lemma ScrambleTwice(data: bv64, first: bv64, last: bv64)
    ensures Scramble(Scramble(data, first, last), last, first) == data
  {
  }

  function LowByte(x: bv64): bv8 {
    (x & 0xFF) as bv8
  }

  /** Byte k of a 64-bit value, the lowest first. */
  function ByteOf(x: bv64, k: nat): bv8
    requires k < 8
  {
    match k
    case 0 => LowByte(x)
    case 1 => LowByte(x >> 8)
    case 2 => LowByte(x >> 16)
    case 3 => LowByte(x >> 24)
    case 4 => LowByte(x >> 32)
    case 5 => LowByte(x >> 40)
    case 6 => LowByte(x >> 48)
    case _ => LowByte(x >> 56)
  }

  /** A byte with its two hexadecimal digits exchanged. */
  function SwapDigits(b: bv8): bv8 {
    16 * (b % 16) + b / 16
  }

  /**
    What a dedicated end answers, byte by byte. The bytes of the constants are those of 0xDEADBEEFC0DECAFE
    and 0xC0DEFACE12345678, the lowest first.
   */
  lemma DedicatedAnswer(owner: Owner, x: bv64)
    requires owner != PeerToPeerNode
    ensures ByteOf(Encrypt(owner, x), 0) == SwapDigits(ByteOf(x, 0) ^ 0xFE) ^ 0x78
    ensures ByteOf(Encrypt(owner, x), 1) == SwapDigits(ByteOf(x, 1) ^ 0xCA) ^ 0x56
    ensures ByteOf(Encrypt(owner, x), 2) == SwapDigits(ByteOf(x, 2) ^ 0xDE) ^ 0x34
    ensures ByteOf(Encrypt(owner, x), 3) == SwapDigits(ByteOf(x, 3) ^ 0xC0) ^ 0x12
    ensures ByteOf(Encrypt(owner, x), 4) == SwapDigits(ByteOf(x, 4) ^ 0xEF) ^ 0xCE
    ensures ByteOf(Encrypt(owner, x), 5) == SwapDigits(ByteOf(x, 5) ^ 0xBE) ^ 0xFA
    ensures ByteOf(Encrypt(owner, x), 6) == SwapDigits(ByteOf(x, 6) ^ 0xAD) ^ 0xDE
    ensures ByteOf(Encrypt(owner, x), 7) == SwapDigits(ByteOf(x, 7) ^ 0xDE) ^ 0xC0
  {
  }

  /** What a peer-to-peer node answers. The bytes are those of 0xC0DECAFEDEADBEEF and 0x12345678C0DEFACE. */
  lemma PeerToPeerAnswer(owner: Owner, x: bv64)
    requires owner == PeerToPeerNode
    ensures ByteOf(Encrypt(owner, x), 0) == SwapDigits(ByteOf(x, 0) ^ 0xEF) ^ 0xCE
    ensures ByteOf(Encrypt(owner, x), 1) == SwapDigits(ByteOf(x, 1) ^ 0xBE) ^ 0xFA
    ensures ByteOf(Encrypt(owner, x), 2) == SwapDigits(ByteOf(x, 2) ^ 0xAD) ^ 0xDE
    ensures ByteOf(Encrypt(owner, x), 3) == SwapDigits(ByteOf(x, 3) ^ 0xDE) ^ 0xC0
    ensures ByteOf(Encrypt(owner, x), 4) == SwapDigits(ByteOf(x, 4) ^ 0xFE) ^ 0x78
    ensures ByteOf(Encrypt(owner, x), 5) == SwapDigits(ByteOf(x, 5) ^ 0xCA) ^ 0x56
    ensures ByteOf(Encrypt(owner, x), 6) == SwapDigits(ByteOf(x, 6) ^ 0xDE) ^ 0x34
    ensures ByteOf(Encrypt(owner, x), 7) == SwapDigits(ByteOf(x, 7) ^ 0xC0) ^ 0x12
  {
  }

  /** Different challenges have different answers, and every value is the answer to one. */
  lemma EncryptIsBijective(owner: Owner, x: bv64)
    ensures Decrypt(owner, Encrypt(owner, x)) == x
    ensures Encrypt(owner, Decrypt(owner, x)) == x
  {
    ScrambleTwice(x, 0xC0DECAFEDEADBEEF, 0x12345678C0DEFACE);
    ScrambleTwice(x, 0x12345678C0DEFACE, 0xC0DECAFEDEADBEEF);
    ScrambleTwice(x, 0xDEADBEEFC0DECAFE, 0xC0DEFACE12345678);
    ScrambleTwice(x, 0xC0DEFACE12345678, 0xDEADBEEFC0DECAFE);
  }

  /** A peer-to-peer node never gives the answer that a dedicated server or client would accept. */
  lemma KindsNeverAgree(owner: Owner, challenge: bv64)
    requires owner != PeerToPeerNode
    ensures Encrypt(owner, challenge) != Encrypt(PeerToPeerNode, challenge)
  {
  }

  /** The object representation of a uint64_t. */
  function Word(x: bv64): (s: seq<byte>)
    ensures |s| == 8
  {
    [Octet(x), Octet(x >> 8), Octet(x >> 16), Octet(x >> 24),
     Octet(x >> 32), Octet(x >> 40), Octet(x >> 48), Octet(x >> 56)]
  }

  /** The low eight bits. */
  function Octet(x: bv64): byte {
    ((x & 0xFF) as bv8) as int
  }

  /** A value goes over the wire with its lowest byte first. */
  lemma WordBytes(x: bv64, k: nat)
    requires k < 8
    ensures Word(x)[k] == ByteOf(x, k) as int
  {
  }

  function FromWord(s: seq<byte>): bv64
    requires |s| == 8
  {
    FromOctet(s[0]) | (FromOctet(s[1]) << 8) | (FromOctet(s[2]) << 16) | (FromOctet(s[3]) << 24)
    | (FromOctet(s[4]) << 32) | (FromOctet(s[5]) << 40) | (FromOctet(s[6]) << 48) | (FromOctet(s[7]) << 56)
  }

  function FromOctet(b: byte): bv64 {
    (b as bv8) as bv64
  }

  lemma BitsRoundTrip(v: bv8)
    ensures (v as int) as bv8 == v
  {
  }

  lemma OctetRoundTrip(x: bv64)
    ensures FromOctet(Octet(x)) == x & 0xFF
  {
    BitsRoundTrip((x & 0xFF) as bv8);
  }

  lemma WordRoundTrip(x: bv64)
    ensures FromWord(Word(x)) == x
  {
    OctetRoundTrip(x);
    OctetRoundTrip(x >> 8);
    OctetRoundTrip(x >> 16);
    OctetRoundTrip(x >> 24);
    OctetRoundTrip(x >> 32);
    OctetRoundTrip(x >> 40);
    OctetRoundTrip(x >> 48);
    OctetRoundTrip(x >> 56);
  }

  /** The answer on the wire, for a challenge on the wire. */
  function EncryptWord(owner: Owner, w: seq<byte>): (s: seq<byte>)
    requires |w| == 8
    ensures |s| == 8
  {
    Word(Encrypt(owner, FromWord(w)))
  }

  /** The answer on the wire is the representation of the answer. */
  lemma EncryptWordAnswers(owner: Owner, x: bv64)
    ensures EncryptWord(owner, Word(x)) == Word(Encrypt(owner, x))
  {
    WordRoundTrip(x);
  }

  /** Dedicated ends agree on the answer to every challenge, and never with a peer-to-peer node. */
  lemma AnswersOnTheWire(w: seq<byte>)
    requires |w| == 8
    ensures EncryptWord(DedicatedServer, w) == EncryptWord(DedicatedClient, w)
    ensures EncryptWord(DedicatedServer, w) != EncryptWord(PeerToPeerNode, w)
  {
  }
}
