/** The character and integer types shared by the two stream buffers. */
module Bytes {

  type byte = x: int | 0 <= x < 256

  /** std::size_t on a 64-bit platform: every expression of this type is checked not to wrap. */
  const SIZE_T_LIMIT := 0x1_0000_0000_0000_0000
  type size_t = x: int | 0 <= x < SIZE_T_LIMIT

  const INT_MAX := 0x7FFF_FFFF
  const TWO_TO_THE_32 := 0x1_0000_0000

  /** traits_type::int_type: a character, or the value that is not one. */
  datatype IntType = Eof | Char(c: byte)

  function Min(a: int, b: int): int {
    if a <= b then a else b
  }

  function Max(a: int, b: int): int {
    if a <= b then b else a
  }

  /** static_cast<int>(n) of a size_t: the low 32 bits read as two's complement. */
  function CastToInt(n: size_t): int {
    var low := n % TWO_TO_THE_32;
    if low <= INT_MAX then low else low - TWO_TO_THE_32
  }

  /** s[lo..hi], element by element. */
  ghost function Window(s: seq<byte>, lo: nat, hi: nat): (w: seq<byte>)
    requires lo <= hi <= |s|
    ensures |w| == hi - lo && forall i :: 0 <= i < hi - lo ==> w[i] == s[lo + i]
  {
    seq(hi - lo, i requires 0 <= i < hi - lo => s[lo + i])
  }

  lemma WindowIsSlice(s: seq<byte>, lo: nat, hi: nat)
    requires lo <= hi <= |s|
    ensures Window(s, lo, hi) == s[lo..hi]
  {
  }

  lemma Regroup(a: seq<byte>, b: seq<byte>, c: seq<byte>)
    ensures a + (b + c) == a + b + c
  {
  }
}
