/** The two bulk operations basic_streambuf performs on its vector. */
module Storage {
  import opened Bytes

  /** A vector of size bytes in which the window [g, p) of mem has been copied to the front. */
  ghost function Shifted(mem: seq<byte>, g: nat, p: nat, size: nat): (r: seq<byte>)
    requires g <= p <= |mem| <= size
    ensures |r| == size
    ensures forall i :: 0 <= i < p - g ==> r[i] == mem[g + i]
    ensures forall i :: p - g <= i < |mem| ==> r[i] == mem[i]
  {
    seq(size, i requires 0 <= i < size =>
      if i < p - g then mem[g + i] else if i < |mem| then mem[i] else 0)
  }

  lemma ShiftThenGrow(mem: seq<byte>, g: nat, p: nat, size: nat)
    requires g <= p <= |mem| <= size
    ensures Shifted(Shifted(mem, g, p, |mem|), 0, 0, size) == Shifted(mem, g, p, size)
  {
  }

  /** memmove(a, a + source, count): the ranges may overlap by any amount. */
  method MoveDown(a: array<byte>, source: nat, count: nat)
    requires source + count <= a.Length
    modifies a
    ensures a[..] == Shifted(old(a[..]), source, source + count, a.Length)
  {
    var i := 0;
    while i < count
      invariant 0 <= i <= count
      invariant forall k :: 0 <= k < i ==> a[k] == old(a[source + k])
      invariant forall k :: i <= k < a.Length ==> a[k] == old(a[k])
    {
      a[i] := a[source + i];
      i := i + 1;
    }
  }

  /** vector::resize to a size that is not smaller: the old bytes, then zeros. */
  method Resize(a: array<byte>, size: nat) returns (b: array<byte>)
    requires a.Length <= size
    ensures fresh(b)
    ensures b[..] == Shifted(a[..], 0, 0, size)
  {
    b := new byte[size](_ => 0);
    var i := 0;
    while i < a.Length
      invariant 0 <= i <= a.Length
      invariant forall k :: 0 <= k < i ==> b[k] == a[k]
      invariant forall k :: i <= k < size ==> b[k] == 0
    {
      b[i] := a[i];
      i := i + 1;
    }
  }
}
