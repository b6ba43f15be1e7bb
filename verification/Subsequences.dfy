/** Subsequences: what remains of b when some of its elements are left out. */
module Subsequences {

  ghost predicate Within<T(!new)>(a: seq<T>, b: seq<T>) {
    a == [] || (b != [] && ((a[0] == b[0] && Within(a[1..], b[1..])) || Within(a, b[1..])))
  }

  lemma {:induction false} WithinItself<T(!new)>(a: seq<T>)
    ensures Within(a, a)
  {
    if a != [] {
      WithinItself(a[1..]);
    }
  }

  lemma {:induction false} WithinIsShorter<T(!new)>(a: seq<T>, b: seq<T>)
    requires Within(a, b)
    ensures |a| <= |b|
    ensures |a| == |b| ==> a == b
    decreases |b|
  {
    if a != [] {
      if a[0] == b[0] && Within(a[1..], b[1..]) {
        WithinIsShorter(a[1..], b[1..]);
        assert a == [a[0]] + a[1..] && b == [b[0]] + b[1..];
      } else {
        WithinIsShorter(a, b[1..]);
      }
    }
  }

  lemma {:induction false} ExtendBoth<T(!new)>(a: seq<T>, b: seq<T>, x: seq<T>)
    requires Within(a, b)
    ensures Within(a + x, b + x)
    decreases |b|
  {
    if b == [] {
      assert a + x == x == b + x;
      WithinItself(x);
    } else {
      assert (b + x)[1..] == b[1..] + x;
      if a != [] && a[0] == b[0] && Within(a[1..], b[1..]) {
        ExtendBoth(a[1..], b[1..], x);
        assert (a + x)[1..] == a[1..] + x;
      } else {
        ExtendBoth(a, b[1..], x);
      }
    }
  }

  lemma {:induction false} DropEnd<T(!new)>(a: seq<T>, x: seq<T>, b: seq<T>)
    requires Within(a + x, b)
    ensures Within(a, b)
    decreases |b|
  {
    if a != [] {
      assert (a + x)[1..] == a[1..] + x;
      if a[0] == b[0] && Within((a + x)[1..], b[1..]) {
        DropEnd(a[1..], x, b[1..]);
      } else {
        DropEnd(a, x, b[1..]);
      }
    }
  }

  lemma {:induction false} PutBefore<T(!new)>(a: seq<T>, x: seq<T>, b: seq<T>)
    requires Within(a, b)
    ensures Within(a, x + b)
    decreases |x|
  {
    if x == [] {
      assert x + b == b;
    } else {
      PutBefore(a, x[1..], b);
      assert (x + b)[1..] == x[1..] + b;
    }
  }

  lemma {:induction false} Insert<T(!new)>(a: seq<T>, u: seq<T>, x: seq<T>, v: seq<T>)
    requires Within(a, u + v)
    ensures Within(a, u + x + v)
    decreases |u|
  {
    if u == [] {
      assert u + v == v && u + x + v == x + v;
      PutBefore(a, x, v);
    } else if a != [] {
      assert (u + v)[1..] == u[1..] + v && (u + x + v)[1..] == u[1..] + x + v;
      if a[0] == u[0] && Within(a[1..], (u + v)[1..]) {
        Insert(a[1..], u[1..], x, v);
      } else {
        Insert(a, u[1..], x, v);
      }
    }
  }
}
