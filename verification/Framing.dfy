/**
 * Streams made of encodings laid end to end, for any encoding from which the
 * first item of a stream can be recognised.
 */
module Framing {
  import opened Bytes

  predicate IsPrefix<T(==)>(a: seq<T>, s: seq<T>) {
    |a| <= |s| && s[..|a|] == a
  }

  function Concat<T>(enc: T -> seq<byte>, xs: seq<T>): seq<byte> {
    if xs == [] then [] else enc(xs[0]) + Concat(enc, xs[1..])
  }

  lemma {:induction false} ConcatAppend<T>(enc: T -> seq<byte>, xs: seq<T>, x: T)
    ensures Concat(enc, xs + [x]) == Concat(enc, xs) + enc(x)
  {
    if xs == [] {
      assert [] + [x] == [x];
      assert Concat(enc, [x]) == enc(x) + Concat(enc, []);
    } else {
      assert (xs + [x])[1..] == xs[1..] + [x];
      ConcatAppend(enc, xs[1..], x);
      assert Concat(enc, xs + [x]) == enc(xs[0]) + (Concat(enc, xs[1..]) + enc(x));
    }
  }

  // Two items whose encodings start the same bytes are one item, and bytes that
  // start with an encoding are recognised as holding an item.
  ghost predicate Recognisable<T(!new)>(enc: T -> seq<byte>, ok: T -> bool, holds: seq<byte> -> bool) {
    && (forall x, y, s :: ok(x) && ok(y) && IsPrefix(enc(x), s) && IsPrefix(enc(y), s) ==> x == y)
    && (forall x, s :: ok(x) && IsPrefix(enc(x), s) ==> holds(s))
  }

  // Then a stream has one reading: a list of items and a leftover that holds no
  // further item.
  lemma {:induction false} OneReading<T(!new)>(
      enc: T -> seq<byte>, ok: T -> bool, holds: seq<byte> -> bool,
      xs: seq<T>, ys: seq<T>, a: seq<byte>, b: seq<byte>)
    requires Recognisable(enc, ok, holds)
    requires (forall x :: x in xs ==> ok(x)) && (forall y :: y in ys ==> ok(y))
    requires Concat(enc, xs) + a == Concat(enc, ys) + b && !holds(a) && !holds(b)
    ensures xs == ys && a == b
    decreases |xs|
  {
    var s := Concat(enc, xs) + a;
    assert (xs == [] ==> s == a) && (ys == [] ==> s == b);
    if ys != [] {
      FirstItem(enc, ys, b);
    }
    if xs != [] {
      FirstItem(enc, xs, a);
      if ys != [] {
        assert xs[0] == ys[0];
        OneReading(enc, ok, holds, xs[1..], ys[1..], a, b);
        assert xs == [xs[0]] + xs[1..] && ys == [ys[0]] + ys[1..];
      }
    }
  }

  lemma FirstItem<T>(enc: T -> seq<byte>, xs: seq<T>, a: seq<byte>)
    requires xs != []
    ensures var s := Concat(enc, xs) + a;
      IsPrefix(enc(xs[0]), s) && s[|enc(xs[0])|..] == Concat(enc, xs[1..]) + a
  {
    Associate(enc(xs[0]), Concat(enc, xs[1..]), a);
    Take(enc(xs[0]), Concat(enc, xs[1..]) + a);
  }

  lemma Associate(a: seq<byte>, b: seq<byte>, c: seq<byte>)
    ensures a + b + c == a + (b + c)
  {}

  lemma Take(a: seq<byte>, b: seq<byte>)
    ensures (a + b)[..|a|] == a && (a + b)[|a|..] == b
  {}

  // A stream of items, the last of them cut short, cut again at m: whole items
  // and a part of the next one.
  lemma {:induction false} CutItems<T>(enc: T -> seq<byte>, xs: seq<T>, next: T, n: nat, m: nat) returns (k: nat, p: nat)
    requires forall x :: x in xs + [next] ==> enc(x) != []
    requires n < |enc(next)| && m <= |Concat(enc, xs)| + n
    ensures k <= |xs| && p < |enc((xs + [next])[k])|
    ensures (Concat(enc, xs) + enc(next)[..n])[..m] == Concat(enc, xs[..k]) + enc((xs + [next])[k])[..p]
    decreases |xs|
  {
    if xs == [] {
      k, p := 0, m;
      assert next in xs + [next];
      assert Concat(enc, xs) + enc(next)[..n] == enc(next)[..n];
      assert enc(next)[..n][..m] == enc(next)[..m];
    } else {
      var e, tail := enc(xs[0]), Concat(enc, xs[1..]) + enc(next)[..n];
      assert Concat(enc, xs) + enc(next)[..n] == e + tail;
      CutAt(e, tail, m);
      if m < |e| {
        k, p := 0, m;
      } else {
        assert xs + [next] == [xs[0]] + (xs[1..] + [next]);
        k, p := CutItems(enc, xs[1..], next, n, m - |e|);
        assert xs[..k + 1][1..] == xs[1..][..k];
        assert e + (Concat(enc, xs[1..][..k]) + enc((xs + [next])[k + 1])[..p])
            == Concat(enc, xs[..k + 1]) + enc((xs + [next])[k + 1])[..p];
        k := k + 1;
      }
    }
  }

  // Cutting two pieces laid end to end.
  lemma CutAt(a: seq<byte>, b: seq<byte>, m: nat)
    requires m <= |a| + |b|
    ensures (a + b)[..m] == if m < |a| then a[..m] else a + b[..m - |a|]
  {}
}
