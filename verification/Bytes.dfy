/**
 * Bytes and big-endian integers, shared by the wire format and the
 * recording format.
 */
module Bytes {

  type byte = x: int | 0 <= x < 256

  const TWO_TO_16: int := 0x1_0000
  const TWO_TO_24: int := 0x100_0000
  const TWO_TO_32: int := 0x1_0000_0000
  const TWO_TO_64: int := 0x1_0000_0000_0000_0000

  type uint32 = x: int | 0 <= x < 0x1_0000_0000
  type uint64 = x: int | 0 <= x < 0x1_0000_0000_0000_0000

  // The n low-order bytes of v, most significant byte first. Higher bytes of v
  // are cut off, as Go's byte(v >> k) does.
  function BE(n: nat, v: nat): (s: seq<byte>)
    ensures |s| == n
    decreases v, n
  {
    if n == 0 then [] else BE(n - 1, v / 256) + [v % 256]
  }

  function FromBE(s: seq<byte>): nat {
    Value(s, |s|)
  }

  // The value of the first n bytes of s.
  function Value(s: seq<byte>, n: nat): nat
    requires n <= |s|
    decreases s, n
  {
    if n == 0 then 0 else Value(s, n - 1) * 256 + s[n - 1]
  }

  lemma {:induction false} ValuePrefix(s: seq<byte>, t: seq<byte>, n: nat)
    requires n <= |s| && n <= |t| && s[..n] == t[..n]
    ensures Value(s, n) == Value(t, n)
  {
    if n > 0 {
      assert s[..n - 1] == s[..n][..n - 1] == t[..n][..n - 1] == t[..n - 1];
      assert s[n - 1] == s[..n][n - 1] == t[..n][n - 1] == t[n - 1];
      ValuePrefix(s, t, n - 1);
    }
  }

  function Pow256(n: nat): (p: nat)
    ensures p > 0
  {
    if n == 0 then 1 else 256 * Pow256(n - 1)
  }

  lemma Powers()
    ensures Pow256(1) == 256
    ensures Pow256(2) == TWO_TO_16
    ensures Pow256(3) == TWO_TO_24
    ensures Pow256(4) == TWO_TO_32
    ensures Pow256(8) == TWO_TO_64
  {
    assert Pow256(4) == 256 * Pow256(3);
    assert Pow256(8) == 256 * Pow256(7) && Pow256(7) == 256 * Pow256(6) && Pow256(6) == 256 * Pow256(5);
  }

  // Reading back what was written gives the value cut to n bytes.
  lemma {:induction false} ReadWritten(n: nat, v: nat)
    ensures FromBE(BE(n, v)) == v % Pow256(n)
  {
    if n > 0 {
      ReadWritten(n - 1, v / 256);
      ValuePrefix(BE(n, v), BE(n - 1, v / 256), n - 1);
      ModSplit(v, Pow256(n - 1));
    }
  }

  lemma ModSplit(v: nat, p: nat)
    requires p > 0
    ensures v % (256 * p) == (v / 256 % p) * 256 + v % 256
  {
    var q := v / 256;
    var a, b := q / p, q % p;
    assert q == a * p + b;
    assert v == 256 * q + v % 256;
    var r := b * 256 + v % 256;
    assert v == a * (256 * p) + r by {
      assert 256 * (a * p) == a * (256 * p);
    }
    assert 0 <= r < 256 * p by {
      assert b <= p - 1;
      assert b * 256 <= (p - 1) * 256;
    }
    ModUnique(v, 256 * p, a, r);
  }

  lemma ModUnique(v: nat, d: nat, a: nat, r: nat)
    requires d > 0 && r < d && v == a * d + r
    ensures v % d == r
  {
    var q := v / d;
    if q < a {
      MulSplit(d, q, a);
    } else if q > a {
      MulSplit(d, a, q);
    }
  }

  lemma {:induction false} MulSplit(d: nat, small: nat, big: nat)
    requires small < big
    ensures big * d >= small * d + d
  {
    if small + 1 < big {
      MulSplit(d, small, big - 1);
    }
    calc {
      big * d;
      ((big - 1) + 1) * d;
      (big - 1) * d + d;
    }
  }

  // The first byte is the most significant one.
  lemma {:induction false} MostSignificantFirst(b: byte, s: seq<byte>)
    ensures FromBE([b] + s) == b * Pow256(|s|) + FromBE(s)
  {
    if s == [] {
      assert [b] + s == [b] && Value([b], 1) == Value([b], 0) * 256 + b;
    } else {
      var front, last := s[..|s| - 1], s[|s| - 1];
      MostSignificantFirst(b, front);
      ValuePrefix([b] + s, [b] + front, |s|);
      ValuePrefix(s, front, |front|);
      assert FromBE([b] + s) == FromBE([b] + front) * 256 + last;
      assert b * Pow256(|s|) == b * Pow256(|front|) * 256;
    }
  }

  lemma {:induction false} WriteRead(s: seq<byte>)
    ensures FromBE(s) < Pow256(|s|)
    ensures BE(|s|, FromBE(s)) == s
  {
    if s != [] {
      var front, last := s[..|s| - 1], s[|s| - 1];
      WriteRead(front);
      ValuePrefix(s, front, |front|);
      assert FromBE(s) == FromBE(front) * 256 + last;
      assert FromBE(s) / 256 == FromBE(front);
      assert s == front + [last];
    }
  }

  // The widths the formats use.

  lemma Read16(v: nat)
    requires v < TWO_TO_16
    ensures FromBE(BE(2, v)) == v
  {
    ReadWritten(2, v);
    Powers();
  }

  lemma Read24(v: nat)
    requires v < TWO_TO_24
    ensures FromBE(BE(3, v)) == v
  {
    ReadWritten(3, v);
    Powers();
  }

  lemma Read32(v: nat)
    ensures FromBE(BE(4, v)) == v % TWO_TO_32
  {
    ReadWritten(4, v);
    Powers();
  }

  lemma Read32Exact(v: nat)
    requires v < TWO_TO_32
    ensures FromBE(BE(4, v)) == v
  {
    Read32(v);
  }

  lemma Read64(v: uint64)
    ensures FromBE(BE(8, v)) == v
  {
    ReadWritten(8, v);
    Powers();
  }

  lemma Rebuild16(s: seq<byte>)
    requires |s| == 2
    ensures FromBE(s) < TWO_TO_16 && BE(2, FromBE(s)) == s
  {
    WriteRead(s);
    Powers();
  }

  lemma Rebuild24(s: seq<byte>)
    requires |s| == 3
    ensures FromBE(s) < TWO_TO_24 && BE(3, FromBE(s)) == s
  {
    WriteRead(s);
    Powers();
  }

  lemma Rebuild32(s: seq<byte>)
    requires |s| == 4
    ensures FromBE(s) < TWO_TO_32 && BE(4, FromBE(s)) == s
  {
    WriteRead(s);
    Powers();
  }

  lemma Rebuild64(s: seq<byte>)
    requires |s| == 8
    ensures FromBE(s) < TWO_TO_64 && BE(8, FromBE(s)) == s
  {
    WriteRead(s);
    Powers();
  }

  // One flag bit of a byte: bit is 1, 2, 4, ...
  predicate HasBit(b: byte, bit: nat)
    requires bit > 0
  {
    b / bit % 2 == 1
  }
}
