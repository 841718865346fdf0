/**
 * Access units (pubsub/access_unit.go) and orderings on lists of them.
 */
module AccessUnits {
  import opened Bytes

  datatype Option<+T> = None | Some(value: T)

  // One published media unit; `seqNo` is the publisher's Seq counter.
  datatype AccessUnit = AccessUnit(
    bytes: seq<byte>,
    keyframe: bool,
    ptsMicro: uint64,
    seqNo: uint32,
    discontinuity: bool,
    pubWallMicro: uint64)

  function TotalBytes(s: seq<AccessUnit>): nat {
    if s == [] then 0 else |s[0].bytes| + TotalBytes(s[1..])
  }

  lemma {:induction false} TotalBytesAppend(s: seq<AccessUnit>, au: AccessUnit)
    ensures TotalBytes(s + [au]) == TotalBytes(s) + |au.bytes|
  {
    if s == [] {
      assert [] + [au] == [au];
    } else {
      assert (s + [au])[1..] == s[1..] + [au];
      TotalBytesAppend(s[1..], au);
    }
  }

  lemma TotalBytesShift(s: seq<AccessUnit>, au: AccessUnit)
    requires s != []
    ensures TotalBytes(s[1..] + [au]) == TotalBytes(s) - |s[0].bytes| + |au.bytes|
  {
    TotalBytesAppend(s[1..], au);
  }

  function Drop<T>(q: seq<T>, k: nat): seq<T> {
    if k <= |q| then q[k..] else []
  }

  function LastN<T>(s: seq<T>, n: nat): (r: seq<T>)
    ensures |r| == if |s| <= n then |s| else n
  {
    if |s| <= n then s else s[|s| - n..]
  }

  lemma LastNAppend<T>(s: seq<T>, x: T, n: nat)
    requires n >= 1
    ensures LastN(s + [x], n) == Drop(LastN(s, n), if |s| < n then 0 else 1) + [x]
  {}

  // s is a contiguous suffix of h.
  ghost predicate IsSuffix<T>(s: seq<T>, h: seq<T>) {
    |s| <= |h| && forall i :: 0 <= i < |s| ==> s[i] == h[|h| - |s| + i]
  }

  ghost predicate StrictlyAscending(s: seq<AccessUnit>) {
    forall i, j :: 0 <= i < j < |s| ==> s[i].seqNo < s[j].seqNo
  }

  ghost predicate SortedBySeq(s: seq<AccessUnit>) {
    forall i, j :: 0 <= i < j < |s| ==> s[i].seqNo <= s[j].seqNo
  }

  // The access units numbered `from` or higher, in their given order.
  function Since(s: seq<AccessUnit>, from: int): (r: seq<AccessUnit>)
    ensures |r| <= |s|
    ensures forall au :: au in r <==> au in s && au.seqNo >= from
  {
    if s == [] then []
    else
      var rest := Since(s[..|s| - 1], from);
      var last := s[|s| - 1];
      if last.seqNo >= from then rest + [last] else rest
  }

  lemma {:induction false} SinceAscending(s: seq<AccessUnit>, from: int)
    requires StrictlyAscending(s)
    ensures StrictlyAscending(Since(s, from))
  {
    if s != [] {
      var front := s[..|s| - 1];
      SinceAscending(front, from);
      forall au | au in Since(front, from)
        ensures au.seqNo < s[|s| - 1].seqNo
      {
        var i :| 0 <= i < |front| && front[i] == au;
        assert s[i] == au;
      }
    }
  }

  lemma {:induction false} SinceAppend(s: seq<AccessUnit>, t: seq<AccessUnit>, from: int)
    ensures Since(s + t, from) == Since(s, from) + Since(t, from)
  {
    if t == [] {
      assert s + t == s;
    } else {
      assert (s + t)[..|s + t| - 1] == s + t[..|t| - 1];
      SinceAppend(s, t[..|t| - 1], from);
    }
  }

  lemma {:induction false} SinceNone(s: seq<AccessUnit>, from: int)
    requires forall au :: au in s ==> au.seqNo < from
    ensures Since(s, from) == []
  {
    if s != [] {
      assert s[|s| - 1] in s;
      SinceNone(s[..|s| - 1], from);
    }
  }

  lemma {:induction false} SinceAll(s: seq<AccessUnit>, from: int)
    requires forall au :: au in s ==> au.seqNo >= from
    ensures Since(s, from) == s
  {
    if s != [] {
      assert s[|s| - 1] in s;
      SinceAll(s[..|s| - 1], from);
      assert s == s[..|s| - 1] + [s[|s| - 1]];
    }
  }

  // A sorted list and a strictly ascending list with the same elements are the
  // same list: sorting by Seq cannot depend on how ties are broken when there
  // are none.
  lemma {:induction false} SortedIsUnique(s: seq<AccessUnit>, t: seq<AccessUnit>)
    requires StrictlyAscending(s) && SortedBySeq(t)
    requires multiset(s) == multiset(t)
    ensures s == t
  {
    assert |multiset(s)| == |s| && |multiset(t)| == |t|;
    if s != [] {
      var n := |s| - 1;
      LastIsGreatest(s, t);
      var s', t' := s[..n], t[..n];
      assert multiset(s') == multiset(t') by {
        WithoutLast(s);
        WithoutLast(t);
      }
      SortedIsUnique(s', t');
      assert s == s' + [s[n]] && t == t' + [t[n]];
    }
  }

  lemma WithoutLast(s: seq<AccessUnit>)
    requires s != []
    ensures multiset(s[..|s| - 1]) == multiset(s) - multiset{s[|s| - 1]}
  {
    assert s == s[..|s| - 1] + [s[|s| - 1]];
  }

  lemma LastIsGreatest(s: seq<AccessUnit>, t: seq<AccessUnit>)
    requires StrictlyAscending(s) && SortedBySeq(t)
    requires multiset(s) == multiset(t) && s != [] && |s| == |t|
    ensures s[|s| - 1] == t[|t| - 1]
  {
    var n := |s| - 1;
    assert s[n] in multiset(t) && t[n] in multiset(s);
    var i :| 0 <= i < |t| && t[i] == s[n];
    var j :| 0 <= j < |s| && s[j] == t[n];
  }

  // The last keyframe of h.
  function LatestKeyframe(h: seq<AccessUnit>): Option<AccessUnit> {
    LatestAmong(h, |h|)
  }

  // The last keyframe among the first n of h.
  function LatestAmong(h: seq<AccessUnit>, n: nat): Option<AccessUnit>
    requires n <= |h|
    decreases h, n
  {
    if n == 0 then None
    else if h[n - 1].keyframe then Some(h[n - 1])
    else LatestAmong(h, n - 1)
  }

  lemma {:induction false} LatestAmongPrefix(h: seq<AccessUnit>, au: AccessUnit, n: nat)
    requires n <= |h|
    ensures LatestAmong(h + [au], n) == LatestAmong(h, n)
  {
    if n > 0 {
      LatestAmongPrefix(h, au, n - 1);
    }
  }

  lemma LatestKeyframeAppend(h: seq<AccessUnit>, au: AccessUnit)
    ensures LatestKeyframe(h + [au]) == if au.keyframe then Some(au) else LatestKeyframe(h)
  {
    LatestAmongPrefix(h, au, |h|);
  }

  // It is a keyframe of h with no keyframe after it; there is none only if h
  // has no keyframe.
  lemma LatestKeyframeIs(h: seq<AccessUnit>)
    ensures var k := LatestKeyframe(h);
      && (k.Some? ==> exists i :: 0 <= i < |h| && h[i] == k.value && k.value.keyframe && NoKeyframe(h, i + 1, |h|))
      && (k.None? <==> NoKeyframe(h, 0, |h|))
  {
    LatestAmongIs(h, |h|);
  }

  ghost predicate NoKeyframe(h: seq<AccessUnit>, from: nat, to: nat)
    requires to <= |h|
  {
    forall i :: from <= i < to ==> !h[i].keyframe
  }

  lemma {:induction false} LatestAmongIs(h: seq<AccessUnit>, n: nat)
    requires n <= |h|
    ensures var k := LatestAmong(h, n);
      && (k.Some? ==> exists i :: 0 <= i < n && h[i] == k.value && k.value.keyframe && NoKeyframe(h, i + 1, n))
      && (k.None? <==> NoKeyframe(h, 0, n))
  {
    if n > 0 && !h[n - 1].keyframe {
      LatestAmongIs(h, n - 1);
      if LatestAmong(h, n).Some? {
        var i :| 0 <= i < n - 1 && h[i] == LatestAmong(h, n).value && NoKeyframe(h, i + 1, n - 1);
        assert NoKeyframe(h, i + 1, n);
      }
    } else if n > 0 {
      assert NoKeyframe(h, n, n);
    }
  }
}
