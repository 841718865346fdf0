/**
 * One subscriber's bounded queue (Receiver in pubsub/broadcaster.go).
 *
 * Rx is the state of a receiver as a value; the functions on it say what one
 * atomic operation does. The class Receiver is the mutable object; each of its
 * methods is tied to those functions.
 *
 * A publisher holds the receiver's lock while it sends, but a consumer takes
 * from the channel without the lock. A Race says how many entries a consumer
 * takes inside one send: between finding the queue full and evicting, and
 * between evicting and sending again.
 */
module Receivers {
  import opened Bytes
  import opened AccessUnits

  datatype Rx = Rx(queue: seq<AccessUnit>, cap: nat, needKeyframe: bool, closed: bool)

  datatype Race = Race(beforeEvict: nat, beforeRetry: nat)

  // What is left of a full queue when the second send is tried.
  function MadeRoom(q: seq<AccessUnit>, race: Race): seq<AccessUnit> {
    Drop(Drop(Drop(q, race.beforeEvict), 1), race.beforeRetry)
  }

  // In closed form: the consumer's takes and one eviction, no more.
  lemma MadeRoomIs(q: seq<AccessUnit>, race: Race)
    ensures MadeRoom(q, race) == Drop(q, race.beforeEvict + 1 + race.beforeRetry)
  {}

  // The state of a fresh receiver: seeded with the cached keyframe if there is
  // one, else waiting for a keyframe unless the track is self-contained.
  function Subscribed(latest: Option<AccessUnit>, cap: nat, selfContained: bool): Rx {
    if latest.Some? then Rx([latest.value], cap, false, false)
    else Rx([], cap, !selfContained, false)
  }

  function OfferSelfContained(rx: Rx, au: AccessUnit, race: Race): Rx {
    if rx.closed then rx
    else if |rx.queue| < rx.cap then rx.(queue := rx.queue + [au])
    else rx.(queue := MadeRoom(rx.queue, race) + [au])
  }

  function OfferVideo(rx: Rx, au: AccessUnit, race: Race): Rx {
    if rx.closed || (rx.needKeyframe && !au.keyframe) then rx
    else if |rx.queue| < rx.cap then rx.(queue := rx.queue + [au], needKeyframe := false)
    else if au.keyframe then rx.(queue := MadeRoom(rx.queue, race) + [au], needKeyframe := false)
    else rx.(needKeyframe := true)
  }

  function Offer(rx: Rx, au: AccessUnit, selfContained: bool, race: Race): Rx {
    if selfContained then OfferSelfContained(rx, au, race) else OfferVideo(rx, au, race)
  }

  // ---- Splicing ----

  // The map a splice builds: for every Seq the last access unit that has it.
  function BySeq(s: seq<AccessUnit>): map<uint32, AccessUnit> {
    if s == [] then map[]
    else
      var last := s[|s| - 1];
      BySeq(s[..|s| - 1])[last.seqNo := last]
  }

  lemma {:induction false} BySeqHolds(s: seq<AccessUnit>)
    ensures forall n :: n in BySeq(s) ==> BySeq(s)[n] in s && BySeq(s)[n].seqNo == n
    ensures forall au :: au in s ==> au.seqNo in BySeq(s)
  {
    if s != [] {
      BySeqHolds(s[..|s| - 1]);
      assert s == s[..|s| - 1] + [s[|s| - 1]];
    }
  }

  lemma BySeqAppend(s: seq<AccessUnit>, au: AccessUnit)
    ensures BySeq(s + [au]) == BySeq(s)[au.seqNo := au]
  {
    assert (s + [au])[..|s|] == s;
  }

  // `out` lists the values of m, in ascending order of Seq.
  ghost predicate Enumerates(out: seq<AccessUnit>, m: map<uint32, AccessUnit>) {
    && StrictlyAscending(out)
    && (forall i :: 0 <= i < |out| ==> out[i].seqNo in m && m[out[i].seqNo] == out[i])
    && (forall n :: n in m ==> m[n] in out)
  }

  // A splice of `prefix` in front of rx, current entries winning over prefix
  // entries with the same Seq.
  ghost predicate Spliced(rx: Rx, prefix: seq<AccessUnit>, after: Rx) {
    if prefix == [] || rx.closed then after == rx
    else exists merged ::
           && Enumerates(merged, BySeq(prefix + rx.queue))
           && after == rx.(queue := LastN(merged, rx.cap))
  }

  // What a splice may keep: a queue entry, or a prefix entry whose Seq the queue
  // does not have.
  ghost predicate MayStay(rx: Rx, prefix: seq<AccessUnit>, x: AccessUnit) {
    x in rx.queue || (x in prefix && forall y :: y in rx.queue ==> y.seqNo != x.seqNo)
  }

  // What a splice keeps, when neither list has a Seq twice: of all that may stay, in
  // ascending order, the newest that fit; so all of it while there is room.
  lemma SpliceKeepsNewest(rx: Rx, prefix: seq<AccessUnit>, after: Rx)
    requires Spliced(rx, prefix, after) && prefix != [] && !rx.closed
    requires DistinctSeqs(prefix) && DistinctSeqs(rx.queue)
    ensures StrictlyAscending(after.queue) && |after.queue| <= rx.cap
    ensures forall x :: x in after.queue ==> MayStay(rx, prefix, x)
    ensures forall x, y :: MayStay(rx, prefix, x) && x !in after.queue && y in after.queue ==> x.seqNo < y.seqNo
    ensures forall x :: MayStay(rx, prefix, x) && x !in after.queue ==> |after.queue| == rx.cap
    ensures |prefix| + |rx.queue| <= rx.cap ==> forall x :: MayStay(rx, prefix, x) ==> x in after.queue
  {
    var all := prefix + rx.queue;
    var merged :| Enumerates(merged, BySeq(all)) && after == rx.(queue := LastN(merged, rx.cap));
    MergeSize(merged, all);
    forall x
      ensures x in merged <==> MayStay(rx, prefix, x)
    {
      MergedIff(rx, prefix, merged, x);
    }
    NewestKept(merged, rx.cap);
  }

  lemma NewestKept(merged: seq<AccessUnit>, cap: nat)
    requires StrictlyAscending(merged)
    ensures StrictlyAscending(LastN(merged, cap))
    ensures forall x :: x in LastN(merged, cap) ==> x in merged
    ensures forall x, y :: x in merged && x !in LastN(merged, cap) && y in LastN(merged, cap) ==> x.seqNo < y.seqNo
  {
    var kept := LastN(merged, cap);
    var gone := merged[..|merged| - |kept|];
    assert merged == gone + kept;
    AscendingParts(gone, kept);
  }

  lemma AscendingParts(a: seq<AccessUnit>, b: seq<AccessUnit>)
    requires StrictlyAscending(a + b)
    ensures StrictlyAscending(b)
    ensures forall x, y :: x in a && y in b ==> x.seqNo < y.seqNo
  {
    var s := a + b;
    assert forall j :: 0 <= j < |b| ==> s[|a| + j] == b[j];
    forall x, y | x in a && y in b
      ensures x.seqNo < y.seqNo
    {
      var i :| 0 <= i < |a| && a[i] == x;
      var j :| 0 <= j < |b| && b[j] == y;
      assert s[i].seqNo < s[|a| + j].seqNo;
    }
  }

  lemma MergedIff(rx: Rx, prefix: seq<AccessUnit>, merged: seq<AccessUnit>, x: AccessUnit)
    requires Enumerates(merged, BySeq(prefix + rx.queue)) && DistinctSeqs(prefix) && DistinctSeqs(rx.queue)
    ensures x in merged <==> MayStay(rx, prefix, x)
  {
    var all := prefix + rx.queue;
    BySeqHolds(all);
    if x in rx.queue {
      QueueEntryWins(prefix, rx.queue, x);
      assert BySeq(all)[x.seqNo] in merged;
    } else if MayStay(rx, prefix, x) {
      PrefixEntryStays(prefix, rx.queue, x);
      assert BySeq(all)[x.seqNo] in merged;
    } else if x in merged {
      assert BySeq(all)[x.seqNo] == x && x in all;
      forall y | y in rx.queue
        ensures y.seqNo != x.seqNo
      {
        QueueEntryWins(prefix, rx.queue, y);
      }
    }
  }

  ghost predicate DistinctSeqs(s: seq<AccessUnit>) {
    forall i, j :: 0 <= i < j < |s| ==> s[i].seqNo != s[j].seqNo
  }

  // The entry at k stands in the map when no later entry has its Seq.
  lemma {:induction false} LastWins(s: seq<AccessUnit>, k: nat)
    requires k < |s| && forall j :: k < j < |s| ==> s[j].seqNo != s[k].seqNo
    ensures s[k].seqNo in BySeq(s) && BySeq(s)[s[k].seqNo] == s[k]
  {
    var front := s[..|s| - 1];
    if k < |front| {
      assert front[k] == s[k] && s[|s| - 1].seqNo != s[k].seqNo;
      LastWins(front, k);
    }
  }

  lemma QueueEntryWins(prefix: seq<AccessUnit>, queue: seq<AccessUnit>, x: AccessUnit)
    requires DistinctSeqs(queue) && x in queue
    ensures x.seqNo in BySeq(prefix + queue) && BySeq(prefix + queue)[x.seqNo] == x
  {
    var i :| 0 <= i < |queue| && queue[i] == x;
    var all := prefix + queue;
    forall j | |prefix| + i < j < |all|
      ensures all[j].seqNo != all[|prefix| + i].seqNo
    {
      assert all[j] == queue[j - |prefix|];
    }
    LastWins(all, |prefix| + i);
  }

  lemma PrefixEntryStays(prefix: seq<AccessUnit>, queue: seq<AccessUnit>, x: AccessUnit)
    requires DistinctSeqs(prefix) && x in prefix && forall y :: y in queue ==> y.seqNo != x.seqNo
    ensures x.seqNo in BySeq(prefix + queue) && BySeq(prefix + queue)[x.seqNo] == x
  {
    var i :| 0 <= i < |prefix| && prefix[i] == x;
    var all := prefix + queue;
    forall j | i < j < |all|
      ensures all[j].seqNo != all[i].seqNo
    {
      assert if j < |prefix| then all[j] == prefix[j] else all[j] in queue;
    }
    LastWins(all, i);
  }

  // A merge is no longer than what went into it.
  lemma MergeSize(merged: seq<AccessUnit>, all: seq<AccessUnit>)
    requires Enumerates(merged, BySeq(all))
    ensures |merged| <= |all|
  {
    BySeqHolds(all);
    forall x
      ensures multiset(merged)[x] <= multiset(all)[x]
    {
      CountOnce(merged, x);
    }
    assert multiset(all) == multiset(merged) + (multiset(all) - multiset(merged));
    assert |multiset(all)| == |all| && |multiset(merged)| == |merged|;
  }

  // The order in which a map is iterated cannot show: there is one enumeration.
  lemma EnumerationIsUnique(a: seq<AccessUnit>, b: seq<AccessUnit>, m: map<uint32, AccessUnit>)
    requires Enumerates(a, m) && Enumerates(b, m)
    ensures a == b
  {
    DistinctMultiset(a, b);
    assert multiset(a) == multiset(b);
    SortedIsUnique(a, b);
  }

  lemma DistinctMultiset(a: seq<AccessUnit>, b: seq<AccessUnit>)
    requires StrictlyAscending(a) && StrictlyAscending(b)
    requires forall x :: x in a <==> x in b
    ensures multiset(a) == multiset(b)
  {
    forall x
      ensures multiset(a)[x] == multiset(b)[x]
    {
      CountOnce(a, x);
      CountOnce(b, x);
    }
  }

  lemma {:induction false} CountOnce(a: seq<AccessUnit>, x: AccessUnit)
    requires StrictlyAscending(a)
    ensures multiset(a)[x] == if x in a then 1 else 0
  {
    if a != [] {
      var front, last := a[..|a| - 1], a[|a| - 1];
      assert a == front + [last];
      CountOnce(front, x);
      if x in front {
        var i :| 0 <= i < |front| && front[i] == x;
        assert a[i].seqNo < a[|a| - 1].seqNo;
      }
    }
  }

  // sort.Slice on Seq: a sorted permutation. Nothing is promised about ties.
  method SortBySeq(s: seq<AccessUnit>) returns (t: seq<AccessUnit>)
    ensures SortedBySeq(t) && multiset(t) == multiset(s)
  {
    t := [];
    for i := 0 to |s|
      invariant SortedBySeq(t) && multiset(t) == multiset(s[..i])
    {
      assert s[..i + 1] == s[..i] + [s[i]];
      t := InsertBySeq(t, s[i]);
    }
    assert s[..|s|] == s;
  }

  method InsertBySeq(t: seq<AccessUnit>, au: AccessUnit) returns (u: seq<AccessUnit>)
    requires SortedBySeq(t)
    ensures SortedBySeq(u) && multiset(u) == multiset(t) + multiset{au}
  {
    var k := |t|;
    while k > 0 && t[k - 1].seqNo > au.seqNo
      invariant 0 <= k <= |t|
      invariant k < |t| ==> t[k].seqNo > au.seqNo
    {
      k := k - 1;
    }
    u := t[..k] + [au] + t[k..];
    InsertKeepsOrder(t, k, au);
    InsertAddsOne(t, k, au);
  }

  lemma InsertAddsOne(t: seq<AccessUnit>, k: nat, au: AccessUnit)
    requires k <= |t|
    ensures multiset(t[..k] + [au] + t[k..]) == multiset(t) + multiset{au}
  {
    assert t == t[..k] + t[k..];
  }

  lemma InsertKeepsOrder(t: seq<AccessUnit>, k: nat, au: AccessUnit)
    requires SortedBySeq(t) && k <= |t|
    requires k < |t| ==> t[k].seqNo > au.seqNo
    requires k > 0 ==> t[k - 1].seqNo <= au.seqNo
    ensures SortedBySeq(t[..k] + [au] + t[k..])
  {
    var u := t[..k] + [au] + t[k..];
    assert forall i :: 0 <= i < k ==> u[i] == t[i] && u[i].seqNo <= au.seqNo;
    assert forall i :: k < i < |u| ==> u[i] == t[i - 1] && u[i].seqNo >= au.seqNo;
  }

  class Receiver {
    const cap: nat
    var ch: seq<AccessUnit>
    var closed: bool
    var needKeyframe: bool

    // make(chan AccessUnit, chanSize)
    constructor (chanSize: nat)
      ensures View() == Rx([], chanSize, false, false)
    {
      cap := chanSize;
      ch, closed, needKeyframe := [], false, false;
    }

    ghost function View(): Rx
      reads this
    {
      Rx(ch, cap, needKeyframe, closed)
    }

    ghost predicate Valid()
      reads this
    {
      cap >= 1 && |ch| <= cap
    }

    // select { case r.ch <- au: default: }
    method TrySend(au: AccessUnit) returns (ok: bool)
      requires Valid()
      modifies this`ch
      ensures Valid() && ok == (|old(ch)| < cap)
      ensures ch == if ok then old(ch) + [au] else old(ch)
    {
      ok := |ch| < cap;
      if ok {
        ch := ch + [au];
      }
    }

    // select { case <-r.ch: default: }, done k times
    method TryReceive(k: nat)
      requires Valid()
      modifies this`ch
      ensures Valid() && ch == Drop(old(ch), k)
    {
      for i := 0 to k
        invariant Valid() && ch == Drop(old(ch), i)
      {
        if |ch| > 0 {
          ch := ch[1..];
        }
      }
    }

    method RequestKeyframe()
      modifies this`needKeyframe
      ensures needKeyframe
    {
      needKeyframe := true;
    }

    // The body of the fanout loop in Publish, for one receiver.
    method Send(au: AccessUnit, selfContained: bool, race: Race)
      requires Valid()
      modifies this
      ensures Valid() && View() == Offer(old(View()), au, selfContained, race)
      ensures closed == old(closed)
      ensures old(closed) ==> ch == old(ch) && needKeyframe == old(needKeyframe)
      ensures !closed && |old(ch)| < cap && (selfContained || au.keyframe || !old(needKeyframe)) ==>
                ch == old(ch) + [au]
      ensures !closed && |old(ch)| == cap && (selfContained || au.keyframe) ==>
                ch == Drop(old(ch), race.beforeEvict + 1 + race.beforeRetry) + [au]
      ensures !closed && !selfContained && !au.keyframe && (old(needKeyframe) || |old(ch)| == cap) ==>
                ch == old(ch) && needKeyframe
      ensures !closed && !selfContained && (au.keyframe || ch != old(ch)) ==> !needKeyframe
      ensures selfContained ==> needKeyframe == old(needKeyframe)
    {
      if closed {
        return;
      }
      if selfContained {
        var sent := TrySend(au);
        if !sent {
          EvictAndSend(au, race);
        }
        return;
      }
      if needKeyframe && !au.keyframe {
        return;
      }
      var sent := TrySend(au);
      if sent {
        if au.keyframe {
          needKeyframe := false;
        }
      } else if au.keyframe {
        EvictAndSend(au, race);
        needKeyframe := false;
      } else {
        needKeyframe := true;
      }
    }

    // Evict one entry, unless a consumer emptied the queue first, and send. A
    // consumer can only make more room, so the send cannot fail: the source's
    // "still full" branch is dead.
    method EvictAndSend(au: AccessUnit, race: Race)
      requires Valid() && |ch| == cap
      modifies this`ch
      ensures Valid() && ch == MadeRoom(old(ch), race) + [au]
    {
      TryReceive(race.beforeEvict);
      TryReceive(1);
      TryReceive(race.beforeRetry);
      var sent := TrySend(au);
      assert sent;
    }

    method SpliceFront(prefix: seq<AccessUnit>)
      requires Valid()
      modifies this`ch
      ensures Valid() && Spliced(old(View()), prefix, View())
    {
      if |prefix| == 0 {
        return;
      }
      if closed {
        return;
      }
      var current := Drain();
      var bySeq := MergeBySeq(prefix, current);
      BySeqHolds(prefix + current);
      var merged := AscendingValues(bySeq);
      Refill(merged);
    }

    method Drain() returns (current: seq<AccessUnit>)
      requires Valid()
      modifies this`ch
      ensures Valid() && ch == [] && current == old(ch)
    {
      current := [];
      while |ch| > 0
        invariant Valid() && current + ch == old(ch)
        decreases |ch|
      {
        current, ch := current + [ch[0]], ch[1..];
      }
    }

    // Send, evicting the oldest entry if the queue is full.
    method Squeeze(au: AccessUnit)
      requires Valid()
      modifies this`ch
      ensures Valid() && ch == Drop(old(ch), if |old(ch)| < cap then 0 else 1) + [au]
    {
      var sent := TrySend(au);
      if !sent {
        TryReceive(1);
        sent := TrySend(au);
        assert sent;
      }
    }

    // Send every entry, evicting the oldest when full: the last `cap` stay.
    method Refill(merged: seq<AccessUnit>)
      requires Valid() && ch == []
      modifies this`ch
      ensures Valid() && ch == LastN(merged, cap)
    {
      for i := 0 to |merged|
        invariant Valid() && ch == LastN(merged[..i], cap)
      {
        Squeeze(merged[i]);
        assert merged[..i + 1] == merged[..i] + [merged[i]];
        LastNAppend(merged[..i], merged[i], cap);
      }
      assert merged[..|merged|] == merged;
    }
  }

  // The map from Seq to access unit, filled from prefix and then from current.
  method MergeBySeq(prefix: seq<AccessUnit>, current: seq<AccessUnit>)
    returns (bySeq: map<uint32, AccessUnit>)
    ensures bySeq == BySeq(prefix + current)
  {
    bySeq := map[];
    for i := 0 to |prefix|
      invariant bySeq == BySeq(prefix[..i])
    {
      assert prefix[..i + 1] == prefix[..i] + [prefix[i]];
      BySeqAppend(prefix[..i], prefix[i]);
      bySeq := bySeq[prefix[i].seqNo := prefix[i]];
    }
    assert prefix[..|prefix|] == prefix == prefix + current[..0];
    for i := 0 to |current|
      invariant bySeq == BySeq(prefix + current[..i])
    {
      assert prefix + current[..i + 1] == prefix + current[..i] + [current[i]];
      BySeqAppend(prefix + current[..i], current[i]);
      bySeq := bySeq[current[i].seqNo := current[i]];
    }
    assert current[..|current|] == current;
  }

  // The values of a map built by BySeq, iterated in any order and then sorted.
  method AscendingValues(m: map<uint32, AccessUnit>) returns (merged: seq<AccessUnit>)
    requires forall n :: n in m ==> m[n].seqNo == n
    ensures Enumerates(merged, m)
  {
    var values: seq<AccessUnit> := [];
    var todo := m.Keys;
    while todo != {}
      invariant todo <= m.Keys
      invariant forall au :: au in values ==> au.seqNo in m && m[au.seqNo] == au && au.seqNo !in todo
      invariant forall n :: n in m && n !in todo ==> m[n] in values
      invariant forall i, j :: 0 <= i < j < |values| ==> values[i].seqNo != values[j].seqNo
      decreases todo
    {
      var n :| n in todo;
      values := values + [m[n]];
      todo := todo - {n};
    }
    merged := SortBySeq(values);
    SortedDistinct(values, merged);
    forall i | 0 <= i < |merged|
      ensures merged[i].seqNo in m && m[merged[i].seqNo] == merged[i]
    {
      assert merged[i] in multiset(merged);
      assert merged[i] in multiset(values);
    }
    forall n | n in m
      ensures m[n] in merged
    {
      assert m[n] in multiset(values);
      assert m[n] in multiset(merged);
    }
  }

  // Sorting entries whose Seqs differ pairwise gives a strictly ascending list.
  lemma SortedDistinct(values: seq<AccessUnit>, merged: seq<AccessUnit>)
    requires forall i, j :: 0 <= i < j < |values| ==> values[i].seqNo != values[j].seqNo
    requires SortedBySeq(merged) && multiset(merged) == multiset(values)
    ensures StrictlyAscending(merged)
  {
    forall i, j | 0 <= i < j < |merged|
      ensures merged[i].seqNo < merged[j].seqNo
    {
      if merged[i].seqNo == merged[j].seqNo {
        SameSeqIsSame(values, merged, i, j);
      }
    }
  }

  lemma SameSeqIsSame(values: seq<AccessUnit>, merged: seq<AccessUnit>, i: nat, j: nat)
    requires forall i, j :: 0 <= i < j < |values| ==> values[i].seqNo != values[j].seqNo
    requires multiset(merged) == multiset(values)
    requires i < j < |merged|
    ensures merged[i].seqNo != merged[j].seqNo
  {
    var a, b := merged[i], merged[j];
    assert a in multiset(values) && b in multiset(values);
    var p :| 0 <= p < |values| && values[p] == a;
    var q :| 0 <= q < |values| && values[q] == b;
    if a.seqNo == b.seqNo {
      assert p == q;
      CountTwice(merged, i, j);
      CountDistinct(values, p);
    }
  }

  lemma CountTwice(s: seq<AccessUnit>, i: nat, j: nat)
    requires i < j < |s| && s[i] == s[j]
    ensures multiset(s)[s[i]] >= 2
  {
    assert s == s[..j] + s[j..];
    assert s[i] == s[..j][i] && s[j] == s[j..][0];
  }

  lemma CountDistinct(s: seq<AccessUnit>, p: nat)
    requires forall i, j :: 0 <= i < j < |s| ==> s[i].seqNo != s[j].seqNo
    requires p < |s|
    ensures multiset(s)[s[p]] == 1
  {
    assert s == s[..p] + [s[p]] + s[p + 1..];
    assert s[p] !in s[..p];
    assert s[p] !in s[p + 1..];
  }
}
