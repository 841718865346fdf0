/**
 * The circular replay buffer of pubsub/broadcaster.go: the broadcaster's fields
 * replayBuf, replayHead, replayCap, replayBytes and replayMaxBytes, grouped in a
 * class of their own. `contents` is the ghost list the buffer stands for, oldest
 * first.
 */
module ReplayRings {
  import opened Bytes
  import opened AccessUnits
  import opened Replay
  import opened Receivers

  // A circular buffer read from its oldest entry.
  function Rotated<T>(buf: seq<T>, head: nat): (r: seq<T>)
    requires head <= |buf|
    ensures |r| == |buf|
  {
    buf[head..] + buf[..head]
  }

  // The index after head in a buffer of n, wrapping around.
  lemma NextIndex(head: nat, n: nat)
    requires head < n
    ensures (head + 1) % n == if head + 1 < n then head + 1 else 0
  {}

  lemma WrappedIndex(head: nat, i: nat, n: nat)
    requires head < n && i < n
    ensures (head + i) % n == if head + i < n then head + i else head + i - n
  {
    if head + i >= n {
      assert head + i == (head + i - n) + n;
    }
  }

  lemma OverwriteOldest<T>(buf: seq<T>, head: nat, x: T, next: nat)
    requires head < |buf| && next == if head + 1 < |buf| then head + 1 else 0
    ensures Rotated(buf[head := x], next) == Rotated(buf, head)[1..] + [x]
  {}

  lemma SlotOverwritten(buf: seq<AccessUnit>, head: nat, au: AccessUnit, next: nat)
    requires head < |buf| && next == if head + 1 < |buf| then head + 1 else 0
    ensures var was, now := Rotated(buf, head), Rotated(buf[head := au], next);
      && now == was[1..] + [au]
      && TotalBytes(now) == TotalBytes(was) - |buf[head].bytes| + |au.bytes|
  {
    OverwriteOldest(buf, head, au, next);
    TotalBytesShift(Rotated(buf, head), au);
  }

  lemma RotatedAt<T>(buf: seq<T>, head: nat, i: nat)
    requires head < |buf| && i < |buf|
    ensures Rotated(buf, head)[i] == buf[(head + i) % |buf|]
  {
    WrappedIndex(head, i, |buf|);
  }

  // An answer of ReplaySince(from) on a ring holding `ring`.
  ghost predicate ReplayAnswer(ring: seq<AccessUnit>, from: int, out: seq<AccessUnit>, ok: bool) {
    && (ok <==> ring == [] || exists au :: au in ring && au.seqNo <= from)
    && (if ok then SortedBySeq(out) && multiset(out) == multiset(Since(ring, from)) else out == [])
  }

  // When Seqs ascend strictly and the ring is a non-empty suffix of the history,
  // "ok" answers hold exactly the access units of the whole history numbered
  // `from` or higher, and a refusal means `from` is older than all retained.
  lemma ReplayIsExact(history: seq<AccessUnit>, ring: seq<AccessUnit>, from: int, out: seq<AccessUnit>, ok: bool)
    requires StrictlyAscending(history) && IsSuffix(ring, history) && ring != []
    requires ReplayAnswer(ring, from, out, ok)
    ensures ok ==> out == Since(history, from)
    ensures ok <==> ring[0].seqNo <= from
  {
    assert forall i :: 0 <= i < |ring| ==> ring[i] == history[|history| - |ring| + i];
    assert StrictlyAscending(ring);
    if ok {
      var au :| au in ring && au.seqNo <= from;
      SuffixHoldsSince(history, ring, from);
      SinceAscending(ring, from);
      SortedIsUnique(Since(ring, from), out);
    } else {
      assert ring[0] in ring;
    }
  }

  // What a suffix of an ascending history does not hold is older than all of it.
  lemma SuffixHoldsSince(history: seq<AccessUnit>, ring: seq<AccessUnit>, from: int)
    requires StrictlyAscending(history) && IsSuffix(ring, history)
    requires ring != [] && ring[0].seqNo <= from
    ensures Since(history, from) == Since(ring, from)
  {
    var older := history[..|history| - |ring|];
    assert history == older + ring;
    forall au | au in older
      ensures au.seqNo < from
    {
      var j :| 0 <= j < |older| && older[j] == au;
      assert history[j].seqNo < history[|older|].seqNo;
    }
    SinceAppend(older, ring, from);
    SinceNone(older, from);
  }

  class ReplayRing {
    var buf: seq<AccessUnit>
    var head: nat
    var slots: nat
    var bytes: int
    var budget: nat

    ghost var contents: seq<AccessUnit>

    constructor (cap: nat, maxBytes: nat)
      ensures Valid() && View() == Ring([], cap, maxBytes)
    {
      buf, head, bytes := [], 0, 0;
      slots, budget := cap, maxBytes;
      contents := [];
    }

    ghost predicate Valid()
      reads this
    {
      && |buf| <= slots
      && (|buf| < slots ==> head == 0)
      && (if slots > 0 then head < slots else head == 0)
      && contents == (if |buf| < slots then buf else Rotated(buf, head))
      && bytes == TotalBytes(contents)
    }

    ghost function View(): Ring
      reads this
    {
      Ring(contents, slots, budget)
    }

    // replaySnapshotLocked
    method Snapshot() returns (out: seq<AccessUnit>)
      requires Valid()
      ensures out == contents
    {
      var n := |buf|;
      out := [];
      if n == 0 {
        return;
      }
      if n < slots {
        out := buf;
        return;
      }
      for i := 0 to n
        invariant out == contents[..i]
      {
        RotatedAt(buf, head, i);
        out := out + [buf[(head + i) % n]];
      }
    }

    // replayEvictOldestLocked. The counter never needs the source's clamp to 0.
    method EvictOldest()
      requires Valid()
      modifies this`buf, this`head, this`bytes, this`contents
      ensures Valid() && contents == Drop(old(contents), 1)
    {
      var n := |buf|;
      if n == 0 {
        return;
      }
      var oldestIdx := if n < slots then 0 else head;
      var snap := Snapshot();
      assert contents[0] == buf[oldestIdx];
      bytes := bytes - |buf[oldestIdx].bytes|;
      if n < slots {
        buf := buf[1..];
      } else {
        buf := if |snap| > 1 then snap[1..] else [];
        head := 0;
      }
      contents := contents[1..];
      assert bytes >= 0;
    }

    // replayAppendLocked
    method Push(au: AccessUnit)
      requires Valid()
      modifies this`buf, this`head, this`bytes, this`contents
      ensures Valid() && contents == Retain(old(contents) + [au], slots, budget)
      ensures LongestWithin(contents, old(contents) + [au], slots, budget)
    {
      RetainIs(contents + [au], slots, budget);
      if slots <= 0 {
        return;
      }
      EvictForBudget(au);
      if |buf| < slots {
        AppendSlot(au);
      } else {
        OverwriteSlot(au);
      }
    }

    // Evict the oldest entries while au would exceed the byte budget.
    method EvictForBudget(au: AccessUnit)
      requires Valid() && slots > 0
      modifies this`buf, this`head, this`bytes, this`contents
      ensures Valid()
      ensures Retain(old(contents) + [au], slots, budget)
           == if |contents| < slots then contents + [au] else contents[1..] + [au]
    {
      while budget > 0 && |buf| > 0 && bytes + |au.bytes| > budget
        invariant Valid()
        invariant Retain(contents + [au], slots, budget) == Retain(old(contents) + [au], slots, budget)
        decreases |buf|
      {
        TotalBytesAppend(contents, au);
        RetainAfterEvict(contents, au, slots, budget);
        EvictOldest();
      }
      TotalBytesAppend(contents, au);
      RetainSettled(contents, au, slots, budget);
    }

    method AppendSlot(au: AccessUnit)
      requires Valid() && |buf| < slots
      modifies this`buf, this`bytes, this`contents
      ensures Valid() && contents == old(contents) + [au]
    {
      TotalBytesAppend(contents, au);
      buf := buf + [au];
      bytes := bytes + |au.bytes|;
      contents := contents + [au];
      assert Rotated(buf, 0) == buf;
    }

    method OverwriteSlot(au: AccessUnit)
      requires Valid() && |buf| == slots > 0
      modifies this`buf, this`head, this`bytes, this`contents
      ensures Valid() && contents == old(contents)[1..] + [au]
    {
      NextIndex(head, slots);
      var next := (head + 1) % slots;
      SlotOverwritten(buf, head, au, next);
      bytes := bytes - |buf[head].bytes|;
      buf := buf[head := au];
      bytes := bytes + |au.bytes|;
      head := next;
      contents := contents[1..] + [au];
    }

    // SetReplayCap
    method SetReplayCap(cap: int)
      requires Valid()
      modifies this`buf, this`head, this`bytes, this`contents, this`slots
      ensures Valid() && View() == RingStep(old(View()), SetCap(cap))
      ensures slots == if cap < 0 then 0 else cap
      ensures if slots == old(slots) then contents == old(contents)
              else LongestWithin(contents, old(contents), slots, budget)
    {
      SetCapMeans(View(), cap);
      var n := if cap < 0 then 0 else cap;
      if n != slots {
        RetainOfLastN(contents, n, budget);
        var current := Snapshot();
        Clear(n);
        if n > 0 {
          Refill(current);
        }
      }
    }

    // Fill an emptied ring again, through Push.
    method Refill(current: seq<AccessUnit>)
      requires Valid() && contents == []
      modifies this`buf, this`head, this`bytes, this`contents
      ensures Valid() && contents == Retain(LastN(current, slots), slots, budget)
    {
      if |current| > slots {
        PushAll(current[|current| - slots..]);
      } else {
        PushAll(current);
      }
    }

    method Clear(n: nat)
      modifies this`buf, this`head, this`bytes, this`contents, this`slots
      ensures Valid() && View() == Ring([], n, budget)
    {
      slots := n;
      buf, head, bytes := [], 0, 0;
      contents := [];
    }

    method PushAll(current: seq<AccessUnit>)
      requires Valid() && contents == []
      modifies this`buf, this`head, this`bytes, this`contents
      ensures Valid() && contents == Retain(current, slots, budget)
    {
      for i := 0 to |current|
        invariant Valid() && contents == Retain(current[..i], slots, budget)
      {
        RetainPrefix(current, i, slots, budget);
        Push(current[i]);
      }
      assert current[..|current|] == current;
    }

    // SetReplayMaxBytes
    method SetReplayMaxBytes(n: int)
      requires Valid()
      modifies this`buf, this`head, this`bytes, this`contents, this`budget
      ensures Valid() && View() == RingStep(old(View()), SetMaxBytes(n))
      ensures budget == if n < 0 then 0 else n
      ensures n <= 0 ==> contents == old(contents)
      ensures n > 0 ==> IsSuffix(contents, old(contents)) && TotalBytes(contents) <= n
      ensures n > 0 ==> forall k :: 0 <= k < |old(contents)| - |contents| ==> TotalBytes(old(contents)[k..]) > n
    {
      SetMaxBytesMeans(View(), n);
      budget := if n < 0 then 0 else n;
      while budget > 0 && bytes > budget && |buf| > 0
        invariant Valid() && budget == NonNegative(n)
        invariant budget > 0 ==> Trim(contents, budget) == Trim(old(contents), budget)
        invariant budget == 0 ==> contents == old(contents)
        decreases |buf|
      {
        EvictOldest();
      }
    }

    method ReplaySince(fromSeq: uint32) returns (out: seq<AccessUnit>, ok: bool)
      requires Valid()
      ensures ReplayAnswer(contents, fromSeq, out, ok)
    {
      if slots <= 0 || |buf| == 0 {
        return [], true;
      }
      var snap := Snapshot();
      var minSeq := MinSeq(snap);
      if fromSeq < minSeq {
        return [], false;
      }
      out := Filter(snap, fromSeq);
      out := SortBySeq(out);
      ok := true;
    }
  }

  method Filter(snap: seq<AccessUnit>, fromSeq: uint32) returns (out: seq<AccessUnit>)
    ensures out == Since(snap, fromSeq)
  {
    out := [];
    for i := 0 to |snap|
      invariant out == Since(snap[..i], fromSeq)
    {
      assert snap[..i + 1][..i] == snap[..i];
      if snap[i].seqNo >= fromSeq {
        out := out + [snap[i]];
      }
    }
    assert snap[..|snap|] == snap;
  }

  method MinSeq(snap: seq<AccessUnit>) returns (m: uint32)
    requires snap != []
    ensures exists au :: au in snap && au.seqNo == m
    ensures forall au :: au in snap ==> m <= au.seqNo
  {
    m := snap[0].seqNo;
    for i := 1 to |snap|
      invariant exists au :: au in snap && au.seqNo == m
      invariant forall j :: 0 <= j < i ==> m <= snap[j].seqNo
    {
      if snap[i].seqNo < m {
        m := snap[i].seqNo;
      }
    }
  }
}
