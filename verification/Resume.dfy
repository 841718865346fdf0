/**
 * Resuming a track (server/server.go:1243-1291 and 1345-1384): a disconnected
 * session is parked on a fresh, large receiver; on reconnect the access units
 * after the client's last-seen Seq are taken from the replay ring and spliced in
 * front of what the parked receiver holds.
 *
 * Everything here is about one track. Publish and resume are one step each.
 */
module Resume {
  import opened Bytes
  import opened AccessUnits
  import opened Replay
  import opened Receivers
  import opened ReplayRings

  const PARKED_CHAN_CAP: nat := DEFAULT_REPLAY_CAP + 64

  function ParkedCap(chanSize: nat): nat {
    if PARKED_CHAN_CAP < chanSize then chanSize else PARKED_CHAN_CAP
  }

  // No consumer reads from a parked receiver.
  const NO_RACE: Race := Race(0, 0)

  function OfferAll(rx: Rx, aus: seq<AccessUnit>, selfContained: bool): Rx {
    if aus == [] then rx
    else Offer(OfferAll(rx, aus[..|aus| - 1], selfContained), aus[|aus| - 1], selfContained, NO_RACE)
  }

  // The parked receiver after `before` was published, the session was parked,
  // and `during` was published.
  function Parked(before: seq<AccessUnit>, during: seq<AccessUnit>, chanSize: nat, selfContained: bool): Rx {
    OfferAll(Subscribed(LatestKeyframe(before), ParkedCap(chanSize), selfContained), during, selfContained)
  }

  // Go's fromSeq + 1 on uint32.
  function NextSeq(lastSeen: uint32): uint32 {
    (lastSeen + 1) % TWO_TO_32
  }

  // The resume step for one track: `after` is the receiver handed to the new
  // session.
  ghost predicate Resumed(rx: Rx, ring: seq<AccessUnit>, video: bool, lastSeen: uint32, after: Rx) {
    exists out, ok ::
      && ReplayAnswer(ring, NextSeq(lastSeen), out, ok)
      && (if ok then Spliced(rx, out, after)
          else after == if video then rx.(needKeyframe := true) else rx)
  }

  // ---- What a parked receiver holds ----

  // Every entry is the seed or was published while parked, in ascending order.
  ghost predicate HoldsSeedAnd(rx: Rx, seed: Option<AccessUnit>, during: seq<AccessUnit>) {
    && StrictlyAscending(rx.queue)
    && (forall au :: au in rx.queue ==> seed == Some(au) || au in during)
    && !rx.closed
  }

  lemma {:induction false} ParkedHolds(before: seq<AccessUnit>, during: seq<AccessUnit>, chanSize: nat, selfContained: bool)
    requires StrictlyAscending(before + during)
    ensures HoldsSeedAnd(Parked(before, during, chanSize, selfContained), LatestKeyframe(before), during)
    ensures Parked(before, during, chanSize, selfContained).cap == ParkedCap(chanSize)
    decreases |during|
  {
    if during != [] {
      var front, au := during[..|during| - 1], during[|during| - 1];
      assert before + during == (before + front) + [au];
      AscendingPrefix(before + front, au);
      ParkedHolds(before, front, chanSize, selfContained);
      var rx := Parked(before, front, chanSize, selfContained);
      SeedIsPublished(before, front);
      OfferHolds(rx, LatestKeyframe(before), front, au, selfContained);
      assert during == front + [au];
    }
  }

  lemma AscendingPrefix(s: seq<AccessUnit>, au: AccessUnit)
    requires StrictlyAscending(s + [au])
    ensures StrictlyAscending(s)
    ensures forall x :: x in s ==> x.seqNo < au.seqNo
  {
    var t := s + [au];
    assert forall i :: 0 <= i < |s| ==> t[i] == s[i];
    assert t[|s|] == au;
  }

  lemma SeedIsPublished(before: seq<AccessUnit>, during: seq<AccessUnit>)
    ensures LatestKeyframe(before).Some? ==> LatestKeyframe(before).value in before + during
  {
    LatestKeyframeIs(before);
  }

  lemma OfferHolds(rx: Rx, seed: Option<AccessUnit>, during: seq<AccessUnit>, au: AccessUnit, selfContained: bool)
    requires HoldsSeedAnd(rx, seed, during)
    requires forall x :: (seed == Some(x) || x in during) ==> x.seqNo < au.seqNo
    ensures HoldsSeedAnd(Offer(rx, au, selfContained, NO_RACE), seed, during + [au])
    ensures Offer(rx, au, selfContained, NO_RACE).cap == rx.cap
  {
    var after := Offer(rx, au, selfContained, NO_RACE);
    assert after.queue == rx.queue || after.queue == rx.queue + [au] || after.queue == Drop(rx.queue, 1) + [au];
    AppendHolds(rx.queue, au);
    AppendHolds(Drop(rx.queue, 1), au);
  }

  lemma AppendHolds(q: seq<AccessUnit>, au: AccessUnit)
    ensures StrictlyAscending(q) && (forall x :: x in q ==> x.seqNo < au.seqNo) ==> StrictlyAscending(q + [au])
  {}

  // ---- The splice ----

  lemma SameElementsSameList(a: seq<AccessUnit>, b: seq<AccessUnit>)
    requires StrictlyAscending(a) && StrictlyAscending(b)
    requires forall x :: x in a <==> x in b
    ensures a == b
  {
    DistinctMultiset(a, b);
    SortedIsUnique(a, b);
  }

  lemma SameSeqSameUnit(h: seq<AccessUnit>, a: AccessUnit, b: AccessUnit)
    requires StrictlyAscending(h) && a in h && b in h && a.seqNo == b.seqNo
    ensures a == b
  {
    var i :| 0 <= i < |h| && h[i] == a;
    var j :| 0 <= j < |h| && h[j] == b;
  }

  // When all entries come from one ascending history, a merge holds exactly
  // the entries of both lists.
  lemma MergeHolds(h: seq<AccessUnit>, all: seq<AccessUnit>, merged: seq<AccessUnit>)
    requires StrictlyAscending(h) && (forall x :: x in all ==> x in h)
    requires Enumerates(merged, BySeq(all))
    ensures forall x :: x in merged <==> x in all
  {
    BySeqHolds(all);
    forall x | x in all
      ensures x in merged
    {
      SameSeqSameUnit(h, x, BySeq(all)[x.seqNo]);
    }
  }

  // The seed, if it is old and still queued, and then `out`.
  ghost predicate SeedThen(queue: seq<AccessUnit>, seed: Option<AccessUnit>, lastSeen: int, out: seq<AccessUnit>) {
    queue == out || (seed.Some? && seed.value.seqNo <= lastSeen && queue == [seed.value] + out)
  }

  lemma SeedThenElements(queue: seq<AccessUnit>, seed: Option<AccessUnit>, lastSeen: int, out: seq<AccessUnit>)
    requires StrictlyAscending(queue) && StrictlyAscending(out)
    requires forall x :: x in out ==> x in queue && x.seqNo > lastSeen
    requires forall x :: x in queue ==> x in out || (seed == Some(x) && x.seqNo <= lastSeen)
    ensures SeedThen(queue, seed, lastSeen, out)
  {
    if forall x :: x in queue ==> x in out {
      SameElementsSameList(queue, out);
    } else {
      var x :| x in queue && x !in out;
      SameElementsSameList(queue, [x] + out);
    }
  }

  // What the splice leaves, for any receiver that holds only the seed and newer
  // entries of the history.
  lemma SpliceIsGapFree(
      h: seq<AccessUnit>, rx: Rx, seed: Option<AccessUnit>, newer: seq<AccessUnit>,
      lastSeen: int, out: seq<AccessUnit>, after: Rx)
    requires StrictlyAscending(h) && out == Since(h, lastSeen + 1)
    requires HoldsSeedAnd(rx, seed, newer) && (seed.Some? ==> seed.value in h)
    requires forall x :: x in newer ==> x in h && x.seqNo > lastSeen
    requires |out| < rx.cap && Spliced(rx, out, after)
    ensures SeedThen(after.queue, seed, lastSeen, out)
  {
    SinceAscending(h, lastSeen + 1);
    if out == [] {
      SeedThenElements(rx.queue, seed, lastSeen, out);
    } else {
      var all := out + rx.queue;
      var merged :| Enumerates(merged, BySeq(all)) && after == rx.(queue := LastN(merged, rx.cap));
      MergeHolds(h, all, merged);
      SeedThenElements(merged, seed, lastSeen, out);
    }
  }

  // ---- The theorem ----

  // The replay window still reaches back to the first access unit after
  // lastSeen.
  predicate WindowReaches(ring: seq<AccessUnit>, lastSeen: uint32) {
    ring == [] || ring[0].seqNo <= lastSeen + 1
  }

  // What the replay ring of a default-size broadcaster can hold when h has been
  // accepted: at most 256 of the latest, and something if there was anything.
  ghost predicate IsWindow(ring: seq<AccessUnit>, h: seq<AccessUnit>) {
    IsSuffix(ring, h) && |ring| <= DEFAULT_REPLAY_CAP && (ring == [] ==> h == [])
  }

  lemma RetainedIsWindow(h: seq<AccessUnit>, budget: nat)
    ensures IsWindow(Retain(h, DEFAULT_REPLAY_CAP, budget), h)
  {
    RetainIsLongest(h, DEFAULT_REPLAY_CAP, budget);
  }

  // One resume on a receiver that holds the seed and newer entries only.
  lemma ResumeStep(
      h: seq<AccessUnit>, ring: seq<AccessUnit>, rx: Rx, seed: Option<AccessUnit>, newer: seq<AccessUnit>,
      video: bool, lastSeen: uint32, after: Rx)
    requires StrictlyAscending(h) && lastSeen < TWO_TO_32 - 1
    requires HoldsSeedAnd(rx, seed, newer) && (seed.Some? ==> seed.value in h)
    requires forall x :: x in newer ==> x in h && x.seqNo > lastSeen
    requires rx.cap >= PARKED_CHAN_CAP && IsWindow(ring, h)
    requires Resumed(rx, ring, video, lastSeen, after)
    ensures after == rx.(queue := after.queue, needKeyframe := after.needKeyframe)
    ensures if WindowReaches(ring, lastSeen) then
        && SeedThen(after.queue, seed, lastSeen, Since(h, lastSeen + 1))
        && StrictlyAscending(after.queue)
        && |after.queue| <= DEFAULT_REPLAY_CAP + 1
        && after.needKeyframe == rx.needKeyframe
      else
        after == if video then rx.(needKeyframe := true) else rx
  {
    var out, ok :|
      && ReplayAnswer(ring, NextSeq(lastSeen), out, ok)
      && (if ok then Spliced(rx, out, after) else after == if video then rx.(needKeyframe := true) else rx);
    ReplayFromSuffix(h, ring, lastSeen, out, ok);
    if ok {
      SpliceIsGapFree(h, rx, seed, newer, lastSeen, out, after);
      SinceAscending(h, lastSeen + 1);
      SeedThenAscends(after.queue, seed, lastSeen, out);
    }
  }

  lemma SeedThenAscends(queue: seq<AccessUnit>, seed: Option<AccessUnit>, lastSeen: int, out: seq<AccessUnit>)
    requires SeedThen(queue, seed, lastSeen, out) && StrictlyAscending(out)
    requires forall x :: x in out ==> x.seqNo > lastSeen
    ensures StrictlyAscending(queue) && |queue| <= |out| + 1
  {}

  // Gap-free resume. For every history before and during the disconnect, with
  // strictly ascending Seqs, every ring that is a window on it, and every
  // last-seen Seq the client can have had (nothing published while parked is at
  // or below it): if the window reaches, the resumed queue is every accepted
  // access unit after last-seen, ascending, preceded at most by the seed
  // keyframe; it holds at most 257 entries, so the splice never evicts. If the
  // window does not reach, the queue is left alone and a video receiver is told
  // to wait for a keyframe.
  lemma GapFreeResume(
      before: seq<AccessUnit>, during: seq<AccessUnit>, ring: seq<AccessUnit>, chanSize: nat, selfContained: bool,
      lastSeen: uint32, after: Rx)
    requires StrictlyAscending(before + during) && IsWindow(ring, before + during)
    requires lastSeen < TWO_TO_32 - 1
    requires forall x :: x in during ==> x.seqNo > lastSeen
    requires Resumed(Parked(before, during, chanSize, selfContained), ring, !selfContained, lastSeen, after)
    ensures var parked := Parked(before, during, chanSize, selfContained);
      if WindowReaches(ring, lastSeen) then
        && SeedThen(after.queue, LatestKeyframe(before), lastSeen, Since(before + during, lastSeen + 1))
        && StrictlyAscending(after.queue)
        && |after.queue| <= DEFAULT_REPLAY_CAP + 1 < after.cap
        && after.needKeyframe == parked.needKeyframe
      else
        after == if selfContained then parked else parked.(needKeyframe := true)
  {
    ParkedHolds(before, during, chanSize, selfContained);
    SeedIsPublished(before, during);
    ResumeStep(
      before + during, ring, Parked(before, during, chanSize, selfContained), LatestKeyframe(before), during,
      !selfContained, lastSeen, after);
  }

  // The same for a ring whose limits were never changed: it is the longest
  // suffix that fits 256 slots and the byte budget.
  lemma GapFreeResumeFromRing(
      before: seq<AccessUnit>, during: seq<AccessUnit>, budget: nat, chanSize: nat, selfContained: bool,
      lastSeen: uint32, after: Rx)
    requires StrictlyAscending(before + during) && lastSeen < TWO_TO_32 - 1
    requires forall x :: x in during ==> x.seqNo > lastSeen
    requires Resumed(
               Parked(before, during, chanSize, selfContained),
               Retain(before + during, DEFAULT_REPLAY_CAP, budget), !selfContained, lastSeen, after)
    requires WindowReaches(Retain(before + during, DEFAULT_REPLAY_CAP, budget), lastSeen)
    ensures SeedThen(after.queue, LatestKeyframe(before), lastSeen, Since(before + during, lastSeen + 1))
  {
    var ring := Retain(before + during, DEFAULT_REPLAY_CAP, budget);
    RetainedIsWindow(before + during, budget);
    GapFreeResume(before, during, ring, chanSize, selfContained, lastSeen, after);
  }

  lemma ReplayFromSuffix(h: seq<AccessUnit>, ring: seq<AccessUnit>, lastSeen: uint32, out: seq<AccessUnit>, ok: bool)
    requires StrictlyAscending(h) && lastSeen < TWO_TO_32 - 1
    requires IsSuffix(ring, h) && (ring == [] ==> h == [])
    requires ReplayAnswer(ring, NextSeq(lastSeen), out, ok)
    ensures ok <==> WindowReaches(ring, lastSeen)
    ensures ok ==> out == Since(h, lastSeen + 1) && |out| <= |ring|
  {
    NextSeqIs(lastSeen);
    if ok {
      SameSize(out, Since(ring, lastSeen + 1));
    }
    if ring != [] {
      ReplayIsExact(h, ring, lastSeen + 1, out, ok);
    }
  }

  lemma NextSeqIs(lastSeen: uint32)
    requires lastSeen < TWO_TO_32 - 1
    ensures NextSeq(lastSeen) == lastSeen + 1
  {}

  lemma SameSize(s: seq<AccessUnit>, t: seq<AccessUnit>)
    requires multiset(s) == multiset(t)
    ensures |s| == |t|
  {
    assert |multiset(s)| == |s| && |multiset(t)| == |t|;
  }

  // ---- The edges of the theorem ----

  // A window on an ascending history that still holds Seq 0 is all of it.
  lemma WindowFromZero(h: seq<AccessUnit>, ring: seq<AccessUnit>)
    requires StrictlyAscending(h) && IsWindow(ring, h) && ring != [] && ring[0].seqNo == 0
    ensures ring == h
  {
    var d := |h| - |ring|;
    assert ring[0] == h[d];
    assert h[0].seqNo <= h[d].seqNo;
  }

  // Asking a ring for everything from Seq 0 on.
  lemma AnswerFromZero(ring: seq<AccessUnit>, out: seq<AccessUnit>, ok: bool)
    requires StrictlyAscending(ring) && ReplayAnswer(ring, 0, out, ok)
    ensures ok <==> ring == [] || ring[0].seqNo == 0
    ensures ok ==> out == ring
  {
    SinceAll(ring, 0);
    if ring != [] && ring[0].seqNo == 0 {
      assert ring[0] in ring && ok;
    }
    if ok {
      SortedIsUnique(ring, out);
    }
  }

  // A splice of the whole history over a queue drawn from it is the history.
  lemma SpliceWholeHistory(h: seq<AccessUnit>, rx: Rx, after: Rx)
    requires StrictlyAscending(h) && h != [] && |h| <= rx.cap
    requires !rx.closed && (forall x :: x in rx.queue ==> x in h) && Spliced(rx, h, after)
    ensures after == rx.(queue := h)
  {
    var all := h + rx.queue;
    var merged :| Enumerates(merged, BySeq(all)) && after == rx.(queue := LastN(merged, rx.cap));
    MergeHolds(h, all, merged);
    SameElementsSameList(merged, h);
  }

  // At lastSeen = 2^32 - 1 the next Seq wraps to 0. For every receiver whose
  // queue was drawn from the history, seeded ones included: if the window still
  // holds Seq 0 the whole of it is replayed, old access units included, and the
  // queue becomes the window; else the queue is unchanged, and a video receiver
  // waits for a keyframe unless nothing was ever published.
  lemma WrapReplaysEverything(h: seq<AccessUnit>, ring: seq<AccessUnit>, rx: Rx, video: bool, after: Rx)
    requires StrictlyAscending(h) && IsWindow(ring, h)
    requires !rx.closed && DEFAULT_REPLAY_CAP <= rx.cap && (forall x :: x in rx.queue ==> x in h)
    requires Resumed(rx, ring, video, 0xFFFF_FFFF, after)
    ensures after ==
      if ring == [] then rx
      else if ring[0].seqNo == 0 then rx.(queue := ring)
      else if video then rx.(needKeyframe := true)
      else rx
  {
    assert NextSeq(0xFFFF_FFFF) == 0;
    var out, ok :|
      && ReplayAnswer(ring, 0, out, ok)
      && (if ok then Spliced(rx, out, after) else after == if video then rx.(needKeyframe := true) else rx);
    WindowAscends(h, ring);
    AnswerFromZero(ring, out, ok);
    if ring != [] && ok {
      WindowFromZero(h, ring);
      SpliceWholeHistory(h, rx, after);
    }
  }

  lemma WindowAscends(h: seq<AccessUnit>, ring: seq<AccessUnit>)
    requires StrictlyAscending(h) && IsWindow(ring, h)
    ensures StrictlyAscending(ring)
  {
    assert forall i :: 0 <= i < |ring| ==> ring[i] == h[|h| - |ring| + i];
  }

  // The same for a parked receiver. Nothing can have been published after Seq
  // 2^32 - 1 was seen, so it holds its seed or nothing.
  lemma WrapOnParked(
      before: seq<AccessUnit>, ring: seq<AccessUnit>, chanSize: nat, selfContained: bool, after: Rx)
    requires StrictlyAscending(before) && IsWindow(ring, before)
    requires Resumed(Parked(before, [], chanSize, selfContained), ring, !selfContained, 0xFFFF_FFFF, after)
    ensures after.queue ==
      if ring != [] && ring[0].seqNo == 0 then ring else Parked(before, [], chanSize, selfContained).queue
  {
    LatestKeyframeIs(before);
    WrapReplaysEverything(before, ring, Parked(before, [], chanSize, selfContained), !selfContained, after);
  }

  // Publish adds to the ring and sends to the receivers in two critical
  // sections. A resume that runs between the two has the access unit in flight
  // in its gap-free queue already. The fan-out then delivers it a second time,
  // and only it, if and only if the receiver takes it: a self-contained track, a
  // keyframe, or a receiver that waits for none. Otherwise nothing changes.
  lemma ResumeInsidePublish(
      before: seq<AccessUnit>, during: seq<AccessUnit>, au: AccessUnit, ring: seq<AccessUnit>, chanSize: nat,
      selfContained: bool, lastSeen: uint32, after: Rx)
    requires StrictlyAscending(before + during + [au]) && IsWindow(ring, before + during + [au])
    requires lastSeen < TWO_TO_32 - 1
    requires forall x :: x in during ==> x.seqNo > lastSeen
    requires Resumed(Parked(before, during, chanSize, selfContained), ring, !selfContained, lastSeen, after)
    ensures au.seqNo > lastSeen && WindowReaches(ring, lastSeen) ==>
      && SeedThen(after.queue, LatestKeyframe(before), lastSeen, Since(before + during, lastSeen + 1) + [au])
      && var takes := selfContained || au.keyframe || !after.needKeyframe;
         && (Offer(after, au, selfContained, NO_RACE).queue == after.queue + [au] <==> takes)
         && (Offer(after, au, selfContained, NO_RACE) == after <==> !takes)
  {
    if au.seqNo > lastSeen && WindowReaches(ring, lastSeen) {
      var rx := Parked(before, during, chanSize, selfContained);
      AscendingPrefix(before + during, au);
      ParkedHolds(before, during, chanSize, selfContained);
      SeedIsPublished(before, during);
      ResumeWithNewest(before + during, au, ring, rx, LatestKeyframe(before), during, !selfContained, lastSeen, after);
    }
  }

  lemma ResumeWithNewest(
      h: seq<AccessUnit>, au: AccessUnit, ring: seq<AccessUnit>, rx: Rx, seed: Option<AccessUnit>,
      newer: seq<AccessUnit>, video: bool, lastSeen: uint32, after: Rx)
    requires StrictlyAscending(h + [au]) && lastSeen < TWO_TO_32 - 1 && au.seqNo > lastSeen
    requires HoldsSeedAnd(rx, seed, newer) && (seed.Some? ==> seed.value in h)
    requires forall x :: x in newer ==> x in h && x.seqNo > lastSeen
    requires rx.cap >= PARKED_CHAN_CAP && IsWindow(ring, h + [au]) && WindowReaches(ring, lastSeen)
    requires Resumed(rx, ring, video, lastSeen, after)
    ensures SeedThen(after.queue, seed, lastSeen, Since(h, lastSeen + 1) + [au])
    ensures !after.closed && |after.queue| < after.cap
  {
    ResumeStep(h + [au], ring, rx, seed, newer, video, lastSeen, after);
    assert (h + [au])[..|h|] == h;
  }
}
