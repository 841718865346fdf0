/**
 * Whole runs of one receiver: every interleaving of publishes, consumer
 * takes, RequestKeyframe and Unsubscribe (pubsub/broadcaster.go:600-658).
 *
 * A Lane is a receiver together with the history needed to state the drop
 * policy. `offered` is the seed keyframe, if any, followed by every access unit
 * published while subscribed; `sent` lists the positions in `offered` that were
 * put in the queue, in that order; `fates` says how each entry that has left
 * the queue left it. Entries leave in the order they were sent.
 */
module Lanes {
  import opened Bytes
  import opened AccessUnits
  import opened Receivers

  datatype Fate = Consumed | Evicted

  datatype Event =
    | Publish(au: AccessUnit, race: Race)
    | Dequeue
    | RequestKeyframe
    | Unsubscribe

  datatype Lane = Lane(rx: Rx, offered: seq<AccessUnit>, sent: seq<nat>, fates: seq<Fate>)

  function Start(latest: Option<AccessUnit>, cap: nat, selfContained: bool): Lane {
    var rx := Subscribed(latest, cap, selfContained);
    Lane(rx, rx.queue, if latest.Some? then [0] else [], [])
  }

  function Min(a: nat, b: nat): nat { if a <= b then a else b }

  // How the entries that leave a full queue of n entries leave it while room
  // is made for one more: at most one of them is evicted.
  function Leaving(n: nat, race: Race): (f: seq<Fate>)
    ensures |f| <= n
  {
    var a := Min(race.beforeEvict, n);
    var evicted := if a < n then [Evicted] else [];
    var b := Min(race.beforeRetry, n - a - |evicted|);
    seq(a, _ => Consumed) + evicted + seq(b, _ => Consumed)
  }

  // Whether a published access unit gets into the queue of an open receiver.
  predicate Enters(rx: Rx, au: AccessUnit, selfContained: bool) {
    selfContained || au.keyframe || (!rx.needKeyframe && |rx.queue| < rx.cap)
  }

  function Step(l: Lane, e: Event, selfContained: bool): Lane {
    match e
    case Publish(au, race) =>
      if l.rx.closed then l
      else
        var enters := Enters(l.rx, au, selfContained);
        Lane(
          Offer(l.rx, au, selfContained, race),
          l.offered + [au],
          if enters then l.sent + [|l.offered|] else l.sent,
          if enters && |l.rx.queue| >= l.rx.cap then l.fates + Leaving(|l.rx.queue|, race) else l.fates)
    case Dequeue =>
      if l.rx.queue == [] then l
      else l.(rx := l.rx.(queue := l.rx.queue[1..]), fates := l.fates + [Consumed])
    case RequestKeyframe => l.(rx := l.rx.(needKeyframe := true))
    case Unsubscribe => l.(rx := l.rx.(closed := true))
  }

  function Run(l: Lane, events: seq<Event>, selfContained: bool): Lane {
    if events == [] then l
    else Step(Run(l, events[..|events| - 1], selfContained), events[|events| - 1], selfContained)
  }

  // The access units published before the first Unsubscribe, in order.
  function PublishedWhileOpen(events: seq<Event>): seq<AccessUnit> {
    if events == [] then []
    else
      var front, e := events[..|events| - 1], events[|events| - 1];
      if e.Publish? && Unsubscribe !in front then PublishedWhileOpen(front) + [e.au] else PublishedWhileOpen(front)
  }

  lemma {:induction false} RunCloses(l: Lane, events: seq<Event>, selfContained: bool)
    ensures Run(l, events, selfContained).rx.closed <==> l.rx.closed || Unsubscribe in events
    ensures Run(l, events, selfContained).rx.cap == l.rx.cap
  {
    if events != [] {
      var front, e := events[..|events| - 1], events[|events| - 1];
      RunCloses(l, front, selfContained);
      StepOffers(Run(l, front, selfContained), e, selfContained);
      InSnoc(events, Unsubscribe);
    }
  }

  lemma InSnoc<T>(s: seq<T>, x: T)
    requires s != []
    ensures x in s <==> x in s[..|s| - 1] || x == s[|s| - 1]
  {
    assert s == s[..|s| - 1] + [s[|s| - 1]];
  }

  lemma {:induction false} OfferedIsPublished(l: Lane, events: seq<Event>, selfContained: bool)
    requires !l.rx.closed
    ensures Run(l, events, selfContained).offered == l.offered + PublishedWhileOpen(events)
  {
    if events != [] {
      var front, e := events[..|events| - 1], events[|events| - 1];
      OfferedIsPublished(l, front, selfContained);
      RunCloses(l, front, selfContained);
      StepOffers(Run(l, front, selfContained), e, selfContained);
    }
  }

  lemma StepOffers(l: Lane, e: Event, selfContained: bool)
    ensures var m := Step(l, e, selfContained);
      && m.offered == (if e.Publish? && !l.rx.closed then l.offered + [e.au] else l.offered)
      && (m.rx.closed <==> l.rx.closed || e == Unsubscribe)
      && m.rx.cap == l.rx.cap
  {}

  // ---- What every run keeps ----

  // The queue holds exactly the sent entries that have not left, in order, and
  // never more than its capacity.
  ghost predicate Consistent(l: Lane) {
    && 1 <= l.rx.cap
    && |l.rx.queue| <= l.rx.cap
    && |l.sent| == |l.fates| + |l.rx.queue|
    && (forall i :: 0 <= i < |l.sent| ==> l.sent[i] < |l.offered|)
    && (forall i, j :: 0 <= i < j < |l.sent| ==> l.sent[i] < l.sent[j])
    && (forall i :: 0 <= i < |l.rx.queue| ==> l.rx.queue[i] == l.offered[l.sent[|l.fates| + i]])
  }

  lemma StepConsistent(l: Lane, e: Event, selfContained: bool)
    requires Consistent(l)
    ensures Consistent(Step(l, e, selfContained))
  {
    if e.Publish? && !l.rx.closed {
      PublishConsistent(l, e.au, e.race, selfContained);
    }
  }

  lemma PublishConsistent(l: Lane, au: AccessUnit, race: Race, selfContained: bool)
    requires Consistent(l) && !l.rx.closed
    ensures Consistent(Step(l, Publish(au, race), selfContained))
  {
    var m := Step(l, Publish(au, race), selfContained);
    if Enters(l.rx, au, selfContained) {
      if |l.rx.queue| >= l.rx.cap {
        LeavingMatches(l.rx.queue, race);
        EnterConsistent(l, au, m, |Leaving(|l.rx.queue|, race)|);
      } else {
        EnterConsistent(l, au, m, 0);
      }
    }
  }

  lemma LeavingMatches(q: seq<AccessUnit>, race: Race)
    ensures MadeRoom(q, race) == q[|Leaving(|q|, race)|..]
    ensures q != [] ==> |Leaving(|q|, race)| > 0
  {}

  lemma EnterConsistent(l: Lane, au: AccessUnit, m: Lane, left: nat)
    requires Consistent(l) && left <= |l.rx.queue|
    requires m.rx.queue == l.rx.queue[left..] + [au] && |m.rx.queue| <= l.rx.cap == m.rx.cap
    requires m.offered == l.offered + [au] && m.sent == l.sent + [|l.offered|]
    requires |m.fates| == |l.fates| + left
    ensures Consistent(m)
  {
    forall i | 0 <= i < |m.rx.queue|
      ensures m.rx.queue[i] == m.offered[m.sent[|m.fates| + i]]
    {
      if i < |l.rx.queue| - left {
        assert m.rx.queue[i] == l.rx.queue[left + i];
      }
    }
  }

  // ---- Video tracks ----

  // The drop policy for keyframe-gated tracks, as an invariant.
  ghost predicate VideoPolicy(l: Lane) {
    && (forall p :: 0 <= p < |l.offered| && l.offered[p].keyframe ==> p in l.sent)
    && (forall p :: p in l.sent && p < |l.offered| && !l.offered[p].keyframe ==> p > 0 && p - 1 in l.sent)
    && (!l.rx.needKeyframe ==> l.offered != [] && |l.offered| - 1 in l.sent)
    && (forall m :: 0 <= m < |l.fates| && l.fates[m] == Evicted && m < |l.sent| ==>
          exists p :: l.sent[m] < p < |l.offered| && l.offered[p].keyframe)
  }

  lemma StepVideo(l: Lane, e: Event)
    requires Consistent(l) && VideoPolicy(l)
    ensures VideoPolicy(Step(l, e, false))
  {
    var m := Step(l, e, false);
    if e.Publish? && !l.rx.closed {
      PublishGates(l, e.au, e.race);
      PublishEvicts(l, e.au, e.race);
    }
  }

  lemma PublishGates(l: Lane, au: AccessUnit, race: Race)
    requires Consistent(l) && VideoPolicy(l) && !l.rx.closed
    ensures var m := Step(l, Publish(au, race), false);
      && (forall p :: 0 <= p < |m.offered| && m.offered[p].keyframe ==> p in m.sent)
      && (forall p :: p in m.sent && p < |m.offered| && !m.offered[p].keyframe ==> p > 0 && p - 1 in m.sent)
      && (!m.rx.needKeyframe ==> m.offered != [] && |m.offered| - 1 in m.sent)
  {
    var m := Step(l, Publish(au, race), false);
    var n := |l.offered|;
    assert forall p :: p in l.sent ==> p in m.sent;
    if Enters(l.rx, au, false) {
      assert m.sent[|l.sent|] == n;
    }
  }

  lemma PublishEvicts(l: Lane, au: AccessUnit, race: Race)
    requires Consistent(l) && VideoPolicy(l) && !l.rx.closed
    ensures var m := Step(l, Publish(au, race), false);
      forall k :: 0 <= k < |m.fates| && m.fates[k] == Evicted && k < |m.sent| ==>
        exists p :: m.sent[k] < p < |m.offered| && m.offered[p].keyframe
  {
    var m := Step(l, Publish(au, race), false);
    forall k | 0 <= k < |m.fates| && m.fates[k] == Evicted && k < |m.sent|
      ensures exists p :: m.sent[k] < p < |m.offered| && m.offered[p].keyframe
    {
      if k < |l.fates| {
        var p :| l.sent[k] < p < |l.offered| && l.offered[p].keyframe;
        assert m.offered[p].keyframe;
      } else {
        assert |m.fates| <= |l.sent|;
        assert m.offered[|l.offered|].keyframe;
      }
    }
  }

  lemma {:induction false} VideoRun(latest: Option<AccessUnit>, cap: nat, events: seq<Event>)
    requires cap >= 1
    requires latest.Some? ==> latest.value.keyframe
    ensures Consistent(Run(Start(latest, cap, false), events, false))
    ensures VideoPolicy(Run(Start(latest, cap, false), events, false))
  {
    if events != [] {
      var front := events[..|events| - 1];
      VideoRun(latest, cap, front);
      StepConsistent(Run(Start(latest, cap, false), front, false), events[|events| - 1], false);
      StepVideo(Run(Start(latest, cap, false), front, false), events[|events| - 1]);
    }
  }

  // Position k starts a group of pictures that still holds position j.
  ghost predicate SameGop(offered: seq<AccessUnit>, k: nat, j: nat) {
    && k <= j < |offered|
    && offered[k].keyframe
    && (forall i :: k < i <= j ==> !offered[i].keyframe)
  }

  lemma {:induction false} GopPrefix(l: Lane, k: nat, i: nat, j: nat)
    requires VideoPolicy(l) && SameGop(l.offered, k, j) && k <= i <= j && j in l.sent
    ensures i in l.sent
    decreases j
  {
    if i < j {
      assert j - 1 in l.sent;
      GopPrefix(l, k, i, j - 1);
    }
  }

  // Keyframe p was put in the queue and is still there or was consumed.
  ghost predicate QueuedOrConsumed(l: Lane, p: nat) {
    exists m :: 0 <= m < |l.sent| && l.sent[m] == p && (m >= |l.fates| || l.fates[m] == Consumed)
  }

  // Fan-out integrity for video, over every run: every keyframe published while
  // subscribed is enqueued; what is enqueued of a group of pictures is a
  // contiguous prefix of it; and the newest keyframe is never lost to eviction.
  lemma VideoFanOut(latest: Option<AccessUnit>, cap: nat, events: seq<Event>)
    requires cap >= 1
    requires latest.Some? ==> latest.value.keyframe
    ensures var l := Run(Start(latest, cap, false), events, false);
      && l.offered == Subscribed(latest, cap, false).queue + PublishedWhileOpen(events)
      && (forall p :: 0 <= p < |l.offered| && l.offered[p].keyframe ==> p in l.sent)
      && (forall k: nat, i: nat, j: nat ::
            SameGop(l.offered, k, j) && k <= i <= j && j in l.sent ==> i in l.sent)
      && (forall p: nat :: p < |l.offered| && SameGop(l.offered, p, |l.offered| - 1) ==> QueuedOrConsumed(l, p))
  {
    var l := Run(Start(latest, cap, false), events, false);
    VideoRun(latest, cap, events);
    OfferedIsPublished(Start(latest, cap, false), events, false);
    forall k: nat, i: nat, j: nat | SameGop(l.offered, k, j) && k <= i <= j && j in l.sent
      ensures i in l.sent
    {
      GopPrefix(l, k, i, j);
    }
    forall p: nat | p < |l.offered| && SameGop(l.offered, p, |l.offered| - 1)
      ensures QueuedOrConsumed(l, p)
    {
      assert p in l.sent;
      var m :| 0 <= m < |l.sent| && l.sent[m] == p;
      assert m < |l.fates| ==> l.fates[m] != Evicted;
    }
  }

  // ---- Exactly when a video unit is sent ----

  // A keyframe was requested after the last publish.
  predicate AskedSince(events: seq<Event>) {
    events != [] && match events[|events| - 1]
      case Publish(_, _) => false
      case RequestKeyframe => true
      case _ => AskedSince(events[..|events| - 1])
  }

  // The last unit offered was sent, and no keyframe was requested since.
  ghost predicate Flowing(l: Lane, events: seq<Event>) {
    l.offered != [] && |l.offered| - 1 in l.sent && !AskedSince(events)
  }

  lemma {:induction false} GateIsFlow(latest: Option<AccessUnit>, cap: nat, events: seq<Event>)
    requires cap >= 1 && Unsubscribe !in events
    ensures var l := Run(Start(latest, cap, false), events, false);
      !l.rx.closed && Consistent(l) && (l.rx.needKeyframe <==> !Flowing(l, events))
  {
    if events != [] {
      var front, e := events[..|events| - 1], events[|events| - 1];
      InSnoc(events, Unsubscribe);
      GateIsFlow(latest, cap, front);
      var l := Run(Start(latest, cap, false), front, false);
      StepConsistent(l, e, false);
      StepFlow(l, front, e, events);
    }
  }

  lemma StepFlow(l: Lane, front: seq<Event>, e: Event, events: seq<Event>)
    requires Consistent(l) && !l.rx.closed && (l.rx.needKeyframe <==> !Flowing(l, front))
    requires events == front + [e] && e != Unsubscribe
    ensures var m := Step(l, e, false); !m.rx.closed && (m.rx.needKeyframe <==> !Flowing(m, events))
  {
    assert events[..|events| - 1] == front;
    if e.Publish? {
      PublishFlow(l, e.au, e.race);
    }
  }

  lemma PublishFlow(l: Lane, au: AccessUnit, race: Race)
    requires Consistent(l) && !l.rx.closed
    ensures var m := Step(l, Publish(au, race), false);
      m.rx.needKeyframe <==> |l.offered| !in m.sent
  {
    var m := Step(l, Publish(au, race), false);
    if Enters(l.rx, au, false) {
      assert m.sent[|l.sent|] == |l.offered|;
    }
  }

  // A published unit is sent if and only if it is a keyframe, or the queue has room
  // and the unit before it was sent with no keyframe request since.
  lemma SentIff(latest: Option<AccessUnit>, cap: nat, events: seq<Event>, au: AccessUnit, race: Race)
    requires cap >= 1 && Unsubscribe !in events
    ensures var l := Run(Start(latest, cap, false), events, false);
      var m := Run(Start(latest, cap, false), events + [Publish(au, race)], false);
      && m.offered == l.offered + [au]
      && (|l.offered| in m.sent <==> au.keyframe || (|l.rx.queue| < cap && Flowing(l, events)))
  {
    GateIsFlow(latest, cap, events);
    RunCloses(Start(latest, cap, false), events, false);
    var l := Run(Start(latest, cap, false), events, false);
    var all := events + [Publish(au, race)];
    assert all[..|all| - 1] == events;
    var m := Run(Start(latest, cap, false), all, false);
    assert m == Step(l, Publish(au, race), false);
    if Enters(l.rx, au, false) {
      assert m.sent[|l.sent|] == |l.offered|;
    }
  }

  // Everything offered was sent, and the lane waits for a keyframe only if
  // nothing was offered yet.
  ghost predicate AllSent(l: Lane) {
    && |l.sent| == |l.offered|
    && (forall p :: 0 <= p < |l.sent| ==> l.sent[p] == p)
    && (l.rx.needKeyframe ==> l.offered == [])
  }

  ghost predicate RoomForAll(l: Lane, latest: Option<AccessUnit>) {
    |l.offered| <= l.rx.cap && (l.offered != [] && latest.None? ==> l.offered[0].keyframe)
  }

  // With no more offered than the queue can hold, the seed or a keyframe first,
  // and no requests, everything offered is sent and nothing is evicted.
  lemma {:induction false} NothingDroppedWithRoom(latest: Option<AccessUnit>, cap: nat, events: seq<Event>)
    requires cap >= 1
    requires forall e :: e in events ==> e.Publish? || e.Dequeue?
    ensures var l := Run(Start(latest, cap, false), events, false);
      Consistent(l) && !l.rx.closed && l.rx.cap == cap && (latest.Some? ==> l.offered != []) &&
      (RoomForAll(l, latest) ==> AllSent(l) && Evicted !in l.fates)
  {
    if events != [] {
      var front, e := events[..|events| - 1], events[|events| - 1];
      assert e in events && forall f :: f in front ==> f in events;
      NothingDroppedWithRoom(latest, cap, front);
      var l := Run(Start(latest, cap, false), front, false);
      StepConsistent(l, e, false);
      StepOffers(l, e, false);
      if RoomForAll(Step(l, e, false), latest) {
        assert l.offered != [] ==> l.offered[0] == Step(l, e, false).offered[0];
        StepAllSent(l, e, latest);
      }
    }
  }

  lemma StepAllSent(l: Lane, e: Event, latest: Option<AccessUnit>)
    requires e.Publish? || e.Dequeue?
    requires Consistent(l) && !l.rx.closed && AllSent(l) && Evicted !in l.fates
    requires RoomForAll(Step(l, e, false), latest) && (latest.Some? ==> l.offered != [])
    ensures AllSent(Step(l, e, false)) && Evicted !in Step(l, e, false).fates
  {
    if e.Publish? {
      assert Step(l, e, false).offered == l.offered + [e.au];
      assert |l.rx.queue| <= |l.offered| < l.rx.cap;
      assert Enters(l.rx, e.au, false);
    }
  }

  // ---- How much is evicted ----

  function EvictedCount(fates: seq<Fate>): nat {
    if fates == [] then 0
    else EvictedCount(fates[..|fates| - 1]) + if fates[|fates| - 1] == Evicted then 1 else 0
  }

  lemma {:induction false} EvictedCountSum(a: seq<Fate>, b: seq<Fate>)
    ensures EvictedCount(a + b) == EvictedCount(a) + EvictedCount(b)
    decreases |b|
  {
    if b == [] {
      assert a + b == a;
    } else {
      assert (a + b)[..|a + b| - 1] == a + b[..|b| - 1];
      EvictedCountSum(a, b[..|b| - 1]);
    }
  }

  lemma {:induction false} NoneEvicted(n: nat)
    ensures EvictedCount(seq(n, _ => Consumed)) == 0
  {
    if n > 0 {
      assert seq(n, _ => Consumed)[..n - 1] == seq(n - 1, _ => Consumed);
      NoneEvicted(n - 1);
    }
  }

  // Making room evicts at most one entry.
  lemma LeavingEvictsOne(n: nat, race: Race)
    ensures EvictedCount(Leaving(n, race)) <= 1
  {
    var a := Min(race.beforeEvict, n);
    var evicted: seq<Fate> := if a < n then [Evicted] else [];
    var b := Min(race.beforeRetry, n - a - |evicted|);
    EvictedCountSum(seq(a, _ => Consumed) + evicted, seq(b, _ => Consumed));
    EvictedCountSum(seq(a, _ => Consumed), evicted);
    NoneEvicted(a);
    NoneEvicted(b);
    assert EvictedCount([Evicted]) == EvictedCount([Evicted][..0]) + 1;
  }

  // In every run, on either kind of track, an entry is evicted only for what does
  // not fit: with k evictions at least cap + k entries were sent.
  lemma {:induction false} EvictsOnlyWhenFull(latest: Option<AccessUnit>, cap: nat, events: seq<Event>, selfContained: bool)
    requires cap >= 1
    ensures var l := Run(Start(latest, cap, selfContained), events, selfContained);
      Consistent(l) && (EvictedCount(l.fates) == 0 || EvictedCount(l.fates) + cap <= |l.sent|)
  {
    if events != [] {
      var front, e := events[..|events| - 1], events[|events| - 1];
      EvictsOnlyWhenFull(latest, cap, front, selfContained);
      var l := Run(Start(latest, cap, selfContained), front, selfContained);
      RunCloses(Start(latest, cap, selfContained), front, selfContained);
      StepConsistent(l, e, selfContained);
      StepEvicts(l, e, selfContained);
    }
  }

  lemma {:induction false} EvictedAtMostAll(fates: seq<Fate>)
    ensures EvictedCount(fates) <= |fates|
  {
    if fates != [] {
      EvictedAtMostAll(fates[..|fates| - 1]);
    }
  }

  lemma StepEvicts(l: Lane, e: Event, selfContained: bool)
    requires Consistent(l) && (EvictedCount(l.fates) == 0 || EvictedCount(l.fates) + l.rx.cap <= |l.sent|)
    ensures var m := Step(l, e, selfContained);
      EvictedCount(m.fates) == 0 || EvictedCount(m.fates) + l.rx.cap <= |m.sent|
  {
    if e.Dequeue? {
      EvictedCountSum(l.fates, [Consumed]);
      assert EvictedCount([Consumed]) == EvictedCount([Consumed][..0]);
    } else if e.Publish? && !l.rx.closed && Enters(l.rx, e.au, selfContained) && |l.rx.queue| >= l.rx.cap {
      EvictedAtMostAll(l.fates);
      EvictedCountSum(l.fates, Leaving(|l.rx.queue|, e.race));
      LeavingEvictsOne(|l.rx.queue|, e.race);
    }
  }

  // ---- Self-contained tracks ----

  ghost predicate SelfContainedPolicy(l: Lane) {
    && |l.sent| == |l.offered|
    && (forall i :: 0 <= i < |l.sent| ==> l.sent[i] == i)
    && (forall m :: 0 <= m < |l.fates| && l.fates[m] == Evicted ==> m + 1 < |l.offered|)
  }

  lemma {:induction false} SelfContainedRun(latest: Option<AccessUnit>, cap: nat, events: seq<Event>)
    requires cap >= 1
    ensures Consistent(Run(Start(latest, cap, true), events, true))
    ensures SelfContainedPolicy(Run(Start(latest, cap, true), events, true))
  {
    if events != [] {
      var front := events[..|events| - 1];
      SelfContainedRun(latest, cap, front);
      StepConsistent(Run(Start(latest, cap, true), front, true), events[|events| - 1], true);
    }
  }

  // For self-contained tracks the queue is, in every run, a contiguous suffix
  // of everything offered, within capacity, and the latest access unit is
  // queued or was consumed: overflow only ever loses the oldest.
  lemma SelfContainedFanOut(latest: Option<AccessUnit>, cap: nat, events: seq<Event>)
    requires cap >= 1
    ensures var l := Run(Start(latest, cap, true), events, true);
      && l.offered == Subscribed(latest, cap, true).queue + PublishedWhileOpen(events)
      && |l.rx.queue| <= cap
      && IsSuffix(l.rx.queue, l.offered)
      && |l.offered| == |l.fates| + |l.rx.queue|
      && (l.offered != [] ==> QueuedOrConsumed(l, |l.offered| - 1))
  {
    SelfContainedRun(latest, cap, events);
    OfferedIsPublished(Start(latest, cap, true), events, true);
    RunCloses(Start(latest, cap, true), events, true);
    var l := Run(Start(latest, cap, true), events, true);
    QueueIsSuffix(l);
  }

  lemma QueueIsSuffix(l: Lane)
    requires Consistent(l) && SelfContainedPolicy(l)
    ensures IsSuffix(l.rx.queue, l.offered)
    ensures l.offered != [] ==> QueuedOrConsumed(l, |l.offered| - 1)
  {
    if l.offered != [] {
      assert l.sent[|l.offered| - 1] == |l.offered| - 1;
    }
  }
}
