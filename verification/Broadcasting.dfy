/**
 * The broadcaster (pubsub/broadcaster.go): a circular replay buffer with a slot
 * limit and a byte limit, a keyframe cache, and fan-out to bounded receivers.
 *
 * Each method is one critical section, except Publish, which is its two parts in
 * one go (BeginPublish and FanOut). `accepted` is a ghost record of every
 * access unit that passed the interceptors and the size cap, in publish order.
 */
module Broadcasting {
  import opened Bytes
  import opened AccessUnits
  import opened Replay
  import opened Receivers
  import opened ReplayRings

  type Interceptor = AccessUnit -> Option<AccessUnit>

  // The result of an interceptor chain; None when some interceptor drops.
  function Intercepted(chain: seq<Interceptor>, au: AccessUnit): Option<AccessUnit> {
    if chain == [] then Some(au)
    else
      var next := chain[0](au);
      if next.None? then None else Intercepted(chain[1..], next.value)
  }

  // What Publish lets through: the unit after the interceptors, unless one of
  // them drops it or it is then larger than the cap (0 or less: no cap).
  function Admitted(chain: seq<Interceptor>, maxAUBytes: int, unit: AccessUnit): Option<AccessUnit> {
    var result := Intercepted(chain, unit);
    if result.Some? && maxAUBytes > 0 && |result.value.bytes| > maxAUBytes then None else result
  }

  // A chain of interceptors does what its parts do one after the other; an empty
  // chain lets everything through as it is.
  lemma {:induction false} ChainComposes(first: seq<Interceptor>, second: seq<Interceptor>, au: AccessUnit)
    ensures Intercepted([], au) == Some(au)
    ensures forall f: Interceptor :: Intercepted([f], au) == f(au)
    ensures Intercepted(first + second, au) ==
      if Intercepted(first, au).None? then None else Intercepted(second, Intercepted(first, au).value)
    decreases |first|
  {
    forall f: Interceptor
      ensures Intercepted([f], au) == f(au)
    {
      assert [f][1..] == [];
    }
    if first == [] {
      assert first + second == second;
    } else {
      assert (first + second)[1..] == first[1..] + second;
      if first[0](au).Some? {
        ChainComposes(first[1..], second, first[0](au).value);
      }
    }
  }

  // Publish admits what the chain lets through, unless there is a cap and the
  // result exceeds it.
  lemma AdmitsWithinCap(chain: seq<Interceptor>, maxAUBytes: int, unit: AccessUnit)
    ensures maxAUBytes <= 0 ==> Admitted(chain, maxAUBytes, unit) == Intercepted(chain, unit)
    ensures Admitted([], maxAUBytes, unit).Some? <==> maxAUBytes <= 0 || |unit.bytes| <= maxAUBytes
    ensures Admitted([], maxAUBytes, unit).Some? ==> Admitted([], maxAUBytes, unit).value == unit
    ensures forall au :: Intercepted(chain, unit) == Some(au) && maxAUBytes > 0 ==>
              Admitted(chain, maxAUBytes, unit) == if |au.bytes| > maxAUBytes then None else Some(au)
  {
    ChainComposes([], [], unit);
  }

  class Broadcaster {
    var receivers: set<Receiver>
    var latestKeyframe: Option<AccessUnit>
    const chanSize: nat
    const maxAUBytes: int
    var selfContained: bool
    const ring: ReplayRing
    var interceptors: seq<Interceptor>

    ghost var accepted: seq<AccessUnit>

    // NewBroadcasterWithBytes
    constructor (chan: int, maxBytes: int)
      ensures Valid() && receivers == {} && accepted == [] && latestKeyframe == None
      ensures chanSize == (if chan <= 0 then 30 else chan) && maxAUBytes == maxBytes
      ensures fresh(ring) && ring.View() == Ring([], DEFAULT_REPLAY_CAP, DEFAULT_REPLAY_MAX_BYTES)
      ensures !selfContained && interceptors == []
    {
      chanSize := if chan <= 0 then 30 else chan;
      maxAUBytes := maxBytes;
      ring := new ReplayRing(DEFAULT_REPLAY_CAP, DEFAULT_REPLAY_MAX_BYTES);
      receivers, latestKeyframe, selfContained, interceptors := {}, None, false, [];
      accepted := [];
    }

    ghost predicate HistoryValid()
      reads this`accepted, this`latestKeyframe, ring
    {
      && ring.Valid()
      && IsSuffix(ring.contents, accepted)
      && latestKeyframe == LatestKeyframe(accepted)
    }

    ghost predicate Valid()
      reads this, ring, receivers
    {
      && HistoryValid()
      && chanSize >= 1
      && (forall r :: r in receivers ==> r.Valid() && !r.closed)
    }

    method SubscribeWithCapacity(size: nat) returns (r: Receiver)
      requires Valid()
      modifies this`receivers
      ensures Valid() && fresh(r) && receivers == old(receivers) + {r}
      ensures r.View() == Subscribed(latestKeyframe, if size < chanSize then chanSize else size, selfContained)
      ensures r.cap >= size && r.cap >= chanSize && (r.cap == size || r.cap == chanSize) && !r.closed
      ensures r.ch == if latestKeyframe.Some? then [latestKeyframe.value] else []
      ensures r.needKeyframe == (latestKeyframe.None? && !selfContained)
    {
      r := new Receiver(if size < chanSize then chanSize else size);
      receivers := receivers + {r};
      if latestKeyframe.Some? {
        var sent := r.TrySend(latestKeyframe.value);
        assert sent;
      } else if !selfContained {
        r.RequestKeyframe();
      }
    }

    method Unsubscribe(r: Receiver)
      requires Valid()
      modifies this`receivers, r`closed
      ensures Valid() && receivers == old(receivers) - {r}
      ensures r.closed == (old(r.closed) || r in old(receivers))
    {
      if r !in receivers {
        return;
      }
      receivers := receivers - {r};
      if !r.closed {
        r.closed := true;
      }
    }

    // The first critical section of Publish: the keyframe cache and the ring take
    // an admitted unit, and the receivers to send it to are noted. No receiver is
    // touched yet.
    method BeginPublish(unit: AccessUnit)
      returns (admitted: Option<AccessUnit>, snapshot: set<Receiver>, selfContainedNow: bool)
      requires Valid()
      modifies this`latestKeyframe, this`accepted, ring
      ensures Valid() && admitted == Admitted(interceptors, maxAUBytes, unit)
      ensures snapshot == receivers && selfContainedNow == selfContained
      ensures admitted.None? ==> unchanged(this) && unchanged(ring)
      ensures admitted.Some? ==>
                && accepted == old(accepted) + [admitted.value]
                && ring.View() == RingStep(old(ring.View()), Append(admitted.value))
    {
      admitted := Admit(unit);
      if admitted.Some? {
        Accept(admitted.value);
      }
      snapshot, selfContainedNow := receivers, selfContained;
    }

    // Publish with nothing in between its critical sections. `race` says what each
    // receiver's consumer takes while this publish is sending to it.
    method Publish(unit: AccessUnit, race: Receiver -> Race)
      requires Valid()
      modifies this`latestKeyframe, this`accepted, ring, receivers
      ensures Valid()
      ensures Admitted(interceptors, maxAUBytes, unit).None? ==>
                unchanged(this) && unchanged(ring) && unchanged(receivers)
      ensures Admitted(interceptors, maxAUBytes, unit).Some? ==>
                var au := Admitted(interceptors, maxAUBytes, unit).value;
                && accepted == old(accepted) + [au]
                && ring.View() == RingStep(old(ring.View()), Append(au))
                && forall r :: r in receivers ==> r.View() == Offer(old(r.View()), au, selfContained, race(r))
    {
      var admitted, snapshot, selfContainedNow := BeginPublish(unit);
      if admitted.Some? {
        assert forall r :: r in receivers ==> r.View() == old(r.View());
        FanOut(snapshot, admitted.value, selfContainedNow, race);
      }
    }

    // The interceptor chain, then the size cap.
    method Admit(unit: AccessUnit) returns (admitted: Option<AccessUnit>)
      ensures admitted == Admitted(interceptors, maxAUBytes, unit)
    {
      var au := unit;
      for i := 0 to |interceptors|
        invariant Intercepted(interceptors, unit) == Intercepted(interceptors[i..], au)
      {
        var next := interceptors[i](au);
        if next.None? {
          return None;
        }
        assert interceptors[i..][1..] == interceptors[i + 1..];
        au := next.value;
      }
      if maxAUBytes > 0 && |au.bytes| > maxAUBytes {
        return None;
      }
      return Some(au);
    }

    // The keyframe cache and the replay ring take one accepted access unit.
    method Accept(au: AccessUnit)
      requires HistoryValid()
      modifies this`latestKeyframe, this`accepted, ring
      ensures HistoryValid() && accepted == old(accepted) + [au]
      ensures ring.View() == RingStep(old(ring.View()), Append(au))
    {
      if au.keyframe {
        latestKeyframe := Some(au);
      }
      ring.Push(au);
      ghost var now := accepted + [au];
      assert IsSuffix(ring.contents, now) by {
        SuffixKept(old(ring.contents), accepted, au, ring.slots, ring.budget);
      }
      assert latestKeyframe == LatestKeyframe(now) by {
        LatestKeyframeAppend(accepted, au);
      }
      accepted := now;
    }

    // Close: every receiver is closed and forgotten.
    method Close()
      requires Valid()
      modifies this`receivers, receivers
      ensures Valid() && receivers == {}
      ensures forall r :: r in old(receivers) ==> r.closed && r.ch == old(r.ch)
    {
      var todo := receivers;
      receivers := {};
      while todo != {}
        invariant todo <= old(receivers) && receivers == {}
        invariant forall r :: r in old(receivers) ==> r.ch == old(r.ch)
        invariant forall r :: r in old(receivers) - todo ==> r.closed
        decreases todo
      {
        var r :| r in todo;
        r.closed := true;
        todo := todo - {r};
      }
    }
  }

  // The second part of Publish: the noted receivers are sent the unit one by one,
  // each under its own lock. Meanwhile any of them may have been unsubscribed and
  // closed; a closed one is left as it is.
  method FanOut(snapshot: set<Receiver>, au: AccessUnit, selfContained: bool, race: Receiver -> Race)
    requires forall r :: r in snapshot ==> r.Valid()
    modifies snapshot
    ensures forall r :: r in snapshot ==> r.View() == Offer(old(r.View()), au, selfContained, race(r))
    ensures forall r :: r in snapshot ==> r.Valid() && r.closed == old(r.closed)
    ensures forall r :: r in snapshot && r.closed ==> r.View() == old(r.View())
  {
    var todo := snapshot;
    while todo != {}
      invariant todo <= snapshot
      invariant forall r :: r in snapshot ==> r.Valid() && r.closed == old(r.closed)
      invariant forall r :: r in todo ==> r.View() == old(r.View())
      invariant forall r :: r in snapshot - todo ==> r.View() == Offer(old(r.View()), au, selfContained, race(r))
      decreases todo
    {
      var r :| r in todo;
      r.Send(au, selfContained, race(r));
      todo := todo - {r};
    }
  }
}
