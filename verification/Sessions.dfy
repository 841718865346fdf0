/**
 * The park and resume blocks of a server session (server/server.go:1243-1291
 * and 1345-1378), which create, splice and close receivers, and what a client
 * that disconnects and comes back finds in its queue.
 */
module Sessions {
  import opened Bytes
  import opened AccessUnits
  import opened Replay
  import opened Receivers
  import opened ReplayRings
  import opened Broadcasting
  import opened Resume

  type Kind = string
  const KIND_VIDEO: Kind := "video"

  predicate IsVideo(kind: Kind) {
    kind == KIND_VIDEO || kind == ""
  }

  datatype TrackEntry = TrackEntry(kind: Kind, bc: Broadcaster)

  // What the resume callback needs of a track.
  datatype TrackInfo = TrackInfo(ring: seq<AccessUnit>, video: bool)

  // What the resume callback does to the receiver of one track: resume it if the
  // client has a last-seen Seq for it and the track still exists, else leave it
  // as it is.
  ghost predicate ResumeOutcome(
      infos: map<string, TrackInfo>, name: string, lastSeen: map<string, uint32>, was: Rx, now: Rx)
  {
    if name in lastSeen && name in infos then
      Resumed(was, infos[name].ring, infos[name].video, lastSeen[name], now)
    else
      now == was
  }

  class Server {
    var tracks: map<string, TrackEntry>

    constructor ()
      ensures tracks == map[]
    {
      tracks := map[];
    }

    ghost function Infos(): map<string, TrackInfo>
      reads this, set name | name in tracks :: tracks[name].bc.ring
    {
      map name | name in tracks :: TrackInfo(tracks[name].bc.ring.contents, IsVideo(tracks[name].kind))
    }

    // The resume callback, after the store has handed back the parked receivers.
    method ResumeTracks(recvs: map<string, Receiver>, lastSeen: map<string, uint32>)
      requires forall name :: name in tracks ==> tracks[name].bc.ring.Valid()
      requires forall name :: name in recvs ==> recvs[name].Valid()
      requires forall a, b :: a in recvs && b in recvs && a != b ==> recvs[a] != recvs[b]
      modifies recvs.Values
      ensures forall name :: name in recvs ==> recvs[name].Valid()
      ensures forall name :: name in recvs && name in lastSeen && name in tracks ==>
                var ring, video := old(tracks[name].bc.ring.contents), tracks[name].kind in {"video", ""};
                Resumed(old(recvs[name].View()), ring, video, lastSeen[name], recvs[name].View())
      ensures forall name :: name in recvs && !(name in lastSeen && name in tracks) ==>
                recvs[name].View() == old(recvs[name].View())
    {
      ResumeEach(recvs, lastSeen, Infos());
    }

    // The loop over the client's last-seen Seqs.
    method ResumeEach(recvs: map<string, Receiver>, lastSeen: map<string, uint32>, ghost infos: map<string, TrackInfo>)
      requires infos == Infos() && forall name :: name in tracks ==> tracks[name].bc.ring.Valid()
      requires forall name :: name in recvs ==> recvs[name].Valid()
      requires forall a, b :: a in recvs && b in recvs && a != b ==> recvs[a] != recvs[b]
      modifies recvs.Values
      ensures forall name :: name in recvs ==> recvs[name].Valid()
      ensures forall name :: name in recvs ==>
                ResumeOutcome(infos, name, lastSeen, old(recvs[name].View()), recvs[name].View())
    {
      var todo := lastSeen.Keys;
      while todo != {}
        invariant todo <= lastSeen.Keys
        invariant forall name :: name in recvs ==> recvs[name].Valid()
        invariant forall name :: name in recvs && name in todo ==> recvs[name].View() == old(recvs[name].View())
        invariant forall name :: name in recvs && name !in todo ==>
                    ResumeOutcome(infos, name, lastSeen, old(recvs[name].View()), recvs[name].View())
        decreases todo
      {
        var name :| name in todo;
        todo := todo - {name};
        if name in recvs {
          ResumeNamed(name, recvs[name], lastSeen, infos);
        }
      }
    }

    method ResumeNamed(name: string, r: Receiver, lastSeen: map<string, uint32>, ghost infos: map<string, TrackInfo>)
      requires name in tracks <==> name in infos
      requires name in tracks ==>
        tracks[name].bc.ring.Valid() && infos[name] == TrackInfo(tracks[name].bc.ring.contents, IsVideo(tracks[name].kind))
      requires r.Valid() && name in lastSeen
      modifies r
      ensures r.Valid() && ResumeOutcome(infos, name, lastSeen, old(r.View()), r.View())
    {
      if name in tracks {
        ResumeTrack(tracks[name], r, lastSeen[name]);
      }
    }
  }

  // The resume callback's work for one track.
  method ResumeTrack(te: TrackEntry, r: Receiver, fromSeq: uint32)
    requires te.bc.ring.Valid() && r.Valid()
    modifies r
    ensures r.Valid()
    ensures Resumed(old(r.View()), te.bc.ring.contents, IsVideo(te.kind), fromSeq, r.View())
  {
    ghost var ring := te.bc.ring.contents;
    var replay, available := te.bc.ring.ReplaySince((fromSeq + 1) % TWO_TO_32);
    assert ReplayAnswer(ring, NextSeq(fromSeq), replay, available);
    if !available {
      if te.kind == KIND_VIDEO || te.kind == "" {
        r.RequestKeyframe();
      }
      assert r.View() == if IsVideo(te.kind) then old(r.View()).(needKeyframe := true) else old(r.View());
      return;
    }
    if |replay| > 0 {
      r.SpliceFront(replay);
    }
  }

  // Parking one track: subscribe a fresh, large receiver, then unsubscribe the
  // active ones.
  method ParkTrack(bc: Broadcaster, active: set<Receiver>) returns (r: Receiver)
    requires bc.Valid()
    modifies bc`receivers, active
    ensures bc.Valid() && fresh(r) && bc.receivers == old(bc.receivers) - active + {r}
    ensures r.View() == Parked(bc.accepted, [], bc.chanSize, bc.selfContained)
    ensures forall a :: a in active && a in old(bc.receivers) ==> a.closed
  {
    r := bc.SubscribeWithCapacity(PARKED_CHAN_CAP);
    UnsubscribeAll(bc, active);
  }

  method UnsubscribeAll(bc: Broadcaster, active: set<Receiver>)
    requires bc.Valid()
    modifies bc`receivers, active`closed
    ensures bc.Valid() && bc.receivers == old(bc.receivers) - active
    ensures forall a :: a in active && a in old(bc.receivers) ==> a.closed
  {
    var todo := active;
    while todo != {}
      invariant bc.Valid() && todo <= active
      invariant bc.receivers == old(bc.receivers) - (active - todo)
      invariant forall a :: a in active - todo && a in old(bc.receivers) ==> a.closed
      decreases todo
    {
      var a :| a in todo;
      todo := todo - {a};
      bc.Unsubscribe(a);
    }
  }

  // A track on which `before` was accepted, then a receiver was parked, then
  // `during` was accepted. The ring has the default number of slots.
  ghost predicate Waiting(bc: Broadcaster, r: Receiver, before: seq<AccessUnit>, during: seq<AccessUnit>)
    reads bc, bc.ring, r
  {
    && r in bc.receivers
    && bc.accepted == before + during
    && r.View() == Parked(before, during, bc.chanSize, bc.selfContained)
    && bc.ring.slots == DEFAULT_REPLAY_CAP
    && IsWindow(bc.ring.contents, bc.accepted)
  }

  // Publish while a receiver is parked: its queue is offered exactly what is
  // accepted.
  method PublishParked(
      bc: Broadcaster, r: Receiver, unit: AccessUnit, ghost before: seq<AccessUnit>, ghost during: seq<AccessUnit>)
    returns (ghost during': seq<AccessUnit>)
    requires bc.Valid() && Waiting(bc, r, before, during)
    modifies bc`latestKeyframe, bc`accepted, bc.ring, bc.receivers
    ensures bc.Valid() && Waiting(bc, r, before, during')
    ensures during' == match Admitted(bc.interceptors, bc.maxAUBytes, unit)
                       case None => during
                       case Some(au) => during + [au]
  {
    var admitted := bc.Admit(unit);
    ghost var was, rx := bc.ring.View(), r.View();
    bc.Publish(unit, _ => NO_RACE);
    during' := during;
    if admitted.Some? {
      during' := during + [admitted.value];
      WaitingStep(before, during, admitted.value, bc.chanSize, bc.selfContained, was, rx);
    }
  }

  lemma WaitingStep(
      before: seq<AccessUnit>, during: seq<AccessUnit>, au: AccessUnit, chanSize: nat, selfContained: bool,
      was: Ring, rx: Rx)
    requires rx == Parked(before, during, chanSize, selfContained)
    requires was.slots == DEFAULT_REPLAY_CAP && IsWindow(was.contents, before + during)
    ensures Offer(rx, au, selfContained, NO_RACE) == Parked(before, during + [au], chanSize, selfContained)
    ensures before + during + [au] == before + (during + [au])
    ensures IsWindow(RingStep(was, Append(au)).contents, before + (during + [au]))
  {
    assert (during + [au])[..|during|] == during;
    var h := before + during;
    assert h + [au] == before + (during + [au]);
    WindowStep(was, h, au);
  }

  lemma WindowStep(was: Ring, h: seq<AccessUnit>, au: AccessUnit)
    requires was.slots == DEFAULT_REPLAY_CAP && IsWindow(was.contents, h)
    ensures IsWindow(RingStep(was, Append(au)).contents, h + [au])
  {
    RetainIsLongest(was.contents + [au], DEFAULT_REPLAY_CAP, was.budget);
    SuffixKept(was.contents, h, au, DEFAULT_REPLAY_CAP, was.budget);
  }

  // When Seqs ascend strictly, last-seen is one the client can have had, and the
  // window reaches back to it, the queue is every access unit accepted after
  // last-seen, ascending, preceded at most by the keyframe that was cached when
  // the client left.
  ghost predicate GapFree(
      queue: seq<AccessUnit>, before: seq<AccessUnit>, during: seq<AccessUnit>, lastSeen: uint32, ring: seq<AccessUnit>)
  {
    && StrictlyAscending(before + during)
    && lastSeen < TWO_TO_32 - 1 && (forall x :: x in during ==> x.seqNo > lastSeen)
    && WindowReaches(ring, lastSeen)
    ==>
    && SeedThen(queue, LatestKeyframe(before), lastSeen, Since(before + during, lastSeen + 1))
    && StrictlyAscending(queue)
  }

  lemma ResumedIsGapFree(
      before: seq<AccessUnit>, during: seq<AccessUnit>, chanSize: nat, ring: seq<AccessUnit>, selfContained: bool,
      lastSeen: uint32, after: Rx)
    requires IsWindow(ring, before + during)
    requires Resumed(Parked(before, during, chanSize, selfContained), ring, !selfContained, lastSeen, after)
    ensures GapFree(after.queue, before, during, lastSeen, ring)
  {
    if StrictlyAscending(before + during) && lastSeen < TWO_TO_32 - 1 && (forall x :: x in during ==> x.seqNo > lastSeen) {
      GapFreeResume(before, during, ring, chanSize, selfContained, lastSeen, after);
    }
  }

  // Disconnect, publishes while away, and resume, on the objects themselves.
  method DisconnectAndResume(te: TrackEntry, active: set<Receiver>, units: seq<AccessUnit>, lastSeen: uint32)
    returns (r: Receiver, ghost during: seq<AccessUnit>)
    requires te.bc.Valid() && te.bc.ring.slots == DEFAULT_REPLAY_CAP && IsWindow(te.bc.ring.contents, te.bc.accepted)
    requires IsVideo(te.kind) <==> !te.bc.selfContained
    requires active <= te.bc.receivers
    modifies te.bc, te.bc.ring, te.bc.receivers
    ensures te.bc.Valid() && te.bc.accepted == old(te.bc.accepted) + during
    ensures GapFree(r.ch, old(te.bc.accepted), during, lastSeen, te.bc.ring.contents)
  {
    ghost var before := te.bc.accepted;
    r := ParkTrack(te.bc, active);
    assert before + [] == before;
    assert Waiting(te.bc, r, before, []);
    during := AwayAndBack(te, r, units, lastSeen, before);
  }

  method AwayAndBack(te: TrackEntry, r: Receiver, units: seq<AccessUnit>, lastSeen: uint32, ghost before: seq<AccessUnit>)
    returns (ghost during: seq<AccessUnit>)
    requires te.bc.Valid() && Waiting(te.bc, r, before, [])
    requires IsVideo(te.kind) <==> !te.bc.selfContained
    modifies te.bc`latestKeyframe, te.bc`accepted, te.bc.ring, te.bc.receivers
    ensures te.bc.Valid() && te.bc.accepted == before + during
    ensures GapFree(r.ch, before, during, lastSeen, te.bc.ring.contents)
  {
    during := PublishAll(te.bc, r, units, before);
    ResumeTrack(te, r, lastSeen);
    ResumedIsGapFree(before, during, te.bc.chanSize, te.bc.ring.contents, te.bc.selfContained, lastSeen, r.View());
  }

  method PublishAll(bc: Broadcaster, r: Receiver, units: seq<AccessUnit>, ghost before: seq<AccessUnit>)
    returns (ghost during: seq<AccessUnit>)
    requires bc.Valid() && Waiting(bc, r, before, [])
    modifies bc`latestKeyframe, bc`accepted, bc.ring, bc.receivers
    ensures bc.Valid() && Waiting(bc, r, before, during)
  {
    during := [];
    for i := 0 to |units|
      invariant bc.Valid() && Waiting(bc, r, before, during)
    {
      during := PublishParked(bc, r, units[i], before, during);
    }
  }
}
