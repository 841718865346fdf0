/**
 * The file recorder (record/file.go): writers enqueue on a bounded channel and
 * never block; one goroutine drains the channel into the file; Close drains the
 * rest and writes the EOF marker. Each method is one atomic step, and steps may
 * come in any order.
 */
module Recorder {
  import opened Bytes
  import opened AccessUnits
  import opened Framing
  import opened RecordFormat
  import opened Recording

  datatype Recorded = Recorded(track: seq<byte>, kind: seq<byte>, au: AccessUnit)

  // The frame written for an access unit drained at time t.
  function FrameFor(r: Recorded, t: int64): Frame {
    Frame(r.track, r.kind, r.au.ptsMicro, r.au.seqNo, r.au.keyframe, r.au.discontinuity, t, r.au.bytes)
  }

  // Replay gives an access unit back as it was recorded, but for the publish clock,
  // which is not stored.
  lemma UnitSurvives(r: Recorded, t: int64)
    ensures UnitOf(FrameFor(r, t)) == r.au.(pubWallMicro := 0)
  {}

  // The frames written for drained access units: those encodeFrame accepts.
  function FramesFor(recs: seq<Recorded>, times: seq<int64>): seq<Frame>
    requires |recs| == |times|
  {
    FramesAmong(recs, times, |recs|)
  }

  function FramesAmong(recs: seq<Recorded>, times: seq<int64>, n: nat): seq<Frame>
    requires n <= |recs| == |times|
    decreases recs, n
  {
    if n == 0 then []
    else
      var f := FrameFor(recs[n - 1], times[n - 1]);
      FramesAmong(recs, times, n - 1) + if IsEncodable(f) then [f] else []
  }

  lemma {:induction false} FramesAmongPrefix(recs: seq<Recorded>, times: seq<int64>, r: Recorded, t: int64, n: nat)
    requires n <= |recs| == |times|
    ensures FramesAmong(recs + [r], times + [t], n) == FramesAmong(recs, times, n)
  {
    if n > 0 {
      FramesAmongPrefix(recs, times, r, t, n - 1);
    }
  }

  lemma FramesForAppend(recs: seq<Recorded>, times: seq<int64>, r: Recorded, t: int64)
    requires |recs| == |times|
    ensures FramesFor(recs + [r], times + [t])
         == FramesFor(recs, times) + if IsEncodable(FrameFor(r, t)) then [FrameFor(r, t)] else []
  {
    FramesAmongPrefix(recs, times, r, t, |recs|);
  }

  // When every access unit is encodable none is skipped.
  lemma FramesForAll(recs: seq<Recorded>, times: seq<int64>)
    requires |recs| == |times|
    requires forall k :: 0 <= k < |recs| ==> IsEncodable(FrameFor(recs[k], times[k]))
    ensures |FramesFor(recs, times)| == |recs|
    ensures forall k :: 0 <= k < |recs| ==> FramesFor(recs, times)[k] == FrameFor(recs[k], times[k])
  {
    FramesAmongAll(recs, times, |recs|);
  }

  lemma {:induction false} FramesAmongAll(recs: seq<Recorded>, times: seq<int64>, n: nat)
    requires n <= |recs| == |times|
    requires forall k :: 0 <= k < |recs| ==> IsEncodable(FrameFor(recs[k], times[k]))
    ensures |FramesAmong(recs, times, n)| == n
    ensures forall k :: 0 <= k < n ==> FramesAmong(recs, times, n)[k] == FrameFor(recs[k], times[k])
  {
    if n > 0 {
      FramesAmongAll(recs, times, n - 1);
    }
  }

  // A file that is still being written.
  function Unfinished(frames: seq<Frame>): seq<byte> {
    FileHeader() + Concat(Stored, frames)
  }

  class FileRecorder {
    const depth: nat
    var ch: seq<Recorded>
    var dropped: nat
    var closed: bool
    var out: seq<byte>  // buffered and written bytes of the file
    var finished: bool  // the EOF marker is out

    ghost var writes: nat              // calls of Write
    ghost var accepted: seq<Recorded>  // those that were enqueued, in order
    ghost var drained: seq<Recorded>   // those taken off the channel
    ghost var times: seq<int64>        // when each was taken

    // NewFileRecorderDepth
    constructor (size: int)
      ensures Valid() && depth == (if size <= 0 then 1024 else size)
      ensures !closed && !finished && writes == 0 && dropped == 0 && accepted == []
    {
      depth := if size <= 0 then 1024 else size;
      ch, dropped, closed, out, finished := [], 0, false, FileHeader(), false;
      writes, accepted, drained, times := 0, [], [], [];
      assert Unfinished([]) == FileHeader();
    }

    ghost predicate Valid()
      reads this
    {
      && 1 <= depth && |ch| <= depth
      && accepted == drained + ch && |drained| == |times|
      && out == (if finished then File(FramesFor(drained, times)) else Unfinished(FramesFor(drained, times)))
      && (finished ==> closed && ch == [])
      && writes == |accepted| + dropped
    }

    // A Write that is not enqueued is counted as dropped.
    method Write(rec: Recorded)
      requires Valid()
      modifies this`ch, this`dropped, this`writes, this`accepted
      ensures Valid() && writes == old(writes) + 1
      ensures if old(!closed && |ch| < depth) then accepted == old(accepted) + [rec] && dropped == old(dropped)
              else accepted == old(accepted) && dropped == old(dropped) + 1
      ensures ch == old(ch) + accepted[|old(accepted)|..]
    {
      writes := writes + 1;
      if closed {
        dropped := dropped + 1;
        return;
      }
      if |ch| < depth {
        ch := ch + [rec];
        accepted := accepted + [rec];
      } else {
        dropped := dropped + 1;
      }
    }

    // One turn of the writer goroutine.
    method Drain(now: int64)
      requires Valid() && ch != []
      modifies this`ch, this`out, this`drained, this`times
      ensures Valid() && ch == old(ch)[1..] && times == old(times) + [now]
    {
      var rec := ch[0];
      NextInLine(drained, ch);
      ch := ch[1..];
      Emit(rec, now);
    }

    // The frame of one drained unit goes to the file, unless it cannot be encoded.
    method Emit(rec: Recorded, now: int64)
      requires |drained| == |times| && out == Unfinished(FramesFor(drained, times))
      modifies this`out, this`drained, this`times
      ensures drained == old(drained) + [rec] && times == old(times) + [now]
      ensures out == Unfinished(FramesFor(drained, times))
    {
      DrainStep(drained, times, rec, now);
      drained, times := drained + [rec], times + [now];
      var encoded := EncodeFrame(FrameFor(rec, now));
      if encoded.Bytes? {
        out := out + encoded.bytes;
      } else {
        assert out + [] == out;
      }
    }

    // The first half of Close: from now on nothing is accepted. False if some
    // caller was here before, which then has nothing more to do.
    method StartClose() returns (first: bool)
      requires Valid()
      modifies this`closed
      ensures Valid() && closed && first == !old(closed)
    {
      first := !closed;
      closed := true;
    }

    // The second half, once the writer goroutine has drained the channel.
    method FinishClose()
      requires Valid() && closed && ch == [] && !finished
      modifies this`out, this`finished
      ensures Valid() && finished
      ensures |times| == |accepted| && out == File(FramesFor(accepted, times))
    {
      assert drained == accepted;
      Associate(FileHeader(), Concat(Stored, FramesFor(drained, times)), EOF_MARKER);
      out := out + EOF_MARKER;
      finished := true;
    }

    // Writes that come too late.
    method WriteLate(recs: seq<Recorded>)
      requires Valid() && closed
      modifies this`ch, this`dropped, this`writes, this`accepted
      ensures Valid() && ch == old(ch) && accepted == old(accepted)
      ensures dropped == old(dropped) + |recs| && writes == old(writes) + |recs|
    {
      for i := 0 to |recs|
        invariant Valid() && ch == old(ch) && accepted == old(accepted)
        invariant dropped == old(dropped) + i && writes == old(writes) + i
      {
        Write(recs[i]);
      }
    }

    // Late Writes, then one turn of the writer goroutine.
    method DrainLate(late: seq<Recorded>, now: int64)
      requires Valid() && closed && ch != []
      modifies this`ch, this`dropped, this`writes, this`accepted, this`out, this`drained, this`times
      ensures Valid() && ch == old(ch)[1..] && accepted == old(accepted)
      ensures writes == old(writes) + |late| && dropped == old(dropped) + |late|
    {
      WriteLate(late);
      Drain(now);
    }

    // Close, with other goroutines writing while the channel drains: late[i] are
    // the Writes that come before the i-th drain. Everything accepted before the
    // close is in the file, everything later is counted as dropped.
    method Close(clock: nat -> int64, late: nat -> seq<Recorded>)
      requires Valid()
      modifies this
      ensures Valid() && closed && accepted == old(accepted)
      ensures writes - old(writes) == dropped - old(dropped)
      ensures !old(closed) ==> finished && |times| == |accepted| && out == File(FramesFor(accepted, times))
      ensures old(closed) ==> unchanged(this)
    {
      var first := StartClose();
      if !first {
        return;
      }
      var i := 0;
      while ch != []
        invariant Valid() && closed && !finished
        invariant accepted == old(accepted) && writes - old(writes) == dropped - old(dropped)
        decreases |ch|
      {
        DrainLate(late(i), clock(i));
        i := i + 1;
      }
      FinishClose();
    }
  }

  lemma NextInLine(drained: seq<Recorded>, ch: seq<Recorded>)
    requires ch != []
    ensures drained + ch == drained + [ch[0]] + ch[1..]
  {}

  // What draining one more unit adds to the file.
  lemma DrainStep(drained: seq<Recorded>, times: seq<int64>, rec: Recorded, now: int64)
    requires |drained| == |times|
    ensures Unfinished(FramesFor(drained, times)) + Stored(FrameFor(rec, now))
         == Unfinished(FramesFor(drained + [rec], times + [now]))
  {
    var before, f := FramesFor(drained, times), FrameFor(rec, now);
    FramesForAppend(drained, times, rec, now);
    if IsEncodable(f) {
      OneMoreFrame(before, f);
    } else {
      assert before + [] == before;
      assert Unfinished(before) + [] == Unfinished(before);
    }
  }

  lemma OneMoreFrame(frames: seq<Frame>, f: Frame)
    ensures Unfinished(frames) + Stored(f) == Unfinished(frames + [f])
  {
    ConcatAppend(Stored, frames, f);
    Associate(FileHeader(), Concat(Stored, frames), Stored(f));
  }

  // End to end: the file of a closed recorder, whose accepted access units are
  // all storable, reads back as exactly those access units, in the order they
  // were accepted, field for field.
  lemma ClosedFileHoldsAccepted(accepted: seq<Recorded>, times: seq<int64>)
    requires |accepted| == |times|
    requires forall k :: 0 <= k < |accepted| ==> IsStorable(FrameFor(accepted[k], times[k]))
    ensures var data := File(FramesFor(accepted, times));
      && |data| >= HEADER_LEN && IsHeader(data[..HEADER_LEN])
      && var log := ReadLog(data[HEADER_LEN..]);
         && !log.corrupt && |log.frames| == |accepted|
         && forall k :: 0 <= k < |accepted| ==> log.frames[k] == FrameFor(accepted[k], times[k])
  {
    var frames := FramesFor(accepted, times);
    FramesForAll(accepted, times);
    var data := File(frames);
    assert frames[..|frames|] == frames && data[..|data|] == data;
    CutRecording(frames, |data|, |frames|);
  }

  // An index entry names the track and kind, the capture time and the fields of
  // the recorded access unit.
  ghost predicate Describes(e: Entry, r: Recorded, t: int64) {
    && e.track.name == r.track && e.track.kind == r.kind && e.capturedAtMicros == t
    && e.ptsMicros == r.au.ptsMicro && e.seqNo == r.au.seqNo && e.keyframe == r.au.keyframe
    && e.discontinuity == r.au.discontinuity && e.payloadLen == |r.au.bytes|
  }

  // Recorder, index and replay together: on the file of a closed recorder the
  // index has one entry per accepted access unit, in order, and reading the
  // payload at entry k gives the access unit that sequential replay gives k-th.
  method IndexMatchesReplay(r: FileRecorder)
    returns (entries: seq<Entry>, units: seq<AccessUnit>, payloads: seq<Option<AccessUnit>>)
    requires r.Valid() && r.finished
    requires forall k :: 0 <= k < |r.accepted| ==> k < |r.times| && IsStorable(FrameFor(r.accepted[k], r.times[k]))
    ensures |entries| == |units| == |payloads| == |r.accepted| == |r.times|
    ensures forall k :: 0 <= k < |units| ==>
      && units[k] == r.accepted[k].au.(pubWallMicro := 0) && payloads[k] == Some(units[k])
      && Describes(entries[k], r.accepted[k], r.times[k])
  {
    assert r.drained == r.accepted;
    ghost var frames := FramesFor(r.accepted, r.times);
    assert r.out == File(frames);
    ClosedFileHoldsAccepted(r.accepted, r.times);
    ghost var log := ReadLog(r.out[HEADER_LEN..]);
    var index := BuildTimeline(r.out);
    var replay, ok := Replay(r.out);
    entries, units := index.value, replay.value;
    payloads := ReadAll(r.out, entries, log.frames);
  }

  // ReadPayload at every entry.
  method ReadAll(data: seq<byte>, entries: seq<Entry>, ghost frames: seq<Frame>)
    returns (payloads: seq<Option<AccessUnit>>)
    requires IsIndex(entries, frames, data)
    ensures |payloads| == |entries| && forall k :: 0 <= k < |payloads| ==> payloads[k] == Some(UnitOf(frames[k]))
  {
    payloads := [];
    for i := 0 to |entries|
      invariant |payloads| == i && forall k :: 0 <= k < i ==> payloads[k] == Some(UnitOf(frames[k]))
    {
      assert IndexedAt(entries[i], frames[i], data);
      var au := ReadPayload(data, entries[i], frames[i]);
      payloads := payloads + [au];
    }
  }
}
