/**
 * The TypeScript side of the feed format (ts-sdk/src/wire.ts): a reader that
 * reassembles exact reads from network chunks of any size, the frame and header
 * readers on top of it, and the frame writer.
 */
module TsWire {
  import opened Bytes
  import opened AccessUnits
  import opened Framing
  import opened FeedWire
  import opened ClientFeed

  const MAX_TS_FEED_PAYLOAD: nat := 16 * 1024 * 1024

  function Flatten(chunks: seq<seq<byte>>): seq<byte> {
    if chunks == [] then [] else chunks[0] + Flatten(chunks[1..])
  }

  // The results of exact reads of the given sizes on an uncut stream. A read
  // that asks for more than is left fails and uses up what is left.
  function ExactReads(s: seq<byte>, sizes: seq<nat>): seq<Option<seq<byte>>>
    decreases |sizes|
  {
    if sizes == [] then []
    else
      var n := sizes[0];
      if n <= |s| then [Some(s[..n])] + ExactReads(s[n..], sizes[1..])
      else [None] + ExactReads([], sizes[1..])
  }

  class BufferedReader {
    var leftover: seq<byte>
    var done: bool
    var chunks: seq<seq<byte>>  // what the underlying reader will still deliver

    constructor (incoming: seq<seq<byte>>)
      ensures Valid() && Stream() == Flatten(incoming)
    {
      leftover, done, chunks := [], false, incoming;
    }

    ghost predicate Valid()
      reads this
    {
      done ==> chunks == []
    }

    // The bytes still to come, whatever chunks they come in.
    ghost function Stream(): seq<byte>
      reads this
    {
      leftover + Flatten(chunks)
    }

    // Exactly n bytes; None stands for the unexpected-EOF error.
    method Read(n: nat) returns (r: Option<seq<byte>>)
      requires Valid()
      modifies this
      ensures Valid()
      ensures n <= |old(Stream())| ==> r == Some(old(Stream())[..n]) && Stream() == old(Stream())[n..]
      ensures n > |old(Stream())| ==> r == None && Stream() == []
    {
      var out: seq<byte> := [];
      if |leftover| > 0 {
        var take := if |leftover| <= n then |leftover| else n;
        out, leftover := leftover[..take], leftover[take..];
      }
      while |out| < n
        invariant Valid() && |out| <= n && out + Stream() == old(Stream())
        invariant |out| < n ==> leftover == []
        decreases n - |out|, |chunks|
      {
        if done {
          return None;
        }
        if chunks == [] {
          done := true;
          return None;
        }
        var chunk := chunks[0];
        chunks := chunks[1..];
        if |chunk| > 0 {
          var need := n - |out|;
          if |chunk| <= need {
            out := out + chunk;
          } else {
            out, leftover := out + chunk[..need], chunk[need..];
          }
        }
      }
      return Some(out);
    }

    method Unread(bytes: seq<byte>)
      requires Valid()
      modifies this`leftover
      ensures Valid() && Stream() == bytes + old(Stream())
    {
      if |bytes| == 0 {
        return;
      }
      leftover := bytes + leftover;
    }

    // Any sequence of exact reads gives what it gives on the uncut stream.
    method ReadSequence(sizes: seq<nat>) returns (results: seq<Option<seq<byte>>>)
      requires Valid()
      modifies this
      ensures Valid() && results == ExactReads(old(Stream()), sizes)
    {
      results := [];
      for i := 0 to |sizes|
        invariant Valid()
        invariant results + ExactReads(Stream(), sizes[i..]) == ExactReads(old(Stream()), sizes)
      {
        var r := Read(sizes[i]);
        assert sizes[i..][1..] == sizes[i + 1..];
        results := results + [r];
      }
    }

    // Unread and then read is the identity.
    method UnreadThenRead(bytes: seq<byte>) returns (r: Option<seq<byte>>)
      requires Valid()
      modifies this
      ensures Valid() && r == Some(bytes) && Stream() == old(Stream())
    {
      Unread(bytes);
      r := Read(|bytes|);
    }
  }

  // The same contract as the Go reader has on its stream.
  method TsReadFeedFrame(r: BufferedReader) returns (res: Option<FeedFrame>)
    requires r.Valid()
    modifies r
    ensures r.Valid()
    ensures res.Some? <==> HoldsFrame(old(r.Stream()))
    ensures res.Some? ==> res.value.Encodable() && old(r.Stream()) == Encode(res.value) + r.Stream()
  {
    var header := r.Read(FEED_HEADER_LEN);
    if header.None? {
      return None;
    }
    var hdr := header.value;
    HeaderRebuilt(hdr);
    var length := FromBE(hdr[1..4]);
    assert length <= MAX_TS_FEED_PAYLOAD;
    var f := FeedFrame(hdr[0], FromBE(hdr[4..12]), FromBE(hdr[12..16]), hdr[16], 0, []);
    res := TsReadBody(r, f, length);
  }

  method TsReadBody(r: BufferedReader, f: FeedFrame, length: nat) returns (res: Option<FeedFrame>)
    requires r.Valid() && f.pubWallMicro == 0 && f.payload == []
    modifies r
    ensures r.Valid()
    ensures res.Some? <==> |old(r.Stream())| >= (if f.HasWall() then WALL_EXT_LEN else 0) + length
    ensures res.Some? ==>
      && res.value == f.(pubWallMicro := res.value.pubWallMicro, payload := res.value.payload)
      && (!f.HasWall() ==> res.value.pubWallMicro == 0)
      && |res.value.payload| == length
      && old(r.Stream()) == Extension(res.value) + res.value.payload + r.Stream()
  {
    var walled := TsReadWall(r, f);
    if walled.None? {
      return None;
    }
    var g := walled.value;
    if length > 0 {
      var body := r.Read(length);
      if body.None? {
        return None;
      }
      g := g.(payload := body.value);
    }
    return Some(g);
  }

  // The wall-clock extension, if flagged.
  method TsReadWall(r: BufferedReader, f: FeedFrame) returns (res: Option<FeedFrame>)
    requires r.Valid() && f.pubWallMicro == 0
    modifies r
    ensures r.Valid()
    ensures res.Some? <==> |old(r.Stream())| >= if f.HasWall() then WALL_EXT_LEN else 0
    ensures res.Some? ==>
      && res.value == f.(pubWallMicro := res.value.pubWallMicro)
      && (!f.HasWall() ==> res.value.pubWallMicro == 0)
      && old(r.Stream()) == Extension(res.value) + r.Stream()
  {
    if !HasBit(f.flags, FLAG_PUBLISH_WALL) {
      return Some(f);
    }
    var ext := r.Read(WALL_EXT_LEN);
    if ext.None? {
      return None;
    }
    Rebuild64(ext.value);
    return Some(f.(pubWallMicro := FromBE(ext.value)));
  }

  // peekStreamHeader: the track name, or "" with the first byte put back.
  method TsPeekStreamHeader(r: BufferedReader) returns (res: Option<seq<byte>>)
    requires r.Valid()
    modifies r
    ensures r.Valid()
    ensures var s := old(r.Stream());
      && (res.Some? <==> s != [] && (s[0] == TYPE_STREAM_HEADER ==> HoldsHeader(s)))
      && (res.Some? && s[0] != TYPE_STREAM_HEADER ==> res.value == [] && r.Stream() == s)
      && (res.Some? && s[0] == TYPE_STREAM_HEADER ==> ValidName(res.value) && s == StreamHeader(res.value) + r.Stream())
  {
    ghost var s := r.Stream();
    var first := r.Read(1);
    if first.None? {
      return None;
    }
    if first.value[0] != TYPE_STREAM_HEADER {
      r.Unread(first.value);
      return Some([]);
    }
    var lenBuf := r.Read(3);
    if lenBuf.None? {
      return None;
    }
    assert lenBuf.value == s[1..4];
    var length := FromBE(lenBuf.value);
    if length > MAX_STREAM_HEADER {
      return None;
    }
    if length == 0 {
      return None;
    }
    var name := r.Read(length);
    if name.None? {
      return None;
    }
    StreamHeaderRebuilt(s, length);
    assert name.value == s[4..4 + length];
    return name;
  }

  // writeFeedFrame. The cap is 16 MiB, one more than 24 bits can express; wider
  // numbers are cut to the field.
  function TsWriteFeedFrame(typ: byte, pts: int, seqNo: int, flags: byte, payload: seq<byte>): Written {
    if |payload| > MAX_TS_FEED_PAYLOAD then TooLarge
    else Bytes(Header(typ, |payload|, pts % TWO_TO_64, seqNo % TWO_TO_32, flags) + payload)
  }

  // What the TypeScript writer accepts is a frame with those fields if and only
  // if the payload length fits in 24 bits and the flags announce no wall clock,
  // which this writer never writes. At exactly 16 MiB the length field is 0, so a
  // reader takes an empty frame and then misreads the payload as frames; with the
  // wall-clock flag a reader wants eight bytes more than were written.
  lemma TsWriterRoundTrips(typ: byte, pts: int, seqNo: int, flags: byte, payload: seq<byte>)
    ensures TsWriteFeedFrame(typ, pts, seqNo, flags, payload).TooLarge? <==> |payload| > MAX_TS_FEED_PAYLOAD
    ensures |payload| <= MAX_TS_FEED_PAYLOAD ==>
      var f := FeedFrame(typ, pts % TWO_TO_64, seqNo % TWO_TO_32, flags, 0, payload);
      var s := TsWriteFeedFrame(typ, pts, seqNo, flags, payload).bytes;
      var fits := |payload| < MAX_TS_FEED_PAYLOAD && !HasBit(flags, FLAG_PUBLISH_WALL);
      && (f.Encodable() && s == Encode(f) <==> fits)
      && (FrameLength(s[..FEED_HEADER_LEN]) == |s| <==> fits)
      && (|payload| < MAX_TS_FEED_PAYLOAD && HasBit(flags, FLAG_PUBLISH_WALL) ==>
            FrameLength(s[..FEED_HEADER_LEN]) == |s| + WALL_EXT_LEN)
      && (|payload| == MAX_TS_FEED_PAYLOAD && !HasBit(flags, FLAG_PUBLISH_WALL) ==>
            IsPrefix(Encode(f.(payload := [])), s))
  {
    if |payload| <= MAX_TS_FEED_PAYLOAD {
      var f := FeedFrame(typ, pts % TWO_TO_64, seqNo % TWO_TO_32, flags, 0, payload);
      TsIsFrameIff(f);
      TsLength(f);
      if |payload| == MAX_TS_FEED_PAYLOAD && !f.HasWall() {
        TsAtCap(f);
      }
    }
  }

  // The bytes the writer puts out for the fields of f.
  function TsBytes(f: FeedFrame): (s: seq<byte>)
    ensures |s| == FEED_HEADER_LEN + |f.payload|
  {
    Header(f.typ, |f.payload|, f.ptsMicro, f.seqNo, f.flags) + f.payload
  }

  lemma TsIsFrameIff(f: FeedFrame)
    requires |f.payload| <= MAX_TS_FEED_PAYLOAD && f.pubWallMicro == 0
    ensures f.Encodable() && TsBytes(f) == Encode(f) <==> |f.payload| < MAX_TS_FEED_PAYLOAD && !f.HasWall()
  {
    if f.HasWall() {
      assert |Encode(f)| == |TsBytes(f)| + WALL_EXT_LEN;
    } else {
      assert Extension(f) == [];
    }
  }

  lemma TsLength(f: FeedFrame)
    requires |f.payload| <= MAX_TS_FEED_PAYLOAD
    ensures FrameLength(TsBytes(f)[..FEED_HEADER_LEN]) ==
      FEED_HEADER_LEN
      + (if f.HasWall() then WALL_EXT_LEN else 0)
      + (if |f.payload| == MAX_TS_FEED_PAYLOAD then 0 else |f.payload|)
  {
    var h := Header(f.typ, |f.payload|, f.ptsMicro, f.seqNo, f.flags);
    assert TsBytes(f)[..FEED_HEADER_LEN] == h;
    if |f.payload| == MAX_TS_FEED_PAYLOAD {
      HeaderAtCap(f.typ, f.ptsMicro, f.seqNo, f.flags);
      HeaderFields(f.typ, 0, f.ptsMicro, f.seqNo, f.flags);
    } else {
      HeaderFields(f.typ, |f.payload|, f.ptsMicro, f.seqNo, f.flags);
    }
  }

  lemma TsAtCap(f: FeedFrame)
    requires !f.HasWall() && |f.payload| == MAX_TS_FEED_PAYLOAD
    ensures IsPrefix(Encode(f.(payload := [])), TsBytes(f))
  {
    HeaderAtCap(f.typ, f.ptsMicro, f.seqNo, f.flags);
    var h := Header(f.typ, 0, f.ptsMicro, f.seqNo, f.flags);
    assert Encode(f.(payload := [])) == h;
    assert TsBytes(f) == h + f.payload;
  }

  lemma HeaderAtCap(typ: byte, pts: uint64, seqNo: uint32, flags: byte)
    ensures Header(typ, MAX_TS_FEED_PAYLOAD, pts, seqNo, flags) == Header(typ, 0, pts, seqNo, flags)
  {
    LengthWraps();
  }

  lemma LengthWraps()
    ensures BE(3, 16777216) == BE(3, 0)
  {
    assert BE(3, 16777216) == BE(2, 65536) + [0];
    assert BE(2, 65536) == BE(1, 256) + [0];
    assert BE(1, 256) == BE(0, 1) + [0];
    assert BE(3, 0) == BE(2, 0) + [0] && BE(2, 0) == BE(1, 0) + [0] && BE(1, 0) == BE(0, 0) + [0];
  }
}
