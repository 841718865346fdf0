/**
 * The .qrtc recording format (record/format.go): a header, length-prefixed
 * frames, and an EOF marker that tells a clean shutdown from a truncation.
 */
module RecordFormat {
  import opened Bytes
  import opened AccessUnits
  import opened Framing

  const HEADER_LEN: nat := 12
  const FORMAT_VERSION: nat := 1
  const MAX_FRAME_LEN: nat := 0x400_0000  // 64 MiB
  const FIXED_LEN: nat := 25

  // "QRTCREC" and a NUL byte.
  const FILE_MAGIC: seq<byte> := [0x51, 0x52, 0x54, 0x43, 0x52, 0x45, 0x43, 0x00]
  const EOF_MARKER: seq<byte> := [0xFF, 0xFF, 0xFF, 0xFF]

  type int64 = x: int | -0x8000_0000_0000_0000 <= x < 0x8000_0000_0000_0000

  datatype Frame = Frame(
    trackName: seq<byte>,
    kind: seq<byte>,
    ptsMicros: uint64,
    seqNo: uint32,
    keyframe: bool,
    discontinuity: bool,
    capturedAtMicros: int64,
    payload: seq<byte>)

  // ---- Writing ----

  function FileHeader(): (h: seq<byte>)
    ensures |h| == HEADER_LEN
  {
    FILE_MAGIC + BE(4, FORMAT_VERSION)
  }

  // uint64(x) and int64(x): two's complement.
  function ToUnsigned(x: int64): uint64 { if x < 0 then x + TWO_TO_64 else x }
  function ToSigned(x: uint64): int64 { if x < 0x8000_0000_0000_0000 then x else x - TWO_TO_64 }

  function Flags(f: Frame): byte {
    (if f.keyframe then 1 else 0) + (if f.discontinuity then 2 else 0)
  }

  function Fixed(f: Frame): (s: seq<byte>)
    ensures |s| == FIXED_LEN
  {
    BE(8, f.ptsMicros) + BE(4, f.seqNo) + [Flags(f)] + BE(8, ToUnsigned(f.capturedAtMicros)) + BE(4, |f.payload|)
  }

  function Body(f: Frame): (s: seq<byte>)
    requires |f.kind| <= 0xFF
    ensures |s| == 3 + |f.trackName| + |f.kind| + FIXED_LEN + |f.payload|
  {
    BE(2, |f.trackName|) + (f.trackName + ([|f.kind|] + (f.kind + (Fixed(f) + f.payload))))
  }

  datatype Encoded = Bytes(bytes: seq<byte>) | TrackNameTooLong | KindTooLong

  function EncodeFrame(f: Frame): Encoded {
    if |f.trackName| > 0xFFFF then TrackNameTooLong
    else if |f.kind| > 0xFF then KindTooLong
    else Bytes(BE(4, |Body(f)|) + Body(f))
  }

  // What encodeFrame accepts.
  predicate IsEncodable(f: Frame) {
    |f.trackName| <= 0xFFFF && |f.kind| <= 0xFF
  }

  // What decodeFrame accepts as well.
  predicate IsStorable(f: Frame) {
    IsEncodable(f) && |Body(f)| <= MAX_FRAME_LEN
  }

  // Exactly what the writer accepts, and what the reader accepts as well, in sizes.
  lemma AcceptedSizes(f: Frame)
    ensures EncodeFrame(f).Bytes? <==> |f.trackName| <= 0xFFFF && |f.kind| <= 0xFF
    ensures IsStorable(f) <==>
      EncodeFrame(f).Bytes? && 28 + |f.trackName| + |f.kind| + |f.payload| <= 64 * 1024 * 1024
    ensures EncodeFrame(f).Bytes? ==> |EncodeFrame(f).bytes| == 32 + |f.trackName| + |f.kind| + |f.payload|
  {}

  function Stored(f: Frame): seq<byte> {
    if IsEncodable(f) then EncodeFrame(f).bytes else []
  }

  // A recording that was closed.
  function File(frames: seq<Frame>): seq<byte> {
    FileHeader() + (Concat(Stored, frames) + EOF_MARKER)
  }

  // ---- Reading ----

  predicate IsHeader(h: seq<byte>)
    requires |h| == HEADER_LEN
  {
    h[..8] == FILE_MAGIC && FromBE(h[8..]) == FORMAT_VERSION
  }

  // The three stages of decodeFrame on a frame body; None is a corrupt frame.
  function DecodeBody(b: seq<byte>): Option<Frame> {
    if |b| < 2 then None
    else
      var n, r := FromBE(b[..2]), b[2..];
      if |r| < n then None else DecodeKind(r[..n], r[n..])
  }

  function DecodeKind(track: seq<byte>, b: seq<byte>): Option<Frame> {
    if |b| < 1 then None
    else
      var n, r := b[0], b[1..];
      if |r| < n then None else DecodeFixed(track, r[..n], r[n..])
  }

  function DecodeFixed(track: seq<byte>, kind: seq<byte>, b: seq<byte>): Option<Frame> {
    if |b| < FIXED_LEN then None
    else
      FieldsInRange(b);
      var n, r := FromBE(b[21..25]), b[25..];
      if |r| < n then None
      else Some(Frame(
                  track, kind, FromBE(b[0..8]), FromBE(b[8..12]), HasBit(b[12], 1), HasBit(b[12], 2),
                  ToSigned(FromBE(b[13..21])), r[..n]))
  }

  lemma FieldsInRange(b: seq<byte>)
    requires |b| >= FIXED_LEN
    ensures FromBE(b[0..8]) < TWO_TO_64 && FromBE(b[8..12]) < TWO_TO_32 && FromBE(b[13..21]) < TWO_TO_64
  {
    Rebuild64(b[0..8]);
    Rebuild32(b[8..12]);
    Rebuild64(b[13..21]);
  }

  // What decodeFrame returns: a frame and the bytes after it, io.EOF,
  // io.ErrUnexpectedEOF or ErrCorruptHeader.
  datatype Decoded = Got(frame: Frame, rest: seq<byte>) | Eof | UnexpectedEof | Corrupt

  function DecodeFrame(s: seq<byte>): (d: Decoded)
    ensures d.Got? ==> |d.rest| < |s|
  {
    if |s| < 4 then (if s == [] then Eof else UnexpectedEof)
    else if s[..4] == EOF_MARKER then Eof
    else DecodeSized(FromBE(s[..4]), s[4..])
  }

  // The rest of decodeFrame, for a body of n bytes.
  function DecodeSized(n: nat, r: seq<byte>): (d: Decoded)
    ensures d.Got? ==> |d.rest| <= |r|
  {
    if n > MAX_FRAME_LEN then Corrupt
    else if |r| < n then (if r == [] then Eof else UnexpectedEof)
    else
      var f := DecodeBody(r[..n]);
      if f.None? then Corrupt else Got(f.value, r[n..])
  }

  // ---- One frame ----

  lemma FlagBits(f: Frame)
    ensures HasBit(Flags(f), 1) == f.keyframe && HasBit(Flags(f), 2) == f.discontinuity
  {}

  lemma FixedFields(f: Frame)
    requires |f.payload| < TWO_TO_32
    ensures var b := Fixed(f);
      && FromBE(b[0..8]) == f.ptsMicros && FromBE(b[8..12]) == f.seqNo && b[12] == Flags(f)
      && FromBE(b[13..21]) == ToUnsigned(f.capturedAtMicros) && FromBE(b[21..25]) == |f.payload|
  {
    var b := Fixed(f);
    assert b[0..8] == BE(8, f.ptsMicros);
    assert b[8..12] == BE(4, f.seqNo);
    assert b[13..21] == BE(8, ToUnsigned(f.capturedAtMicros));
    assert b[21..25] == BE(4, |f.payload|);
    Read64(f.ptsMicros);
    Read32Exact(f.seqNo);
    Read64(ToUnsigned(f.capturedAtMicros));
    Read32Exact(|f.payload|);
  }

  lemma FixedRoundTrip(f: Frame)
    requires |f.payload| < TWO_TO_32
    ensures DecodeFixed(f.trackName, f.kind, Fixed(f) + f.payload) == Some(f)
  {
    var h := Fixed(f);
    var b := h + f.payload;
    assert b[0..8] == h[0..8] && b[8..12] == h[8..12] && b[13..21] == h[13..21] && b[21..25] == h[21..25];
    assert b[12] == h[12] && b[25..] == f.payload && f.payload[..|f.payload|] == f.payload;
    FixedFields(f);
    FlagBits(f);
    FieldsInRange(b);
  }

  lemma KindRoundTrip(track: seq<byte>, kind: seq<byte>, rest: seq<byte>)
    requires |kind| <= 0xFF
    ensures DecodeKind(track, [|kind|] + (kind + rest)) == DecodeFixed(track, kind, rest)
  {
    assert ([|kind|] + (kind + rest))[1..] == kind + rest;
    Take(kind, rest);
  }

  lemma TrackRoundTrip(track: seq<byte>, rest: seq<byte>)
    requires |track| <= 0xFFFF
    ensures DecodeBody(BE(2, |track|) + (track + rest)) == DecodeKind(track, rest)
  {
    Take(BE(2, |track|), track + rest);
    Take(track, rest);
    Read16(|track|);
  }

  lemma BodyRoundTrip(f: Frame)
    requires IsEncodable(f) && |f.payload| < TWO_TO_32
    ensures DecodeBody(Body(f)) == Some(f)
  {
    var rest := Fixed(f) + f.payload;
    TrackRoundTrip(f.trackName, [|f.kind|] + (f.kind + rest));
    KindRoundTrip(f.trackName, f.kind, rest);
    FixedRoundTrip(f);
  }

  lemma LengthPrefix(n: nat)
    ensures FromBE(BE(4, n)) == n % TWO_TO_32
    ensures BE(4, n) == EOF_MARKER ==> n % TWO_TO_32 == TWO_TO_32 - 1
  {
    Read32(n);
    MarkerValue();
  }

  lemma MarkerValue()
    ensures FromBE(EOF_MARKER) == TWO_TO_32 - 1
  {
    assert Value(EOF_MARKER, 1) == 0xFF;
    assert Value(EOF_MARKER, 2) == 0xFFFF;
    assert Value(EOF_MARKER, 3) == 0xFF_FFFF;
  }

  // Past the length prefix of an n-byte body.
  lemma SizedFrame(n: nat, r: seq<byte>)
    requires n < TWO_TO_32 - 1
    ensures DecodeFrame(BE(4, n) + r) == DecodeSized(n, r)
  {
    Take(BE(4, n), r);
    Read32Exact(n);
    MarkerValue();
  }

  lemma WholeBody(body: seq<byte>, f: Frame, rest: seq<byte>)
    requires |body| <= MAX_FRAME_LEN && DecodeBody(body) == Some(f)
    ensures DecodeSized(|body|, body + rest) == Got(f, rest)
  {
    var r := body + rest;
    assert r[..|body|] == body;
    assert r[|body|..] == rest;
  }

  lemma FrameRoundTrip(body: seq<byte>, f: Frame, rest: seq<byte>)
    requires |body| <= MAX_FRAME_LEN && DecodeBody(body) == Some(f)
    ensures DecodeFrame(BE(4, |body|) + (body + rest)) == Got(f, rest)
  {
    WholeBody(body, f, rest);
    SizedFrame(|body|, body + rest);
  }

  lemma StoredRoundTrip(f: Frame, rest: seq<byte>)
    requires IsStorable(f)
    ensures DecodeFrame(Stored(f) + rest) == Got(f, rest)
  {
    BodyRoundTrip(f);
    FrameRoundTrip(Body(f), f, rest);
    Associate(BE(4, |Body(f)|), Body(f), rest);
  }

  // A frame cut short is never a corrupt one.
  lemma TornFrame(f: Frame, m: nat)
    requires IsStorable(f) && m < |Stored(f)|
    ensures DecodeFrame(Stored(f)[..m]) == Eof || DecodeFrame(Stored(f)[..m]) == UnexpectedEof
  {
    if m >= 4 {
      assert Stored(f)[..m] == BE(4, |Body(f)|) + Body(f)[..m - 4];
      SizedFrame(|Body(f)|, Body(f)[..m - 4]);
    }
  }

  // The writer accepts frames the reader refuses. A frame is read back as it was
  // written if and only if its body is at most 64 MiB.
  lemma RoundTripsIffStorable(f: Frame, rest: seq<byte>)
    requires IsEncodable(f)
    ensures DecodeFrame(Stored(f) + rest) == Got(f, rest) <==> |Body(f)| <= MAX_FRAME_LEN
  {
    if |Body(f)| <= MAX_FRAME_LEN {
      StoredRoundTrip(f, rest);
    } else {
      var n, r := |Body(f)|, Body(f) + rest;
      assert Stored(f) + rest == BE(4, n) + r;
      Take(BE(4, n), r);
      LengthPrefix(n);
      if n % TWO_TO_32 <= MAX_FRAME_LEN && n % TWO_TO_32 <= |r| {
        ShortPayload(r[..n % TWO_TO_32]);
      }
    }
  }

  // A frame between 64 MiB and 4 GiB is written but read as corrupt.
  lemma OversizeIsCorrupt(f: Frame, rest: seq<byte>)
    requires IsEncodable(f) && MAX_FRAME_LEN < |Body(f)| < TWO_TO_32 - 1
    ensures DecodeFrame(Stored(f) + rest) == Corrupt
  {
    SizedFrame(|Body(f)|, Body(f) + rest);
    Associate(BE(4, |Body(f)|), Body(f), rest);
  }

  lemma ShortPayload(b: seq<byte>)
    ensures DecodeBody(b).Some? ==> |DecodeBody(b).value.payload| <= |b|
  {}
}
