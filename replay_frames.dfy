/**
 * The replay container as utils/proxy/replay.go reads and writes it: the
 * fixed header, the version gate applied on open, and the layout of one
 * frame of the packet log as readPacket parses it from a sequential stream.
 */
module ReplayFrames {
  import opened Bytes
  import opened Options
  import opened Streams
  import LittleEndian

  /** "BTCP" */
  const ReplayMagic: seq<byte> := [0x42, 0x54, 0x43, 0x50]
  const CurrentReplayVersion: nat := 3

  /** The u32 that must open every frame, and the one that must close it. */
  const LeadingMagic: nat := 0xAAAA_AAAA
  const TrailingMagic: nat := 0xBBBB_BBBB

  /** The bytes WriteReplayHeader emits: the magic, then the version as a
      little-endian int32. */
  function ReplayHeader(): (h: seq<byte>)
    ensures h == [0x42, 0x54, 0x43, 0x50, 3, 0, 0, 0]
    ensures |h| == 8 && h[..4] == ReplayMagic
    ensures LittleEndian.Decode(h[4..]) == CurrentReplayVersion
  {
    LittleEndian.Pow256Values();
    LittleEndian.DecodeEncodeFits(CurrentReplayVersion, 4);
    var h := ReplayMagic + LittleEndian.Encode(CurrentReplayVersion, 4);
    assert h[4..] == LittleEndian.Encode(CurrentReplayVersion, 4);
    h
  }

  /** WriteReplayHeader: two writes, the magic and then the header record. */
  method WriteReplayHeader(f: Writer)
    modifies f
    ensures f.written == old(f.written) + ReplayHeader()
  {
    f.Write(ReplayMagic);
    f.Write(LittleEndian.Encode(CurrentReplayVersion, 4));
  }

  /** The version createReplayConnector reads from the container's "version"
      entry: binary.Read into a zeroed uint32, its error ignored, so an entry
      shorter than four bytes reads as version 0. */
  function ReadVersion(entry: seq<byte>): (v: nat)
    ensures v < LittleEndian.TwoTo32
    ensures |entry| < 4 ==> v == 0
  {
    LittleEndian.Pow256Values();
    Field(entry, 0, 4)
  }

  /** The gate createReplayConnector applies: anything but version 3 is
      refused; the "BTCP" magic is never looked at. */
  predicate VersionAccepted(entry: seq<byte>)
  {
    ReadVersion(entry) == CurrentReplayVersion
  }

  /** The gate in terms of bytes: an entry is accepted exactly when it starts
      with the little-endian encoding of 3, whatever follows. */
  lemma VersionGateBytes(entry: seq<byte>)
    ensures VersionAccepted(entry) <==> |entry| >= 4 && entry[..4] == [3, 0, 0, 0]
  {
    LittleEndian.Pow256Values();
    var three: seq<byte> := [3, 0, 0, 0];
    assert three == LittleEndian.Encode(CurrentReplayVersion, 4);
    LittleEndian.DecodeEncodeFits(CurrentReplayVersion, 4);
    if |entry| >= 4 {
      assert entry[0..4] == entry[..4];
      LittleEndian.DecodeInjective(entry[..4], three);
    }
  }

  /** What readPacket can fail with. io.ReadFull already guarantees a full
      buffer when it reports no error, so the source's separate "truncated"
      check never fires and has no counterpart here. */
  datatype ReadError = Io(io: IoError) | WrongMagic | WrongMagic2

  /** The three kinds of result readPacket separates: a clean end (no payload,
      no error), a frame, and an error (no payload). toServer is whatever had
      been read before the failure. */
  datatype ReadOutcome =
    | EndOfStream
    | Frame(payload: seq<byte>, toServer: bool)
    | Failed(err: ReadError, toServer: bool)

  datatype FrameRead = FrameRead(outcome: ReadOutcome, next: nat)

  /** Bytes before the payload: magic, length, direction, and the timestamp
      that only versions 2 and later carry. */
  function HeaderSize(ver: nat): nat
  {
    if ver >= 2 then 17 else 9
  }

  /** readPacket on the stream s with the cursor at pos: the outcome and
      where the cursor is left. Every binary.Read whose error the source
      ignores still consumes what it could and leaves a zero. What the
      outcome means is stated by the lemmas below. */
  function ReadFrame(s: seq<byte>, pos: nat, ver: nat): (r: FrameRead)
    requires pos <= |s|
    ensures pos <= r.next <= |s|
    // a clean end exactly when nothing at all is left, and it reads nothing
    ensures r.outcome.EndOfStream? <==> pos == |s|
    ensures r.outcome.EndOfStream? ==> r.next == pos
    // a frame takes its header, its trailing magic and its payload
    ensures r.outcome.Frame? ==> r.next == pos + HeaderSize(ver) + |r.outcome.payload| + 4
  {
    if pos == |s| then FrameRead(EndOfStream, pos)
    else if pos + 4 > |s| then FrameRead(Failed(Io(UnexpectedEOF), false), |s|)
    else if Field(s, pos, 4) != LeadingMagic then FrameRead(Failed(WrongMagic, false), pos + 4)
    else ReadFrameBody(s, pos, ver)
  }

  /** The rest of readPacket once the leading magic has matched at pos. */
  function ReadFrameBody(s: seq<byte>, pos: nat, ver: nat): (r: FrameRead)
    requires pos + 4 <= |s|
    ensures pos + 4 <= r.next <= |s|
    ensures !r.outcome.EndOfStream?
    ensures r.outcome.Frame? ==> r.next == pos + HeaderSize(ver) + |r.outcome.payload| + 4
  {
    var p1 := pos + 4;
    var len := Field(s, p1, 4);
    var p2 := Advance(p1, 4, |s|);
    var toServer := Field(s, p2, 1) != 0;
    var p3 := Advance(p2, 1, |s|);
    var p4 := if ver >= 2 then Advance(p3, 8, |s|) else p3;
    ReadPayload(s, p4, len, toServer)
  }

  /** The payload of len bytes at p and the trailing magic after it. */
  function ReadPayload(s: seq<byte>, p: nat, len: nat, toServer: bool): (r: FrameRead)
    requires p <= |s|
    ensures p <= r.next <= |s|
    ensures !r.outcome.EndOfStream?
    // a returned payload has the declared length, then the trailing magic
    ensures r.outcome.Frame? ==> |r.outcome.payload| == len && r.next == p + len + 4
  {
    match ShortRead(len, |s| - p)
    case Some(e) => FrameRead(Failed(Io(e), toServer), |s|)
    case None =>
      if Field(s, p + len, 4) != TrailingMagic then
        FrameRead(Failed(WrongMagic2, toServer), Advance(p + len, 4, |s|))
      else
        FrameRead(Frame(s[p..p + len], toServer), p + len + 4)
  }

  /** A single byte decodes to itself. */
  lemma DecodeByte(b: seq<byte>)
    requires |b| == 1
    ensures LittleEndian.Decode(b) == b[0] as nat
  {
    assert b[1..] == [];
  }

  /** readPacket with a whole header in place at pos: the length and the
      direction are the header's fields, and the payload starts right after
      it. */
  lemma ReadFrameHeader(s: seq<byte>, pos: nat, ver: nat)
    requires pos + HeaderSize(ver) <= |s|
    requires LittleEndian.Decode(s[pos..pos + 4]) == LeadingMagic
    ensures ReadFrame(s, pos, ver) ==
              ReadPayload(s, pos + HeaderSize(ver), LittleEndian.Decode(s[pos + 4..pos + 8]), s[pos + 8] != 0)
  {
    DecodeByte(s[pos + 8..pos + 9]);
    assert s[pos + 8..pos + 9][0] == s[pos + 8];
  }

  /** A leading u32 that is missing, short or not the magic is an error
      without a payload and without a direction: "wrong Magic" when four
      bytes were there, an unexpected end of stream otherwise. */
  lemma ReadFrameLeadingMagic(s: seq<byte>, pos: nat, ver: nat)
    requires pos < |s|
    requires pos + 4 > |s| || LittleEndian.Decode(s[pos..pos + 4]) != LeadingMagic
    ensures ReadFrame(s, pos, ver) ==
              if pos + 4 > |s| then FrameRead(Failed(Io(UnexpectedEOF), false), |s|)
              else FrameRead(Failed(WrongMagic, false), pos + 4)
  {
  }

  /** Fewer payload bytes left than the header declares: an I/O error and no
      payload; the cursor is left at the end of the stream. */
  lemma {:induction false} ReadFrameShortPayload(s: seq<byte>, pos: nat, ver: nat)
    requires pos + HeaderSize(ver) <= |s|
    requires LittleEndian.Decode(s[pos..pos + 4]) == LeadingMagic
    requires pos + HeaderSize(ver) + LittleEndian.Decode(s[pos + 4..pos + 8]) > |s|
    ensures var e := if pos + HeaderSize(ver) == |s| then EOF else UnexpectedEOF;
            ReadFrame(s, pos, ver) == FrameRead(Failed(Io(e), s[pos + 8] != 0), |s|)
  {
    ReadFrameHeader(s, pos, ver);
  }

  /** The payload is all there but the u32 after it is missing or is not the
      trailing magic: "wrong Magic2" and no payload. */
  lemma {:induction false} ReadFrameTrailingMagic(s: seq<byte>, pos: nat, ver: nat)
    requires pos + HeaderSize(ver) <= |s|
    requires LittleEndian.Decode(s[pos..pos + 4]) == LeadingMagic
    requires var q := pos + HeaderSize(ver) + LittleEndian.Decode(s[pos + 4..pos + 8]);
             q <= |s| && (q + 4 > |s| || LittleEndian.Decode(s[q..q + 4]) != TrailingMagic)
    ensures ReadFrame(s, pos, ver).outcome == Failed(WrongMagic2, s[pos + 8] != 0)
  {
    ReadFrameHeader(s, pos, ver);
  }

  /** A frame is never short: it has the declared length and both magics,
      its direction is the flag byte, and the cursor moves past exactly
      header, payload and trailer. */
  lemma {:induction false} ReadFrameFrame(s: seq<byte>, pos: nat, ver: nat)
    requires pos <= |s| && ReadFrame(s, pos, ver).outcome.Frame?
    ensures var r := ReadFrame(s, pos, ver);
            var q, n := pos + HeaderSize(ver), LittleEndian.Decode(s[pos + 4..pos + 8]);
            && LittleEndian.Decode(s[pos..pos + 4]) == LeadingMagic
            && |r.outcome.payload| == n
            && r.next == q + n + 4
            && r.outcome.toServer == (s[pos + 8] != 0)
            && r.outcome.payload == s[q..q + n]
            && LittleEndian.Decode(s[q + n..q + n + 4]) == TrailingMagic
  {
    assert ReadFrame(s, pos, ver) == ReadFrameBody(s, pos, ver);
    HeaderInPlace(s, pos, ver);
    ReadFrameHeader(s, pos, ver);
    var len := LittleEndian.Decode(s[pos + 4..pos + 8]);
    var q := pos + HeaderSize(ver);
    ReadPayloadFrame(s, q, len, s[pos + 8] != 0);
    assert ReadFrame(s, pos, ver) == FrameRead(Frame(s[q..q + len], s[pos + 8] != 0), q + len + 4);
  }

  /** A frame is only read when the whole header was there. */
  lemma HeaderInPlace(s: seq<byte>, pos: nat, ver: nat)
    requires pos + 4 <= |s| && ReadFrameBody(s, pos, ver).outcome.Frame?
    ensures pos + HeaderSize(ver) <= |s|
  {
    var p1 := pos + 4;
    var len := Field(s, p1, 4);
    var p2 := Advance(p1, 4, |s|);
    var p3 := Advance(p2, 1, |s|);
    var p4 := if ver >= 2 then Advance(p3, 8, |s|) else p3;
    ReadPayloadFrame(s, p4, len, Field(s, p2, 1) != 0);
    assert p4 + 4 <= |s|;
  }

  lemma ReadPayloadFrame(s: seq<byte>, p: nat, len: nat, toServer: bool)
    requires p <= |s| && ReadPayload(s, p, len, toServer).outcome.Frame?
    ensures var r := ReadPayload(s, p, len, toServer);
            && p + len + 4 <= |s|
            && r == FrameRead(Frame(s[p..p + len], toServer), p + len + 4)
            && LittleEndian.Decode(s[p + len..p + len + 4]) == TrailingMagic
  {
  }

  /** A frame as the log yields it to the replay loop. */
  datatype RawFrame = RawFrame(payload: seq<byte>, toServer: bool)

  /** The frames readPacket returns one after another from pos on, and the
      outcome (a clean end or an error) that stops the sequence. */
  datatype FrameLog = FrameLog(frames: seq<RawFrame>, end: ReadOutcome)

  function ReadLog(s: seq<byte>, pos: nat, ver: nat): (log: FrameLog)
    requires pos <= |s|
    ensures !log.end.Frame?
    // every frame read takes at least 13 bytes of the stream
    ensures 13 * |log.frames| <= |s| - pos
    decreases |s| - pos
  {
    var r := ReadFrame(s, pos, ver);
    match r.outcome
    case Frame(payload, toServer) =>
      var rest := ReadLog(s, r.next, ver);
      FrameLog([RawFrame(payload, toServer)] + rest.frames, rest.end)
    case _ => FrameLog([], r.outcome)
  }
}
