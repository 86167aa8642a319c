/**
 * The capture encoder against the replay decoder: what dumpPacket writes,
 * readPacket reads back, frame by frame and for a whole capture log, and the
 * replay loop then delivers the packets decoded from the captured payloads.
 */
module CaptureReplay {
  import opened Bytes
  import opened Options
  import opened Streams
  import opened Capture
  import opened ReplayFrames
  import opened ReplayLogin
  import LittleEndian

  /** The u32 values readPacket compares against are the sentinels dumpPacket
      writes, and no other four bytes have those values. */
  lemma MagicBytes(b: seq<byte>)
    requires |b| == 4
    ensures LittleEndian.Decode(b) == LeadingMagic <==> b == FrameStart
    ensures LittleEndian.Decode(b) == TrailingMagic <==> b == FrameEnd
  {
    DecodeRepeated(0xAA);
    DecodeRepeated(0xBB);
    LittleEndian.DecodeInjective(b, FrameStart);
    LittleEndian.DecodeInjective(b, FrameEnd);
  }

  lemma DecodeRepeated(x: byte)
    ensures LittleEndian.Decode([x, x, x, x]) == (x as nat) * 0x0101_0101
  {
    var b: seq<byte> := [x, x, x, x];
    assert b[1..][1..][1..][1..] == [];
    assert LittleEndian.Decode(b[1..][1..][1..]) == x as nat;
    assert LittleEndian.Decode(b[1..][1..]) == x as nat + 256 * (x as nat);
    assert LittleEndian.Decode(b[1..]) == x as nat + 256 * (x as nat) + 65536 * (x as nat);
  }

  lemma SliceInMiddle(pre: seq<byte>, f: seq<byte>, rest: seq<byte>, i: nat, j: nat)
    requires i <= j <= |f|
    ensures (pre + f + rest)[|pre| + i..|pre| + j] == f[i..j]
  {
    var s := pre + f + rest;
    assert forall k :: 0 <= k < j - i ==> s[|pre| + i..|pre| + j][k] == f[i..j][k];
  }

  /** readPacket on a stream holding a well-formed frame at p. */
  lemma ReadWellFormed(s: seq<byte>, p: nat, n: nat, toServer: bool, body: seq<byte>, ver: nat)
    requires ver >= 2 && p + 21 + n <= |s| && |body| == n
    requires s[p..p + 4] == FrameStart
    requires LittleEndian.Decode(s[p + 4..p + 8]) == n
    requires s[p + 8] == if toServer then 1 else 0
    requires s[p + 17..p + 17 + n] == body
    requires s[p + 17 + n..p + 21 + n] == FrameEnd
    ensures ReadFrame(s, p, ver) == FrameRead(Frame(body, toServer), p + 21 + n)
  {
    MagicBytes(s[p..p + 4]);
    ReadFrameHeader(s, p, ver);
    assert HeaderSize(ver) == 17;
    MagicBytes(s[p + 17 + n..p + 21 + n]);
    assert ShortRead(n, |s| - (p + 17)) == None;
    assert Field(s, p + 17 + n, 4) == TrailingMagic;
    assert (s[p + 8] != 0) == toServer;
  }

  /** Round trip of one frame: wherever a frame dumpPacket wrote stands in the
      stream, readPacket (for container versions 2 and later) returns its
      direction and its stored payload (the payload itself after a full
      write, zero-padded after a short one, zero-length payloads included)
      and leaves the cursor just past it. */
  lemma {:induction false} FrameRoundTrip(pre: seq<byte>, toServer: bool, nowMs: int, payload: seq<byte>,
                                          accepted: nat, rest: seq<byte>, ver: nat)
    requires ver >= 2
    requires IsI64(nowMs) && accepted <= |payload| < LittleEndian.TwoTo32
    ensures var f := FrameBytes(toServer, nowMs, payload, accepted);
            ReadFrame(pre + f + rest, |pre|, ver) ==
            FrameRead(Frame(StoredPayload(payload, accepted), toServer), |pre| + |f|)
  {
    var f := FrameBytes(toServer, nowMs, payload, accepted);
    var s := pre + f + rest;
    var p, n := |pre|, |payload|;
    FrameLayout(toServer, nowMs, payload, accepted);
    SliceInMiddle(pre, f, rest, 0, 4);
    SliceInMiddle(pre, f, rest, 4, 8);
    SliceInMiddle(pre, f, rest, 8, 9);
    SliceInMiddle(pre, f, rest, 17, 17 + n);
    SliceInMiddle(pre, f, rest, 17 + n, 21 + n);
    assert f[0..4] == f[..4];
    assert f[17 + n..21 + n] == f[17 + n..];
    assert s[p + 8] == f[8] by {
      assert s[p + 8..p + 9][0] == f[8..9][0];
    }
    var body := StoredPayload(payload, accepted);
    assert body == payload[..accepted] + Zeros(n - accepted);
    ReadWellFormed(s, p, n, toServer, body, ver);
  }

  /** A full write stores the payload unchanged. */
  lemma StoredFullPayload(payload: seq<byte>)
    requires |payload| < LittleEndian.TwoTo32
    ensures StoredPayload(payload, |payload|) == payload
  {
    assert payload[..|payload|] == payload;
  }

  /** The frames a series of dumps is read back as. */
  function Recorded(dumps: seq<Dump>): (frames: seq<RawFrame>)
    requires forall i :: 0 <= i < |dumps| ==> ValidDump(dumps[i])
    ensures |frames| == |dumps|
  {
    if dumps == [] then []
    else
      var d := dumps[0];
      assert ValidDump(d);
      [RawFrame(StoredPayload(d.payload, d.accepted), d.toServer)] + Recorded(dumps[1..])
  }

  /** Every payload fits the u32 length field. */
  predicate Fits(dumps: seq<Dump>)
  {
    forall i :: 0 <= i < |dumps| ==> ValidDump(dumps[i]) && |dumps[i].payload| < LittleEndian.TwoTo32
  }

  /** Round trip of a capture log: reading a series of dumped frames back
      yields one frame per dumpPacket call, in call order, then a clean end. */
  lemma {:induction false} LogRoundTrip(pre: seq<byte>, dumps: seq<Dump>, ver: nat)
    requires ver >= 2 && Fits(dumps)
    ensures ReadLog(pre + CaptureLog(dumps), |pre|, ver) == FrameLog(Recorded(dumps), EndOfStream)
    decreases |dumps|
  {
    if dumps == [] {
      assert pre + CaptureLog(dumps) == pre;
    } else {
      var d := dumps[0];
      assert ValidDump(d) && |d.payload| < LittleEndian.TwoTo32;
      var f := FrameBytes(d.toServer, d.nowMs, d.payload, d.accepted);
      var tail := CaptureLog(dumps[1..]);
      var s := pre + CaptureLog(dumps);
      assert CaptureLog(dumps) == f + tail;
      AppendAssoc(pre, f, tail);
      assert s == (pre + f) + tail;
      FrameRoundTrip(pre, d.toServer, d.nowMs, d.payload, d.accepted, tail, ver);
      var frame := RawFrame(StoredPayload(d.payload, d.accepted), d.toServer);
      assert ReadFrame(s, |pre|, ver) == FrameRead(Frame(frame.payload, frame.toServer), |pre + f|);
      var rest := ReadLog(s, |pre + f|, ver);
      assert ReadLog(s, |pre|, ver) == FrameLog([frame] + rest.frames, rest.end);
      assert Fits(dumps[1..]);
      LogRoundTrip(pre + f, dumps[1..], ver);
      assert rest == FrameLog(Recorded(dumps[1..]), EndOfStream);
      assert Recorded(dumps) == [frame] + Recorded(dumps[1..]);
    }
  }

  /** Full writes reproduce the captured (direction, payload) pairs exactly. */
  lemma FullWritesRecorded(dumps: seq<Dump>)
    requires Fits(dumps)
    requires forall i :: 0 <= i < |dumps| ==> dumps[i].accepted == |dumps[i].payload|
    ensures forall i :: 0 <= i < |dumps| ==>
              Recorded(dumps)[i] == RawFrame(dumps[i].payload, dumps[i].toServer)
  {
    if dumps != [] {
      StoredFullPayload(dumps[0].payload);
      FullWritesRecorded(dumps[1..]);
      forall i | 1 <= i < |dumps|
        ensures Recorded(dumps)[i] == RawFrame(dumps[i].payload, dumps[i].toServer)
      {
        assert Recorded(dumps)[i] == Recorded(dumps[1..])[i - 1];
      }
    }
  }

  /** Scenario: ("hello", to the server), (empty, to the client) and (1000
      zero bytes, to the server), all written in full, read back as the same
      three frames in the same order. */
  lemma ThreeFrameScenario(t1: int, t2: int, t3: int)
    requires IsI64(t1) && IsI64(t2) && IsI64(t3)
    ensures var hello: seq<byte> := [0x68, 0x65, 0x6c, 0x6c, 0x6f];
            var dumps := [Dump(true, t1, hello, 5), Dump(false, t2, [], 0), Dump(true, t3, Zeros(1000), 1000)];
            var log := ReadLog(CaptureLog(dumps), 0, CurrentReplayVersion);
            && log.end == EndOfStream && |log.frames| == 3
            && log.frames[0] == RawFrame(hello, true)
            && log.frames[1] == RawFrame([], false)
            && log.frames[2] == RawFrame(Zeros(1000), true)
  {
    var hello: seq<byte> := [0x68, 0x65, 0x6c, 0x6c, 0x6f];
    var dumps := [Dump(true, t1, hello, 5), Dump(false, t2, [], 0), Dump(true, t3, Zeros(1000), 1000)];
    assert Fits(dumps);
    FullWritesReadBack(dumps);
  }

  /** A capture log written in full reads back as its dumps' payloads and
      directions, one frame per dump, then a clean end. */
  lemma FullWritesReadBack(dumps: seq<Dump>)
    requires Fits(dumps)
    requires forall i :: 0 <= i < |dumps| ==> dumps[i].accepted == |dumps[i].payload|
    ensures var log := ReadLog(CaptureLog(dumps), 0, CurrentReplayVersion);
            && log.end == EndOfStream && |log.frames| == |dumps|
            && forall i :: 0 <= i < |dumps| ==> log.frames[i] == RawFrame(dumps[i].payload, dumps[i].toServer)
  {
    LogRoundTrip([], dumps, CurrentReplayVersion);
    assert [] + CaptureLog(dumps) == CaptureLog(dumps);
    FullWritesRecorded(dumps);
  }

  /** Replaying a capture: the replay loop over a capture log delivers to the
      consumer what login and delivery make of the packets decoded from the
      recorded frames, in capture order. */
  lemma ReplayOfCapture(dumps: seq<Dump>, dec: PacketDecoder, rp: PackHandler)
    requires Fits(dumps)
    ensures DecodeLoop(CaptureLog(dumps), 0, CurrentReplayVersion, InitialSession, dec, rp).session ==
            Deliver(InitialSession, DecodedPackets(Recorded(dumps), dec), rp).session
  {
    LogRoundTrip([], dumps, CurrentReplayVersion);
    assert [] + CaptureLog(dumps) == CaptureLog(dumps);
    LoopDeliversDecoded(CaptureLog(dumps), 0, CurrentReplayVersion, InitialSession, dec, rp);
  }

  /** The header the capture file starts with passes the replay version gate. */
  lemma HeaderPassesGate()
    ensures VersionAccepted(ReplayHeader()[4..])
  {
    VersionGateBytes(ReplayHeader()[4..]);
  }
}
