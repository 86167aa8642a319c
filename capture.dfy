/**
 * The capture side of subcommands/capture.go: dumpPacket, which appends one
 * framed packet to the capture file, and the packet callback that builds
 * each captured payload and direction.
 */
module Capture {
  import opened Bytes
  import opened Streams
  import LittleEndian

  const FrameStart: seq<byte> := [0xAA, 0xAA, 0xAA, 0xAA]
  const FrameEnd: seq<byte> := [0xBB, 0xBB, 0xBB, 0xBB]

  function Zeros(n: nat): (z: seq<byte>)
    ensures |z| == n
    ensures forall i :: 0 <= i < n ==> z[i] == 0
  {
    seq(n, _ => 0)
  }

  /** The timestamps an i64 can carry (time.Now().UnixMilli()). */
  predicate IsI64(t: int)
  {
    -(LittleEndian.TwoTo63 as int) <= t < LittleEndian.TwoTo63
  }

  /** The length field: uint32(len(payload)), which wraps past 2^32 - 1. */
  function SizeField(payload: seq<byte>): (size: nat)
    ensures size < LittleEndian.TwoTo32
    ensures |payload| < LittleEndian.TwoTo32 ==> size == |payload|
  {
    |payload| % LittleEndian.TwoTo32
  }

  /** The payload as it lands in the file when the writer took only its first
      accepted bytes: dumpPacket pads with zeros up to the length field. */
  function StoredPayload(payload: seq<byte>, accepted: nat): (stored: seq<byte>)
    requires accepted <= |payload|
    // never shorter than what was written, nor than the length field
    ensures accepted <= |stored| && SizeField(payload) <= |stored|
    ensures |stored| == accepted || |stored| == SizeField(payload)
    // the accepted bytes, then zeros
    ensures stored[..accepted] == payload[..accepted]
    ensures forall i :: accepted <= i < |stored| ==> stored[i] == 0
  {
    var size := SizeField(payload);
    payload[..accepted] + if accepted < size then Zeros(size - accepted) else []
  }

  /** The bytes one dumpPacket call appends, when the writer accepts accepted
      bytes of the payload and every other write in full. */
  function FrameBytes(toServer: bool, timestampMs: int, payload: seq<byte>, accepted: nat): (f: seq<byte>)
    requires IsI64(timestampMs) && accepted <= |payload|
    ensures |f| == 21 + |StoredPayload(payload, accepted)|
    ensures f[..4] == FrameStart && f[|f| - 4..] == FrameEnd
  {
    FrameHeader(toServer, timestampMs, payload) + StoredPayload(payload, accepted) + FrameEnd
  }

  /** The 17 bytes before the payload: magic, length, direction, timestamp. */
  function FrameHeader(toServer: bool, timestampMs: int, payload: seq<byte>): (h: seq<byte>)
    requires IsI64(timestampMs)
    ensures |h| == 17 && h[..4] == FrameStart
    ensures LittleEndian.Decode(h[4..8]) == SizeField(payload)
    ensures h[8] == if toServer then 1 else 0
    ensures LittleEndian.DecodeI64(h[9..17]) == timestampMs
  {
    var size := LittleEndian.Encode(SizeField(payload), 4);
    var ts := LittleEndian.EncodeI64(timestampMs);
    var h := FrameStart + size + [if toServer then 1 else 0] + ts;
    LittleEndian.Pow256Values();
    LittleEndian.DecodeEncodeFits(SizeField(payload), 4);
    LittleEndian.I64RoundTrip(timestampMs);
    assert h[4..8] == size && h[9..17] == ts;
    h
  }

  /** The layout of a frame whose payload fits the u32 length field: the
      leading magic, the length, the direction byte (1 exactly when sent to
      the server), the timestamp, the payload padded to its full length, and
      the trailing magic at offset 17 + length; 21 + length bytes in all. */
  lemma FrameLayout(toServer: bool, timestampMs: int, payload: seq<byte>, accepted: nat)
    requires IsI64(timestampMs) && accepted <= |payload| < LittleEndian.TwoTo32
    ensures var f := FrameBytes(toServer, timestampMs, payload, accepted);
            var n := |payload|;
            && |f| == 21 + n
            && f[..4] == FrameStart
            && LittleEndian.Decode(f[4..8]) == n
            && (f[8] == 1 <==> toServer) && (f[8] == 0 <==> !toServer)
            && LittleEndian.DecodeI64(f[9..17]) == timestampMs
            && f[17..17 + n] == payload[..accepted] + Zeros(n - accepted)
            && f[17 + n..] == FrameEnd
  {
    var n := |payload|;
    LittleEndian.Pow256Values();
    assert SizeField(payload) == n;
    var len := LittleEndian.Encode(n, 4);
    var ts := LittleEndian.EncodeI64(timestampMs);
    var body := StoredPayload(payload, accepted);
    assert body == payload[..accepted] + Zeros(n - accepted);
    var f := FrameBytes(toServer, timestampMs, payload, accepted);
    assert FrameHeader(toServer, timestampMs, payload) == FrameStart + len + [if toServer then 1 else 0] + ts;
    assert f == FrameStart + len + [if toServer then 1 else 0] + ts + body + FrameEnd;
    assert f[4..8] == len;
    assert f[9..17] == ts;
    assert f[17..17 + n] == body;
    assert f[17 + n..] == FrameEnd;
    LittleEndian.DecodeEncodeFits(n, 4);
    LittleEndian.I64RoundTrip(timestampMs);
  }

  /** dumpPacket: six writes appended back to back under one lock, so the
      frame is never interleaved with another; a short payload write is
      padded with zeros to the declared length. The writer's answer to the
      payload write (how many bytes it took) and the clock are inputs. */
  method DumpPacket(f: Writer, toServer: bool, payload: seq<byte>, nowMs: int, accepted: nat)
    requires IsI64(nowMs) && accepted <= |payload|
    modifies f
    ensures f.written == old(f.written) + FrameBytes(toServer, nowMs, payload, accepted)
  {
    ghost var before := f.written;
    f.Write(FrameStart);
    var packetSize := SizeField(payload);
    var sizeField := LittleEndian.Encode(packetSize, 4);
    f.Write(sizeField);
    ghost var frame := FrameStart + sizeField;
    AppendAssoc(before, FrameStart, sizeField);
    var direction: seq<byte> := [if toServer then 1 else 0];
    f.Write(direction);
    AppendAssoc(before, frame, direction);
    frame := frame + direction;
    var timestamp := LittleEndian.EncodeI64(nowMs);
    f.Write(timestamp);
    AppendAssoc(before, frame, timestamp);
    frame := frame + timestamp;
    assert frame == FrameHeader(toServer, nowMs, payload);
    var n := f.WriteShort(payload, accepted);
    AppendAssoc(before, frame, payload[..n]);
    frame := frame + payload[..n];
    if n < packetSize {
      var padding := Zeros(packetSize - n);
      f.Write(padding);
      AppendAssoc(before, frame, padding);
      AppendAssoc(FrameHeader(toServer, nowMs, payload), payload[..n], padding);
      frame := frame + padding;
    } else {
      assert payload[..n] + [] == payload[..n];
    }
    assert frame == FrameHeader(toServer, nowMs, payload) + StoredPayload(payload, accepted);
    f.Write(FrameEnd);
    AppendAssoc(before, frame, FrameEnd);
  }

  lemma AppendAssoc(a: seq<byte>, b: seq<byte>, c: seq<byte>)
    ensures a + b + c == a + (b + c)
  {
  }

  /** The capture callback: the serialised packet header followed by the raw
      payload is dumped, marked as sent to the server exactly when its source
      address is the client's local address (compared as strings). The
      header serialisation, the addresses and the clock are inputs. */
  method OnPacket(f: Writer, header: seq<byte>, payload: seq<byte>, src: string, clientLocal: string,
                  nowMs: int, accepted: nat)
    requires IsI64(nowMs) && accepted <= |header + payload|
    modifies f
    ensures f.written == old(f.written) + FrameBytes(src == clientLocal, nowMs, header + payload, accepted)
  {
    var isFromClient := src == clientLocal;
    DumpPacket(f, isFromClient, header + payload, nowMs, accepted);
  }

  /** One dumpPacket call as a value: its direction, clock reading, payload
      and how much of the payload the writer accepted. */
  datatype Dump = Dump(toServer: bool, nowMs: int, payload: seq<byte>, accepted: nat)

  predicate ValidDump(d: Dump)
  {
    IsI64(d.nowMs) && d.accepted <= |d.payload|
  }

  /** The file after a series of dumpPacket calls: their frames in call order. */
  function CaptureLog(dumps: seq<Dump>): (log: seq<byte>)
    requires forall i :: 0 <= i < |dumps| ==> ValidDump(dumps[i])
    // every frame takes at least 21 bytes, and an empty log holds no frame
    ensures |log| >= 21 * |dumps|
    ensures dumps != [] ==> log[..4] == FrameStart
  {
    if dumps == [] then []
    else
      var d := dumps[0];
      assert ValidDump(d);
      FrameBytes(d.toServer, d.nowMs, d.payload, d.accepted) + CaptureLog(dumps[1..])
  }

  /** One more dumpPacket call appends its frame after the frames already
      in the log. */
  lemma {:induction false} CaptureLogAppend(dumps: seq<Dump>, d: Dump)
    requires forall i :: 0 <= i < |dumps| ==> ValidDump(dumps[i])
    requires ValidDump(d)
    ensures CaptureLog(dumps + [d]) == CaptureLog(dumps) + FrameBytes(d.toServer, d.nowMs, d.payload, d.accepted)
    decreases |dumps|
  {
    var f := FrameBytes(d.toServer, d.nowMs, d.payload, d.accepted);
    if dumps == [] {
      assert dumps + [d] == [d] && [d][1..] == [];
      assert CaptureLog([d]) == f + [];
    } else {
      var d0 := dumps[0];
      assert ValidDump(d0);
      var f0 := FrameBytes(d0.toServer, d0.nowMs, d0.payload, d0.accepted);
      assert (dumps + [d])[0] == d0 && (dumps + [d])[1..] == dumps[1..] + [d];
      CaptureLogAppend(dumps[1..], d);
      AppendAssoc(f0, CaptureLog(dumps[1..]), f);
    }
  }

  /** A series of dumpPacket calls on one capture file: each call appends
      its whole frame after the frames of the calls before it. */
  method DumpAll(f: Writer, dumps: seq<Dump>)
    requires forall i :: 0 <= i < |dumps| ==> ValidDump(dumps[i])
    modifies f
    ensures f.written == old(f.written) + CaptureLog(dumps)
  {
    ghost var before := f.written;
    var i := 0;
    while i < |dumps|
      invariant 0 <= i <= |dumps|
      invariant f.written == before + CaptureLog(dumps[..i])
    {
      var d := dumps[i];
      assert ValidDump(d);
      DumpPacket(f, d.toServer, d.payload, d.nowMs, d.accepted);
      CaptureLogAppend(dumps[..i], d);
      TakeNext(dumps, i);
      AppendAssoc(before, CaptureLog(dumps[..i]), FrameBytes(d.toServer, d.nowMs, d.payload, d.accepted));
      i := i + 1;
    }
    assert dumps[..|dumps|] == dumps;
  }

  lemma TakeNext(dumps: seq<Dump>, i: nat)
    requires i < |dumps|
    ensures dumps[..i + 1] == dumps[..i] + [dumps[i]]
  {
  }
}
