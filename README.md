# bedrocktool capture and replay, in Dafny

bedrocktool is a Minecraft Bedrock proxy. Its `capture` subcommand records every packet the proxy relays into a capture file. Its replay connector plays a recorded session back as if it were a live server connection. This project models the two halves of that file format and the replay connection's login state machine, and proves their properties.

- **Capture frame codec.**
  - `dumpPacket` (`subcommands/capture.go`) appends one frame: `AA AA AA AA`, the payload length as a little-endian u32, a direction byte, an i64 millisecond timestamp, the payload (zero-padded after a short write), and `BB BB BB BB`.
  - The capture callback builds the payload from the serialised packet header followed by the raw bytes. It marks the frame as sent to the server when the source address is the client's local address.
  - `WriteReplayHeader` emits `"BTCP"` followed by the int32 version 3.
- **Frame reader.** `readPacket` (`utils/proxy/replay.go`) parses that layout from a sequential stream. Every `binary.Read` whose error the code ignores is modelled faithfully: the short read consumes what is left and leaves a zero.
- **Replay connection.** The connector is a class:
  - `handleLoginSequence` stores the StartGame runtime ID, passes resource-pack messages to the pack handler, and fires spawn on a SetLocalPlayerAsInitialised that carries the stored ID;
  - `loop` routes decoded packets to the login sequence until spawn and forwards them to the consumer queue afterwards;
  - `Close`, `ReadPacket` and `DoSpawnContext` are the consumer-side calls;
  - the version gate of `createReplayConnector` decides whether a container opens at all.

Files:
- `bytes.dfy`: the byte type.
- `little_endian.dfy`: little-endian encoding and decoding as `encoding/binary` does it, with round-trip and injectivity lemmas.
- `streams.dfy`: the byte streams.
  - `Writer` is an append-only `io.Writer`.
  - `Reader` is the frame log behind `fs.File`, with the semantics of `io.ReadFull` and `binary.Read`.
- `capture.dfy`: `dumpPacket`, the capture callback, and the frame layout.
- `replay_frames.dfy`: the container header, the version gate, and `readPacket` as a function of the stream and the cursor.
- `replay_login.dfy`: the login step, delivery and the decode loop as functions, with the spawn and delivery lemmas.
- `replay_connection.dfy`: the connector class and its methods, proved against those functions.
- `capture_replay.dfy`: what `dumpPacket` writes, `readPacket` reads back.

Points of the Go code that the model keeps as written:
- **No header magic check on open.** `createReplayConnector` never checks the `"BTCP"` magic. It reads only the zip entry `version` as a little-endian u32 and refuses anything but 3.
  - An entry shorter than four bytes reads as 0. Its read error is ignored.
  - `VersionGateBytes` states the gate exactly.
- **Spawn without a StartGame.** The connector's game data starts at its zero value, and `handleLoginSequence` compares the confirmation's runtime ID with it. A SetLocalPlayerAsInitialised with runtime ID 0 therefore fires spawn even when no StartGame came first.
- **Different containers.** The capture subcommand writes `WriteReplayHeader` and then raw frames into a `.pcap2` file. The replay connector reads a zip with `version` and `packets.bin` entries. The frame layout is shared:
  - `FrameRoundTrip` and `LogRoundTrip` relate the frames;
  - `HeaderPassesGate` shows that the header's version bytes pass the gate.
- **Truncation error.** A truncated payload is reported with the `io.ReadFull` error (`EOF` or `ErrUnexpectedEOF`), not a dedicated truncation error. The separate `n != packetLength` check in `readPacket` can never fire, because `io.ReadFull` reports an error whenever it fills less than the buffer. The model has no branch for it.

## Model

| member | source | states |
|---|---|---|
| LittleEndian.I64RoundTrip | subcommands/capture.go:37 | The 8-byte little-endian two's-complement encoding of any i64 timestamp reads back as the same signed value. |
| LittleEndian.DecodeEncode | utils/proxy/replay.go:79 | Decoding the n-byte little-endian encoding of v gives v modulo 256^n, which is the truncation a fixed-width field applies. |
| LittleEndian.DecodeEncodeFits | subcommands/capture.go:34-35 | A length below 2^32 written as a little-endian u32 reads back as the same length. |
| LittleEndian.EncodeDecode | utils/proxy/replay.go:79 | Any four bytes read as a u32 are the encoding of the value read, so no byte pattern is lost or read two ways. |
| LittleEndian.DecodeInjective | utils/proxy/replay.go:76 | Two equally long byte strings decode to the same value exactly when they are equal, so a u32 comparison is a byte comparison. |
| Streams.Reader.ReadFull | utils/proxy/replay.go:87-91 | `io.ReadFull`: success with exactly the next n bytes when n remain. Otherwise EOF if nothing remained and ErrUnexpectedEOF if some did, and the cursor moves to the end. |
| Streams.Reader.ReadUint | utils/proxy/replay.go:79-83 | `binary.Read` into a zeroed integer: the decoded value when enough bytes remain, else 0. Either way the cursor moves past what was available. |
| Streams.Writer.WriteShort | subcommands/capture.go:38-41 | A payload write the device cuts short appends only the first n bytes and reports n. |
| ReplayFrames.ReplayHeader | utils/proxy/replay.go:27-39 | The header is exactly the 8 bytes `42 54 43 50 03 00 00 00`: "BTCP", then 3 as a little-endian int32. |
| ReplayFrames.WriteReplayHeader | utils/proxy/replay.go:33-39 | The file grows by exactly the header bytes, magic first. |
| ReplayFrames.ReadVersion | utils/proxy/replay.go:228 | The version is a u32. It is 0 when the entry holds fewer than 4 bytes, because the read error is ignored. |
| ReplayFrames.VersionGateBytes | utils/proxy/replay.go:224-231 | A container is accepted exactly when its version entry starts with `03 00 00 00`, whatever follows. Any other version is refused. |
| ReplayFrames.ReadFrame | utils/proxy/replay.go:63-104 | A clean end (no payload, no error) exactly when no byte is left at the cursor, and then the cursor stays where it was. The cursor never moves backwards or past the end. A frame takes exactly its header (17 bytes from version 2 on, 9 before), its payload and 4 trailer bytes. |
| ReplayFrames.ReadFrameBody | utils/proxy/replay.go:79-103 | Once the leading magic has matched, the outcome is never a clean end and the cursor is past the magic. A frame ends exactly HeaderSize + len + 4 bytes after its start. |
| ReplayFrames.ReadPayload | utils/proxy/replay.go:87-103 | The outcome is never a clean end. A returned payload has exactly the declared length, and the cursor stops 4 bytes after it, past the trailing magic. |
| ReplayFrames.ReadFrameHeader | utils/proxy/replay.go:79-86 | With a whole header in place after the leading magic, the length is the little-endian u32 that follows the magic and the direction is the byte after that (non-zero means to the server). The payload is read right after the header, which is 17 bytes from version 2 on and 9 before. |
| ReplayFrames.ReadFrameLeadingMagic | utils/proxy/replay.go:68-78 | A leading u32 that is cut short is an unexpected end of stream. Four bytes that are not 0xAAAAAAAA give "wrong Magic" and move the cursor past them. Neither case has a payload or a direction. |
| ReplayFrames.ReadFrameShortPayload | utils/proxy/replay.go:87-91 | Fewer payload bytes left than declared gives an I/O error and no payload, and the cursor ends at the end of the stream. The error is EOF when no payload byte was left and an unexpected EOF otherwise. |
| ReplayFrames.ReadFrameTrailingMagic | utils/proxy/replay.go:96-100 | A full payload followed by anything but 0xBBBBBBBB gives "wrong Magic2" and no payload. This includes a trailer cut short, which reads as zero. |
| ReplayFrames.ReadFrameFrame | utils/proxy/replay.go:79-103 | A returned frame is never short. The leading magic matched, the payload has exactly the declared length, the direction is the flag byte, 0xBBBBBBBB follows the payload, and the cursor moves exactly 4+4+1+(8 from version 2)+len+4 bytes. |
| ReplayFrames.ReadLog | utils/proxy/replay.go:63-104 | Successive `readPacket` calls yield frames until an outcome that is not a frame, which is kept as the end. Every frame read takes at least 13 bytes of the stream. |
| ReplayLogin.HandleLogin | utils/proxy/replay.go:106-156 | Spawn fires exactly on a SetLocalPlayerAsInitialised carrying the stored runtime ID. A different ID is exactly the mismatch error. A pack-handler refusal is exactly the pack error. Only StartGame replaces the snapshot. |
| ReplayLogin.Deliver | utils/proxy/replay.go:184-194 | The packets of one frame only ever add to what was sent to the consumer, and only once spawned: a run that ends unspawned sent nothing. Spawn is never undone. A login error happens only before spawn. |
| ReplayLogin.DeliverConcat | utils/proxy/replay.go:184-194 | Handling two runs of packets one after the other equals handling their concatenation, unless the first run failed. |
| ReplayLogin.DeliverAfterSpawn | utils/proxy/replay.go:191-193 | After spawn every packet is forwarded to the consumer, in order, and nothing fails. |
| ReplayLogin.DeliverSpawnsOnlyAt | utils/proxy/replay.go:184-190 | If a run spawns, some packet k is the one that fires spawn: the packets before it were handled without error or spawn, and it confirms the stored runtime ID. |
| ReplayLogin.SpawnsAtMostOnce | utils/proxy/replay.go:185-186 | At most one packet of a run fires spawn. The handler is not consulted again once it returned true. |
| ReplayLogin.DeliverSpawnAt | utils/proxy/replay.go:184-194 | If packet k fires spawn, exactly the packets after k are sent to the consumer, in order, and the run ends without error. |
| ReplayLogin.DeliverMismatch | utils/proxy/replay.go:148-151 | A confirmation whose ID differs from the stored one ends the login with the mismatch error. Spawn does not fire and nothing is forwarded. |
| ReplayLogin.MismatchScenario | utils/proxy/replay.go:148-151 | StartGame(7) followed by a confirmation of 8 fails with the mismatch error, whatever follows. The consumer gets nothing. |
| ReplayLogin.Orient | utils/proxy/replay.go:169-172 | The parser gets two distinct endpoints, the local and the remote address. The local address is the source exactly for frames sent to the server. |
| ReplayLogin.LoopStep | utils/proxy/replay.go:161-183 | A clean end or a read error stops the loop and leaves the session as it was. An iteration that goes on has moved the cursor forward. Packets are only added to what was sent, and only after spawn. A login failure stops the loop unspawned. |
| ReplayLogin.DecodeLoop | utils/proxy/replay.go:158-196 | The whole loop keeps the cursor within the stream. It only adds to what was sent, sends nothing unless spawn fired, never undoes spawn, and stops on a login failure only before spawn. |
| ReplayLogin.LoopDeliversDecoded | utils/proxy/replay.go:158-196 | The decode loop's final session is what login and delivery make of all packets decoded from the frame log, in order. Frames that fail to decode are skipped, and a parse failure ends the stream. |
| ReplayLogin.ReplayDelivery | utils/proxy/replay.go:158-196 | From a session that has not spawned: without spawn the loop sends the consumer nothing. With spawn it sends exactly the decoded packets after the spawning confirmation, in decode order. |
| ReplayConnection.ReplayConnector.constructor | utils/proxy/replay.go:198-206 | A fresh connector: not spawned, not closed, no packets queued, zero game data, cursor at the start of the packet log. |
| ReplayConnection.ReplayConnector.ReadRawPacket | utils/proxy/replay.go:63-86 | The field-by-field reads return the payload, direction and error that `ReadFrame` gives, and leave the cursor where `ReadFrame` says. |
| ReplayConnection.ReplayConnector.ReadRawPayload | utils/proxy/replay.go:87-103 | The `io.ReadFull` of the payload and the read of the trailing magic return what `ReadPayload` gives, and leave the cursor where it says. |
| ReplayConnection.ReplayConnector.HandleLoginSequence | utils/proxy/replay.go:106-156 | Updates the snapshot and the spawn flag and returns what `HandleLogin` gives. The queue and the closed flag are untouched. |
| ReplayConnection.ReplayConnector.DeliverPackets | utils/proxy/replay.go:184-194 | The inner `for` over one frame's packets leaves the state and the error that `Deliver` gives. gameStarted stays equal to the spawn flag. |
| ReplayConnection.ReplayConnector.Loop | utils/proxy/replay.go:161-195 | The outer `for` ends with the session, cursor and stop reason that `DecodeLoop` gives. The packets it sent are queued for the consumer, and the closed flag is unchanged. |
| ReplayConnection.ReplayConnector.LoopIteration | utils/proxy/replay.go:162-194 | One pass of the outer `for` gives the session, cursor and stop reason that `LoopStep` gives. The address orientation is the one `Orient` states. |
| ReplayConnection.ReplayConnector.ReceiveAll | utils/proxy/replay.go:340-350 | A consumer that keeps calling `ReadPacket` on an open connection receives every packet sent, in send order, and leaves nothing in flight. |
| ReplayConnection.ReplayConnector.Replay | utils/proxy/replay.go:158-196 | With a consumer calling `ReadPacket`, the consumer receives exactly the packets `DecodeLoop` sent, in order, and nothing without spawn. The deferred Close then runs with nothing in flight, so later reads give ErrClosed. |
| ReplayConnection.ReplayConnector.Close | utils/proxy/replay.go:268-274 | After Close the connection is closed. A second Close changes nothing. Game data, spawn and queue are untouched. |
| ReplayConnection.ReplayConnector.ReadPacket | utils/proxy/replay.go:340-350 | Once closed the answer is ErrClosed. Otherwise it is the oldest queued packet, which leaves the queue. |
| ReplayConnection.ReplayConnector.DoSpawnContext | utils/proxy/replay.go:296-306 | nil only if spawn fired. It blocks exactly while the connection is open, the context is live and spawn has not fired. It fails whenever closed or cancelled before spawn. |
| ReplayConnection.CreateReplayConnector | utils/proxy/replay.go:224-246 | A missing version entry, a version other than 3, a pack-cache failure and a missing packet log are refused, in that order. A connector is returned exactly when there is no error, and it starts fresh on the packet log. |
| Capture.FrameLayout | subcommands/capture.go:30-46 | A frame is 21+len bytes, made of: the `AA` magic, the length, a direction byte that is 1 exactly when sent to the server, the timestamp, the payload zero-padded after a short write, and the `BB` magic at offset 17+len. |
| Capture.FrameHeader | subcommands/capture.go:33-37 | The 17 bytes before the payload: the `AA` magic, the length field that decodes to `uint32(len)`, the direction byte (1 toward the server, else 0), and the i64 timestamp that decodes back to the clock reading. |
| Capture.SizeField | subcommands/capture.go:34 | The length field always fits in a u32, and it is the payload length whenever that fits. |
| Capture.StoredPayload | subcommands/capture.go:38-44 | The stored payload is the accepted bytes followed by zeros. It is padded up to the length field when the write fell short, and never truncated. |
| Capture.FrameBytes | subcommands/capture.go:33-45 | A frame is 21 bytes plus its stored payload, and it starts with the `AA` magic and ends with the `BB` magic. |
| Capture.DumpPacket | subcommands/capture.go:30-46 | The file grows by exactly one frame, in one piece, with zero padding after a short payload write. |
| Capture.OnPacket | subcommands/capture.go:99-105 | The dumped payload is the header bytes followed by the raw payload. The direction is toward the server exactly when the source address equals the client's local address. |
| Capture.CaptureLog | subcommands/capture.go:28-46 | The file after a series of dumps holds at least 21 bytes per dump, and it starts with the `AA` magic as soon as one frame was written. |
| Capture.CaptureLogAppend | subcommands/capture.go:28-46 | One more dump appends its whole frame after the frames already in the file. |
| Capture.DumpAll | subcommands/capture.go:28-46 | Successive `dumpPacket` calls on one file append their frames whole, in call order, never interleaved: the file grows by exactly `CaptureLog` of the calls. |
| CaptureReplay.MagicBytes | subcommands/capture.go:33-45 | The four bytes decode to 0xAAAAAAAA exactly when they are `AA AA AA AA`, and to 0xBBBBBBBB exactly when they are `BB BB BB BB`. |
| CaptureReplay.FrameRoundTrip | subcommands/capture.go:30-46 | Wherever a dumped frame stands in a stream, `readPacket` (version 2 or later) returns its direction and stored payload, empty payloads included, and leaves the cursor just past the frame. |
| CaptureReplay.LogRoundTrip | subcommands/capture.go:28-46 | A series of dumps reads back as one frame per call, in call order, followed by a clean end. |
| CaptureReplay.FullWritesRecorded | subcommands/capture.go:38-44 | With full writes, the frames read back are exactly the captured payloads and directions. |
| CaptureReplay.FullWritesReadBack | subcommands/capture.go:28-46 | A capture file written in full reads back as one frame per dump, each with that dump's payload and direction, in call order, then a clean end. |
| CaptureReplay.ThreeFrameScenario | subcommands/capture.go:30-46 | "hello" to the server, an empty payload to the client, and 1000 zero bytes to the server read back as those three frames, in order. |
| CaptureReplay.ReplayOfCapture | utils/proxy/replay.go:158-196 | Replaying a capture log delivers what login and delivery make of the packets decoded from the recorded frames. |
| CaptureReplay.HeaderPassesGate | utils/proxy/replay.go:224-231 | The version bytes of the header that capture writes pass the replay version gate. |

## Left out

- Concurrency is sequential here: goroutines, the `sync.Once` in Close and the `sync.Mutex` in `dumpPacket`.
  - `dumpPacket` is one method call that appends one frame. The lock only makes calls non-interleaved.
  - `go r.loop()` is not started by `CreateReplayConnector`; its caller runs `Loop` on the connector.
- Channels are state:
  - the spawn channel is the `spawned` flag;
  - the close and packets channels are the `closed` flag;
  - the unbuffered packets channel is the queue `packets`. A send that would block is an append.
- ReplayConnection.ReplayConnector.Close: does not model the runtime panic of a send on the closed packets channel. In the source, a consumer that closes while `loop` is blocked sending triggers that panic. In the model the packets still queued are simply never read.
- ReplayConnection.ReplayConnector.ReadPacket: a blocking receive is answered with `WouldBlock`. The `select` between the close and packets channels is not modelled; both cases give ErrClosed once closed.
- ReplayConnection.ReplayConnector.DoSpawnContext: the context is a boolean (done or not). The `select` choice among ready cases is a `pick` parameter, and blocking is the answer `WaitsForSpawn`.
- `DoSpawn` and `DoSpawnTimeout` only call `DoSpawnContext` with a background context or a timeout. Contexts and timers are not modelled.
- `os.Open`, `zip.NewReader`, `fs.File` and the replay pack cache are inputs. The version entry and `packets.bin` are optional byte strings, and the pack-cache read is a boolean.
- The packet decoder (`minecraft.ParseData` with `Decode`) and the resource-pack handler are pure functions passed in.
  - The real decoder consults the connector's protocol state.
  - The real pack handler keeps its own state across messages.
  - Neither is modelled.
- `header.Write` (packet header serialisation) is not part of this model: the capture callback takes the serialised header bytes as an input.
- `time.Now` is an input to `DumpPacket`. In `readPacket` the timestamp is read, then discarded.
- The game-data snapshot holds only the entity runtime ID. The other fields StartGame copies take no part in the logic.
- Logging (`logrus`) is not modelled. Errors are returned as values, or as the loop's stop reason.
- Capture.DumpPacket: only the payload write may be cut short. The source ignores the results of every other write, the zero padding included, and the model takes them as written in full.
- CaptureReplay.FrameRoundTrip: requires payloads shorter than 2^32 bytes. Above that the length field wraps (`SizeField` models the wrap), so the frame is not read back.
- Capture.FrameLayout, CaptureReplay.LogRoundTrip and CaptureReplay.ReplayOfCapture: carry the same hypothesis, that payloads are shorter than 2^32 bytes, for the same reason (through `Fits` for the last two).
- ReplayConnection.ReplayConnector.Replay: runs the consumer's receives after the loop instead of interleaved with its sends. The unbuffered channel makes the received sequence the same either way. A consumer that stops reading while the loop is blocked on a send, and so leaves the loop stuck, is not modelled.
- The constant accessors of the connector (`ChunkRadius`, `Authenticated`, `Latency`, and the like), `Read`/`Write`/`WritePacket` stubs and `CaptureCMD.Execute`'s command plumbing are not modelled.
