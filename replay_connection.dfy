/**
 * The replay connector of utils/proxy/replay.go as an object: opening a
 * container, reading frames off the packet log, running the login sequence,
 * the decode loop that feeds the consumer, and the connection calls the
 * consumer makes (ReadPacket, DoSpawnContext, Close).
 *
 * The channels become fields: `spawned` for the closed spawn channel,
 * `closed` for the closed close/packets channels, and `packets` for what the
 * decode loop has sent and the consumer has not yet received.
 */
module ReplayConnection {
  import opened Bytes
  import opened Options
  import opened Streams
  import opened ReplayFrames
  import opened ReplayLogin

  /** Why createReplayConnector gives up. */
  datatype OpenError = MissingEntry(name: string) | WrongVersion | PackCacheFailed

  /** What ReadPacket answers: a packet, net.ErrClosed, or nothing yet (the
      call would block until the decode loop sends). */
  datatype Received = Received(pk: Packet) | ErrClosed | WouldBlock

  /** What DoSpawnContext answers: nil, an error, or nothing yet (it would
      block until one of its cases is ready). */
  datatype SpawnWait = Spawned | SpawnFailed | WaitsForSpawn

  /** The triple readPacket returns for each outcome. */
  function Returned(o: ReadOutcome): (Option<seq<byte>>, bool, Option<ReadError>)
  {
    match o
    case EndOfStream => (None, false, None)
    case Frame(payload, toServer) => (Some(payload), toServer, None)
    case Failed(e, toServer) => (None, toServer, Some(e))
  }

  class ReplayConnector {
    const ver: nat
    const packetF: Reader
    const decode: PacketDecoder
    const rpHandler: PackHandler

    var gameData: GameData
    var spawned: bool
    var closed: bool
    var packets: seq<Packet>

    ghost predicate Valid()
      reads this, packetF
    {
      packetF.Valid()
    }

    /** The part of the state the decode loop works on. */
    function State(): Session
      reads this
    {
      Session(gameData, spawned, packets)
    }

    constructor (version: nat, log: seq<byte>, dec: PacketDecoder, rp: PackHandler)
      ensures Valid() && fresh(packetF)
      ensures ver == version && packetF.data == log && packetF.pos == 0
      ensures decode == dec && rpHandler == rp
      ensures State() == InitialSession && !closed
    {
      ver := version;
      packetF := new Reader(log);
      decode := dec;
      rpHandler := rp;
      gameData := NoGameData;
      spawned := false;
      closed := false;
      packets := [];
    }

    /** readPacket: one frame off the log, field by field. */
    method ReadRawPacket() returns (payload: Option<seq<byte>>, toServer: bool, err: Option<ReadError>)
      requires Valid()
      modifies packetF
      ensures Valid()
      ensures var r := ReadFrame(packetF.data, old(packetF.pos), ver);
              packetF.pos == r.next && (payload, toServer, err) == Returned(r.outcome)
    {
      ghost var s, pos := packetF.data, packetF.pos;
      var magic, e := packetF.ReadUint(4);
      if e.Some? {
        if e.value == EOF {
          return None, false, None;
        }
        return None, false, Some(Io(e.value));
      }
      if magic != LeadingMagic {
        return None, false, Some(WrongMagic);
      }
      ghost var body := ReadFrameBody(s, pos, ver);
      assert ReadFrame(s, pos, ver) == body;
      // the errors of these reads are ignored: a short read leaves a zero
      var packetLength, _ := packetF.ReadUint(4);
      ghost var p2 := packetF.pos;
      var direction, _ := packetF.ReadUint(1);
      toServer := direction != 0;
      ghost var p3 := packetF.pos;
      if ver >= 2 {
        // the timestamp is read and then dropped
        var timeMs, _ := packetF.ReadUint(8);
      }
      ghost var p4 := packetF.pos;
      assert p4 == if ver >= 2 then Advance(p3, 8, |s|) else p3;
      assert body == ReadPayload(s, p4, packetLength, toServer);
      payload, err := ReadRawPayload(packetLength, toServer);
    }

    /** The rest of readPacket: the payload and the trailing magic. */
    method ReadRawPayload(packetLength: nat, toServer: bool) returns (payload: Option<seq<byte>>, err: Option<ReadError>)
      requires Valid()
      modifies packetF
      ensures Valid()
      ensures var r := ReadPayload(packetF.data, old(packetF.pos), packetLength, toServer);
              packetF.pos == r.next && (payload, toServer, err) == Returned(r.outcome)
    {
      ghost var rest := ReadPayload(packetF.data, packetF.pos, packetLength, toServer);
      var buf, e2 := packetF.ReadFull(packetLength);
      if e2.Some? {
        assert rest == FrameRead(Failed(Io(e2.value), toServer), |packetF.data|);
        return None, Some(Io(e2.value));
      }
      var magic2, _ := packetF.ReadUint(4);
      if magic2 != TrailingMagic {
        assert rest == FrameRead(Failed(WrongMagic2, toServer), packetF.pos);
        return None, Some(WrongMagic2);
      }
      assert rest == FrameRead(Frame(buf, toServer), packetF.pos);
      return Some(buf), None;
    }

    /** handleLoginSequence. It is only ever called before spawn: closing the
        spawn channel a second time would panic. */
    method HandleLoginSequence(pk: Packet) returns (started: bool, err: Option<LoginError>)
      requires !spawned
      modifies this
      ensures var r := HandleLogin(old(gameData), pk, rpHandler);
              gameData == r.gameData && spawned == r.started && started == r.started && err == r.err
      ensures packets == old(packets) && closed == old(closed)
    {
      match pk
      case StartGame(id) =>
        gameData := GameData(id);
        return false, None;
      case ResourcePack(_, _) =>
        var ok := rpHandler(pk);
        return false, if ok then None else Some(PackHandlerFailed);
      case SetLocalPlayerAsInitialised(id) =>
        if id != gameData.entityRuntimeId {
          return false, Some(RuntimeIdMismatch);
        }
        spawned := true;
        return true, None;
      case Other(_, _) =>
        return false, None;
    }

    /** The packets of one decoded frame: to the login sequence until spawn,
        to the consumer after it. */
    method DeliverPackets(pks: seq<Packet>, gameStarted: bool) returns (started: bool, err: Option<LoginError>)
      requires gameStarted == spawned
      modifies this
      ensures started == spawned
      ensures var h := Deliver(old(State()), pks, rpHandler);
              State() == h.session && err == h.failed
      ensures closed == old(closed)
    {
      started := gameStarted;
      var i := 0;
      while i < |pks|
        invariant 0 <= i <= |pks|
        invariant started == spawned && closed == old(closed)
        invariant Deliver(State(), pks[i..], rpHandler) == Deliver(old(State()), pks, rpHandler)
      {
        var pk := pks[i];
        assert pks[i..][0] == pk && pks[i..][1..] == pks[i + 1..];
        if !started {
          started, err := HandleLoginSequence(pk);
          if err.Some? {
            return;
          }
        } else {
          packets := packets + [pk];
        }
        i := i + 1;
      }
      err := None;
    }

    /** loop's outer `for`: read, parse and decode frames until the log
        ends, a read or parse fails, or the login sequence fails. The packets
        it sends are left in `packets` for the consumer; the deferred Close
        comes in Replay, once they have been received. */
    method Loop() returns (stop: StopReason)
      requires Valid() && !spawned
      modifies this, packetF
      ensures Valid() && closed == old(closed)
      ensures var r := DecodeLoop(packetF.data, old(packetF.pos), ver, old(State()), decode, rpHandler);
              State() == r.session && packetF.pos == r.next && stop == r.stop
    {
      ghost var goal := DecodeLoop(packetF.data, packetF.pos, ver, State(), decode, rpHandler);
      var gameStarted := false;
      var stopped: Option<StopReason> := None;
      while stopped.None?
        invariant Valid() && gameStarted == spawned && closed == old(closed)
        invariant stopped.None? ==> DecodeLoop(packetF.data, packetF.pos, ver, State(), decode, rpHandler) == goal
        invariant stopped.Some? ==> State() == goal.session && packetF.pos == goal.next && stopped.value == goal.stop
        decreases |packetF.data| - packetF.pos + (if stopped.None? then 1 else 0)
      {
        gameStarted, stopped := LoopIteration(gameStarted);
      }
      stop := stopped.value;
    }

    /** One pass of loop's outer `for`: read a frame, parse and decode it
        with the addresses oriented by its direction, and deliver its
        packets. */
    method LoopIteration(gameStarted: bool) returns (started: bool, stop: Option<StopReason>)
      requires Valid() && gameStarted == spawned
      modifies this, packetF
      ensures Valid() && started == spawned && closed == old(closed)
      ensures var step := LoopStep(packetF.data, old(packetF.pos), ver, old(State()), decode, rpHandler);
              State() == step.session && packetF.pos == step.next && stop == step.stop
    {
      started := gameStarted;
      stop := None;
      var payload, toServer, err := ReadRawPacket();
      if payload.None? {
        return started, Some(if err.None? then StreamEnded else ReadFailed(err.value));
      }
      var src, dst := RemoteAddr, LocalAddr;
      if toServer {
        src, dst := LocalAddr, RemoteAddr;
      }
      var decoded := decode(payload.value, src, dst);
      if decoded.ParseError? {
        return started, Some(ParseFailed);
      } else if decoded.Packets? {
        var e;
        started, e := DeliverPackets(decoded.pks, started);
        if e.Some? {
          stop := Some(LoginFailed(e.value));
        }
      }
    }

    /** `go r.loop()` with a consumer that calls ReadPacket for every packet
        the loop sends. The packets channel is unbuffered, so each send of
        the loop completes only once the consumer has received it, and the
        loop's deferred Close runs with nothing left in flight. Here the
        receives follow the loop, in the order of the sends. */
    method Replay() returns (stop: StopReason, received: seq<Packet>)
      requires Valid() && State() == InitialSession && !closed
      modifies this, packetF
      ensures Valid() && closed && packets == []
      ensures var r := DecodeLoop(packetF.data, old(packetF.pos), ver, InitialSession, decode, rpHandler);
              && stop == r.stop && received == r.session.delivered && packetF.pos == r.next
              && gameData == r.session.gameData && spawned == r.session.spawned
      // without spawn the consumer receives nothing (what it receives after
      // spawn is stated by ReplayDelivery)
      ensures !spawned ==> received == []
    {
      ghost var r := DecodeLoop(packetF.data, packetF.pos, ver, InitialSession, decode, rpHandler);
      stop := Loop();
      received := ReceiveAll();
      Close();
    }

    /** The consumer's side of the unbuffered packets channel: ReadPacket
        for each packet the loop sent, in the order of the sends. */
    method ReceiveAll() returns (received: seq<Packet>)
      requires !closed
      modifies this
      ensures received == old(packets) && packets == []
      ensures gameData == old(gameData) && spawned == old(spawned) && !closed
    {
      received := [];
      while packets != []
        invariant !closed && received + packets == old(packets)
        invariant gameData == old(gameData) && spawned == old(spawned)
        decreases |packets|
      {
        var r := ReadPacket();
        received := received + [r.pk];
      }
    }

    /** Close: the first call closes the connection (the close and packets
        channels); later calls change nothing. */
    method Close()
      modifies this
      ensures closed
      ensures old(closed) ==> unchanged(this)
      ensures State() == old(State())
    {
      if !closed {
        closed := true;
      }
    }

    /** ReadPacket: net.ErrClosed once closed, otherwise the next packet the
        decode loop sent, in the order it sent them. */
    method ReadPacket() returns (r: Received)
      modifies this
      ensures closed == old(closed) && gameData == old(gameData) && spawned == old(spawned)
      ensures closed ==> r == ErrClosed && packets == old(packets)
      ensures !closed && old(packets) != [] ==> r == Received(old(packets)[0]) && packets == old(packets)[1..]
      ensures !closed && old(packets) == [] ==> r == WouldBlock && packets == old(packets)
    {
      if closed {
        return ErrClosed;
      }
      if packets == [] {
        return WouldBlock;
      }
      r := Received(packets[0]);
      packets := packets[1..];
    }

    /** DoSpawnContext: a select over the close channel, the context and the
        spawn channel. cancelled says whether the context is done; pick is
        the scheduler's choice among the cases that are ready. */
    method DoSpawnContext(cancelled: bool, pick: nat) returns (r: SpawnWait)
      ensures r == Spawned ==> spawned
      ensures r == WaitsForSpawn <==> !closed && !cancelled && !spawned
      ensures spawned && !closed && !cancelled ==> r == Spawned
      ensures !spawned && (closed || cancelled) ==> r == SpawnFailed
    {
      var ready: seq<SpawnWait> :=
        (if closed then [SpawnFailed] else [])
        + (if cancelled then [SpawnFailed] else [])
        + (if spawned then [Spawned] else []);
      if ready == [] {
        r := WaitsForSpawn;
      } else {
        r := ready[pick % |ready|];
      }
    }
  }

  /** createReplayConnector, from the container entries on: the "version"
      entry must hold version 3, the packs must load, and the "packets.bin"
      entry must exist; the connector then starts with an empty snapshot,
      no spawn, and the cursor at the start of the packet log. */
  method CreateReplayConnector(versionEntry: Option<seq<byte>>, packsLoaded: bool, packetsBin: Option<seq<byte>>,
                               dec: PacketDecoder, rp: PackHandler)
    returns (r: Option<ReplayConnector>, err: Option<OpenError>)
    ensures r.Some? <==> err.None?
    ensures versionEntry.None? ==> err == Some(MissingEntry("version"))
    ensures versionEntry.Some? && !VersionAccepted(versionEntry.value) ==> err == Some(WrongVersion)
    ensures versionEntry.Some? && VersionAccepted(versionEntry.value) && !packsLoaded
            ==> err == Some(PackCacheFailed)
    ensures versionEntry.Some? && VersionAccepted(versionEntry.value) && packsLoaded && packetsBin.None?
            ==> err == Some(MissingEntry("packets.bin"))
    ensures r.Some? ==>
              && versionEntry.Some? && VersionAccepted(versionEntry.value) && packetsBin.Some?
              && fresh(r.value) && fresh(r.value.packetF) && r.value.Valid()
              && r.value.ver == CurrentReplayVersion
              && r.value.packetF.data == packetsBin.value && r.value.packetF.pos == 0
              && r.value.decode == dec && r.value.rpHandler == rp
              && r.value.State() == InitialSession && !r.value.closed
  {
    if versionEntry.None? {
      return None, Some(MissingEntry("version"));
    }
    var ver := ReadVersion(versionEntry.value);
    if ver != 3 {
      return None, Some(WrongVersion);
    }
    if !packsLoaded {
      return None, Some(PackCacheFailed);
    }
    if packetsBin.None? {
      return None, Some(MissingEntry("packets.bin"));
    }
    var c := new ReplayConnector(ver, packetsBin.value, dec, rp);
    return Some(c), None;
  }
}
