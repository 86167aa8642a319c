/**
 * The replay connection's login and delivery logic as values: what
 * handleLoginSequence does with one decoded packet, what the inner loop of
 * `loop` does with the packets of one frame, and what the whole decode loop
 * does with the frame log. The packet decoder and the resource-pack handler
 * are parameters (oracles that answer ok or error).
 */
module ReplayLogin {
  import opened Bytes
  import opened Options
  import opened ReplayFrames

  /** The resource-pack messages handleLoginSequence hands to the pack handler. */
  datatype PackMessage = PacksInfo | PackDataInfo | PackChunkData | PackStack

  /** A decoded protocol packet, reduced to what the login logic looks at. */
  datatype Packet =
    | StartGame(entityRuntimeId: nat)
    | ResourcePack(kind: PackMessage, body: seq<byte>)
    | SetLocalPlayerAsInitialised(entityRuntimeId: nat)
    | Other(id: nat, body: seq<byte>)

  /** The game-data snapshot; only the runtime ID takes part in the logic. */
  datatype GameData = GameData(entityRuntimeId: nat)

  /** The zero value the connector starts with. */
  const NoGameData := GameData(0)

  /** The resource-pack handler: true when it accepts the message. */
  type PackHandler = Packet -> bool

  datatype LoginError = RuntimeIdMismatch | PackHandlerFailed

  /** One call of handleLoginSequence: the new snapshot, whether spawn fired,
      and the error it returned. */
  datatype LoginStep = LoginStep(gameData: GameData, started: bool, err: Option<LoginError>)

  function HandleLogin(gd: GameData, pk: Packet, rp: PackHandler): (r: LoginStep)
    // spawn fires exactly on a confirmation carrying the stored runtime ID
    ensures r.started <==>
              pk.SetLocalPlayerAsInitialised? && pk.entityRuntimeId == gd.entityRuntimeId
    ensures r.started ==> r.err.None?
    // a confirmation with another ID is the one login error of its own
    ensures r.err == Some(RuntimeIdMismatch) <==>
              pk.SetLocalPlayerAsInitialised? && pk.entityRuntimeId != gd.entityRuntimeId
    ensures r.err == Some(PackHandlerFailed) <==> pk.ResourcePack? && !rp(pk)
    // only StartGame replaces the snapshot
    ensures r.gameData == if pk.StartGame? then GameData(pk.entityRuntimeId) else gd
  {
    match pk
    case StartGame(id) => LoginStep(GameData(id), false, None)
    case ResourcePack(_, _) =>
      LoginStep(gd, false, if rp(pk) then None else Some(PackHandlerFailed))
    case SetLocalPlayerAsInitialised(id) =>
      if id != gd.entityRuntimeId then LoginStep(gd, false, Some(RuntimeIdMismatch))
      else LoginStep(gd, true, None)
    case Other(_, _) => LoginStep(gd, false, None)
  }

  /** The connector's state as the decode loop sees it: the snapshot, whether
      spawn has fired (the loop's gameStarted always equals it), and the
      packets handed to the consumer so far. */
  datatype Session = Session(gameData: GameData, spawned: bool, delivered: seq<Packet>)

  const InitialSession := Session(NoGameData, false, [])

  /** The session after a run of packets, and the login error that cut it
      short, if any. */
  datatype Handled = Handled(session: Session, failed: Option<LoginError>)

  /** The inner `for _, pk := range pks` of loop: before spawn each packet
      goes to handleLoginSequence, after it each packet is forwarded. */
  function Deliver(st: Session, pks: seq<Packet>, rp: PackHandler): (h: Handled)
    // packets are only ever appended to what was sent, and only after spawn
    ensures st.delivered <= h.session.delivered
    ensures !h.session.spawned ==> h.session.delivered == st.delivered
    // spawn is never undone, and a login error can only come before it
    ensures st.spawned ==> h.session.spawned && h.failed.None?
    ensures h.failed.Some? ==> !h.session.spawned
    decreases |pks|
  {
    if pks == [] then Handled(st, None)
    else if st.spawned then
      Deliver(Session(st.gameData, true, st.delivered + [pks[0]]), pks[1..], rp)
    else
      var step := HandleLogin(st.gameData, pks[0], rp);
      if step.err.Some? then Handled(Session(step.gameData, false, st.delivered), step.err)
      else Deliver(Session(step.gameData, step.started, st.delivered), pks[1..], rp)
  }

  /** Delivering two runs one after the other is delivering their
      concatenation, unless the first one already failed. */
  lemma {:induction false} DeliverConcat(st: Session, a: seq<Packet>, b: seq<Packet>, rp: PackHandler)
    ensures Deliver(st, a + b, rp) ==
              var h := Deliver(st, a, rp);
              if h.failed.Some? then h else Deliver(h.session, b, rp)
    decreases |a|
  {
    if a != [] {
      assert (a + b)[0] == a[0];
      assert (a + b)[1..] == a[1..] + b;
      if st.spawned {
        DeliverConcat(Session(st.gameData, true, st.delivered + [a[0]]), a[1..], b, rp);
      } else {
        var step := HandleLogin(st.gameData, a[0], rp);
        if step.err.None? {
          DeliverConcat(Session(step.gameData, step.started, st.delivered), a[1..], b, rp);
        }
      }
    } else {
      assert a + b == b;
    }
  }

  /** Once spawned, every packet is forwarded, in order, and nothing fails. */
  lemma {:induction false} DeliverAfterSpawn(st: Session, pks: seq<Packet>, rp: PackHandler)
    requires st.spawned
    ensures Deliver(st, pks, rp) == Handled(Session(st.gameData, true, st.delivered + pks), None)
    decreases |pks|
  {
    if pks != [] {
      DeliverAfterSpawn(Session(st.gameData, true, st.delivered + [pks[0]]), pks[1..], rp);
      assert st.delivered + [pks[0]] + pks[1..] == st.delivered + pks;
    }
  }

  /** Packet k is the one that fires spawn: everything before it was handled
      without error and without spawning, and it confirms the runtime ID of
      the snapshot those packets left. */
  ghost predicate SpawnsAt(st: Session, pks: seq<Packet>, k: nat, rp: PackHandler)
  {
    && k < |pks|
    && var pre := Deliver(st, pks[..k], rp);
    && pre.failed.None?
    && !pre.session.spawned
    && pks[k] == SetLocalPlayerAsInitialised(pre.session.gameData.entityRuntimeId)
  }

  /** If packet k fires spawn, exactly the packets after it are sent to the
      consumer, in order, and nothing fails afterwards. */
  lemma DeliverSpawnAt(st: Session, pks: seq<Packet>, k: nat, rp: PackHandler)
    requires !st.spawned && SpawnsAt(st, pks, k, rp)
    ensures var gd := Deliver(st, pks[..k], rp).session.gameData;
            Deliver(st, pks, rp) == Handled(Session(gd, true, st.delivered + pks[k + 1..]), None)
  {
    var pre := Deliver(st, pks[..k], rp);
    assert pks == pks[..k] + pks[k..];
    DeliverConcat(st, pks[..k], pks[k..], rp);
    var confirmed := Session(pre.session.gameData, true, pre.session.delivered);
    assert pks[k..][0] == pks[k] && pks[k..][1..] == pks[k + 1..];
    assert Deliver(pre.session, pks[k..], rp) == Deliver(confirmed, pks[k + 1..], rp);
    DeliverAfterSpawn(confirmed, pks[k + 1..], rp);
  }

  /** Spawn fires at most once: no two packets of a run both fire it. */
  lemma SpawnsAtMostOnce(st: Session, pks: seq<Packet>, k1: nat, k2: nat, rp: PackHandler)
    requires !st.spawned && SpawnsAt(st, pks, k1, rp) && SpawnsAt(st, pks, k2, rp)
    ensures k1 == k2
  {
    if k1 != k2 {
      var lo, hi := if k1 < k2 then k1 else k2, if k1 < k2 then k2 else k1;
      var prefix := pks[..hi];
      assert prefix[..lo] == pks[..lo] && prefix[lo] == pks[lo];
      assert SpawnsAt(st, prefix, lo, rp);
      DeliverSpawnAt(st, prefix, lo, rp);
      assert false;
    }
  }

  /** Spawn fires only at a packet that SpawnsAt describes. */
  lemma {:induction false} DeliverSpawnsOnlyAt(st: Session, pks: seq<Packet>, rp: PackHandler)
    requires !st.spawned
    requires Deliver(st, pks, rp).session.spawned
    ensures exists k: nat :: SpawnsAt(st, pks, k, rp)
    decreases |pks|
  {
    assert pks != [];
    var step := HandleLogin(st.gameData, pks[0], rp);
    assert step.err.None?;
    assert pks[..0] == [];
    if step.started {
      assert SpawnsAt(st, pks, 0, rp);
    } else {
      var next := Session(step.gameData, false, st.delivered);
      DeliverSpawnsOnlyAt(next, pks[1..], rp);
      var k: nat :| SpawnsAt(next, pks[1..], k, rp);
      assert pks[..k + 1][0] == pks[0] && pks[..k + 1][1..] == pks[1..][..k];
      assert Deliver(st, pks[..k + 1], rp) == Deliver(next, pks[1..][..k], rp);
      assert SpawnsAt(st, pks, k + 1, rp);
    }
  }

  /** A confirmation whose runtime ID differs from the stored one ends the
      login with RuntimeIdMismatch: spawn never fires and nothing reaches the
      consumer. */
  lemma DeliverMismatch(st: Session, pks: seq<Packet>, k: nat, rp: PackHandler)
    requires !st.spawned && k < |pks|
    requires Deliver(st, pks[..k], rp).failed.None?
    requires !Deliver(st, pks[..k], rp).session.spawned
    requires pks[k].SetLocalPlayerAsInitialised?
    requires pks[k].entityRuntimeId != Deliver(st, pks[..k], rp).session.gameData.entityRuntimeId
    ensures var h := Deliver(st, pks, rp);
            && h.failed == Some(RuntimeIdMismatch)
            && !h.session.spawned
            && h.session.delivered == st.delivered
  {
    assert pks == pks[..k] + pks[k..];
    DeliverConcat(st, pks[..k], pks[k..], rp);
    assert pks[k..][0] == pks[k];
  }

  /** A network address, by its IPv4 octets. */
  datatype Addr = UdpAddr(ip: seq<byte>)

  /** The replay's fixed synthetic addresses (LocalAddr, RemoteAddr). */
  const LocalAddr := UdpAddr([1, 1, 1, 1])
  const RemoteAddr := UdpAddr([2, 2, 2, 2])

  /** The source and destination loop passes to the packet parser: the
      client side (local) is the source exactly for frames sent to the server. */
  function Orient(toServer: bool): (ends: (Addr, Addr))
    ensures ends.0 != ends.1
    ensures {ends.0, ends.1} == {LocalAddr, RemoteAddr}
    ensures ends.0 == LocalAddr <==> toServer
  {
    if toServer then (LocalAddr, RemoteAddr) else (RemoteAddr, LocalAddr)
  }

  /** What minecraft.ParseData followed by Decode makes of one payload: a
      parse error (the loop stops), a decode error (the loop skips the frame),
      or the packets it holds. */
  datatype Decoded = ParseError | DecodeError | Packets(pks: seq<Packet>)

  type PacketDecoder = (seq<byte>, Addr, Addr) -> Decoded

  function DecodeFrame(f: RawFrame, dec: PacketDecoder): Decoded
  {
    var ends := Orient(f.toServer);
    dec(f.payload, ends.0, ends.1)
  }

  /** Why the decode loop returned. */
  datatype StopReason =
    | StreamEnded
    | ReadFailed(readErr: ReadError)
    | ParseFailed
    | LoginFailed(loginErr: LoginError)

  datatype StepResult = StepResult(session: Session, next: nat, stop: Option<StopReason>)

  /** One iteration of loop's outer `for`: read a frame, parse and decode it,
      and deliver its packets. */
  function LoopStep(s: seq<byte>, pos: nat, ver: nat, st: Session, dec: PacketDecoder, rp: PackHandler): (r: StepResult)
    requires pos <= |s|
    ensures pos <= r.next <= |s|
    ensures r.stop.None? ==> r.next > pos
    ensures r.stop.Some? && !r.stop.value.LoginFailed? ==> r.session == st
    ensures st.delivered <= r.session.delivered
    ensures !r.session.spawned ==> r.session.delivered == st.delivered
    ensures st.spawned ==> r.session.spawned
    ensures r.stop.Some? && r.stop.value.LoginFailed? ==> !r.session.spawned
    // a clean end or a read error ends the loop
    ensures ReadFrame(s, pos, ver).outcome.EndOfStream? ==> r.stop == Some(StreamEnded)
    ensures ReadFrame(s, pos, ver).outcome.Failed? ==> r.stop == Some(ReadFailed(ReadFrame(s, pos, ver).outcome.err))
  {
    var fr := ReadFrame(s, pos, ver);
    match fr.outcome
    case EndOfStream => StepResult(st, fr.next, Some(StreamEnded))
    case Failed(e, _) => StepResult(st, fr.next, Some(ReadFailed(e)))
    case Frame(payload, toServer) =>
      match DecodeFrame(RawFrame(payload, toServer), dec)
      case ParseError => StepResult(st, fr.next, Some(ParseFailed))
      case DecodeError => StepResult(st, fr.next, None)
      case Packets(pks) =>
        var h := Deliver(st, pks, rp);
        StepResult(h.session, fr.next, if h.failed.Some? then Some(LoginFailed(h.failed.value)) else None)
  }

  datatype LoopResult = LoopResult(session: Session, next: nat, stop: StopReason)

  /** The whole decode loop from the cursor at pos until it returns. */
  function DecodeLoop(s: seq<byte>, pos: nat, ver: nat, st: Session, dec: PacketDecoder, rp: PackHandler): (r: LoopResult)
    requires pos <= |s|
    ensures pos <= r.next <= |s|
    // the loop only ever sends more packets, and none before spawn
    ensures st.delivered <= r.session.delivered
    ensures !r.session.spawned ==> r.session.delivered == st.delivered
    ensures st.spawned ==> r.session.spawned
    // a failed login sequence ends the loop before spawn
    ensures r.stop.LoginFailed? ==> !r.session.spawned
    decreases |s| - pos
  {
    var step := LoopStep(s, pos, ver, st, dec, rp);
    if step.stop.Some? then LoopResult(step.session, step.next, step.stop.value)
    else DecodeLoop(s, step.next, ver, step.session, dec, rp)
  }

  /** The packets the decoder yields for a run of frames, in frame order: a
      frame that fails to decode is skipped, one that fails to parse ends the
      run. */
  function DecodedPackets(frames: seq<RawFrame>, dec: PacketDecoder): seq<Packet>
  {
    if frames == [] then []
    else
      match DecodeFrame(frames[0], dec)
      case ParseError => []
      case DecodeError => DecodedPackets(frames[1..], dec)
      case Packets(pks) => pks + DecodedPackets(frames[1..], dec)
  }

  /** The decode loop is delivery of the decoded packet stream: the loop's
      session equals what Deliver makes of every packet decoded from the log,
      frame boundaries aside. */
  lemma {:induction false} LoopDeliversDecoded(s: seq<byte>, pos: nat, ver: nat, st: Session, dec: PacketDecoder, rp: PackHandler)
    requires pos <= |s|
    ensures DecodeLoop(s, pos, ver, st, dec, rp).session ==
            Deliver(st, DecodedPackets(ReadLog(s, pos, ver).frames, dec), rp).session
    decreases |s| - pos
  {
    var fr := ReadFrame(s, pos, ver);
    var log := ReadLog(s, pos, ver);
    match fr.outcome
    case EndOfStream =>
    case Failed(_, _) =>
    case Frame(payload, toServer) =>
      var f := RawFrame(payload, toServer);
      var rest := ReadLog(s, fr.next, ver).frames;
      assert log.frames == [f] + rest;
      assert log.frames[0] == f && log.frames[1..] == rest;
      match DecodeFrame(f, dec)
      case ParseError =>
      case DecodeError =>
        LoopDeliversDecoded(s, fr.next, ver, st, dec, rp);
      case Packets(pks) =>
        var h := Deliver(st, pks, rp);
        DeliverConcat(st, pks, DecodedPackets(rest, dec), rp);
        if h.failed.None? {
          LoopDeliversDecoded(s, fr.next, ver, h.session, dec, rp);
        }
  }

  /** The delivery guarantee of the replay connection, for a loop started
      from a session that has not spawned: if spawn fired, the loop sent the
      consumer exactly the decoded packets after the spawning confirmation,
      in decode order; if it did not, the loop sent nothing. */
  lemma ReplayDelivery(s: seq<byte>, pos: nat, ver: nat, st: Session, dec: PacketDecoder, rp: PackHandler)
    requires pos <= |s| && !st.spawned
    ensures var r := DecodeLoop(s, pos, ver, st, dec, rp);
            var pks := DecodedPackets(ReadLog(s, pos, ver).frames, dec);
            && (!r.session.spawned ==> r.session.delivered == st.delivered)
            && (r.session.spawned ==>
                  exists k: nat :: SpawnsAt(st, pks, k, rp) && r.session.delivered == st.delivered + pks[k + 1..])
  {
    var pks := DecodedPackets(ReadLog(s, pos, ver).frames, dec);
    LoopDeliversDecoded(s, pos, ver, st, dec, rp);
    var h := Deliver(st, pks, rp);
    if h.session.spawned {
      DeliverSpawnsOnlyAt(st, pks, rp);
      var k: nat :| SpawnsAt(st, pks, k, rp);
      DeliverSpawnAt(st, pks, k, rp);
    }
  }

  /** Scenario: StartGame declares runtime ID 7 and the confirmation says 8.
      The login fails, spawn never fires and the consumer gets nothing,
      whatever would have followed. */
  lemma MismatchScenario(rest: seq<Packet>, rp: PackHandler)
    ensures var h := Deliver(InitialSession, [StartGame(7), SetLocalPlayerAsInitialised(8)] + rest, rp);
            h.failed == Some(RuntimeIdMismatch) && !h.session.spawned && h.session.delivered == []
  {
    var pks := [StartGame(7), SetLocalPlayerAsInitialised(8)] + rest;
    assert pks[..1] == [StartGame(7)];
    DeliverMismatch(InitialSession, pks, 1, rp);
  }
}
