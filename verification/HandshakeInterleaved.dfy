/**
 * The handshake goes through whatever else happens meanwhile: other connections, messages of the host's application after
 * its side is connected, heartbeats and housekeeping within their timeouts.
 */
module HandshakeInterleaved {
  import opened Bytes
  import opened ControlCodec
  import opened Handshake
  import opened HandshakeProgress
  import opened HostSafety
  import HS = HostSessions
  import CS = ClientSessions

  // ---------- steps that leave a connection where it is ----------

  /** The step has nothing to do with connection `id`, or leaves its handshake alone. */
  predicate Aside(s: System, op: Op, id: nat)
    requires id in s.h.clients && id in s.links
  {
    match op
    case Open(_, _, _) => true
    case HostActs(hop) => Local(hop) ==> HostAside(s.h, hop, id)
    case ClientHeartbeat(i, now) => i != id || now - s.links[id].client.lastActivity <= CS.HEARTBEAT_TIMEOUT
    case HostSendsApp(i, _, _) => i != id || s.h.clients[id].state == HS.Connected
    case _ => op.id != id
  }

  predicate HostAside(h: HS.Host, hop: HS.Op, id: nat)
    requires id in h.clients && Local(hop)
  {
    match hop
    case SetClientInput(i, _) => i != id || h.clients[id].state == HS.Connected
    case Housekeeping(now) => !HS.TimedOut(h.clients[id], now)
    case ApproveClient(i, _, _) => i != id
    case KickClient(i, _) => i != id
    case ConnectionClosed(i) => i != id
  }

  /** Record and link are as before, but for frames behind the others once the host's side is connected. */
  ghost predicate Kept(s: System, s': System, id: nat)
    requires id in s.h.clients && id in s.links
  {
    && s.h.nextId <= s'.h.nextId
    && id in s'.h.clients && s'.h.clients[id].state == s.h.clients[id].state
    && id in s'.links
    && var l, l' := s.links[id], s'.links[id];
      && l'.params == l.params && l'.client == l.client && l'.toHost == l.toHost && l.toClient <= l'.toClient
      && (s.h.clients[id].state != HS.Connected ==> l'.toClient == l.toClient)
  }

  /** A host step that leaves the record's state, and says nothing to the client before it is connected. */
  ghost predicate HostKept(h: HS.Host, r: (HS.Host, seq<HS.Out>), id: nat)
    requires id in h.clients
  {
    && h.nextId <= r.0.nextId
    && id in r.0.clients && r.0.clients[id].state == h.clients[id].state
    && (h.clients[id].state != HS.Connected ==> For(r.1, id) == [])
  }

  lemma EffectKept(s: System, h': HS.Host, outs: seq<HS.Out>, approver: Option<nat>, id: nat)
    requires id in s.h.clients && id in s.links && HostKept(s.h, (h', outs), id)
    ensures Kept(s, Effect(s, h', outs, approver), id)
  {
    assert s.links[id].toClient + Wired([]) == s.links[id].toClient;
  }

  lemma {:induction false} NothingFor(outs: seq<HS.Out>, id: nat)
    requires forall o <- outs :: o.id != id
    ensures For(outs, id) == []
  {
    if outs != [] {
      assert outs[|outs| - 1] in outs;
      NothingFor(outs[..|outs| - 1], id);
    }
  }

  /** What the host does for connection `i` and for no other. */
  ghost predicate OnlyAbout(h: HS.Host, r: (HS.Host, seq<HS.Out>), i: nat) {
    && h.nextId == r.0.nextId
    && (forall id <- h.clients :: id != i ==> id in r.0.clients && r.0.clients[id] == h.clients[id])
    && (forall o <- r.1 :: o.id == i)
  }

  lemma AboutOthersKept(h: HS.Host, r: (HS.Host, seq<HS.Out>), i: nat, id: nat)
    requires OnlyAbout(h, r, i) && i != id && id in h.clients
    ensures HostKept(h, r, id)
  {
    NothingFor(r.1, id);
  }

  lemma DropAbout(h: HS.Host, i: nat, reject: Option<nat>)
    ensures OnlyAbout(h, HS.Dropped(h, i, reject), i)
  {
  }

  lemma HelloAbout(h: HS.Host, p: HS.Params, i: nat, b: Body)
    requires b.ClientHello?
    ensures OnlyAbout(h, HS.HelloHandled(h, p, i, b), i)
  {
  }

  lemma CapabilitiesAbout(h: HS.Host, p: HS.Params, i: nat, b: Body)
    requires b.ClientCapabilities?
    ensures OnlyAbout(h, HS.CapabilitiesHandled(h, p, i, b), i)
  {
  }

  lemma OtherAbout(h: HS.Host, i: nat, b: Body)
    requires i in h.clients
    ensures OnlyAbout(h, HS.OtherHandled(h, i, b), i)
  {
    DropAbout(h, i, Some(HS.PROTOCOL_ERROR));
  }

  lemma MessageAbout(h: HS.Host, p: HS.Params, i: nat, b: Body, now: nat)
    requires i in h.clients
    ensures OnlyAbout(h, HS.MessageHandled(h, p, i, b, now), i)
  {
    if b.ClientHello? {
      HelloAbout(h, p, i, b);
    } else if b.ClientCapabilities? {
      CapabilitiesAbout(h, p, i, b);
    } else if b.Bye? {
      DropAbout(h, i, None);
    } else if b.Ping? {
      assert HS.MessageHandled(h, p, i, b, now) == (h, [HS.Send(i, Pong(b.epochMs))]);
    } else if !b.Pong? {
      OtherAbout(h, i, b);
    }
  }

  lemma FrameAbout(h: HS.Host, p: HS.Params, i: nat, f: HS.Frame, now: nat)
    ensures OnlyAbout(h, HS.FrameHandled(h, p, i, f, now), i)
  {
    DropAbout(h, i, Some(HS.PROTOCOL_ERROR));
    if f.Decoded? && i in h.clients {
      MessageAbout(Heard(h, i, now), p, i, f.body, now);
    }
  }

  // ---------- housekeeping ----------

  lemma {:induction false} PingsAreDue(clients: map<nat, HS.Record>, n: nat, now: nat, o: HS.Out)
    requires o in HS.Pings(clients, n, now)
    ensures o.id in clients && HS.PingDue(clients[o.id], now)
  {
    if o in HS.Pings(clients, n - 1, now) {
      PingsAreDue(clients, n - 1, now, o);
    }
  }

  lemma {:induction false} DropsConcernDropped(h: HS.Host, ids: seq<nat>)
    ensures forall o <- HS.DroppedAll(h, ids).1 :: o.id in ids
    ensures forall id <- h.clients :: id !in ids ==>
      id in HS.DroppedAll(h, ids).0.clients && HS.DroppedAll(h, ids).0.clients[id] == h.clients[id]
    ensures HS.DroppedAll(h, ids).0.nextId == h.nextId
  {
    if ids != [] {
      DropsConcernDropped(h, ids[..|ids| - 1]);
    }
  }

  lemma HousekeepingKept(h: HS.Host, now: nat, id: nat)
    requires id in h.clients && !HS.TimedOut(h.clients[id], now) && h.clients[id].state != HS.Streaming
    ensures HostKept(h, HS.Housekept(h, now), id)
  {
    var ids := HS.Expired(h.clients, h.nextId, now);
    ExpiredMembers(h.clients, h.nextId, now, id);
    DropsConcernDropped(HS.Pinged(h, now), ids);
    if h.clients[id].state != HS.Connected {
      var outs := HS.Housekept(h, now).1;
      forall o | o in outs ensures o.id != id {
        if o in HS.Pings(h.clients, h.nextId, now) {
          PingsAreDue(h.clients, h.nextId, now, o);
        }
      }
      NothingFor(outs, id);
    }
  }

  lemma HostActKept(h: HS.Host, p: HS.Params, hop: HS.Op, id: nat)
    requires id in h.clients && Local(hop) && HostAside(h, hop, id) && h.clients[id].state != HS.Streaming
    ensures HostKept(h, HS.Step(h, p, hop), id)
  {
    match hop
    case Housekeeping(now) => HousekeepingKept(h, now, id);
    case SetClientInput(i, _) =>
      if i != id {
        AboutOthersKept(h, HS.Step(h, p, hop), i, id);
      }
    case ApproveClient(i, _, _) => AboutOthersKept(h, HS.Step(h, p, hop), i, id);
    case KickClient(i, _) => AboutOthersKept(h, HS.Step(h, p, hop), i, id);
    case ConnectionClosed(i) => AboutOthersKept(h, HS.Step(h, p, hop), i, id);
  }

  // ---------- any step aside ----------

  lemma HostStepAside(s: System, p: HS.Params, op: Op, id: nat)
    requires id in s.h.clients && id in s.links && s.h.clients[id].state != HS.Streaming
    requires (op.HostActs? || op.HostReceives?) && Aside(s, op, id)
    ensures Kept(s, Next(s, p, op), id)
  {
    if op.HostActs? {
      if Local(op.op) {
        HostActKept(s.h, p, op.op, id);
        var (h', outs) := HS.Step(s.h, p, op.op);
        EffectKept(s, h', outs, Approver(s.h, op.op), id);
      }
    } else if op.id in s.links && s.links[op.id].toHost != [] {
      var l := s.links[op.id];
      var t := WithLink(s, op.id, l.(toHost := l.toHost[1..]));
      FrameAbout(t.h, p, op.id, l.toHost[0], op.now);
      var r := HS.FrameHandled(t.h, p, op.id, l.toHost[0], op.now);
      AboutOthersKept(t.h, r, op.id, id);
      EffectKept(t, r.0, r.1, None, id);
    }
  }

  lemma LinkStepAside(s: System, p: HS.Params, op: Op, id: nat)
    requires id in s.h.clients && id in s.links && id < s.h.nextId
    requires !op.HostActs? && !op.HostReceives? && Aside(s, op, id)
    requires op.ClientHeartbeat? ==> s.links[id].client.state in {HS.Connecting, HS.Authenticating}
    ensures Kept(s, Next(s, p, op), id)
  {
    if op.ClientHeartbeat? && op.id == id {
      assert CS.Heartbeat(s.links[id].client, op.now) == (s.links[id].client, []);
      assert s.links[id].toHost + Wired([]) == s.links[id].toHost;
    }
  }

  // ---------- the stages of the handshake ----------

  const LAST := 7

  /** How far the exchange of connection `id` has come; frames may follow the last two once the host's side is connected. */
  ghost predicate AtStage(s: System, id: nat, params: CS.ClientParams, codec: byte, k: nat) {
    && id < s.h.nextId
    && match k
       case 0 => At(s, id, params, HS.Connecting, HS.Connecting, [], [])
       case 1 => At(s, id, params, HS.Connecting, HS.Authenticating, [Wire(CS.HelloOf(params))], [])
       case 2 => At(s, id, params, HS.Authenticating, HS.Authenticating, [], [])
       case 3 => exists caps: Body :: caps.HostCapabilities? && Awaiting(s, id, params, [Wire(HostApproved), Wire(caps)])
       case 4 => exists caps: Body :: caps.HostCapabilities? && Awaiting(s, id, params, [Wire(caps)])
       case 5 => At(s, id, params, HS.Authenticating, HS.Authenticating, [Wire(ClientCapabilities(params.supportedCodecs))], [])
       case 6 => exists result: Body :: result.NegotiationResult? && result.accepted && result.codec == codec && Told(s, id, result)
       case 7 => BothConnected(s, id, codec)
       case _ => false
  }

  ghost predicate Awaiting(s: System, id: nat, params: CS.ClientParams, frames: seq<HS.Frame>) {
    At(s, id, params, HS.Authenticating, HS.Authenticating, [], frames)
  }

  /** The host's side is connected and the client has yet to read the result, in front of whatever follows it. */
  ghost predicate Told(s: System, id: nat, result: Body) {
    && id in s.h.clients && s.h.clients[id].state == HS.Connected
    && id in s.links
    && var l := s.links[id];
      && l.client.running && !l.client.stopping && l.client.connected && l.client.state == HS.Authenticating
      && [Wire(result)] <= l.toClient
  }

  ghost predicate BothConnected(s: System, id: nat, codec: byte) {
    && id in s.h.clients && s.h.clients[id].state == HS.Connected
    && id in s.links && s.links[id].client.state == HS.Connected && s.links[id].client.codec == codec
  }

  /** The step that takes the exchange from stage `k` to the next. */
  predicate IsStep(op: Op, id: nat, k: nat) {
    match k
    case 0 => op.ClientUp? && op.id == id
    case 1 => op.HostReceives? && op.id == id
    case 2 => op.HostActs? && op.op.ApproveClient? && op.op.id == id && op.op.accept
    case 3 => op.ClientReceives? && op.id == id
    case 4 => op.ClientReceives? && op.id == id
    case 5 => op.HostReceives? && op.id == id
    case 6 => op.ClientReceives? && op.id == id
    case _ => false
  }

  lemma AsideKeepsStage(s: System, p: HS.Params, op: Op, id: nat, params: CS.ClientParams, codec: byte, k: nat)
    requires AtStage(s, id, params, codec, k) && k < LAST && Aside(s, op, id)
    ensures AtStage(Next(s, p, op), id, params, codec, k)
  {
    var s' := Next(s, p, op);
    if op.HostActs? || op.HostReceives? {
      HostStepAside(s, p, op, id);
    } else {
      LinkStepAside(s, p, op, id);
    }
    KeptStage(s, s', id, params, codec, k);
  }

  lemma KeptStage(s: System, s': System, id: nat, params: CS.ClientParams, codec: byte, k: nat)
    requires AtStage(s, id, params, codec, k) && k < LAST && Kept(s, s', id)
    ensures AtStage(s', id, params, codec, k)
  {
    match k
    case 3 =>
      var caps: Body :| caps.HostCapabilities? && Awaiting(s, id, params, [Wire(HostApproved), Wire(caps)]);
      assert Awaiting(s', id, params, [Wire(HostApproved), Wire(caps)]);
    case 4 =>
      var caps: Body :| caps.HostCapabilities? && Awaiting(s, id, params, [Wire(caps)]);
      assert Awaiting(s', id, params, [Wire(caps)]);
    case 6 =>
      var result: Body :| result.NegotiationResult? && result.accepted && result.codec == codec && Told(s, id, result);
      assert Told(s', id, result);
    case _ =>
  }

  lemma ResultRead(s: System, p: HS.Params, op: Op, id: nat, result: Body)
    requires op.ClientReceives? && op.id == id && result.NegotiationResult? && result.accepted && result.codec < 256
    requires Told(s, id, result)
    ensures BothConnected(Next(s, p, op), id, result.codec)
  {
    CappedShape(result);
    assert s.links[id].toClient[0] == Wire(result);
  }

  lemma StepAdvances(s: System, p: HS.Params, op: Op, id: nat, params: CS.ClientParams, codec: byte, k: nat)
    requires AtStage(s, id, params, codec, k) && IsStep(op, id, k)
    requires CodeVerified(p, params) && Agreed(p, params) == Some(codec) && (k == 1 ==> |s.h.clients| <= p.maxClients)
    ensures AtStage(Next(s, p, op), id, params, codec, k + 1)
  {
    IdsOnlyGrow(s, p, op);
    var s' := Next(s, p, op);
    match k
    case 0 => AfterUp(s, p, id, params, op.now);
    case 1 => AfterHello(s, p, id, params, op.now);
    case 2 =>
      var caps := AfterApproval(s, p, id, params, op.op.now);
      assert Awaiting(s', id, params, [Wire(HostApproved), Wire(caps)]);
    case 3 =>
      var caps: Body :| caps.HostCapabilities? && Awaiting(s, id, params, [Wire(HostApproved), Wire(caps)]);
      AfterApprovedRead(s, p, id, params, caps, op.now);
      assert Awaiting(s', id, params, [Wire(caps)]);
    case 4 =>
      var caps: Body :| caps.HostCapabilities? && Awaiting(s, id, params, [Wire(caps)]);
      AfterCapabilitiesRead(s, p, id, params, caps, op.now);
    case 5 =>
      var result, perms := AfterNegotiation(s, p, id, params, codec, op.now);
      assert Told(s', id, result);
    case 6 =>
      var result: Body :| result.NegotiationResult? && result.accepted && result.codec == codec && Told(s, id, result);
      ResultRead(s, p, op, id, result);
  }

  lemma IdsOnlyGrow(s: System, p: HS.Params, op: Op)
    ensures s.h.nextId <= Next(s, p, op).h.nextId
  {
    match op
    case HostReceives(id, now) =>
      if id in s.links && s.links[id].toHost != [] {
        FrameAbout(s.h, p, id, s.links[id].toHost[0], now);
      }
    case HostActs(hop) =>
      if hop.Housekeeping? {
        DropsConcernDropped(HS.Pinged(s.h, hop.now), HS.Expired(s.h.clients, s.h.nextId, hop.now));
      }
    case _ =>
  }

  // ---------- any schedule ----------

  /**
   * From stage `k` on, the steps of the exchange occur in order and everything between them is aside; when the hello is
   * read there is room.
   */
  ghost predicate Schedule(s: System, p: HS.Params, ops: seq<Op>, id: nat, k: nat)
    decreases |ops|
  {
    if ops == [] then k == LAST
    else
      && k < LAST
      && id in s.h.clients && id in s.links
      && if IsStep(ops[0], id, k)
         then (k == 1 ==> |s.h.clients| <= p.maxClients) && Schedule(Next(s, p, ops[0]), p, ops[1..], id, k + 1)
         else Aside(s, ops[0], id) && Schedule(Next(s, p, ops[0]), p, ops[1..], id, k)
  }

  /** The first step of a schedule, and the schedule that is left. */
  lemma ScheduleStep(s: System, p: HS.Params, ops: seq<Op>, id: nat, params: CS.ClientParams, codec: byte, k: nat)
      returns (next: nat)
    requires AtStage(s, id, params, codec, k) && Schedule(s, p, ops, id, k) && ops != []
    requires CodeVerified(p, params) && Agreed(p, params) == Some(codec)
    ensures AtStage(Next(s, p, ops[0]), id, params, codec, next) && Schedule(Next(s, p, ops[0]), p, ops[1..], id, next)
  {
    if IsStep(ops[0], id, k) {
      next := k + 1;
      StepAdvances(s, p, ops[0], id, params, codec, k);
    } else {
      next := k;
      AsideKeepsStage(s, p, ops[0], id, params, codec, k);
    }
  }

  lemma {:induction false} ScheduleCompletes(s: System, p: HS.Params, ops: seq<Op>, id: nat, params: CS.ClientParams,
                                             codec: byte, k: nat)
    requires AtStage(s, id, params, codec, k) && Schedule(s, p, ops, id, k)
    requires CodeVerified(p, params) && Agreed(p, params) == Some(codec)
    ensures BothConnected(After(s, p, ops), id, codec)
    decreases |ops|
  {
    if ops != [] {
      var next := ScheduleStep(s, p, ops, id, params, codec, k);
      ScheduleCompletes(Next(s, p, ops[0]), p, ops[1..], id, params, codec, next);
    }
  }

  /**
   * A new connection whose code verifies and that has a codec in common ends connected on both sides, with the first host
   * preference the client lists, on every schedule that makes the exchange's steps and otherwise only steps aside.
   */
  lemma HandshakeCompletesInterleaved(s: System, p: HS.Params, address: seq<byte>, params: CS.ClientParams, now: nat,
                                      codec: byte, ops: seq<Op>)
    requires s.h.nextId !in s.h.clients && CodeVerified(p, params) && Agreed(p, params) == Some(codec)
    requires Schedule(Next(s, p, Open(address, params, now)), p, ops, s.h.nextId, 0)
    ensures BothConnected(After(Next(s, p, Open(address, params, now)), p, ops), s.h.nextId, codec)
  {
    AfterOpen(s, p, address, params, now);
    ScheduleCompletes(Next(s, p, Open(address, params, now)), p, ops, s.h.nextId, params, codec, 0);
  }
}
