/**
 * What each client hears in every step of the host, and what becomes of its record, told by the guards alone: who is turned
 * away is told so, once and last, with the reason (host/HostSession.cpp, lines 134-206, 243-389 and 513-574).
 */
module HostReplies {
  import opened Bytes
  import opened ControlCodec
  import opened SessionCodes
  import opened InputPermissions
  import opened HostSessions
  import opened HostSafety
  import HK = Handshake
  import HI = HandshakeInterleaved

  /** The outputs for one client, in order. */
  function To(outs: seq<Out>, id: nat): (mine: seq<Out>) {
    if outs == [] then []
    else To(outs[..|outs| - 1], id) + if outs[|outs| - 1].id == id then [outs[|outs| - 1]] else []
  }

  predicate Closing(o: Out) {
    o.SendAndClose? || o.CloseNow?
  }

  function Reject(id: nat, reason: nat): (o: Out) {
    SendAndClose(id, HostReject(reason, []))
  }

  /** How long a client may be silent, in milliseconds. */
  predicate Silent(r: Record, now: nat) {
    match r.state
    case Connecting => now > r.lastActivity + 10_000
    case Authenticating => now > r.lastActivity + 75_000
    case Connected | Streaming => now > r.lastActivity + 15_000
    case Disconnected => false
  }

  predicate ProbeDue(r: Record, now: nat) {
    (r.state == Connected || r.state == Streaming) && (r.lastHostPing == 0 || now >= r.lastHostPing + 2_000)
  }

  function Permission(id: nat, input: Permissions): (o: Out) {
    Send(id, InputPermission(input.controller, input.keyboard, input.mouse, input.vibration))
  }

  /** What the client hears in answer to a message, with its record as it was. */
  function Answer(h: Host, p: Params, id: nat, b: Body): (said: seq<Out>)
    requires id in h.clients
  {
    var r := h.clients[id];
    match b
    case ClientHello(_, code, _) =>
      if r.state != Connecting then []
      else if |h.clients| > p.maxClients then [Reject(id, 7)]
      else if !Verified(code, p.sessionCode) then [Reject(id, 1)]
      else []
    case ClientCapabilities(codecs) =>
      if r.state != Authenticating then []
      else if p.preferredCodec !in codecs && 0 !in codecs then
        [Send(id, NegotiationResult(false, 0, 1920, 1080, 60, 8000, [])), Reject(id, 8)]
      else
        [Send(id, NegotiationResult(true, if p.preferredCodec in codecs then p.preferredCodec else 0, p.width % 65536,
                                    p.height % 65536, if p.fps < 255 then p.fps else 255, p.bitrateKbps, [])),
         Permission(id, r.input)]
    case Ping(t) => [Send(id, Pong(t))]
    case Pong(_) => []
    case Bye(_) => [CloseNow(id)]
    case _ => if IdOf(b) >= 0x10 && r.state == Connected then [] else [Reject(id, 3)]
  }

  /** What client `id` hears in a step. */
  function Said(h: Host, p: Params, op: Op, id: nat): (said: seq<Out>)
    requires id in h.clients
  {
    var r := h.clients[id];
    match op
    case NewConnection(_, _) => []
    case Arrived(i, f, _) => if i != id then [] else if f.Decoded? then Answer(h, p, id, f.body) else [Reject(id, 3)]
    case ApproveClient(i, accept, _) =>
      if i != id || r.state != Authenticating then []
      else if !accept then [Reject(id, 2)]
      else
        [Send(id, HostApproved),
         Send(id, HostCapabilities(p.hostName, p.gameName, p.captureMode, p.width % 65536, p.height % 65536,
                                   if p.fps < 255 then p.fps else 255, p.bitrateKbps,
                                   if p.preferredCodec == 0 then [0] else [p.preferredCodec, 0]))]
    case KickClient(i, reason) => if i != id then [] else [SendAndClose(id, Kick(reason))]
    case SetClientInput(i, enableAll) =>
      if i != id then [] else [Permission(id, if enableAll then p.inputDefaults else Permissions(false, false, false, false))]
    case ConnectionClosed(_) => []
    case Housekeeping(now) => Probe(r, id, now) + TimeUp(r, id, now)
  }

  function Probe(r: Record, id: nat, now: nat): (said: seq<Out>) {
    if ProbeDue(r, now) then [Send(id, Ping(now % 0x1_0000_0000))] else []
  }

  function TimeUp(r: Record, id: nat, now: nat): (said: seq<Out>) {
    if Silent(r, now) then [Reject(id, 5)] else []
  }

  // ---------- outputs by client ----------

  lemma {:induction false} ToConcat(a: seq<Out>, b: seq<Out>, id: nat)
    ensures To(a + b, id) == To(a, id) + To(b, id)
  {
    if b == [] {
      assert a + b == a;
    } else {
      var last := |b| - 1;
      assert (a + b)[..|a + b| - 1] == a + b[..last];
      ToConcat(a, b[..last], id);
    }
  }

  lemma ToOne(o: Out, id: nat)
    ensures To([o], id) == if o.id == id then [o] else []
  {
    assert [o][..0] == [];
  }

  lemma ToTwo(a: Out, b: Out, id: nat)
    requires a.id == id && b.id == id
    ensures To([a, b], id) == [a, b]
  {
    assert [a, b] == [a] + [b];
    ToConcat([a], [b], id);
    ToOne(a, id);
    ToOne(b, id);
  }

  lemma {:induction false} ToOthers(outs: seq<Out>, id: nat)
    requires forall o <- outs :: o.id != id
    ensures To(outs, id) == []
  {
    if outs != [] {
      assert outs[|outs| - 1] in outs;
      ToOthers(outs[..|outs| - 1], id);
    }
  }

  // ---------- handlers ----------

  lemma DropSays(h: Host, id: nat, reject: Option<nat>)
    requires id in h.clients
    ensures To(Dropped(h, id, reject).1, id) == [if reject.Some? then Reject(id, reject.value) else CloseNow(id)]
  {
    ToOne(Dropped(h, id, reject).1[0], id);
  }

  lemma HelloSays(h: Host, p: Params, id: nat, b: Body, now: nat)
    requires id in h.clients && b.ClientHello?
    ensures To(HelloHandled(HK.Heard(h, id, now), p, id, b).1, id) == Answer(h, p, id, b)
  {
    var heard := HK.Heard(h, id, now);
    var named := WithRecord(heard, id, heard.clients[id].(name := if b.clientName == [] then PLAYER else b.clientName));
    assert |named.clients| == |h.clients| by {
      assert named.clients.Keys == h.clients.Keys;
      assert |named.clients| == |named.clients.Keys| && |h.clients| == |h.clients.Keys|;
    }
    if h.clients[id].state == Connecting {
      if |h.clients| > p.maxClients {
        DropSays(named, id, Some(SERVER_FULL));
      } else if !Verified(b.sessionCode, p.sessionCode) {
        DropSays(named, id, Some(BAD_SESSION_CODE));
      }
    }
  }

  /** The first common preference of the host's two. */
  lemma TwoPreferences(preferred: byte, codecs: seq<byte>)
    ensures Negotiated([preferred, H264], codecs) ==
      if preferred in codecs then Some(preferred) else if 0 in codecs then Some(0) else None
  {
    assert [preferred, H264][1..] == [H264];
    assert [H264][1..] == [];
    assert Negotiated([H264], codecs) == if 0 in codecs then Some(0) else None;
  }

  lemma NoCodecSays(h: Host, p: Params, id: nat, b: Body, now: nat)
    requires id in h.clients && b.ClientCapabilities? && h.clients[id].state == Authenticating
    requires Negotiated([p.preferredCodec, H264], b.supportedCodecs) == None
    ensures To(CapabilitiesHandled(HK.Heard(h, id, now), p, id, b).1, id) ==
      [Send(id, NegotiationResult(false, 0, 1920, 1080, 60, 8000, [])), Reject(id, 8)]
  {
    var no := Send(id, NegotiationResult(false, 0, 1920, 1080, 60, 8000, []));
    assert CapabilitiesHandled(HK.Heard(h, id, now), p, id, b).1 == [no] + [Reject(id, 8)] == [no, Reject(id, 8)];
    ToTwo(no, Reject(id, 8), id);
  }

  lemma CodecSays(h: Host, p: Params, id: nat, b: Body, now: nat, codec: byte)
    requires id in h.clients && b.ClientCapabilities? && h.clients[id].state == Authenticating
    requires Negotiated([p.preferredCodec, H264], b.supportedCodecs) == Some(codec)
    ensures To(CapabilitiesHandled(HK.Heard(h, id, now), p, id, b).1, id) ==
      [Send(id, NegotiationResult(true, codec, p.width % 65536, p.height % 65536, if p.fps < 255 then p.fps else 255,
                                  p.bitrateKbps, [])),
       Permission(id, h.clients[id].input)]
  {
    var outs := CapabilitiesHandled(HK.Heard(h, id, now), p, id, b).1;
    assert |outs| == 2 && outs == [outs[0], outs[1]];
    ToTwo(outs[0], outs[1], id);
  }

  lemma CapabilitiesSay(h: Host, p: Params, id: nat, b: Body, now: nat)
    requires id in h.clients && b.ClientCapabilities?
    ensures To(CapabilitiesHandled(HK.Heard(h, id, now), p, id, b).1, id) == Answer(h, p, id, b)
  {
    TwoPreferences(p.preferredCodec, b.supportedCodecs);
    if h.clients[id].state == Authenticating {
      match Negotiated([p.preferredCodec, H264], b.supportedCodecs)
      case None => NoCodecSays(h, p, id, b, now);
      case Some(codec) => CodecSays(h, p, id, b, now, codec);
    }
  }

  lemma MessageSays(h: Host, p: Params, id: nat, b: Body, now: nat)
    requires id in h.clients
    ensures To(MessageHandled(HK.Heard(h, id, now), p, id, b, now).1, id) == Answer(h, p, id, b)
  {
    var heard := HK.Heard(h, id, now);
    match b
    case ClientHello(_, _, _) => HelloSays(h, p, id, b, now);
    case ClientCapabilities(_) => CapabilitiesSay(h, p, id, b, now);
    case Ping(t) => ToOne(Send(id, Pong(t)), id);
    case Pong(_) =>
    case Bye(_) => DropSays(heard, id, None);
    case _ => OtherSays(h, p, id, b, now);
  }

  lemma OtherSays(h: Host, p: Params, id: nat, b: Body, now: nat)
    requires id in h.clients
    requires !b.ClientHello? && !b.ClientCapabilities? && !b.Ping? && !b.Pong? && !b.Bye?
    ensures To(OtherHandled(HK.Heard(h, id, now), id, b).1, id) == Answer(h, p, id, b)
  {
    DropSays(HK.Heard(h, id, now), id, Some(PROTOCOL_ERROR));
  }

  lemma FrameSays(h: Host, p: Params, i: nat, f: Frame, now: nat, id: nat)
    requires id in h.clients
    ensures To(FrameHandled(h, p, i, f, now).1, id) == Said(h, p, Arrived(i, f, now), id)
  {
    if i != id {
      HI.FrameAbout(h, p, i, f, now);
      ToOthers(FrameHandled(h, p, i, f, now).1, id);
    } else if f.Decoded? {
      MessageSays(h, p, id, f.body, now);
    } else {
      DropSays(h, id, Some(PROTOCOL_ERROR));
      DropSays(HK.Heard(h, id, now), id, Some(PROTOCOL_ERROR));
    }
  }

  // ---------- the timer ----------

  lemma {:induction false} PingsMembers(clients: Clients, n: nat, now: nat, o: Out)
    ensures o in Pings(clients, n, now) <==>
      o.id < n && o.id in clients && PingDue(clients[o.id], now) && o == Send(o.id, Ping(now % 0x1_0000_0000))
  {
    if n > 0 {
      PingsMembers(clients, n - 1, now, o);
    }
  }

  lemma {:induction false} PingsAscend(clients: Clients, n: nat, now: nat)
    ensures forall i, j :: 0 <= i < j < |Pings(clients, n, now)| ==> Pings(clients, n, now)[i].id < Pings(clients, n, now)[j].id
  {
    if n > 0 {
      PingsAscend(clients, n - 1, now);
      var before := Pings(clients, n - 1, now);
      forall i | 0 <= i < |before| ensures before[i].id < n - 1 {
        PingsMembers(clients, n - 1, now, before[i]);
      }
    }
  }

  /** If a client is addressed once, that is what it hears. */
  lemma {:induction false} ToOnly(outs: seq<Out>, id: nat, i: nat)
    requires i < |outs| && outs[i].id == id && forall k :: 0 <= k < |outs| && k != i ==> outs[k].id != id
    ensures To(outs, id) == [outs[i]]
  {
    var last := |outs| - 1;
    if i == last {
      forall o | o in outs[..last] ensures o.id != id {
        var k :| 0 <= k < last && outs[k] == o;
      }
      ToOthers(outs[..last], id);
    } else {
      ToOnly(outs[..last], id, i);
    }
  }

  lemma PingsSay(clients: Clients, n: nat, now: nat, id: nat)
    requires id in clients && id < n
    ensures To(Pings(clients, n, now), id) == Probe(clients[id], id, now)
  {
    var outs, ping := Pings(clients, n, now), Send(id, Ping(now % 0x1_0000_0000));
    PingsMembers(clients, n, now, ping);
    if PingDue(clients[id], now) {
      var i :| 0 <= i < |outs| && outs[i] == ping;
      PingsAscend(clients, n, now);
      ToOnly(outs, id, i);
    } else {
      forall o | o in outs ensures o.id != id {
        PingsMembers(clients, n, now, o);
      }
      ToOthers(outs, id);
    }
  }

  lemma LastDropSays(h: Host, last: nat, id: nat)
    ensures To(Dropped(h, last, Some(INACTIVITY_TIMEOUT)).1, id) == if last in h.clients && last == id then [Reject(id, 5)] else []
  {
    if last in h.clients {
      ToOne(Dropped(h, last, Some(INACTIVITY_TIMEOUT)).1[0], id);
    }
  }

  lemma {:induction false} DropsSay(h: Host, ids: seq<nat>, id: nat)
    requires id in h.clients
    ensures To(DroppedAll(h, ids).1, id) == if id in ids then [Reject(id, 5)] else []
  {
    if ids != [] {
      var before, last := ids[..|ids| - 1], ids[|ids| - 1];
      DropsSay(h, before, id);
      DroppedAllKeys(h, before, id);
      var r := DroppedAll(h, before);
      ToConcat(r.1, Dropped(r.0, last, Some(INACTIVITY_TIMEOUT)).1, id);
      LastDropSays(r.0, last, id);
      assert id in ids <==> id in before || id == last;
    }
  }

  lemma ExpiredAreSilent(h: Host, p: Params, now: nat, id: nat)
    requires TableInv(h, p) && id in h.clients
    ensures id in Expired(h.clients, h.nextId, now) <==> Silent(h.clients[id], now)
  {
    ExpiredMembers(h.clients, h.nextId, now, id);
  }

  lemma HousekeepingSays(h: Host, p: Params, now: nat, id: nat)
    requires TableInv(h, p) && id in h.clients
    ensures To(Housekept(h, now).1, id) == Said(h, p, Housekeeping(now), id)
  {
    var ids := Expired(h.clients, h.nextId, now);
    var pings, drops := Pings(h.clients, h.nextId, now), DroppedAll(Pinged(h, now), ids).1;
    assert Housekept(h, now).1 == pings + drops;
    assert To(pings + drops, id) == To(pings, id) + To(drops, id) by {
      ToConcat(pings, drops, id);
    }
    assert To(pings, id) == Probe(h.clients[id], id, now) by {
      PingsSay(h.clients, h.nextId, now, id);
    }
    assert To(drops, id) == TimeUp(h.clients[id], id, now) by {
      ExpiredAreSilent(h, p, now, id);
      DropsSay(Pinged(h, now), ids, id);
    }
  }

  // ---------- every step ----------

  lemma ApprovalAbout(h: Host, p: Params, i: nat, accept: bool, now: nat)
    ensures forall o <- Approved(h, p, i, accept, now).1 :: o.id == i
  {
  }

  lemma AcceptSays(h: Host, p: Params, now: nat, id: nat)
    requires id in h.clients && h.clients[id].state == Authenticating
    ensures To(Approved(h, p, id, true, now).1, id) == Said(h, p, ApproveClient(id, true, now), id)
  {
    var said := Said(h, p, ApproveClient(id, true, now), id);
    assert Approved(h, p, id, true, now).1 == [said[0], said[1]];
    ToTwo(said[0], said[1], id);
  }

  lemma ApprovalSays(h: Host, p: Params, i: nat, accept: bool, now: nat, id: nat)
    requires id in h.clients
    ensures To(Approved(h, p, i, accept, now).1, id) == Said(h, p, ApproveClient(i, accept, now), id)
  {
    if i != id {
      ApprovalAbout(h, p, i, accept, now);
      ToOthers(Approved(h, p, i, accept, now).1, id);
    } else if h.clients[id].state == Authenticating {
      if accept {
        AcceptSays(h, p, now, id);
      } else {
        DropSays(h, id, Some(REJECTED_BY_HOST));
      }
    }
  }

  /** In every step every client on record hears exactly this. */
  lemma SaysExactly(h: Host, p: Params, op: Op, id: nat)
    requires TableInv(h, p) && id in h.clients
    ensures To(Step(h, p, op).1, id) == Said(h, p, op, id)
  {
    match op
    case NewConnection(_, _) =>
    case Arrived(i, f, now) => FrameSays(h, p, i, f, now, id);
    case ApproveClient(i, accept, now) => ApprovalSays(h, p, i, accept, now, id);
    case KickClient(i, reason) => KickSays(h, p, i, reason, id);
    case SetClientInput(i, enableAll) => InputSays(h, p, i, enableAll, id);
    case ConnectionClosed(_) =>
    case Housekeeping(now) => HousekeepingSays(h, p, now, id);
  }

  lemma KickSays(h: Host, p: Params, i: nat, reason: seq<byte>, id: nat)
    requires id in h.clients
    ensures To(Kicked(h, i, reason).1, id) == Said(h, p, KickClient(i, reason), id)
  {
    ToOne(SendAndClose(i, Kick(reason)), id);
  }

  lemma InputSays(h: Host, p: Params, i: nat, enableAll: bool, id: nat)
    requires id in h.clients
    ensures To(InputSet(h, p, i, enableAll).1, id) == Said(h, p, SetClientInput(i, enableAll), id)
  {
    if i in h.clients {
      ToOne(InputSet(h, p, i, enableAll).1[0], id);
    }
  }

  /** What is said ends with its only closing, if there is one. */
  ghost predicate ClosesLast(said: seq<Out>) {
    said != [] && Closing(said[|said| - 1]) && forall i :: 0 <= i < |said| - 1 ==> !Closing(said[i])
  }

  ghost predicate NeverCloses(said: seq<Out>) {
    forall o <- said :: !Closing(o)
  }

  lemma MessageKeepsPlaceExactly(h: Host, p: Params, id: nat, b: Body, now: nat)
    requires id in h.clients
    ensures var said := Answer(h, p, id, b);
      if id in MessageHandled(HK.Heard(h, id, now), p, id, b, now).0.clients then NeverCloses(said) else ClosesLast(said)
  {
    if b.ClientHello? {
      var heard := HK.Heard(h, id, now);
      var named := WithRecord(heard, id, heard.clients[id].(name := if b.clientName == [] then PLAYER else b.clientName));
      assert named.clients.Keys == h.clients.Keys;
      assert |named.clients| == |named.clients.Keys| && |h.clients| == |h.clients.Keys|;
    } else if b.ClientCapabilities? {
      TwoPreferences(p.preferredCodec, b.supportedCodecs);
    }
  }

  /**
   * In every step: a client that loses its place other than by closing hears exactly one closing output, as the last thing
   * it hears; one that keeps its place hears none, unless it is kicked, and then that is all it hears.
   */
  lemma LosesPlaceExactly(h: Host, p: Params, op: Op, id: nat)
    requires TableInv(h, p) && id in h.clients && op != ConnectionClosed(id)
    ensures var (h', outs) := Step(h, p, op);
      if id !in h'.clients then ClosesLast(To(outs, id))
      else if op.KickClient? && op.id == id then
        To(outs, id) == [SendAndClose(id, Kick(op.reason))] && h'.clients[id].state == Disconnected
      else NeverCloses(To(outs, id))
  {
    SaysExactly(h, p, op, id);
    PlaceKeptExactly(h, p, op, id);
  }

  lemma FrameKeepsPlaceExactly(h: Host, p: Params, i: nat, f: Frame, now: nat, id: nat)
    requires id in h.clients
    ensures var said := Said(h, p, Arrived(i, f, now), id);
      if id in FrameHandled(h, p, i, f, now).0.clients then NeverCloses(said) else ClosesLast(said)
  {
    if i != id {
      HI.FrameAbout(h, p, i, f, now);
    } else if f.Decoded? {
      MessageKeepsPlaceExactly(h, p, id, f.body, now);
    }
  }

  lemma PlaceKeptExactly(h: Host, p: Params, op: Op, id: nat)
    requires TableInv(h, p) && id in h.clients && op != ConnectionClosed(id)
    ensures var h', said := Step(h, p, op).0, Said(h, p, op, id);
      if id !in h'.clients then ClosesLast(said)
      else if op.KickClient? && op.id == id then
        said == [SendAndClose(id, Kick(op.reason))] && h'.clients[id].state == Disconnected
      else NeverCloses(said)
  {
    match op
    case Arrived(i, f, now) => FrameKeepsPlaceExactly(h, p, i, f, now, id);
    case Housekeeping(now) => HousekeepingDropsExactlyHere(h, p, now, id);
    case _ =>
  }

  lemma HousekeepingDropsExactlyHere(h: Host, p: Params, now: nat, id: nat)
    requires TableInv(h, p) && id in h.clients
    ensures id in Housekept(h, now).0.clients <==> !Silent(h.clients[id], now)
  {
    ExpiredMembers(h.clients, h.nextId, now, id);
    DroppedAllKeys(Pinged(h, now), Expired(h.clients, h.nextId, now), id);
  }

  /** On every run. */
  lemma RunsSayExactly(p: Params, ops: seq<Op>, op: Op, id: nat)
    requires id in Run(p, ops).clients
    ensures To(Step(Run(p, ops), p, op).1, id) == Said(Run(p, ops), p, op, id)
  {
    HostRuns(p, ops);
    SaysExactly(Run(p, ops), p, op, id);
  }

  // ---------- what is announced ----------

  /** What the announcement of a client shows. */
  function Shows(id: nat, r: Record, state: ConnectionState, rtt: nat): (row: Row) {
    Row(id, r.name, state, rtt, r.input.controller || r.input.keyboard || r.input.mouse, r.address)
  }

  /** A closed connection is announced as disconnected, with no round-trip time; a kick with the one it had. */
  lemma DeparturesAnnounced(h: Host, p: Params, op: Op, id: nat)
    requires id in h.clients
    ensures op == ConnectionClosed(id) ==>
      Step(h, p, op).0.events == h.events + [Shows(id, h.clients[id], Disconnected, 0)]
    ensures op.KickClient? && op.id == id ==>
      Step(h, p, op).0.events == h.events + [Shows(id, h.clients[id], Disconnected, h.clients[id].rttMs)]
  {
  }

  /** Those who become connected are announced so. */
  lemma ArrivalsAnnounced(h: Host, p: Params, id: nat, b: Body, now: nat)
    requires id in h.clients && h.clients[id].state == Authenticating && b.ClientCapabilities?
    requires p.preferredCodec in b.supportedCodecs || 0 in b.supportedCodecs
    ensures FrameHandled(h, p, id, Decoded(b), now).0.events ==
      h.events + [Shows(id, h.clients[id], Connected, h.clients[id].rttMs)]
  {
    TwoPreferences(p.preferredCodec, b.supportedCodecs);
  }

  // ---------- what becomes of a record ----------

  predicate IsHello(op: Op, id: nat) {
    op.Arrived? && op.id == id && op.f.Decoded? && op.f.body.ClientHello?
  }

  predicate IsCodecs(op: Op, id: nat) {
    op.Arrived? && op.id == id && op.f.Decoded? && op.f.body.ClientCapabilities?
  }

  function StateLater(r: Record, op: Op, id: nat): (state: ConnectionState) {
    if IsHello(op, id) && r.state == Connecting then Authenticating
    else if IsCodecs(op, id) && r.state == Authenticating then Connected
    else if op.KickClient? && op.id == id then Disconnected
    else r.state
  }

  function NameLater(r: Record, op: Op, id: nat): (name: seq<byte>) {
    if !IsHello(op, id) || r.state != Connecting then r.name
    else if op.f.body.clientName == [] then [80, 108, 97, 121, 101, 114]
    else op.f.body.clientName
  }

  function InputLater(r: Record, p: Params, op: Op, id: nat): (input: Permissions) {
    if IsHello(op, id) && r.state == Connecting then p.inputDefaults
    else if op.SetClientInput? && op.id == id then
      if op.enableAll then p.inputDefaults else Permissions(false, false, false, false)
    else r.input
  }

  function ActivityLater(r: Record, op: Op, id: nat): (ms: nat) {
    if op.Arrived? && op.id == id then op.now
    else if op.ApproveClient? && op.id == id && r.state == Authenticating then op.now
    else r.lastActivity
  }

  /** The first sample as it is, and then one eighth of every new one, in 32 bits. */
  function RttLater(r: Record, op: Op, id: nat): (ms: nat) {
    if op.Arrived? && op.id == id && op.f.Decoded? && op.f.body.Pong? then
      var sample := (op.now - op.f.body.echoEpochMs) % 0x1_0000_0000;
      if r.rttMs == 0 then sample else (r.rttMs * 7 + sample) % 0x1_0000_0000 / 8
    else r.rttMs
  }

  /** The record of a client that keeps its place, after a step. */
  function Later(r: Record, p: Params, op: Op, id: nat): (r': Record) {
    Record(NameLater(r, op, id), StateLater(r, op, id), ActivityLater(r, op, id),
           if op.Housekeeping? && ProbeDue(r, op.now) then op.now else r.lastHostPing,
           InputLater(r, p, op, id), RttLater(r, op, id), r.address)
  }

  lemma MessageLater(h: Host, p: Params, id: nat, b: Body, now: nat)
    requires id in h.clients
    ensures var h' := MessageHandled(HK.Heard(h, id, now), p, id, b, now).0;
      id in h'.clients ==> h'.clients[id] == Later(h.clients[id], p, Arrived(id, Decoded(b), now), id)
  {
  }

  lemma {:induction false} DroppedAllRecords(h: Host, ids: seq<nat>, id: nat)
    requires id in DroppedAll(h, ids).0.clients
    ensures id in h.clients && DroppedAll(h, ids).0.clients[id] == h.clients[id]
  {
    if ids != [] {
      DroppedAllRecords(h, ids[..|ids| - 1], id);
    }
  }

  /**
   * In every step: a record that stays has exactly these fields afterwards, and the only new record is that of a new
   * connection, with nothing known about it.
   */
  lemma RecordsExactly(h: Host, p: Params, op: Op, id: nat)
    requires TableInv(h, p) && id in Step(h, p, op).0.clients
    ensures id !in h.clients ==> op.NewConnection? && id == h.nextId
    ensures Step(h, p, op).0.clients[id] ==
      if id in h.clients then Later(h.clients[id], p, op, id)
      else Record([112, 101, 110, 100, 105, 110, 103], Connecting, op.now, 0, Permissions(true, false, false, true), 0, op.address)
  {
    match op
    case Arrived(i, f, now) =>
      if i in h.clients && i == id && f.Decoded? {
        MessageLater(h, p, id, f.body, now);
      } else {
        HI.FrameAbout(h, p, i, f, now);
        FrameAddsNone(h, p, i, f, now, id);
      }
    case Housekeeping(now) => DroppedAllRecords(Pinged(h, now), Expired(h.clients, h.nextId, now), id);
    case _ =>
  }

  lemma MessageAddsNone(h: Host, p: Params, i: nat, b: Body, now: nat, id: nat)
    requires i in h.clients && id in MessageHandled(h, p, i, b, now).0.clients
    ensures id in h.clients
  {
  }

  lemma FrameAddsNone(h: Host, p: Params, i: nat, f: Frame, now: nat, id: nat)
    requires id in FrameHandled(h, p, i, f, now).0.clients
    ensures id in h.clients && (f.Decoded? || id != i)
  {
    if f.Decoded? && i in h.clients {
      MessageAddsNone(HK.Heard(h, i, now), p, i, f.body, now, id);
    }
  }
}
