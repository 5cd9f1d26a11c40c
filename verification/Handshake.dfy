/**
 * Host and clients over their connections: two FIFO queues per client, which may lose their tails when a
 * connection closes. Approval is not a flag in the host's record; it is carried by the order of messages.
 */
module Handshake {
  import opened Bytes
  import opened ControlCodec
  import opened SessionCodes
  import HS = HostSessions
  import CS = ClientSessions

  /** One connection: its client, the frames under way, and what the host has done for it. */
  datatype Link = Link(
    client: CS.Client, params: CS.ClientParams, toHost: seq<HS.Frame>, toClient: seq<HS.Frame>,
    approved: bool,               // the user accepted while the client was authenticating
    movedTo: Option<nat>)         // the host moved the record to Connected, announcing this codec

  datatype System = System(h: HS.Host, links: map<nat, Link>)

  datatype Op =
    | Open(address: seq<byte>, params: CS.ClientParams, now: nat)
    | ClientUp(id: nat, now: nat)
    | HostReceives(id: nat, now: nat)
    | ClientReceives(id: nat, now: nat)
    | HostActs(op: HS.Op)                    // everything the host does without a message: see Local
    | HostSendsApp(id: nat, kind: nat, payload: seq<byte>)      // any bytes under a type of the application range
    | ClientSendsApp(id: nat, kind: nat, payload: seq<byte>)
    | ClientHeartbeat(id: nat, now: nat)
    | ClientStops(id: nat)
    | ClientLosesConnection(id: nat)
    | LoseTail(id: nat, keepToHost: nat, keepToClient: nat)

  /** The host's own operations: a user decision, a kick, a closed connection, the timer. */
  predicate Local(op: HS.Op) {
    !op.NewConnection? && !op.Arrived?
  }

  /** A message reaches the peer with long strings and lists cut. */
  function Wire(b: Body): (f: HS.Frame) {
    HS.Decoded(Capped(b))
  }

  function Wired(bs: seq<Body>): (fs: seq<HS.Frame>)
    ensures |fs| == |bs|
  {
    seq(|bs|, i requires 0 <= i < |bs| => Wire(bs[i]))
  }

  /** What the peer makes of the bytes of an application message: perhaps not a message at all. */
  function RawFrame(kind: nat, payload: seq<byte>): (f: HS.Frame)
    ensures f.Decoded? ==> IdOf(f.body) == kind
  {
    if !KnownId(kind) then HS.UnknownType
    else
      match Decode(kind, payload)
      case None => HS.Malformed
      case Some(b) => HS.Decoded(b)
  }

  /** The messages for client `id` among a handler's outputs. */
  function For(outs: seq<HS.Out>, id: nat): (bs: seq<Body>) {
    if outs == [] then []
    else
      var last := outs[|outs| - 1];
      For(outs[..|outs| - 1], id) + if !last.CloseNow? && last.id == id then [last.body] else []
  }

  /** The codec of an accepted negotiation that the host announces. */
  function Announced(outs: seq<HS.Out>): (codec: Option<nat>) {
    if outs != [] && outs[0].Send? && outs[0].body.NegotiationResult? && outs[0].body.accepted
    then Some(outs[0].body.codec) else None
  }

  predicate BecameConnected(h: HS.Host, h': HS.Host, id: nat) {
    id in h'.clients && h'.clients[id].state == HS.Connected && (id !in h.clients || h.clients[id].state != HS.Connected)
  }

  /** The client, if any, whose join request the user accepts in this step. */
  function Approver(h: HS.Host, op: HS.Op): (id: Option<nat>) {
    if op.ApproveClient? && op.accept && op.id in h.clients && h.clients[op.id].state == HS.Authenticating
    then Some(op.id) else None
  }

  /** A link after a host step: messages queued, and what the host did noted. */
  function LinkAfter(l: Link, id: nat, h: HS.Host, h': HS.Host, outs: seq<HS.Out>, approver: Option<nat>): (l': Link) {
    l.(toClient := l.toClient + Wired(For(outs, id)),
       approved := l.approved || approver == Some(id),
       movedTo := if BecameConnected(h, h', id) then Announced(outs) else l.movedTo)
  }

  function Effect(s: System, h': HS.Host, outs: seq<HS.Out>, approver: Option<nat>): (s': System) {
    System(h', map id | id in s.links :: LinkAfter(s.links[id], id, s.h, h', outs, approver))
  }

  function HostStepped(s: System, p: HS.Params, op: HS.Op): (s': System) {
    var (h', outs) := HS.Step(s.h, p, op);
    Effect(s, h', outs, Approver(s.h, op))
  }

  function WithLink(s: System, id: nat, l: Link): (s': System) {
    s.(links := s.links[id := l])
  }

  function ClientStepped(l: Link, r: (CS.Client, seq<Body>)): (l': Link) {
    l.(client := r.0, toHost := l.toHost + Wired(r.1))
  }

  function Next(s: System, p: HS.Params, op: Op): (s': System) {
    match op
    case Open(address, params, now) =>
      System(HS.Accepted(s.h, address, now),
             s.links[s.h.nextId := Link(CS.Started(), params, [], [], false, None)])
    case HostReceives(id, now) =>
      if id !in s.links || s.links[id].toHost == [] then s
      else
        var l := s.links[id];
        HostStepped(WithLink(s, id, l.(toHost := l.toHost[1..])), p, HS.Arrived(id, l.toHost[0], now))
    case HostActs(hop) => if Local(hop) then HostStepped(s, p, hop) else s
    case ClientUp(id, now) =>
      if id !in s.links then s
      else WithLink(s, id, ClientStepped(s.links[id], CS.ConnectionUp(s.links[id].client, s.links[id].params, now)))
    case ClientReceives(id, now) =>
      if id !in s.links || s.links[id].toClient == [] then s
      else
        var l := s.links[id];
        WithLink(s, id, ClientStepped(l.(toClient := l.toClient[1..]),
                                      CS.FrameHandled(l.client, l.params, l.toClient[0], now)))
    case HostSendsApp(id, kind, payload) =>
      if id !in s.links || kind < 0x10 then s
      else WithLink(s, id, s.links[id].(toClient := s.links[id].toClient + [RawFrame(kind, payload)]))
    case ClientSendsApp(id, kind, payload) =>
      if id !in s.links || kind < 0x10 || !s.links[id].client.connected then s
      else WithLink(s, id, s.links[id].(toHost := s.links[id].toHost + [RawFrame(kind, payload)]))
    case ClientHeartbeat(id, now) =>
      if id !in s.links then s else WithLink(s, id, ClientStepped(s.links[id], CS.Heartbeat(s.links[id].client, now)))
    case ClientStops(id) =>
      if id !in s.links then s else WithLink(s, id, ClientStepped(s.links[id], CS.Stopped(s.links[id].client)))
    case ClientLosesConnection(id) =>
      if id !in s.links then s
      else WithLink(s, id, s.links[id].(client := CS.ConnectionLost(s.links[id].client)))
    case LoseTail(id, n, m) =>
      if id !in s.links then s
      else
        var l := s.links[id];
        WithLink(s, id, l.(toHost := l.toHost[..Min(n, |l.toHost|)], toClient := l.toClient[..Min(m, |l.toClient|)]))
  }

  function Run(p: HS.Params, ops: seq<Op>): (s: System) {
    if ops == [] then System(HS.Start(), map[]) else Next(Run(p, ops[..|ops| - 1]), p, ops[|ops| - 1])
  }

  // ---------- what every state keeps ----------

  /** The code the client presents passes the host's check. */
  predicate CodeVerified(p: HS.Params, cp: CS.ClientParams) {
    Verified(Capped(CS.HelloOf(cp)).sessionCode, p.sessionCode)
  }

  /** The first host preference among the codecs the client lists. */
  function Agreed(p: HS.Params, cp: CS.ClientParams): (codec: Option<byte>) {
    Negotiated([p.preferredCodec, HS.H264], Capped(ClientCapabilities(cp.supportedCodecs)).supportedCodecs)
  }

  /** What a frame on its way to the host promises. */
  ghost predicate HostMayGet(l: Link, f: HS.Frame) {
    f.Decoded? ==>
      && (f.body.ClientHello? ==> f == Wire(CS.HelloOf(l.params)))
      && (f.body.ClientCapabilities? ==> l.approved && f == Wire(ClientCapabilities(l.params.supportedCodecs)))
  }

  /** What a frame on its way to the client promises. */
  ghost predicate ClientMayGet(l: Link, f: HS.Frame) {
    f.Decoded? ==>
      && (f.body.HostCapabilities? ==> l.approved)
      && (f.body.NegotiationResult? && f.body.accepted ==> l.movedTo == Some(f.body.codec))
  }

  ghost predicate ToHostInv(l: Link) {
    forall f <- l.toHost :: HostMayGet(l, f)
  }

  ghost predicate ToClientInv(l: Link) {
    forall f <- l.toClient :: ClientMayGet(l, f)
  }

  /** What the host did for the link was earned. */
  ghost predicate LogInv(l: Link, p: HS.Params) {
    && (l.approved ==> CodeVerified(p, l.params))
    && (l.movedTo.Some? ==> l.approved && Agreed(p, l.params) == l.movedTo)
    && (l.client.state == HS.Connected ==> l.movedTo == Some(l.client.codec))
  }

  ghost predicate RecordInv(r: HS.Record, l: Link, p: HS.Params) {
    && (r.state == HS.Authenticating ==> CodeVerified(p, l.params))
    && (r.state == HS.Connected ==> l.movedTo.Some?)
  }

  ghost predicate LinkInv(l: Link, p: HS.Params) {
    ToHostInv(l) && ToClientInv(l) && LogInv(l, p)
  }

  ghost predicate Inv(s: System, p: HS.Params) {
    && (forall id <- s.h.clients :: id in s.links && RecordInv(s.h.clients[id], s.links[id], p))
    && (forall id <- s.links :: id < s.h.nextId && LinkInv(s.links[id], p))
  }

  // ---------- the wire keeps what matters ----------

  lemma CappedShape(b: Body)
    ensures b.ClientHello? <==> Capped(b).ClientHello?
    ensures b.ClientCapabilities? <==> Capped(b).ClientCapabilities?
    ensures b.HostCapabilities? <==> Capped(b).HostCapabilities?
    ensures b.NegotiationResult? <==> Capped(b).NegotiationResult?
    ensures b.NegotiationResult? ==> Capped(b).accepted == b.accepted && Capped(b).codec == b.codec
  {
    assert IdOf(Capped(b)) == IdOf(b);
    if b.NegotiationResult? {
      assert Fields(Capped(b))[0] == Cap(Flag, Fields(b)[0]) && Fields(Capped(b))[1] == Cap(U8, Fields(b)[1]);
    }
  }

  // ---------- client steps ----------

  /** A message the client may send: its own hello, and its codecs once approved. */
  ghost predicate Proper(l: Link, b: Body) {
    && (b.ClientHello? ==> b == CS.HelloOf(l.params))
    && (b.ClientCapabilities? ==> l.approved && b == ClientCapabilities(l.params.supportedCodecs))
  }

  /** A client changes its link: nothing that the host relies on is weakened. */
  lemma ClientStepKeeps(l: Link, p: HS.Params, r: (CS.Client, seq<Body>))
    requires LinkInv(l, p)
    requires forall b <- r.1 :: Proper(l, b)
    requires r.0.state == HS.Connected ==> l.movedTo == Some(r.0.codec)
    ensures LinkInv(ClientStepped(l, r), p)
  {
    var l' := ClientStepped(l, r);
    forall f | f in l'.toHost ensures HostMayGet(l', f) {
      if f in l.toHost {
        assert HostMayGet(l, f);
      } else {
        var i :| 0 <= i < |r.1| && f == Wire(r.1[i]);
        CappedShape(r.1[i]);
        assert r.1[i] in r.1;
      }
    }
    assert forall f <- l'.toClient :: ClientMayGet(l, f) && ClientMayGet(l', f);
  }

  /** Frames that have left make no difference to what the others promise. */
  lemma FewerFramesKeep(l: Link, l': Link, p: HS.Params)
    requires LinkInv(l, p) && l' == l.(toHost := l'.toHost, toClient := l'.toClient)
    requires (forall f <- l'.toHost :: f in l.toHost) && (forall f <- l'.toClient :: f in l.toClient)
    ensures LinkInv(l', p)
  {
    forall f | f in l'.toHost ensures HostMayGet(l', f) {
      assert HostMayGet(l, f);
    }
    forall f | f in l'.toClient ensures ClientMayGet(l', f) {
      assert ClientMayGet(l, f);
    }
  }

  lemma ClientReceiveKeeps(l: Link, p: HS.Params, now: nat)
    requires LinkInv(l, p) && l.toClient != []
    ensures LinkInv(ClientStepped(l.(toClient := l.toClient[1..]),
                                  CS.FrameHandled(l.client, l.params, l.toClient[0], now)), p)
  {
    var l1 := l.(toClient := l.toClient[1..]);
    assert ClientMayGet(l, l.toClient[0]) by {
      assert l.toClient[0] in l.toClient;
    }
    FewerFramesKeep(l, l1, p);
    ClientStepKeeps(l1, p, CS.FrameHandled(l.client, l.params, l.toClient[0], now));
  }

  /** A key-ready message is read exactly when it carries nothing. */
  lemma KeyReadyExactly(payload: seq<byte>)
    ensures RawFrame(0x14, payload) == if payload == [] then HS.Decoded(SessionKeyReady) else HS.Malformed
  {
  }

  lemma DefaultBodyIsMalformed()
    ensures RawFrame(0x14, Encode(ClientHello([], [], []))) == HS.Malformed
  {
    var payload := Encode(ClientHello([], [], []));
    assert |Put(Text, Str([]))| == 2 && Fields(ClientHello([], [], []))[0] == Str([]);
    assert payload != [];
    KeyReadyExactly(payload);
  }

  /**
   * The host coordinator answers a key exchange with an envelope whose body was left at its default, an empty hello, under
   * the key-ready type: a client that reads it gives the session up.
   */
  lemma DefaultBodyEndsSession(s: System, p: HS.Params, id: nat, now: nat)
    requires id in s.links && s.links[id].toClient == []
    requires s.links[id].client.running && !s.links[id].client.stopping && s.links[id].client.connected
    ensures var sent := Next(s, p, HostSendsApp(id, 0x14, Encode(ClientHello([], [], []))));
      Next(sent, p, ClientReceives(id, now)).links[id].client.state == HS.Disconnected
  {
    DefaultBodyIsMalformed();
  }

  lemma ForOne(o: HS.Out, id: nat)
    requires !o.CloseNow? && o.id == id
    ensures For([o], id) == [o.body] && Wired([o.body]) == [Wire(o.body)]
  {
    assert [o][..0] == [];
  }

  lemma MalformedDrops(h: HS.Host, p: HS.Params, id: nat, now: nat)
    requires id in h.clients
    ensures var (h', outs) := HS.FrameHandled(h, p, id, HS.Malformed, now);
      id !in h'.clients && outs == [HS.SendAndClose(id, HostReject(HS.PROTOCOL_ERROR, []))]
  {
  }

  /** A client coordinator does the same, and the host drops the client for it. */
  lemma DefaultBodyDropsClient(s: System, p: HS.Params, id: nat, now: nat)
    requires id in s.links && s.links[id].toHost == [] && s.links[id].client.connected && id in s.h.clients
    ensures var sent := Next(s, p, ClientSendsApp(id, 0x14, Encode(ClientHello([], [], []))));
      var s' := Next(sent, p, HostReceives(id, now));
      id !in s'.h.clients && s'.links[id].toClient == s.links[id].toClient + [Wire(HostReject(HS.PROTOCOL_ERROR, []))]
  {
    DefaultBodyIsMalformed();
    var sent := Next(s, p, ClientSendsApp(id, 0x14, Encode(ClientHello([], [], []))));
    assert sent.links[id].toHost == [HS.Malformed];
    MalformedDrops(sent.h, p, id, now);
    ForOne(HS.SendAndClose(id, HostReject(HS.PROTOCOL_ERROR, [])), id);
  }

  // ---------- host steps ----------

  /** The host does nothing for `l` that must be earned: the record stays, leaves, or is disconnected. */
  ghost predicate QuietRecord(h: HS.Host, h': HS.Host, id: nat) {
    id in h'.clients ==>
      id in h.clients && (h'.clients[id].state == h.clients[id].state || h'.clients[id].state == HS.Disconnected)
  }

  ghost predicate Harmless(o: HS.Out) {
    o.CloseNow? || (!o.body.HostCapabilities? && !(o.body.NegotiationResult? && o.body.accepted))
  }

  lemma {:induction false} ForMembers(outs: seq<HS.Out>, id: nat, b: Body)
    requires b in For(outs, id)
    ensures exists o :: o in outs && !o.CloseNow? && o.id == id && o.body == b
  {
    var last := outs[|outs| - 1];
    if !last.CloseNow? && last.id == id && last.body == b {
      assert last in outs;
    } else {
      ForMembers(outs[..|outs| - 1], id, b);
    }
  }

  /** Messages for the client that need nothing. */
  lemma HarmlessDelivery(l: Link, p: HS.Params, outs: seq<HS.Out>, id: nat)
    requires LinkInv(l, p) && forall o <- outs :: Harmless(o)
    ensures LinkInv(l.(toClient := l.toClient + Wired(For(outs, id))), p)
  {
    var bs := For(outs, id);
    var l' := l.(toClient := l.toClient + Wired(bs));
    forall f | f in l'.toClient ensures ClientMayGet(l', f) {
      if f in l.toClient {
        assert ClientMayGet(l, f);
      } else {
        var i :| 0 <= i < |bs| && f == Wire(bs[i]);
        CappedShape(bs[i]);
        ForMembers(outs, id, bs[i]);
      }
    }
    assert forall f <- l'.toHost :: HostMayGet(l, f) && HostMayGet(l', f);
  }

  lemma QuietEffectKeeps(s: System, p: HS.Params, h': HS.Host, outs: seq<HS.Out>)
    requires Inv(s, p) && h'.nextId == s.h.nextId
    requires (forall id :: QuietRecord(s.h, h', id)) && (forall o <- outs :: Harmless(o))
    ensures Inv(Effect(s, h', outs, None), p)
  {
    var s' := Effect(s, h', outs, None);
    forall id | id in s'.links ensures LinkInv(s'.links[id], p) && id < h'.nextId {
      assert QuietRecord(s.h, h', id);
      HarmlessDelivery(s.links[id], p, outs, id);
    }
    forall id | id in h'.clients ensures id in s'.links && RecordInv(h'.clients[id], s'.links[id], p) {
      assert QuietRecord(s.h, h', id);
    }
  }

  /** Only the link of client `me` is concerned: the others hear nothing and their records stay. */
  ghost predicate OnlyFor(s: System, h': HS.Host, outs: seq<HS.Out>, me: nat) {
    && h'.nextId == s.h.nextId
    && (forall id :: id != me ==> (id in h'.clients <==> id in s.h.clients))
    && (forall id <- h'.clients :: id != me ==> h'.clients[id] == s.h.clients[id])
    && (forall o <- outs :: o.id == me)
  }

  lemma {:induction false} NothingForOthers(outs: seq<HS.Out>, me: nat, id: nat)
    requires id != me && forall o <- outs :: o.id == me
    ensures For(outs, id) == []
  {
    if outs != [] {
      assert outs[|outs| - 1] in outs;
      NothingForOthers(outs[..|outs| - 1], me, id);
    }
  }

  lemma FocusedEffectKeeps(s: System, p: HS.Params, h': HS.Host, outs: seq<HS.Out>, approver: Option<nat>, me: nat)
    requires Inv(s, p) && me in s.links && OnlyFor(s, h', outs, me) && (approver == None || approver == Some(me))
    requires var l := LinkAfter(s.links[me], me, s.h, h', outs, approver);
      LinkInv(l, p) && (me in h'.clients ==> RecordInv(h'.clients[me], l, p))
    ensures Inv(Effect(s, h', outs, approver), p)
  {
    var s' := Effect(s, h', outs, approver);
    forall id | id in s'.links && id != me ensures s'.links[id] == s.links[id] {
      NothingForOthers(outs, me, id);
      assert s.links[id].toClient + Wired([]) == s.links[id].toClient;
    }
  }

  // ---------- each host step ----------

  lemma DropIsQuiet(h: HS.Host, id: nat, reject: Option<nat>)
    ensures var (h', outs) := HS.Dropped(h, id, reject);
      h'.nextId == h.nextId && (forall i :: QuietRecord(h, h', i)) && (forall o <- outs :: Harmless(o))
  {
  }

  /** `Quiet` for a whole result. */
  ghost predicate Quiet(h: HS.Host, r: (HS.Host, seq<HS.Out>)) {
    r.0.nextId == h.nextId && (forall i :: QuietRecord(h, r.0, i)) && (forall o <- r.1 :: Harmless(o))
  }

  lemma QuietThen(h: HS.Host, r: (HS.Host, seq<HS.Out>), r2: (HS.Host, seq<HS.Out>))
    requires Quiet(h, r) && Quiet(r.0, r2)
    ensures Quiet(h, (r2.0, r.1 + r2.1))
  {
    forall i ensures QuietRecord(h, r2.0, i) {
      assert QuietRecord(h, r.0, i) && QuietRecord(r.0, r2.0, i);
    }
  }

  lemma {:induction false} DropAllIsQuiet(h: HS.Host, ids: seq<nat>)
    ensures Quiet(h, HS.DroppedAll(h, ids))
  {
    if ids != [] {
      var r := HS.DroppedAll(h, ids[..|ids| - 1]);
      DropAllIsQuiet(h, ids[..|ids| - 1]);
      DropIsQuiet(r.0, ids[|ids| - 1], Some(HS.INACTIVITY_TIMEOUT));
      QuietThen(h, r, HS.Dropped(r.0, ids[|ids| - 1], Some(HS.INACTIVITY_TIMEOUT)));
    }
  }

  lemma {:induction false} PingsAreHarmless(clients: map<nat, HS.Record>, n: nat, now: nat)
    ensures forall o <- HS.Pings(clients, n, now) :: Harmless(o)
  {
    if n > 0 {
      PingsAreHarmless(clients, n - 1, now);
    }
  }

  lemma HousekeepingIsQuiet(h: HS.Host, now: nat)
    ensures Quiet(h, HS.Housekept(h, now))
  {
    var pinged := HS.Pinged(h, now);
    PingsAreHarmless(h.clients, h.nextId, now);
    var ids := HS.Expired(h.clients, h.nextId, now);
    DropAllIsQuiet(pinged, ids);
    assert Quiet(h, (pinged, HS.Pings(h.clients, h.nextId, now)));
    QuietThen(h, (pinged, HS.Pings(h.clients, h.nextId, now)), HS.DroppedAll(pinged, ids));
  }

  /** Everything the host does on its own, except accepting a join request, is quiet. */
  lemma LocalIsQuiet(h: HS.Host, p: HS.Params, op: HS.Op)
    requires Local(op) && Approver(h, op) == None
    ensures Quiet(h, HS.Step(h, p, op))
  {
    match op
    case ApproveClient(id, accept, now) => DropIsQuiet(h, id, Some(HS.REJECTED_BY_HOST));
    case KickClient(id, reason) =>
    case SetClientInput(id, enableAll) =>
    case ConnectionClosed(id) =>
    case Housekeeping(now) => HousekeepingIsQuiet(h, now);
  }

  /** The record after its activity was noted. */
  function Heard(h: HS.Host, id: nat, now: nat): (h': HS.Host)
    requires id in h.clients
  {
    HS.WithRecord(h, id, h.clients[id].(lastActivity := now))
  }

  /** The message moves the client on: a good hello, or codecs with one in common. */
  predicate Advances(h: HS.Host, p: HS.Params, id: nat, b: Body) {
    id in h.clients &&
    ((b.ClientHello? && h.clients[id].state == HS.Connecting) || (b.ClientCapabilities? && h.clients[id].state == HS.Authenticating))
  }

  lemma OtherMessagesAreQuiet(h: HS.Host, p: HS.Params, id: nat, b: Body, now: nat)
    requires id in h.clients && !Advances(h, p, id, b)
    ensures Quiet(h, HS.MessageHandled(h, p, id, b, now))
  {
    DropIsQuiet(h, id, None);
    DropIsQuiet(h, id, Some(HS.PROTOCOL_ERROR));
  }

  lemma FrameIsQuiet(h: HS.Host, p: HS.Params, id: nat, b: Body, now: nat)
    requires !Advances(h, p, id, b)
    ensures Quiet(h, HS.FrameHandled(h, p, id, HS.Decoded(b), now))
  {
    if id in h.clients {
      var heard := Heard(h, id, now);
      OtherMessagesAreQuiet(heard, p, id, b, now);
      assert Quiet(h, (heard, []));
      var r := HS.MessageHandled(heard, p, id, b, now);
      QuietThen(h, (heard, []), r);
      assert [] + r.1 == r.1;
    }
  }

  lemma ForTwo(a: HS.Out, b: HS.Out, id: nat)
    requires !a.CloseNow? && !b.CloseNow? && a.id == id && b.id == id
    ensures For([a, b], id) == [a.body, b.body]
  {
    assert [a, b][..1] == [a] && [a][..0] == [];
    assert For([a], id) == For([], id) + [a.body];
  }

  /** Two messages for the client are queued in order. */
  lemma TwoMessages(l: Link, id: nat, h: HS.Host, h': HS.Host, outs: seq<HS.Out>, approver: Option<nat>)
    requires |outs| == 2 && outs[0].Send? && outs[1].Send? && outs[0].id == outs[1].id == id
    ensures LinkAfter(l, id, h, h', outs, approver).toClient == l.toClient + [Wire(outs[0].body), Wire(outs[1].body)]
  {
    assert outs == [outs[0], outs[1]];
    ForTwo(outs[0], outs[1], id);
  }

  lemma NoMessages(l: Link, id: nat, h: HS.Host, h': HS.Host, approver: Option<nat>)
    ensures LinkAfter(l, id, h, h', [], approver).toClient == l.toClient
  {
    assert l.toClient + Wired([]) == l.toClient;
  }

  lemma ApprovedLink(l: Link, p: HS.Params, caps: Body)
    requires LinkInv(l, p) && CodeVerified(p, l.params) && caps.HostCapabilities?
    ensures LinkInv(l.(approved := true, toClient := l.toClient + [Wire(HostApproved), Wire(caps)]), p)
  {
    CappedShape(HostApproved);
    CappedShape(caps);
    var l' := l.(approved := true, toClient := l.toClient + [Wire(HostApproved), Wire(caps)]);
    assert forall f <- l.toClient :: ClientMayGet(l, f) && ClientMayGet(l', f);
    assert forall f <- l.toHost :: HostMayGet(l, f) && HostMayGet(l', f);
  }

  lemma ApprovalFacts(s: System, p: HS.Params, id: nat, now: nat)
    requires id in s.h.clients && s.h.clients[id].state == HS.Authenticating
    ensures var (h', outs) := HS.Approved(s.h, p, id, true, now);
      && OnlyFor(s, h', outs, id)
      && |outs| == 2 && outs[0] == HS.Send(id, HostApproved) && outs[1].Send? && outs[1].id == id
      && outs[1].body.HostCapabilities?
      && id in h'.clients && h'.clients[id].state == HS.Authenticating
  {
  }

  /** The user accepts: two messages for that client, the second one the capabilities. */
  lemma ApprovalKeeps(s: System, p: HS.Params, id: nat, now: nat)
    requires Inv(s, p) && id in s.h.clients && s.h.clients[id].state == HS.Authenticating
    ensures var (h', outs) := HS.Approved(s.h, p, id, true, now); Inv(Effect(s, h', outs, Some(id)), p)
  {
    var (h', outs) := HS.Approved(s.h, p, id, true, now);
    ApprovalFacts(s, p, id, now);
    var l := s.links[id];
    ApprovedLink(l, p, outs[1].body);
    TwoMessages(l, id, s.h, h', outs, Some(id));
    assert LinkAfter(l, id, s.h, h', outs, Some(id))
        == l.(approved := true, toClient := l.toClient + [Wire(HostApproved), Wire(outs[1].body)]);
    FocusedEffectKeeps(s, p, h', outs, Some(id), id);
  }

  lemma DropAfterTouchIsQuiet(h: HS.Host, touched: HS.Host, id: nat, reason: nat, outs: seq<HS.Out>)
    requires Quiet(h, (touched, outs))
    ensures var r := HS.Dropped(touched, id, Some(reason)); Quiet(h, (r.0, outs + r.1))
  {
    DropIsQuiet(touched, id, Some(reason));
    QuietThen(h, (touched, outs), HS.Dropped(touched, id, Some(reason)));
  }

  /** What a hello on a fresh record does: the client is dropped, or its code verified and it now waits for approval. */
  lemma HelloFacts(h: HS.Host, p: HS.Params, id: nat, b: Body, now: nat)
    requires id in h.clients && h.clients[id].state == HS.Connecting && b.ClientHello?
    ensures var r := HS.HelloHandled(Heard(h, id, now), p, id, b);
      || Quiet(h, r)
      || (&& r.1 == [] && r.0.nextId == h.nextId && Verified(b.sessionCode, p.sessionCode)
          && id in r.0.clients && r.0.clients[id].state == HS.Authenticating
          && r.0.clients.Keys == h.clients.Keys
          && forall i <- h.clients :: i != id ==> r.0.clients[i] == h.clients[i])
  {
    var heard := Heard(h, id, now);
    var named := HS.WithRecord(heard, id, heard.clients[id].(name := if b.clientName == [] then HS.PLAYER else b.clientName));
    assert Quiet(h, (named, []));
    if |named.clients| > p.maxClients {
      DropAfterTouchIsQuiet(h, named, id, HS.SERVER_FULL, []);
      assert [] + HS.Dropped(named, id, Some(HS.SERVER_FULL)).1 == HS.Dropped(named, id, Some(HS.SERVER_FULL)).1;
    } else if !Verified(b.sessionCode, p.sessionCode) {
      DropAfterTouchIsQuiet(h, named, id, HS.BAD_SESSION_CODE, []);
      assert [] + HS.Dropped(named, id, Some(HS.BAD_SESSION_CODE)).1 == HS.Dropped(named, id, Some(HS.BAD_SESSION_CODE)).1;
    }
  }

  lemma NoCodecIsQuiet(h: HS.Host, p: HS.Params, id: nat, b: Body, now: nat)
    requires id in h.clients && h.clients[id].state == HS.Authenticating && b.ClientCapabilities?
    requires Negotiated([p.preferredCodec, HS.H264], b.supportedCodecs) == None
    ensures Quiet(h, HS.CapabilitiesHandled(Heard(h, id, now), p, id, b))
  {
    var no := HS.Send(id, NegotiationResult(false, 0, 1920, 1080, 60, 8000, []));
    assert Quiet(h, (Heard(h, id, now), [no]));
    DropAfterTouchIsQuiet(h, Heard(h, id, now), id, HS.NO_COMMON_CODEC, [no]);
  }

  /** The record moves to Authenticating: the code must have verified. */
  lemma PromotionKeeps(s: System, p: HS.Params, id: nat, h': HS.Host)
    requires Inv(s, p) && id in s.h.clients && OnlyFor(s, h', [], id) && CodeVerified(p, s.links[id].params)
    requires id in h'.clients && h'.clients[id].state == HS.Authenticating
    ensures Inv(Effect(s, h', [], None), p)
  {
    var l := s.links[id];
    NoMessages(l, id, s.h, h', None);
    assert LinkAfter(l, id, s.h, h', [], None) == l;
    FocusedEffectKeeps(s, p, h', [], None, id);
  }

  /** A hello on a fresh record: accepted only if the code verifies. */
  lemma HelloKeeps(s: System, p: HS.Params, id: nat, b: Body, now: nat)
    requires Inv(s, p) && id in s.h.clients && s.h.clients[id].state == HS.Connecting
    requires b.ClientHello? && b == Capped(CS.HelloOf(s.links[id].params))
    ensures var (h', outs) := HS.HelloHandled(Heard(s.h, id, now), p, id, b); Inv(Effect(s, h', outs, None), p)
  {
    var r := HS.HelloHandled(Heard(s.h, id, now), p, id, b);
    HelloFacts(s.h, p, id, b, now);
    if Quiet(s.h, r) {
      QuietEffectKeeps(s, p, r.0, r.1);
    } else {
      PromotionKeeps(s, p, id, r.0);
    }
  }

  lemma ConnectedLink(l: Link, p: HS.Params, result: Body, perms: Body)
    requires LinkInv(l, p) && l.approved && perms.InputPermission?
    requires result.NegotiationResult? && result.accepted && Agreed(p, l.params) == Some(result.codec)
    ensures LinkInv(l.(movedTo := Some(result.codec), toClient := l.toClient + [Wire(result), Wire(perms)]), p)
  {
    CappedShape(result);
    CappedShape(perms);
    var l' := l.(movedTo := Some(result.codec), toClient := l.toClient + [Wire(result), Wire(perms)]);
    assert forall f <- l.toClient :: ClientMayGet(l, f) && ClientMayGet(l', f);
    assert forall f <- l.toHost :: HostMayGet(l, f) && HostMayGet(l', f);
  }

  lemma ConnectionFacts(s: System, p: HS.Params, id: nat, b: Body, now: nat, codec: byte)
    requires id in s.h.clients && s.h.clients[id].state == HS.Authenticating && b.ClientCapabilities?
    requires Negotiated([p.preferredCodec, HS.H264], b.supportedCodecs) == Some(codec)
    ensures var (h', outs) := HS.CapabilitiesHandled(Heard(s.h, id, now), p, id, b);
      && OnlyFor(s, h', outs, id)
      && |outs| == 2 && outs[0].Send? && outs[1].Send? && outs[0].id == outs[1].id == id
      && outs[0].body.NegotiationResult? && outs[0].body.accepted && outs[0].body.codec == codec
      && outs[1].body.InputPermission?
      && id in h'.clients && h'.clients[id].state == HS.Connected
  {
  }

  lemma ConnectionKeeps(s: System, p: HS.Params, id: nat, b: Body, now: nat, codec: byte)
    requires Inv(s, p) && id in s.h.clients && s.h.clients[id].state == HS.Authenticating && b.ClientCapabilities?
    requires Negotiated([p.preferredCodec, HS.H264], b.supportedCodecs) == Some(codec)
    requires s.links[id].approved && Agreed(p, s.links[id].params) == Some(codec)
    ensures var (h', outs) := HS.CapabilitiesHandled(Heard(s.h, id, now), p, id, b); Inv(Effect(s, h', outs, None), p)
  {
    var (h', outs) := HS.CapabilitiesHandled(Heard(s.h, id, now), p, id, b);
    ConnectionFacts(s, p, id, b, now, codec);
    var l := s.links[id];
    ConnectedLink(l, p, outs[0].body, outs[1].body);
    TwoMessages(l, id, s.h, h', outs, None);
    assert LinkAfter(l, id, s.h, h', outs, None)
        == l.(movedTo := Some(codec), toClient := l.toClient + [Wire(outs[0].body), Wire(outs[1].body)]);
    FocusedEffectKeeps(s, p, h', outs, None, id);
  }

  /** The codecs arrive: the record is moved to Connected together with the announcement of the first common codec. */
  lemma CapabilitiesKeep(s: System, p: HS.Params, id: nat, b: Body, now: nat)
    requires Inv(s, p) && id in s.h.clients && s.h.clients[id].state == HS.Authenticating
    requires b.ClientCapabilities? && s.links[id].approved && b == Capped(ClientCapabilities(s.links[id].params.supportedCodecs))
    ensures var (h', outs) := HS.CapabilitiesHandled(Heard(s.h, id, now), p, id, b); Inv(Effect(s, h', outs, None), p)
  {
    match Negotiated([p.preferredCodec, HS.H264], b.supportedCodecs)
    case None =>
      NoCodecIsQuiet(s.h, p, id, b, now);
      var r := HS.CapabilitiesHandled(Heard(s.h, id, now), p, id, b);
      QuietEffectKeeps(s, p, r.0, r.1);
    case Some(codec) => ConnectionKeeps(s, p, id, b, now, codec);
  }

  lemma Dispatched(h: HS.Host, p: HS.Params, id: nat, b: Body, now: nat)
    requires id in h.clients
    ensures b.ClientHello? ==> HS.FrameHandled(h, p, id, HS.Decoded(b), now) == HS.HelloHandled(Heard(h, id, now), p, id, b)
    ensures b.ClientCapabilities? ==>
      HS.FrameHandled(h, p, id, HS.Decoded(b), now) == HS.CapabilitiesHandled(Heard(h, id, now), p, id, b)
  {
  }

  /** A frame that is no message costs the client its place and nothing else. */
  lemma BadFrameIsQuiet(h: HS.Host, p: HS.Params, id: nat, f: HS.Frame, now: nat)
    requires !f.Decoded?
    ensures Quiet(h, HS.FrameHandled(h, p, id, f, now)) && id !in HS.FrameHandled(h, p, id, f, now).0.clients
  {
    DropIsQuiet(h, id, Some(HS.PROTOCOL_ERROR));
    if f.Malformed? && id in h.clients {
      var heard := Heard(h, id, now);
      assert Quiet(h, (heard, []));
      DropAfterTouchIsQuiet(h, heard, id, HS.PROTOCOL_ERROR, []);
      assert [] + HS.Dropped(heard, id, Some(HS.PROTOCOL_ERROR)).1 == HS.Dropped(heard, id, Some(HS.PROTOCOL_ERROR)).1;
    }
  }

  lemma FrameKeeps(s: System, p: HS.Params, id: nat, f: HS.Frame, now: nat)
    requires Inv(s, p) && id in s.links && HostMayGet(s.links[id], f)
    ensures var (h', outs) := HS.FrameHandled(s.h, p, id, f, now); Inv(Effect(s, h', outs, None), p)
  {
    if f.Decoded? {
      DecodedFrameKeeps(s, p, id, f.body, now);
    } else {
      BadFrameIsQuiet(s.h, p, id, f, now);
      var (h', outs) := HS.FrameHandled(s.h, p, id, f, now);
      QuietEffectKeeps(s, p, h', outs);
    }
  }

  lemma DecodedFrameKeeps(s: System, p: HS.Params, id: nat, b: Body, now: nat)
    requires Inv(s, p) && id in s.links && HostMayGet(s.links[id], HS.Decoded(b))
    ensures var (h', outs) := HS.FrameHandled(s.h, p, id, HS.Decoded(b), now); Inv(Effect(s, h', outs, None), p)
  {
    if Advances(s.h, p, id, b) {
      Dispatched(s.h, p, id, b, now);
      if b.ClientHello? {
        HelloKeeps(s, p, id, b, now);
      } else {
        CapabilitiesKeep(s, p, id, b, now);
      }
    } else {
      FrameIsQuiet(s.h, p, id, b, now);
      var (h', outs) := HS.FrameHandled(s.h, p, id, HS.Decoded(b), now);
      QuietEffectKeeps(s, p, h', outs);
    }
  }

  lemma HostReceiveKeeps(s: System, p: HS.Params, id: nat, now: nat)
    requires Inv(s, p) && id in s.links && s.links[id].toHost != []
    ensures Inv(Next(s, p, HostReceives(id, now)), p)
  {
    var l := s.links[id];
    var f, l1 := l.toHost[0], l.(toHost := l.toHost[1..]);
    assert HostMayGet(l, f) by {
      assert f in l.toHost;
    }
    FewerFramesKeep(l, l1, p);
    LinkSwapKeeps(s, p, id, l1);
    FrameKeeps(WithLink(s, id, l1), p, id, f, now);
  }

  lemma HostActKeeps(s: System, p: HS.Params, op: HS.Op)
    requires Inv(s, p) && Local(op)
    ensures Inv(HostStepped(s, p, op), p)
  {
    if Approver(s.h, op).Some? {
      ApprovalKeeps(s, p, op.id, op.now);
    } else {
      LocalIsQuiet(s.h, p, op);
      var (h', outs) := HS.Step(s.h, p, op);
      QuietEffectKeeps(s, p, h', outs);
    }
  }

  // ---------- every run ----------

  /** A step that replaces one link by another with the same log and at most its messages. */
  lemma LinkSwapKeeps(s: System, p: HS.Params, id: nat, l: Link)
    requires Inv(s, p) && id in s.links && LinkInv(l, p)
    requires l.params == s.links[id].params && l.movedTo == s.links[id].movedTo
    ensures Inv(WithLink(s, id, l), p)
  {
  }

  lemma AppMessageKeeps(l: Link, p: HS.Params, kind: nat, payload: seq<byte>)
    requires LinkInv(l, p) && kind >= 0x10
    ensures LinkInv(l.(toHost := l.toHost + [RawFrame(kind, payload)]), p)
    ensures LinkInv(l.(toClient := l.toClient + [RawFrame(kind, payload)]), p)
  {
    var f := RawFrame(kind, payload);
    var up, down := l.(toHost := l.toHost + [f]), l.(toClient := l.toClient + [f]);
    assert HostMayGet(up, f) && ClientMayGet(down, f);
    assert forall x <- l.toHost :: HostMayGet(l, x) && HostMayGet(up, x) && HostMayGet(down, x);
    assert forall x <- l.toClient :: ClientMayGet(l, x) && ClientMayGet(up, x) && ClientMayGet(down, x);
  }

  lemma LoseTailKeeps(l: Link, p: HS.Params, n: nat, m: nat)
    requires LinkInv(l, p) && n <= |l.toHost| && m <= |l.toClient|
    ensures LinkInv(l.(toHost := l.toHost[..n], toClient := l.toClient[..m]), p)
  {
    FewerFramesKeep(l, l.(toHost := l.toHost[..n], toClient := l.toClient[..m]), p);
  }

  /** The steps a client takes on its own. */
  lemma ClientOwnStepKeeps(l: Link, p: HS.Params, now: nat)
    requires LinkInv(l, p)
    ensures LinkInv(ClientStepped(l, CS.ConnectionUp(l.client, l.params, now)), p)
    ensures LinkInv(ClientStepped(l, CS.Heartbeat(l.client, now)), p)
    ensures LinkInv(ClientStepped(l, CS.Stopped(l.client)), p)
    ensures LinkInv(l.(client := CS.ConnectionLost(l.client)), p)
  {
    ClientStepKeeps(l, p, CS.ConnectionUp(l.client, l.params, now));
    ClientStepKeeps(l, p, CS.Heartbeat(l.client, now));
    ClientStepKeeps(l, p, CS.Stopped(l.client));
  }

  lemma ClientStepsKeep(s: System, p: HS.Params, op: Op)
    requires Inv(s, p) && (op.ClientUp? || op.ClientHeartbeat? || op.ClientStops? || op.ClientLosesConnection?)
    ensures Inv(Next(s, p, op), p)
  {
    if op.id in s.links {
      var l := s.links[op.id];
      ClientOwnStepKeeps(l, p, if op.ClientUp? || op.ClientHeartbeat? then op.now else 0);
      LinkSwapKeeps(s, p, op.id, Next(s, p, op).links[op.id]);
    }
  }

  lemma ClientReceivesKeeps(s: System, p: HS.Params, id: nat, now: nat)
    requires Inv(s, p)
    ensures Inv(Next(s, p, ClientReceives(id, now)), p)
  {
    if id in s.links && s.links[id].toClient != [] {
      ClientReceiveKeeps(s.links[id], p, now);
      LinkSwapKeeps(s, p, id, Next(s, p, ClientReceives(id, now)).links[id]);
    }
  }

  lemma MessageStepsKeep(s: System, p: HS.Params, op: Op)
    requires Inv(s, p) && (op.HostSendsApp? || op.ClientSendsApp? || op.LoseTail?)
    ensures Inv(Next(s, p, op), p)
  {
    if op.id in s.links {
      var l := s.links[op.id];
      if op.LoseTail? {
        LoseTailKeeps(l, p, Min(op.keepToHost, |l.toHost|), Min(op.keepToClient, |l.toClient|));
      } else if op.kind >= 0x10 {
        AppMessageKeeps(l, p, op.kind, op.payload);
      }
      LinkSwapKeeps(s, p, op.id, Next(s, p, op).links[op.id]);
    }
  }

  lemma NextKeeps(s: System, p: HS.Params, op: Op)
    requires Inv(s, p)
    ensures Inv(Next(s, p, op), p)
  {
    match op
    case Open(address, params, now) =>
    case HostReceives(id, now) =>
      if id in s.links && s.links[id].toHost != [] {
        HostReceiveKeeps(s, p, id, now);
      }
    case HostActs(hop) =>
      if Local(hop) {
        HostActKeeps(s, p, hop);
      }
    case ClientReceives(id, now) => ClientReceivesKeeps(s, p, id, now);
    case HostSendsApp(_, _, _) | ClientSendsApp(_, _, _) | LoseTail(_, _, _) => MessageStepsKeep(s, p, op);
    case _ => ClientStepsKeep(s, p, op);
  }

  lemma {:induction false} RunKeeps(p: HS.Params, ops: seq<Op>)
    ensures Inv(Run(p, ops), p)
  {
    if ops != [] {
      RunKeeps(p, ops[..|ops| - 1]);
      NextKeeps(Run(p, ops[..|ops| - 1]), p, ops[|ops| - 1]);
    }
  }

  /**
   * On every run with the repository's client at the other end of every connection, whatever application frames are sent:
   * a client the host has as connected presented a code that verifies and was accepted by the user;
   * a client that takes itself to be connected was moved there by the host, with the codec it has recorded, and that
   * codec is the first host preference among those the client listed.
   */
  lemma HandshakeIsSound(p: HS.Params, ops: seq<Op>, id: nat)
    requires id in Run(p, ops).links
    ensures var s := Run(p, ops);
      var l := s.links[id];
      && (id in s.h.clients && s.h.clients[id].state == HS.Connected ==> CodeVerified(p, l.params) && l.approved)
      && (l.client.state == HS.Connected ==>
          && l.movedTo == Some(l.client.codec)
          && CodeVerified(p, l.params) && l.approved
          && Agreed(p, l.params) == Some(l.client.codec))
  {
    RunKeeps(p, ops);
  }
}
