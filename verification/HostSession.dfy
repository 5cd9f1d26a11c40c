/** The host's client table and its handlers (host/HostSession.cpp, lines 134-206 and 243-580). */
module HostSessions {
  import opened Bytes
  import opened ControlCodec
  import opened SessionCodes
  import opened InputPermissions

  datatype ConnectionState = Connecting | Authenticating | Connected | Streaming | Disconnected

  /** The order in which a client passes through its states. */
  function Rank(s: ConnectionState): (n: nat) {
    match s
    case Connecting => 0
    case Authenticating => 1
    case Connected => 2
    case Streaming => 3
    case Disconnected => 4
  }

  datatype Record = Record(
    name: seq<byte>, state: ConnectionState, lastActivity: nat, lastHostPing: nat,
    input: Permissions, rttMs: nat, address: seq<byte>)

  /** A row of the table shown to the user. */
  datatype Row = Row(id: nat, name: seq<byte>, state: ConnectionState, rttMs: nat, inputEnabled: bool, address: seq<byte>)

  datatype Params = Params(
    sessionCode: seq<byte>, maxClients: nat, preferredCodec: byte, inputDefaults: Permissions,
    hostName: seq<byte>, gameName: seq<byte>, captureMode: nat, width: nat, height: nat, fps: nat, bitrateKbps: nat)

  /** `events` is every client update announced so far, in order. */
  datatype Host = Host(clients: map<nat, Record>, nextId: nat, snapshot: seq<Row>, events: seq<Row>)

  /** What a handler puts on a client's connection. */
  datatype Out = Send(id: nat, body: Body) | SendAndClose(id: nat, body: Body) | CloseNow(id: nat)

  /** A frame as the session sees it. */
  datatype Frame = UnknownType | Malformed | Decoded(body: Body)

  const H264: byte := 0
  const HELLO_TIMEOUT := 10_000
  const APPROVAL_TIMEOUT := 75_000
  const HEARTBEAT_TIMEOUT := 15_000
  const PING_PERIOD := 2_000

  const BAD_SESSION_CODE := 1
  const REJECTED_BY_HOST := 2
  const PROTOCOL_ERROR := 3
  const INACTIVITY_TIMEOUT := 5
  const SERVER_FULL := 7
  const NO_COMMON_CODEC := 8

  const PLAYER: seq<byte> := [80, 108, 97, 121, 101, 114]
  const PENDING: seq<byte> := [112, 101, 110, 100, 105, 110, 103]

  // ---------- the snapshot ----------

  function RowOf(id: nat, r: Record): (row: Row) {
    Row(id, r.name, r.state, r.rttMs, r.input.controller || r.input.keyboard || r.input.mouse, r.address)
  }

  /** One row per client, by ascending id. */
  function Rows(clients: map<nat, Record>, n: nat): (rows: seq<Row>) {
    if n == 0 then []
    else Rows(clients, n - 1) + if n - 1 in clients then [RowOf(n - 1, clients[n - 1])] else []
  }

  function Rebuilt(h: Host): (h': Host) {
    h.(snapshot := Rows(h.clients, h.nextId))
  }

  // ---------- moves shared by the handlers ----------

  function WithRecord(h: Host, id: nat, r: Record): (h': Host) {
    h.(clients := h.clients[id := r])
  }

  /** The new state is shown and announced. */
  function Moved(h: Host, id: nat, state: ConnectionState): (h': Host) {
    if id !in h.clients then h
    else
      var h := Rebuilt(WithRecord(h, id, h.clients[id].(state := state)));
      h.(events := h.events + [RowOf(id, h.clients[id])])
  }

  function Erased(h: Host, id: nat): (h': Host) {
    Rebuilt(h.(clients := h.clients - {id}))
  }

  function Dropped(h: Host, id: nat, reject: Option<nat>): (r: (Host, seq<Out>)) {
    if id !in h.clients then (h, [])
    else
      (Erased(Moved(h, id, Disconnected), id),
       [if reject.Some? then SendAndClose(id, HostReject(reject.value, [])) else CloseNow(id)])
  }

  function PermissionPush(id: nat, r: Record): (o: Out) {
    Send(id, InputPermission(r.input.controller, r.input.keyboard, r.input.mouse, r.input.vibration))
  }

  // ---------- handlers ----------

  function Accepted(h: Host, address: seq<byte>, now: nat): (h': Host) {
    var r := Record(PENDING, Connecting, now, 0, Permissions(true, false, false, true), 0, address);
    Rebuilt(WithRecord(h, h.nextId, r).(nextId := h.nextId + 1))
  }

  function OfferedCodecs(p: Params): (cs: seq<byte>) {
    if p.preferredCodec == H264 then [H264] else [p.preferredCodec, H264]
  }

  function Approved(h: Host, p: Params, id: nat, accept: bool, now: nat): (r: (Host, seq<Out>)) {
    if id !in h.clients || h.clients[id].state != Authenticating then (h, [])
    else if !accept then Dropped(h, id, Some(REJECTED_BY_HOST))
    else
      (WithRecord(h, id, h.clients[id].(lastActivity := now)),
       [Send(id, HostApproved),
        Send(id, HostCapabilities(p.hostName, p.gameName, p.captureMode, p.width % 0x1_0000, p.height % 0x1_0000,
                                  Min(p.fps, 255), p.bitrateKbps, OfferedCodecs(p)))])
  }

  /** The record stays in the table, disconnected, until its connection has closed. */
  function Kicked(h: Host, id: nat, reason: seq<byte>): (r: (Host, seq<Out>)) {
    if id !in h.clients then (h, []) else (Moved(h, id, Disconnected), [SendAndClose(id, Kick(reason))])
  }

  /** The snapshot is not rebuilt here. */
  function InputSet(h: Host, p: Params, id: nat, enableAll: bool): (r: (Host, seq<Out>)) {
    if id !in h.clients then (h, [])
    else
      var rec := h.clients[id].(input := if enableAll then p.inputDefaults else Permissions(false, false, false, false));
      (WithRecord(h, id, rec), [PermissionPush(id, rec)])
  }

  function HelloHandled(h: Host, p: Params, id: nat, hello: Body): (r: (Host, seq<Out>))
    requires hello.ClientHello?
  {
    if id !in h.clients || h.clients[id].state != Connecting then (h, [])
    else
      var rec := h.clients[id].(name := if hello.clientName == [] then PLAYER else hello.clientName);
      var h := WithRecord(h, id, rec);
      if |h.clients| > p.maxClients then Dropped(h, id, Some(SERVER_FULL))
      else if !Verified(hello.sessionCode, p.sessionCode) then Dropped(h, id, Some(BAD_SESSION_CODE))
      else (Rebuilt(WithRecord(h, id, rec.(state := Authenticating, input := p.inputDefaults))), [])
  }

  function CapabilitiesHandled(h: Host, p: Params, id: nat, caps: Body): (r: (Host, seq<Out>))
    requires caps.ClientCapabilities?
  {
    if id !in h.clients || h.clients[id].state != Authenticating then (h, [])
    else
      match Negotiated([p.preferredCodec, H264], caps.supportedCodecs)
      case None =>
        var (h', outs) := Dropped(h, id, Some(NO_COMMON_CODEC));
        (h', [Send(id, NegotiationResult(false, 0, 1920, 1080, 60, 8000, []))] + outs)
      case Some(codec) =>
        var h' := Moved(h, id, Connected);
        (h', [Send(id, NegotiationResult(true, codec, p.width % 0x1_0000, p.height % 0x1_0000, Min(p.fps, 255),
                                         p.bitrateKbps, [])),
              PermissionPush(id, h'.clients[id])])
  }

  /** Smoothed round-trip time in 32-bit arithmetic. */
  function PongHandled(h: Host, id: nat, echo: nat, now: nat): (h': Host) {
    if id !in h.clients then h
    else
      var sample := (now - echo) % 0x1_0000_0000;
      var rec := h.clients[id];
      var rtt := if rec.rttMs == 0 then sample else (rec.rttMs * 7 + sample) % 0x1_0000_0000 / 8;
      Rebuilt(WithRecord(h, id, rec.(rttMs := rtt)))
  }

  /** Application messages are forwarded once the client is connected; anything else is out of place. */
  function OtherHandled(h: Host, id: nat, b: Body): (r: (Host, seq<Out>))
    requires id in h.clients
  {
    if IdOf(b) >= 0x10 && h.clients[id].state == Connected then (h, [])
    else Dropped(h, id, Some(PROTOCOL_ERROR))
  }

  /** The dispatch on the message type, once the activity has been noted. */
  function MessageHandled(h: Host, p: Params, id: nat, b: Body, now: nat): (r: (Host, seq<Out>))
    requires id in h.clients
  {
    match b
    case ClientHello(_, _, _) => HelloHandled(h, p, id, b)
    case ClientCapabilities(_) => CapabilitiesHandled(h, p, id, b)
    case Ping(t) => (h, [Send(id, Pong(t))])
    case Pong(t) => (PongHandled(h, id, t, now), [])
    case Bye(_) => Dropped(h, id, None)
    case _ => OtherHandled(h, id, b)
  }

  function FrameHandled(h: Host, p: Params, id: nat, f: Frame, now: nat): (r: (Host, seq<Out>)) {
    if f.UnknownType? then Dropped(h, id, Some(PROTOCOL_ERROR))
    else if id !in h.clients then (h, [])
    else
      var h := WithRecord(h, id, h.clients[id].(lastActivity := now));
      if f.Malformed? then Dropped(h, id, Some(PROTOCOL_ERROR))
      else MessageHandled(h, p, id, f.body, now)
  }

  function Closed(h: Host, id: nat): (h': Host) {
    if id !in h.clients then h
    else
      var row := RowOf(id, h.clients[id].(state := Disconnected, rttMs := 0));
      Erased(h, id).(events := h.events + [row])
  }

  predicate TimedOut(r: Record, now: nat) {
    match r.state
    case Connecting => now - r.lastActivity > HELLO_TIMEOUT
    case Authenticating => now - r.lastActivity > APPROVAL_TIMEOUT
    case Connected | Streaming => now - r.lastActivity > HEARTBEAT_TIMEOUT
    case Disconnected => false
  }

  predicate PingDue(r: Record, now: nat) {
    (r.state == Connected || r.state == Streaming) && (r.lastHostPing == 0 || now - r.lastHostPing >= PING_PERIOD)
  }

  /** The clients to drop, by ascending id. */
  function Expired(clients: map<nat, Record>, n: nat, now: nat): (ids: seq<nat>) {
    if n == 0 then []
    else Expired(clients, n - 1, now) + if n - 1 in clients && TimedOut(clients[n - 1], now) then [n - 1] else []
  }

  function DroppedAll(h: Host, ids: seq<nat>): (r: (Host, seq<Out>)) {
    if ids == [] then (h, [])
    else
      var (h1, outs1) := DroppedAll(h, ids[..|ids| - 1]);
      var (h2, outs2) := Dropped(h1, ids[|ids| - 1], Some(INACTIVITY_TIMEOUT));
      (h2, outs1 + outs2)
  }

  function Pinged(h: Host, now: nat): (h': Host) {
    h.(clients := map id | id in h.clients ::
         if PingDue(h.clients[id], now) then h.clients[id].(lastHostPing := now) else h.clients[id])
  }

  /** The table when the sweep has reached `n`. */
  ghost function PingedBelow(clients: map<nat, Record>, n: nat, now: nat): (m: map<nat, Record>) {
    map id | id in clients ::
      if id < n && PingDue(clients[id], now) then clients[id].(lastHostPing := now) else clients[id]
  }

  lemma PingedNext(clients: map<nat, Record>, n: nat, now: nat)
    ensures n in PingedBelow(clients, n, now) <==> n in clients
    ensures n in clients ==> PingedBelow(clients, n, now)[n] == clients[n]
    ensures PingedBelow(clients, n + 1, now) ==
      if n in clients && PingDue(clients[n], now)
      then PingedBelow(clients, n, now)[n := clients[n].(lastHostPing := now)] else PingedBelow(clients, n, now)
  {
  }

  function Pings(clients: map<nat, Record>, n: nat, now: nat): (outs: seq<Out>) {
    if n == 0 then []
    else Pings(clients, n - 1, now)
         + if n - 1 in clients && PingDue(clients[n - 1], now) then [Send(n - 1, Ping(now % 0x1_0000_0000))] else []
  }

  function Housekept(h: Host, now: nat): (r: (Host, seq<Out>)) {
    var (h', outs) := DroppedAll(Pinged(h, now), Expired(h.clients, h.nextId, now));
    (h', Pings(h.clients, h.nextId, now) + outs)
  }

  // ---------- every run ----------

  datatype Op =
    | NewConnection(address: seq<byte>, now: nat)
    | Arrived(id: nat, f: Frame, now: nat)
    | ApproveClient(id: nat, accept: bool, now: nat)
    | KickClient(id: nat, reason: seq<byte>)
    | SetClientInput(id: nat, enableAll: bool)
    | ConnectionClosed(id: nat)
    | Housekeeping(now: nat)

  function Step(h: Host, p: Params, op: Op): (r: (Host, seq<Out>)) {
    match op
    case NewConnection(address, now) => (Accepted(h, address, now), [])
    case Arrived(id, f, now) => FrameHandled(h, p, id, f, now)
    case ApproveClient(id, accept, now) => Approved(h, p, id, accept, now)
    case KickClient(id, reason) => Kicked(h, id, reason)
    case SetClientInput(id, enableAll) => InputSet(h, p, id, enableAll)
    case ConnectionClosed(id) => (Closed(h, id), [])
    case Housekeeping(now) => Housekept(h, now)
  }

  function Start(): (h: Host) {
    Host(map[], 1, [], [])
  }

  function Run(p: Params, ops: seq<Op>): (h: Host) {
    if ops == [] then Start() else Step(Run(p, ops[..|ops| - 1]), p, ops[|ops| - 1]).0
  }
}
