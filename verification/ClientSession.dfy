/** The client's side of the session (client/ClientSession.cpp, lines 185-465). */
module ClientSessions {
  import opened Bytes
  import opened ControlCodec
  import opened InputPermissions
  import HS = HostSessions

  const HEARTBEAT_TIMEOUT := 12_000

  datatype ClientParams = ClientParams(
    name: seq<byte>, sessionCode: seq<byte>, version: seq<byte>, supportedCodecs: seq<byte>)

  datatype Client = Client(
    state: HS.ConnectionState, codec: nat, connected: bool, running: bool, stopping: bool,
    lastActivity: nat, rttMs: nat, input: Permissions)
  {
    /** A running client is connecting, or has a connection and is past that; one that ended has neither. */
    ghost predicate Valid() {
      && (running && connected ==> !stopping && (state == HS.Authenticating || state == HS.Connected))
      && (running && !connected ==> !stopping && state == HS.Connecting)
      && (!running ==> state == HS.Disconnected && !connected)
    }
  }

  /** After `start`: the socket is not up yet, and the time of the last activity is still the clock's zero. */
  function Started(): (c: Client)
    ensures c.Valid()
  {
    Client(HS.Connecting, HS.H264, false, true, false, 0, 0, Permissions(true, false, false, true))
  }

  function HelloOf(p: ClientParams): (b: Body) {
    ClientHello(p.name, p.sessionCode, p.version)
  }

  /** The socket is up: say hello and wait. */
  function ConnectionUp(c: Client, p: ClientParams, now: nat): (r: (Client, seq<Body>)) {
    if !c.running || c.connected then (c, [])
    else (c.(connected := true, lastActivity := now, state := HS.Authenticating), [HelloOf(p)])
  }

  /** Final: the connection is given up and the event loop stops. */
  function Finished(c: Client): (c': Client) {
    c.(state := HS.Disconnected, connected := false, running := false)
  }

  function Sent(c: Client, b: Body): (bs: seq<Body>) {
    if c.connected then [b] else []
  }

  function PongHandled(c: Client, echo: nat, now: nat): (c': Client) {
    var sample := if echo < now then (now - echo) % 0x1_0000_0000 else 0;
    c.(rttMs := if c.rttMs == 0 then sample else (c.rttMs * 7 + sample) % 0x1_0000_0000 / 8)
  }

  /** The handler belongs to the connection, and none runs once the client stops or its event loop has ended. */
  function FrameHandled(c: Client, p: ClientParams, f: HS.Frame, now: nat): (r: (Client, seq<Body>)) {
    if !c.running || c.stopping || !c.connected then (c, [])
    else
      var c := c.(lastActivity := now);
      if !f.Decoded? then (Finished(c), [])
      else
        match f.body
        case HostReject(_, _) => (Finished(c), [])
        case HostCapabilities(_, _, _, _, _, _, _, _) => (c, Sent(c, ClientCapabilities(p.supportedCodecs)))
        case NegotiationResult(accepted, codec, _, _, _, _, _) =>
          if accepted then (c.(codec := codec, state := HS.Connected), []) else (Finished(c), [])
        case Ping(t) => (c, Sent(c, Pong(t)))
        case Pong(t) => (PongHandled(c, t, now), [])
        case InputPermission(ctl, key, mouse, vib) => (c.(input := Permissions(ctl, key, mouse, vib)), [])
        case Kick(_) => (Finished(c), [])
        case Bye(_) => (Finished(c), [])
        case _ => (c, [])
  }

  function Heartbeat(c: Client, now: nat): (r: (Client, seq<Body>)) {
    if !c.running || c.stopping then (c, [])
    else if now - c.lastActivity > HEARTBEAT_TIMEOUT then (Finished(c), [])
    else if c.state == HS.Connected || c.state == HS.Streaming then (c, Sent(c, Ping(now)))
    else (c, [])
  }

  function Stopped(c: Client): (r: (Client, seq<Body>)) {
    if !c.running then (c, [])
    else (c.(running := false, stopping := true, state := HS.Disconnected, connected := false), Sent(c, Bye([])))
  }

  function ConnectionLost(c: Client): (c': Client) {
    if !c.running || c.stopping then c else Finished(c)
  }

  // ---------- every run ----------

  datatype Op = Up(now: nat) | Arrived(f: HS.Frame, now: nat) | Beat(now: nat) | Stop | Lost

  function Step(c: Client, p: ClientParams, op: Op): (r: (Client, seq<Body>)) {
    match op
    case Up(now) => ConnectionUp(c, p, now)
    case Arrived(f, now) => FrameHandled(c, p, f, now)
    case Beat(now) => Heartbeat(c, now)
    case Stop => Stopped(c)
    case Lost => (ConnectionLost(c), [])
  }

  function Run(p: ClientParams, ops: seq<Op>): (c: Client) {
    if ops == [] then Started() else Step(Run(p, ops[..|ops| - 1]), p, ops[|ops| - 1]).0
  }

  /** The state does not go back, and a client that is gone stays exactly as it is. */
  ghost predicate Forward(c: Client, c': Client) {
    HS.Rank(c.state) <= HS.Rank(c'.state) && (c.state == HS.Disconnected ==> c' == c)
  }

  /** Each step keeps the client consistent and moves it forward; one that is gone says nothing any more. */
  lemma StepKeeps(c: Client, p: ClientParams, op: Op)
    requires c.Valid()
    ensures var (c', out) := Step(c, p, op);
      c'.Valid() && Forward(c, c') && (c.state == HS.Disconnected ==> out == [])
  {
  }

  lemma {:induction false} ClientLifecycle(p: ClientParams, ops: seq<Op>, more: seq<Op>)
    ensures Run(p, ops).Valid() && Run(p, ops + more).Valid() && Forward(Run(p, ops), Run(p, ops + more))
    decreases |ops| + |more|, |more|
  {
    if more != [] {
      var before := more[..|more| - 1];
      ClientLifecycle(p, ops, before);
      assert (ops + more)[..|ops + more| - 1] == ops + before;
      StepKeeps(Run(p, ops + before), p, more[|more| - 1]);
    } else if ops != [] {
      assert ops + more == ops;
      ClientLifecycle(p, ops[..|ops| - 1], []);
      StepKeeps(Run(p, ops[..|ops| - 1]), p, ops[|ops| - 1]);
    }
  }

  /** Until its connection is up, a running client is as it was started. */
  lemma {:induction false} UnconnectedIsStarted(p: ClientParams, ops: seq<Op>)
    ensures Run(p, ops).running && !Run(p, ops).connected ==> Run(p, ops) == Started()
  {
    if ops != [] {
      UnconnectedIsStarted(p, ops[..|ops| - 1]);
      ClientLifecycle(p, ops[..|ops| - 1], []);
    }
  }

  /**
   * The watchdog compares with the clock's zero while the connection is not up, so on every run a heartbeat at that time
   * ends the client exactly when the clock itself reads more than twelve seconds; the connection is then of no use.
   */
  lemma EarlyHeartbeatExactly(p: ClientParams, ops: seq<Op>, now: nat, later: nat)
    requires Run(p, ops).running && !Run(p, ops).connected
    ensures Run(p, ops + [Beat(now)]).state == HS.Disconnected <==> now > HEARTBEAT_TIMEOUT
    ensures now > HEARTBEAT_TIMEOUT ==> Step(Run(p, ops + [Beat(now)]), p, Up(later)) == (Run(p, ops + [Beat(now)]), [])
  {
    UnconnectedIsStarted(p, ops);
    assert (ops + [Beat(now)])[..|ops|] == ops;
  }

  /** What ends the session: a refusal, a kick, a farewell, a failed negotiation, or a frame that cannot be read. */
  predicate Ends(f: HS.Frame) {
    !f.Decoded? || f.body.HostReject? || f.body.Kick? || f.body.Bye? || (f.body.NegotiationResult? && !f.body.accepted)
  }

  /** What a connected client says to a frame, and where it takes it. */
  lemma FrameExactly(c: Client, p: ClientParams, f: HS.Frame, now: nat)
    requires c.Valid() && c.running && c.connected
    ensures var (c', out) := FrameHandled(c, p, f, now);
      && out == (if f.Decoded? && f.body.HostCapabilities? then [ClientCapabilities(p.supportedCodecs)]
                 else if f.Decoded? && f.body.Ping? then [Pong(f.body.epochMs)]
                 else [])
      && c'.lastActivity == now
      && (if Ends(f) then c'.state == HS.Disconnected && !c'.running && !c'.connected
          else
            && c'.running && c'.connected
            && c'.state == (if f.body.NegotiationResult? then HS.Connected else c.state)
            && c'.codec == (if f.body.NegotiationResult? then f.body.codec else c.codec)
            && c'.input == (if f.body.InputPermission?
                            then Permissions(f.body.controller, f.body.keyboard, f.body.mouse, f.body.vibration) else c.input)
            && c'.rttMs == (if f.body.Pong? then RttAfter(c.rttMs, f.body.echoEpochMs, now) else c.rttMs))
  {
  }

  /** A sample from the future counts as zero. */
  function RttAfter(rtt: nat, echo: nat, now: nat): (ms: nat) {
    var sample := if now > echo then (now - echo) % 0x1_0000_0000 else 0;
    if rtt == 0 then sample else (rtt * 7 + sample) % 0x1_0000_0000 / 8
  }

  /** After twelve seconds of silence a heartbeat ends the session; before that it is a ping, once connected. */
  lemma HeartbeatExactly(c: Client, now: nat)
    requires c.Valid() && c.running
    ensures var (c', out) := Heartbeat(c, now);
      if now > c.lastActivity + 12_000 then c'.state == HS.Disconnected && !c'.running && out == []
      else c' == c && out == if c.state == HS.Connected then [Ping(now)] else []
  {
  }

  /** Saying hello and goodbye. */
  lemma EndsExactly(c: Client, p: ClientParams, now: nat)
    requires c.Valid() && c.running
    ensures Stopped(c).1 == (if c.connected then [Bye([])] else []) && Stopped(c).0.state == HS.Disconnected
    ensures !c.connected ==> ConnectionUp(c, p, now).1 == [ClientHello(p.name, p.sessionCode, p.version)]
    ensures !c.connected ==>
      ConnectionUp(c, p, now).0 == c.(connected := true, lastActivity := now, state := HS.Authenticating)
    ensures ConnectionLost(c).state == HS.Disconnected && !ConnectionLost(c).running
  {
  }

  class ClientSession {
    const params: ClientParams
    var state: HS.ConnectionState
    var codec: nat
    var connected: bool
    var running: bool
    var stopping: bool
    var lastActivity: nat
    var rttMs: nat
    var input: Permissions

    ghost function State(): (c: Client)
      reads this
    {
      Client(state, codec, connected, running, stopping, lastActivity, rttMs, input)
    }

    ghost predicate Valid()
      reads this
    {
      State().Valid()
    }

    constructor (params: ClientParams)
      ensures Valid() && this.params == params && State() == Started()
    {
      this.params := params;
      state, codec := HS.Connecting, HS.H264;
      connected, running, stopping := false, true, false;
      lastActivity, rttMs := 0, 0;
      input := Permissions(true, false, false, true);
    }

    method HandleConnected(now: nat) returns (out: seq<Body>)
      requires Valid() && running && !connected
      modifies this
      ensures Valid() && Forward(old(State()), State())
      ensures (State(), out) == ConnectionUp(old(State()), params, now)
    {
      connected := true;
      lastActivity := now;
      out := [HelloOf(params)];
      state := HS.Authenticating;
    }

    method Finish()
      modifies this
      ensures State() == Finished(old(State()))
    {
      state := HS.Disconnected;
      connected := false;
      running := false;
    }

    method HandleFrame(f: HS.Frame, now: nat) returns (out: seq<Body>)
      requires Valid()
      modifies this
      ensures Valid() && Forward(old(State()), State())
      ensures (State(), out) == FrameHandled(old(State()), params, f, now)
    {
      StepKeeps(State(), params, Arrived(f, now));
      out := [];
      if !running || stopping || !connected {
        return;
      }
      lastActivity := now;
      if !f.Decoded? {
        Finish();
        return;
      }
      match f.body
      case HostReject(_, _) => Finish();
      case HostCapabilities(_, _, _, _, _, _, _, _) =>
        if connected {
          out := [ClientCapabilities(params.supportedCodecs)];
        }
      case NegotiationResult(accepted, chosen, _, _, _, _, _) =>
        if !accepted {
          Finish();
        } else {
          codec := chosen;
          state := HS.Connected;
        }
      case Ping(t) =>
        if connected {
          out := [Pong(t)];
        }
      case Pong(t) =>
        var sample := if t < now then (now - t) % 0x1_0000_0000 else 0;
        rttMs := if rttMs == 0 then sample else (rttMs * 7 + sample) % 0x1_0000_0000 / 8;
      case InputPermission(ctl, key, mouse, vib) => input := Permissions(ctl, key, mouse, vib);
      case Kick(_) => Finish();
      case Bye(_) => Finish();
      case _ =>
    }

    method StartHeartbeat(now: nat) returns (out: seq<Body>)
      requires Valid()
      modifies this
      ensures Valid() && Forward(old(State()), State())
      ensures (State(), out) == Heartbeat(old(State()), now)
    {
      out := [];
      if !running || stopping {
        return;
      }
      if now - lastActivity > HEARTBEAT_TIMEOUT {
        Finish();
        return;
      }
      if (state == HS.Connected || state == HS.Streaming) && connected {
        out := [Ping(now)];
      }
    }

    method HandleClosed()
      requires Valid()
      modifies this
      ensures Valid() && Forward(old(State()), State())
      ensures State() == ConnectionLost(old(State()))
    {
      if running && !stopping {
        Finish();
      }
    }

    method Stop() returns (out: seq<Body>)
      requires Valid()
      modifies this
      ensures Valid() && Forward(old(State()), State())
      ensures (State(), out) == Stopped(old(State()))
    {
      out := [];
      if running {
        running := false;
        stopping := true;
        if connected {
          out := [Bye([])];
        }
        connected := false;
        state := HS.Disconnected;
      }
    }
  }
}
