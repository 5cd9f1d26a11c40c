/**
 * What the host asks of any peer before it is connected: a code that verifies and a common codec. The user's approval is
 * not among it; only the repository's own client waits for it (host/HostSession.cpp, lines 134-173 and 323-389).
 */
module HostApproval {
  import opened Bytes
  import opened ControlCodec
  import opened SessionCodes
  import opened HostSessions
  import opened Handshake

  ghost predicate Became(h: Host, h': Host, id: nat, state: ConnectionState) {
    id in h'.clients && h'.clients[id].state == state && (id !in h.clients || h.clients[id].state != state)
  }

  /** A hello that the host accepts: on a fresh record, with room, and with a code that verifies. */
  predicate Admits(h: Host, p: Params, op: HostSessions.Op, id: nat) {
    && op.Arrived? && op.id == id && op.f.Decoded? && op.f.body.ClientHello?
    && id in h.clients && h.clients[id].state == Connecting
    && |h.clients| <= p.maxClients && Verified(op.f.body.sessionCode, p.sessionCode)
  }

  /** Codecs that the host accepts: from a client past its hello, with one in common. */
  predicate Connects(h: Host, p: Params, op: HostSessions.Op, id: nat) {
    && op.Arrived? && op.id == id && op.f.Decoded? && op.f.body.ClientCapabilities?
    && id in h.clients && h.clients[id].state == Authenticating
    && Negotiated([p.preferredCodec, H264], op.f.body.supportedCodecs).Some?
  }

  /** The two moves up, and when a step makes them. */
  ghost predicate MovesExactly(h: Host, p: Params, op: HostSessions.Op, id: nat) {
    var h' := HostSessions.Step(h, p, op).0;
    && (Became(h, h', id, Authenticating) <==> Admits(h, p, op, id))
    && (Became(h, h', id, Connected) <==> Connects(h, p, op, id))
  }

  lemma HelloMoves(h: Host, p: Params, me: nat, b: Body, now: nat, id: nat)
    requires b.ClientHello? && me in h.clients && h.clients[me].state == Connecting
    ensures MovesExactly(h, p, Arrived(me, Decoded(b), now), id)
  {
    Dispatched(h, p, me, b, now);
    var heard := Heard(h, me, now);
    var rec := heard.clients[me].(name := if b.clientName == [] then PLAYER else b.clientName);
    var named := WithRecord(heard, me, rec);
    assert named.clients.Keys == h.clients.Keys;
    assert |named.clients| == |named.clients.Keys| && |h.clients| == |h.clients.Keys|;
  }

  lemma CapabilitiesMove(h: Host, p: Params, me: nat, b: Body, now: nat, id: nat)
    requires b.ClientCapabilities? && me in h.clients && h.clients[me].state == Authenticating
    ensures MovesExactly(h, p, Arrived(me, Decoded(b), now), id)
  {
    Dispatched(h, p, me, b, now);
  }

  lemma QuietMovesNothing(h: Host, p: Params, op: HostSessions.Op, id: nat)
    requires Quiet(h, HostSessions.Step(h, p, op)) && !Admits(h, p, op, id) && !Connects(h, p, op, id)
    ensures MovesExactly(h, p, op, id)
  {
    assert QuietRecord(h, HostSessions.Step(h, p, op).0, id);
  }

  lemma FrameMoves(h: Host, p: Params, me: nat, f: Frame, now: nat, id: nat)
    ensures MovesExactly(h, p, Arrived(me, f, now), id)
  {
    if f.Decoded? && Advances(h, p, me, f.body) {
      if f.body.ClientHello? {
        HelloMoves(h, p, me, f.body, now, id);
      } else {
        CapabilitiesMove(h, p, me, f.body, now, id);
      }
    } else {
      if f.Decoded? {
        FrameIsQuiet(h, p, me, f.body, now);
      } else {
        BadFrameIsQuiet(h, p, me, f, now);
      }
      QuietMovesNothing(h, p, Arrived(me, f, now), id);
    }
  }

  /**
   * For any peer: a step makes a record authenticating exactly when it is an acceptable hello, and connected exactly when
   * it is acceptable codecs on an authenticating record. `approveClient` is no condition of either.
   */
  lemma MovesUpExactly(h: Host, p: Params, op: HostSessions.Op, id: nat)
    ensures MovesExactly(h, p, op, id)
  {
    match op
    case NewConnection(address, now) =>
    case Arrived(me, f, now) => FrameMoves(h, p, me, f, now, id);
    case _ =>
      if Approver(h, op).None? {
        LocalIsQuiet(h, p, op);
        QuietMovesNothing(h, p, op, id);
      }
  }

  /** Step `i` of the run is a hello on connection `id` whose code verifies. */
  ghost predicate GoodHello(p: Params, op: HostSessions.Op, id: nat) {
    && op.Arrived? && op.id == id && op.f.Decoded? && op.f.body.ClientHello?
    && Verified(op.f.body.sessionCode, p.sessionCode)
  }

  /** On every run and for any peer: who is authenticating or connected has said hello with a code that verifies. */
  lemma {:induction false} CodeVerifiedForAnyPeer(p: Params, ops: seq<HostSessions.Op>, id: nat) returns (i: nat)
    requires id in HostSessions.Run(p, ops).clients
    requires HostSessions.Run(p, ops).clients[id].state in {Authenticating, Connected}
    ensures i < |ops| && GoodHello(p, ops[i], id)
  {
    var before, op := ops[..|ops| - 1], ops[|ops| - 1];
    MovesUpExactly(HostSessions.Run(p, before), p, op, id);
    if Admits(HostSessions.Run(p, before), p, op, id) {
      i := |ops| - 1;
    } else {
      i := CodeVerifiedForAnyPeer(p, before, id);
    }
  }

  lemma RunAppend(p: Params, ops: seq<HostSessions.Op>, op: HostSessions.Op)
    ensures HostSessions.Run(p, ops + [op]) == HostSessions.Step(HostSessions.Run(p, ops), p, op).0
  {
    assert (ops + [op])[..|ops|] == ops;
  }

  lemma FirstAccepted()
    ensures var h := Accepted(Start(), [], 0); |h.clients| == 1 && 1 in h.clients && h.clients[1].state == Connecting
  {
    var clients := Accepted(Start(), [], 0).clients;
    assert clients.Keys == {1};
    assert |clients| == |clients.Keys|;
  }

  lemma OneConnection(p: Params)
    ensures HostSessions.Run(p, [NewConnection([], 0)]) == Accepted(Start(), [], 0)
  {
    var ops := [NewConnection([], 0)];
    assert ops[..|ops| - 1] == [];
    assert HostSessions.Run(p, ops[..|ops| - 1]) == Start();
  }

  /** A peer that sends its codecs straight after a good hello is connected, and nobody approved it. */
  lemma ConnectedWithoutApproval(p: Params, code: seq<byte>)
    requires Verified(code, p.sessionCode) && p.maxClients >= 1
    ensures var h := HostSessions.Run(p, [NewConnection([], 0),
                                          Arrived(1, Decoded(ClientHello([65], code, [])), 1),
                                          Arrived(1, Decoded(ClientCapabilities([H264])), 2)]);
      1 in h.clients && h.clients[1].state == Connected
  {
    var open, hello := NewConnection([], 0), Arrived(1, Decoded(ClientHello([65], code, [])), 1);
    var codecs := Arrived(1, Decoded(ClientCapabilities([H264])), 2);
    FirstAccepted();
    OneConnection(p);
    RunAppend(p, [open], hello);
    MovesUpExactly(HostSessions.Run(p, [open]), p, hello, 1);
    RunAppend(p, [open, hello], codecs);
    assert [open] + [hello] == [open, hello] && [open, hello] + [codecs] == [open, hello, codecs];
    var i := NegotiatedIsFirstCommon([p.preferredCodec, H264], [H264]);
    assert [p.preferredCodec, H264][1] in [H264];
    MovesUpExactly(HostSessions.Run(p, [open, hello]), p, codecs, 1);
  }
}
