/** The handshake goes through: the message exchange, step by step, ends with both sides connected. */
module HandshakeProgress {
  import opened Bytes
  import opened ControlCodec
  import opened Handshake
  import HS = HostSessions
  import CS = ClientSessions

  /** Where the two sides of connection `id` stand and what is under way between them. */
  ghost predicate At(s: System, id: nat, params: CS.ClientParams, host: HS.ConnectionState, client: HS.ConnectionState,
                     toHost: seq<HS.Frame>, toClient: seq<HS.Frame>) {
    && id in s.h.clients && s.h.clients[id].state == host
    && id in s.links
    && var l := s.links[id];
      && l.params == params && l.client.state == client && l.client.running && !l.client.stopping
      && (l.client.connected <==> client != HS.Connecting)
      && l.toHost == toHost && l.toClient == toClient
  }

  lemma AfterOpen(s: System, p: HS.Params, address: seq<byte>, params: CS.ClientParams, now: nat)
    requires s.h.nextId !in s.h.clients
    ensures var s' := Next(s, p, Open(address, params, now));
      At(s', s.h.nextId, params, HS.Connecting, HS.Connecting, [], []) && |s'.h.clients| == |s.h.clients| + 1
  {
    var s' := Next(s, p, Open(address, params, now));
    assert s'.h.clients.Keys == s.h.clients.Keys + {s.h.nextId};
    assert |s'.h.clients| == |s'.h.clients.Keys| && |s.h.clients| == |s.h.clients.Keys|;
  }

  lemma AfterUp(s: System, p: HS.Params, id: nat, params: CS.ClientParams, now: nat)
    requires At(s, id, params, HS.Connecting, HS.Connecting, [], [])
    ensures var s' := Next(s, p, ClientUp(id, now));
      At(s', id, params, HS.Connecting, HS.Authenticating, [Wire(CS.HelloOf(params))], []) && s'.h == s.h
  {
    assert [] + Wired([CS.HelloOf(params)]) == [Wire(CS.HelloOf(params))];
  }

  lemma AfterHello(s: System, p: HS.Params, id: nat, params: CS.ClientParams, now: nat)
    requires At(s, id, params, HS.Connecting, HS.Authenticating, [Wire(CS.HelloOf(params))], [])
    requires |s.h.clients| <= p.maxClients && CodeVerified(p, params)
    ensures At(Next(s, p, HostReceives(id, now)), id, params, HS.Authenticating, HS.Authenticating, [], [])
  {
    var hello := Capped(CS.HelloOf(params));
    CappedShape(CS.HelloOf(params));
    Dispatched(s.h, p, id, hello, now);
    var heard := Heard(s.h, id, now);
    assert heard.clients.Keys == s.h.clients.Keys;
    var named := HS.WithRecord(heard, id, heard.clients[id].(name := if hello.clientName == [] then HS.PLAYER else hello.clientName));
    assert named.clients.Keys == s.h.clients.Keys;
    assert |named.clients| == |named.clients.Keys| && |s.h.clients| == |s.h.clients.Keys|;
    var l := s.links[id].(toHost := []);
    var (h', outs) := HS.HelloHandled(heard, p, id, hello);
    assert outs == [] && s.links[id].toHost[1..] == [];
    NoMessages(l, id, s.h, h', None);
  }

  lemma AfterApproval(s: System, p: HS.Params, id: nat, params: CS.ClientParams, now: nat) returns (caps: Body)
    requires At(s, id, params, HS.Authenticating, HS.Authenticating, [], [])
    ensures caps.HostCapabilities?
    ensures At(Next(s, p, HostActs(HS.ApproveClient(id, true, now))), id, params,
               HS.Authenticating, HS.Authenticating, [], [Wire(HostApproved), Wire(caps)])
  {
    ApprovalFacts(s, p, id, now);
    var (h', outs) := HS.Approved(s.h, p, id, true, now);
    caps := outs[1].body;
    TwoMessages(s.links[id], id, s.h, h', outs, Some(id));
  }

  lemma AfterApprovedRead(s: System, p: HS.Params, id: nat, params: CS.ClientParams, caps: Body, now: nat)
    requires At(s, id, params, HS.Authenticating, HS.Authenticating, [], [Wire(HostApproved), Wire(caps)])
    ensures At(Next(s, p, ClientReceives(id, now)), id, params, HS.Authenticating, HS.Authenticating, [], [Wire(caps)])
  {
    assert IdOf(Capped(HostApproved)) == 0x03;
    assert [] + Wired([]) == [];
  }

  lemma AfterCapabilitiesRead(s: System, p: HS.Params, id: nat, params: CS.ClientParams, caps: Body, now: nat)
    requires At(s, id, params, HS.Authenticating, HS.Authenticating, [], [Wire(caps)]) && caps.HostCapabilities?
    ensures At(Next(s, p, ClientReceives(id, now)), id, params, HS.Authenticating, HS.Authenticating,
               [Wire(ClientCapabilities(params.supportedCodecs))], [])
  {
    CappedShape(caps);
    assert [] + Wired([ClientCapabilities(params.supportedCodecs)]) == [Wire(ClientCapabilities(params.supportedCodecs))];
  }

  lemma AfterNegotiation(s: System, p: HS.Params, id: nat, params: CS.ClientParams, codec: byte, now: nat)
      returns (result: Body, perms: Body)
    requires At(s, id, params, HS.Authenticating, HS.Authenticating, [Wire(ClientCapabilities(params.supportedCodecs))], [])
    requires Agreed(p, params) == Some(codec)
    ensures result.NegotiationResult? && result.accepted && result.codec == codec
    ensures At(Next(s, p, HostReceives(id, now)), id, params, HS.Connected, HS.Authenticating, [], [Wire(result), Wire(perms)])
  {
    var caps := Capped(ClientCapabilities(params.supportedCodecs));
    CappedShape(ClientCapabilities(params.supportedCodecs));
    Dispatched(s.h, p, id, caps, now);
    var l := s.links[id].(toHost := []);
    var t := WithLink(s, id, l);
    ConnectionFacts(t, p, id, caps, now, codec);
    var (h', outs) := HS.CapabilitiesHandled(Heard(s.h, id, now), p, id, caps);
    result, perms := outs[0].body, outs[1].body;
    assert s.links[id].toHost[1..] == [];
    TwoMessages(l, id, s.h, h', outs, None);
  }

  lemma AfterResultRead(s: System, p: HS.Params, id: nat, params: CS.ClientParams, result: Body, perms: Body, now: nat)
    requires At(s, id, params, HS.Connected, HS.Authenticating, [], [Wire(result), Wire(perms)])
    requires result.NegotiationResult? && result.accepted
    ensures var s' := Next(s, p, ClientReceives(id, now));
      At(s', id, params, HS.Connected, HS.Connected, [], [Wire(perms)]) && s'.links[id].client.codec == result.codec
  {
    CappedShape(result);
    assert [] + Wired([]) == [];
  }

  /** The exchange of the protocol description, for one new connection. */
  function Exchange(address: seq<byte>, params: CS.ClientParams, id: nat, now: nat): (ops: seq<Op>) {
    [Open(address, params, now), ClientUp(id, now), HostReceives(id, now), HostActs(HS.ApproveClient(id, true, now)),
     ClientReceives(id, now), ClientReceives(id, now), HostReceives(id, now), ClientReceives(id, now)]
  }

  function After(s: System, p: HS.Params, ops: seq<Op>): (s': System)
    decreases |ops|
  {
    if ops == [] then s else After(Next(s, p, ops[0]), p, ops[1..])
  }

  lemma AfterStep(s: System, p: HS.Params, ops: seq<Op>, i: nat)
    requires i < |ops|
    ensures After(s, p, ops[i..]) == After(Next(s, p, ops[i]), p, ops[i + 1..])
  {
    assert ops[i..][1..] == ops[i + 1..];
  }

  /** The first half: hello and approval. */
  lemma FirstHalf(s: System, p: HS.Params, ops: seq<Op>, address: seq<byte>, params: CS.ClientParams, now: nat)
      returns (e: System, caps: Body)
    requires s.h.nextId !in s.h.clients && |s.h.clients| < p.maxClients && CodeVerified(p, params)
    requires ops == Exchange(address, params, s.h.nextId, now)
    ensures After(s, p, ops) == After(e, p, ops[4..]) && caps.HostCapabilities?
    ensures At(e, s.h.nextId, params, HS.Authenticating, HS.Authenticating, [], [Wire(HostApproved), Wire(caps)])
  {
    var id := s.h.nextId;
    assert ops[0..] == ops;
    AfterOpen(s, p, address, params, now);
    AfterStep(s, p, ops, 0);
    var s1 := Next(s, p, ops[0]);
    AfterUp(s1, p, id, params, now);
    AfterStep(s1, p, ops, 1);
    var s2 := Next(s1, p, ops[1]);
    AfterHello(s2, p, id, params, now);
    AfterStep(s2, p, ops, 2);
    var s3 := Next(s2, p, ops[2]);
    caps := AfterApproval(s3, p, id, params, now);
    AfterStep(s3, p, ops, 3);
    e := Next(s3, p, ops[3]);
  }

  /** The second half: capabilities and negotiation. */
  lemma SecondHalf(s: System, p: HS.Params, ops: seq<Op>, address: seq<byte>, params: CS.ClientParams, id: nat, now: nat,
                   codec: byte, caps: Body)
    requires At(s, id, params, HS.Authenticating, HS.Authenticating, [], [Wire(HostApproved), Wire(caps)])
    requires caps.HostCapabilities? && Agreed(p, params) == Some(codec) && ops == Exchange(address, params, id, now)
    ensures var e := After(s, p, ops[4..]);
      && id in e.h.clients && e.h.clients[id].state == HS.Connected
      && id in e.links && e.links[id].client.state == HS.Connected && e.links[id].client.codec == codec
  {
    AfterApprovedRead(s, p, id, params, caps, now);
    AfterStep(s, p, ops, 4);
    var s5 := Next(s, p, ops[4]);
    AfterCapabilitiesRead(s5, p, id, params, caps, now);
    AfterStep(s5, p, ops, 5);
    var s6 := Next(s5, p, ops[5]);
    var result, perms := AfterNegotiation(s6, p, id, params, codec, now);
    AfterStep(s6, p, ops, 6);
    var s7 := Next(s6, p, ops[6]);
    AfterResultRead(s7, p, id, params, result, perms, now);
    AfterStep(s7, p, ops, 7);
    assert ops[8..] == [];
  }

  /**
   * From any state with room for one more client, the exchange connects both sides with the first host preference
   * that the client lists, provided the code verifies and there is a common codec.
   */
  lemma HandshakeCompletes(s: System, p: HS.Params, address: seq<byte>, params: CS.ClientParams, now: nat, codec: byte)
    requires s.h.nextId !in s.h.clients && |s.h.clients| < p.maxClients
    requires CodeVerified(p, params) && Agreed(p, params) == Some(codec)
    ensures var id := s.h.nextId;
      var e := After(s, p, Exchange(address, params, id, now));
      && id in e.h.clients && e.h.clients[id].state == HS.Connected
      && id in e.links && e.links[id].client.state == HS.Connected && e.links[id].client.codec == codec
  {
    var id := s.h.nextId;
    var ops := Exchange(address, params, id, now);
    var middle, caps := FirstHalf(s, p, ops, address, params, now);
    SecondHalf(middle, p, ops, address, params, id, now, codec, caps);
  }
}
