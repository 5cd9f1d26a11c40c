/** The host session as an object: its table changed in place by the handlers (host/HostSession.cpp, lines 134-206 and 243-580). */
module HostObject {
  import opened Bytes
  import opened ControlCodec
  import opened SessionCodes
  import opened InputPermissions
  import opened HostSessions
  import opened HostSafety

  class HostSession {
    const params: Params
    var clients: map<nat, Record>
    var nextClientId: nat
    var snapshot: seq<Row>
    /** Rows passed to the client-updated callback, in order. */
    ghost var events: seq<Row>

    ghost function State(): (h: Host)
      reads this
    {
      Host(clients, nextClientId, snapshot, events)
    }

    /** What every run keeps: the limit on active clients, the snapshot, and announcements that agree with the table. */
    ghost predicate Valid()
      reads this
    {
      Inv(State(), params) && nextClientId > 0
    }

    constructor (params: Params)
      ensures Valid() && this.params == params && State() == Start()
    {
      this.params := params;
      clients, nextClientId, snapshot := map[], 1, [];
      events := [];
      new;
      HostRuns(params, []);
    }

    method RebuildSnapshot()
      modifies this`snapshot
      ensures State() == Rebuilt(old(State()))
    {
      snapshot := [];
      for id := 0 to nextClientId
        invariant snapshot == Rows(clients, id)
      {
        if id in clients {
          snapshot := snapshot + [RowOf(id, clients[id])];
        }
      }
    }

    method SetState(id: nat, state: ConnectionState)
      modifies this
      ensures State() == Moved(old(State()), id, state)
    {
      if id in clients {
        clients := clients[id := clients[id].(state := state)];
        RebuildSnapshot();
        events := events + [RowOf(id, clients[id])];
      }
    }

    method DropClient(id: nat, reject: Option<nat>) returns (outs: seq<Out>)
      modifies this
      ensures (State(), outs) == Dropped(old(State()), id, reject)
    {
      outs := [];
      if id !in clients {
        return;
      }
      if reject.Some? {
        outs := [SendAndClose(id, HostReject(reject.value, []))];
      } else {
        outs := [CloseNow(id)];
      }
      SetState(id, Disconnected);
      clients := clients - {id};
      RebuildSnapshot();
    }

    method HandleNewConnection(address: seq<byte>, now: nat)
      requires Valid()
      modifies this
      ensures Valid() && Forward(old(State()), State())
      ensures State() == Accepted(old(State()), address, now)
    {
      AcceptKeeps(State(), params, address, now);
      var id := nextClientId;
      nextClientId := nextClientId + 1;
      clients := clients[id := Record(PENDING, Connecting, now, 0, Permissions(true, false, false, true), 0, address)];
      RebuildSnapshot();
    }

    method ApproveClient(id: nat, accept: bool, now: nat) returns (outs: seq<Out>)
      requires Valid()
      modifies this
      ensures Valid() && Forward(old(State()), State())
      ensures (State(), outs) == Approved(old(State()), params, id, accept, now)
    {
      ApproveKeeps(State(), params, id, accept, now);
      outs := [];
      if id !in clients || clients[id].state != Authenticating {
        return;
      }
      if !accept {
        outs := DropClient(id, Some(REJECTED_BY_HOST));
        return;
      }
      outs := [Send(id, HostApproved),
               Send(id, HostCapabilities(params.hostName, params.gameName, params.captureMode, params.width % 0x1_0000,
                                         params.height % 0x1_0000, Min(params.fps, 255), params.bitrateKbps,
                                         OfferedCodecs(params)))];
      clients := clients[id := clients[id].(lastActivity := now)];
    }

    method KickClient(id: nat, reason: seq<byte>) returns (outs: seq<Out>)
      requires Valid()
      modifies this
      ensures Valid() && Forward(old(State()), State())
      ensures (State(), outs) == Kicked(old(State()), id, reason)
    {
      KickKeeps(State(), params, id, reason);
      outs := [];
      if id in clients {
        outs := [SendAndClose(id, Kick(reason))];
        SetState(id, Disconnected);
      }
    }

    method SetClientInput(id: nat, enableAll: bool) returns (outs: seq<Out>)
      requires Valid()
      modifies this`clients
      ensures Valid() && Forward(old(State()), State())
      ensures (State(), outs) == InputSet(old(State()), params, id, enableAll)
    {
      InputSetKeeps(State(), params, id, enableAll);
      outs := [];
      if id in clients {
        var input := if enableAll then params.inputDefaults else Permissions(false, false, false, false);
        clients := clients[id := clients[id].(input := input)];
        outs := [PermissionPush(id, clients[id])];
      }
    }

    method HandleFrame(id: nat, f: Frame, now: nat) returns (outs: seq<Out>)
      requires Valid()
      modifies this
      ensures Valid() && Forward(old(State()), State())
      ensures (State(), outs) == FrameHandled(old(State()), params, id, f, now)
    {
      FrameKeeps(State(), params, id, f, now);
      if f.UnknownType? {
        outs := DropClient(id, Some(PROTOCOL_ERROR));
        return;
      }
      if id !in clients {
        return [];
      }
      clients := clients[id := clients[id].(lastActivity := now)];
      if f.Malformed? {
        outs := DropClient(id, Some(PROTOCOL_ERROR));
        return;
      }
      TouchKeeps(old(State()), params, clients);
      outs := Dispatch(id, f.body, now);
    }

    method Dispatch(id: nat, b: Body, now: nat) returns (outs: seq<Out>)
      requires Valid() && id in clients
      modifies this
      ensures (State(), outs) == MessageHandled(old(State()), params, id, b, now)
    {
      match b
      case ClientHello(_, _, _) => outs := HandleClientHello(id, b);
      case ClientCapabilities(_) => outs := HandleClientCapabilities(id, b);
      case _ => outs := DispatchRest(id, b, now);
    }

    method DispatchRest(id: nat, b: Body, now: nat) returns (outs: seq<Out>)
      requires Valid() && id in clients && !b.ClientHello? && !b.ClientCapabilities?
      modifies this
      ensures (State(), outs) == MessageHandled(old(State()), params, id, b, now)
    {
      if b.Ping? {
        outs := [Send(id, Pong(b.epochMs))];
      } else if b.Pong? {
        HandlePong(id, b.echoEpochMs, now);
        outs := [];
      } else if b.Bye? {
        outs := DropClient(id, None);
      } else {
        outs := HandleOther(id, b);
      }
    }

    method HandleOther(id: nat, b: Body) returns (outs: seq<Out>)
      requires Valid() && id in clients
      modifies this
      ensures Valid() && Forward(old(State()), State())
      ensures (State(), outs) == OtherHandled(old(State()), id, b)
    {
      OtherKeeps(State(), params, id, b);
      if IdOf(b) >= 0x10 && clients[id].state == Connected {
        return [];
      }
      outs := DropClient(id, Some(PROTOCOL_ERROR));
    }

    method HandleClientHello(id: nat, hello: Body) returns (outs: seq<Out>)
      requires Valid() && hello.ClientHello?
      modifies this
      ensures Valid() && Forward(old(State()), State())
      ensures (State(), outs) == HelloHandled(old(State()), params, id, hello)
    {
      HelloKeeps(State(), params, id, hello);
      if id !in clients || clients[id].state != Connecting {
        return [];
      }
      clients := clients[id := clients[id].(name := if hello.clientName == [] then PLAYER else hello.clientName)];
      if |clients| > params.maxClients {
        outs := DropClient(id, Some(SERVER_FULL));
        return;
      }
      if !Verified(hello.sessionCode, params.sessionCode) {
        outs := DropClient(id, Some(BAD_SESSION_CODE));
        return;
      }
      clients := clients[id := clients[id].(state := Authenticating, input := params.inputDefaults)];
      RebuildSnapshot();
      outs := [];
    }

    method HandleClientCapabilities(id: nat, caps: Body) returns (outs: seq<Out>)
      requires Valid() && caps.ClientCapabilities?
      modifies this
      ensures Valid() && Forward(old(State()), State())
      ensures (State(), outs) == CapabilitiesHandled(old(State()), params, id, caps)
    {
      CapabilitiesKeep(State(), params, id, caps);
      if id !in clients || clients[id].state != Authenticating {
        return [];
      }
      var negotiated := NegotiateCodec([params.preferredCodec, H264], caps.supportedCodecs);
      if negotiated.None? {
        var drop := DropClient(id, Some(NO_COMMON_CODEC));
        return [Send(id, NegotiationResult(false, 0, 1920, 1080, 60, 8000, []))] + drop;
      }
      SetState(id, Connected);
      return [Send(id, NegotiationResult(true, negotiated.value, params.width % 0x1_0000, params.height % 0x1_0000,
                                         Min(params.fps, 255), params.bitrateKbps, [])),
              PermissionPush(id, clients[id])];
    }

    method HandlePong(id: nat, echo: nat, now: nat)
      requires Valid()
      modifies this
      ensures Valid() && Forward(old(State()), State())
      ensures State() == PongHandled(old(State()), id, echo, now)
    {
      if id in clients {
        PongKeeps(State(), params, id, echo, now);
        var sample := (now - echo) % 0x1_0000_0000;
        var rec := clients[id];
        var rtt := if rec.rttMs == 0 then sample else (rec.rttMs * 7 + sample) % 0x1_0000_0000 / 8;
        clients := clients[id := rec.(rttMs := rtt)];
        RebuildSnapshot();
      }
    }

    method HandleClientClosed(id: nat)
      requires Valid()
      modifies this
      ensures Valid() && Forward(old(State()), State())
      ensures State() == Closed(old(State()), id)
    {
      CloseKeeps(State(), params, id);
      if id in clients {
        ghost var row := RowOf(id, clients[id].(state := Disconnected, rttMs := 0));
        clients := clients - {id};
        RebuildSnapshot();
        events := events + [row];
      }
    }

    /** One pass over the table collects what to drop and sends the pings; a second loop drops. */
    method Housekeep(now: nat) returns (outs: seq<Out>)
      requires Valid()
      modifies this
      ensures Valid() && Forward(old(State()), State())
      ensures (State(), outs) == Housekept(old(State()), now)
    {
      HousekeepingKeeps(State(), params, now);
      var toDrop, pings := Sweep(now);
      var drops := DropAll(toDrop);
      outs := pings + drops;
    }

    method Sweep(now: nat) returns (toDrop: seq<nat>, pings: seq<Out>)
      requires forall id <- clients :: id < nextClientId
      modifies this`clients
      ensures State() == Pinged(old(State()), now)
      ensures toDrop == Expired(old(clients), nextClientId, now) && pings == Pings(old(clients), nextClientId, now)
    {
      toDrop, pings := [], [];
      for id := 0 to nextClientId
        invariant toDrop == Expired(old(clients), id, now) && pings == Pings(old(clients), id, now)
        invariant clients == PingedBelow(old(clients), id, now)
      {
        PingedNext(old(clients), id, now);
        if id in clients {
          if TimedOut(clients[id], now) {
            toDrop := toDrop + [id];
          }
          if PingDue(clients[id], now) {
            clients := clients[id := clients[id].(lastHostPing := now)];
            pings := pings + [Send(id, Ping(now % 0x1_0000_0000))];
          }
        }
      }
      assert clients == Pinged(old(State()), now).clients;
    }

    method DropAll(ids: seq<nat>) returns (outs: seq<Out>)
      modifies this
      ensures (State(), outs) == DroppedAll(old(State()), ids)
    {
      outs := [];
      for i := 0 to |ids|
        invariant (State(), outs) == DroppedAll(old(State()), ids[..i])
      {
        assert ids[..i + 1][..i] == ids[..i];
        var more := DropClient(ids[i], Some(INACTIVITY_TIMEOUT));
        outs := outs + more;
      }
      assert ids[..|ids|] == ids;
    }
  }
}
