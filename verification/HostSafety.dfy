/** What the host keeps on every run, whatever its peers send. */
module HostSafety {
  import opened Bytes
  import opened ControlCodec
  import opened SessionCodes
  import opened HostSessions

  type Clients = map<nat, Record>

  // ---------- the snapshot agrees with the table ----------

  /** What the snapshot promises: everything but the input column. */
  function Shown(row: Row): (r: Row) {
    row.(inputEnabled := true)
  }

  function ShownAll(rows: seq<Row>): (rs: seq<Row>)
    ensures |rs| == |rows|
  {
    seq(|rows|, i requires 0 <= i < |rows| => Shown(rows[i]))
  }

  ghost predicate SnapshotAgrees(h: Host) {
    ShownAll(h.snapshot) == ShownAll(Rows(h.clients, h.nextId))
  }

  /** Two tables that look the same to the user. */
  ghost predicate LookAlike(a: Clients, b: Clients) {
    a.Keys == b.Keys && forall id <- a :: Shown(RowOf(id, a[id])) == Shown(RowOf(id, b[id]))
  }

  lemma {:induction false} LookAlikeRows(a: Clients, b: Clients, n: nat)
    requires LookAlike(a, b)
    ensures ShownAll(Rows(a, n)) == ShownAll(Rows(b, n))
  {
    if n > 0 {
      LookAlikeRows(a, b, n - 1);
      var ra, rb := Rows(a, n - 1), Rows(b, n - 1);
      if n - 1 in a {
        assert n - 1 in b;
        assert ShownAll(ra + [RowOf(n - 1, a[n - 1])]) == ShownAll(ra) + [Shown(RowOf(n - 1, a[n - 1]))];
        assert ShownAll(rb + [RowOf(n - 1, b[n - 1])]) == ShownAll(rb) + [Shown(RowOf(n - 1, b[n - 1]))];
      } else {
        assert n - 1 !in b.Keys;
        assert ra + [] == ra && rb + [] == rb;
      }
    }
  }

  // ---------- who counts, and what the event stream says ----------

  /** Clients that passed the code check and are not gone. */
  ghost function Active(clients: Clients): (ids: set<nat>) {
    set id | id in clients && (clients[id].state == Authenticating || clients[id].state == Connected)
  }

  ghost function ConnectedIds(clients: Clients): (ids: set<nat>) {
    set id | id in clients && clients[id].state == Connected
  }

  /** The clients that, going by the announcements alone, are connected. */
  ghost function Live(events: seq<Row>): (ids: set<nat>) {
    if events == [] then {}
    else
      var before, last := Live(events[..|events| - 1]), events[|events| - 1];
      if last.state == Connected then before + {last.id}
      else if last.state == Disconnected then before - {last.id}
      else before
  }

  lemma LiveAppend(events: seq<Row>, row: Row)
    ensures Live(events + [row]) == if row.state == Connected then Live(events) + {row.id}
                                    else if row.state == Disconnected then Live(events) - {row.id} else Live(events)
  {
    assert (events + [row])[..|events|] == events;
  }

  /** At every point of the event stream at most `max` clients are connected. */
  ghost predicate LiveBounded(events: seq<Row>, max: nat) {
    forall k :: 0 <= k <= |events| ==> |Live(events[..k])| <= max
  }

  lemma LiveBoundedAppend(events: seq<Row>, row: Row, max: nat)
    requires LiveBounded(events, max) && |Live(events + [row])| <= max
    ensures LiveBounded(events + [row], max)
  {
    var all := events + [row];
    forall k | 0 <= k <= |all| ensures |Live(all[..k])| <= max {
      if k <= |events| {
        assert all[..k] == events[..k];
      } else {
        assert all[..k] == all;
      }
    }
  }

  ghost predicate TableInv(h: Host, p: Params) {
    && (forall id <- h.clients :: 0 < id < h.nextId && h.clients[id].state != Streaming)
    && |Active(h.clients)| <= p.maxClients
  }

  ghost predicate EventInv(h: Host, p: Params) {
    && Live(h.events) == ConnectedIds(h.clients)
    && LiveBounded(h.events, p.maxClients)
  }

  ghost predicate Inv(h: Host, p: Params) {
    TableInv(h, p) && EventInv(h, p) && SnapshotAgrees(h)
  }

  // ---------- progress: no client goes back ----------

  /** No state moves back, no id is used twice, no announcement is taken back. */
  ghost predicate Forward(h: Host, h': Host) {
    && h.events <= h'.events
    && h.nextId <= h'.nextId
    && (forall id <- h.clients :: id < h.nextId)
    && (forall id <- h.clients :: id in h'.clients ==> Rank(h.clients[id].state) <= Rank(h'.clients[id].state))
    && (forall id :: id < h.nextId && id in h'.clients ==> id in h.clients)
  }

  lemma ForwardTransitive(a: Host, b: Host, c: Host)
    requires Forward(a, b) && Forward(b, c)
    ensures Forward(a, c)
  {
  }

  // ---------- the moves ----------

  lemma SubsetSize(a: set<nat>, b: set<nat>)
    requires a <= b
    ensures |a| <= |b|
  {
    assert b == a + (b - a);
  }

  /** A change the user does not see and that leaves the state alone. */
  lemma TouchKeeps(h: Host, p: Params, clients: Clients)
    requires Inv(h, p) && LookAlike(h.clients, clients)
    ensures Inv(h.(clients := clients), p) && Forward(h, h.(clients := clients))
  {
    LookAlikeRows(h.clients, clients, h.nextId);
    assert forall id <- clients :: clients[id].state == Shown(RowOf(id, clients[id])).state == h.clients[id].state;
    assert Active(clients) == Active(h.clients);
    assert ConnectedIds(clients) == ConnectedIds(h.clients);
  }

  lemma SameMembers(clients: Clients, id: nat, r: Record)
    requires id in clients && r.state == clients[id].state
    ensures Active(clients[id := r]) == Active(clients) && ConnectedIds(clients[id := r]) == ConnectedIds(clients)
  {
  }

  /** A new name or round-trip time: the state stays and the snapshot is rebuilt. */
  lemma EditKeeps(h: Host, p: Params, id: nat, r: Record)
    requires TableInv(h, p) && EventInv(h, p) && id in h.clients && r.state == h.clients[id].state
    ensures Inv(Rebuilt(WithRecord(h, id, r)), p) && Forward(h, Rebuilt(WithRecord(h, id, r)))
    ensures TableInv(WithRecord(h, id, r), p) && EventInv(WithRecord(h, id, r), p)
  {
    SameMembers(h.clients, id, r);
  }

  lemma AcceptKeeps(h: Host, p: Params, address: seq<byte>, now: nat)
    requires Inv(h, p) && h.nextId > 0
    ensures Inv(Accepted(h, address, now), p) && Forward(h, Accepted(h, address, now))
  {
    var h' := Accepted(h, address, now);
    assert Active(h'.clients) == Active(h.clients);
    assert ConnectedIds(h'.clients) == ConnectedIds(h.clients);
  }

  /** The code check passed while the whole table fits the limit: so do the active clients. */
  lemma PromoteKeeps(h: Host, p: Params, id: nat, r: Record)
    requires TableInv(h, p) && EventInv(h, p) && id in h.clients && h.clients[id].state == Connecting
    requires r.state == Authenticating && |h.clients| <= p.maxClients
    ensures Inv(Rebuilt(WithRecord(h, id, r)), p) && Forward(h, Rebuilt(WithRecord(h, id, r)))
  {
    var clients := h.clients[id := r];
    assert clients.Keys == h.clients.Keys;
    assert |clients.Keys| == |h.clients.Keys| == |h.clients|;
    SubsetSize(Active(clients), clients.Keys);
    assert ConnectedIds(clients) == ConnectedIds(h.clients);
  }

  lemma GoneFrom(clients: Clients, id: nat, r: Record)
    requires id in clients && r.state == Disconnected
    ensures ConnectedIds(clients[id := r]) == ConnectedIds(clients) - {id}
    ensures |Active(clients[id := r])| <= |Active(clients)|
  {
    assert Active(clients[id := r]) <= Active(clients);
    SubsetSize(Active(clients[id := r]), Active(clients));
  }

  lemma DisconnectKeeps(h: Host, p: Params, id: nat)
    requires TableInv(h, p) && EventInv(h, p) && id in h.clients
    ensures Inv(Moved(h, id, Disconnected), p) && Forward(h, Moved(h, id, Disconnected))
  {
    var r := h.clients[id].(state := Disconnected);
    GoneFrom(h.clients, id, r);
    AnnouncedGone(h, p, RowOf(id, r));
  }

  /** The announcement that a client is gone. */
  lemma AnnouncedGone(h: Host, p: Params, row: Row)
    requires EventInv(h, p) && row.state == Disconnected
    ensures Live(h.events + [row]) == ConnectedIds(h.clients) - {row.id}
    ensures LiveBounded(h.events + [row], p.maxClients)
  {
    LiveAppend(h.events, row);
    LiveWithin(h, p);
    SubsetSize(Live(h.events) - {row.id}, Live(h.events));
    LiveBoundedAppend(h.events, row, p.maxClients);
  }

  lemma LiveWithin(h: Host, p: Params)
    requires EventInv(h, p)
    ensures |Live(h.events)| <= p.maxClients
  {
    assert h.events[..|h.events|] == h.events;
  }

  /** Negotiation: an active client stays active. */
  lemma ConnectKeeps(h: Host, p: Params, id: nat)
    requires TableInv(h, p) && EventInv(h, p) && id in h.clients && h.clients[id].state == Authenticating
    ensures Inv(Moved(h, id, Connected), p) && Forward(h, Moved(h, id, Connected))
  {
    var h' := Moved(h, id, Connected);
    var row := RowOf(id, h'.clients[id]);
    assert Active(h'.clients) == Active(h.clients);
    assert ConnectedIds(h'.clients) == ConnectedIds(h.clients) + {id};
    LiveAppend(h.events, row);
    assert ConnectedIds(h'.clients) <= Active(h'.clients);
    SubsetSize(ConnectedIds(h'.clients), Active(h'.clients));
    LiveBoundedAppend(h.events, row, p.maxClients);
  }

  lemma EraseKeeps(h: Host, p: Params, id: nat)
    requires TableInv(h, p) && EventInv(h, p) && (id in h.clients ==> h.clients[id].state == Disconnected)
    ensures Inv(Erased(h, id), p) && Forward(h, Erased(h, id))
  {
    assert Active((h.clients - {id})) == Active(h.clients);
    assert ConnectedIds((h.clients - {id})) == ConnectedIds(h.clients);
  }

  lemma DropKeeps(h: Host, p: Params, id: nat, reject: Option<nat>)
    requires TableInv(h, p) && EventInv(h, p) && (id !in h.clients ==> SnapshotAgrees(h))
    ensures Inv(Dropped(h, id, reject).0, p) && Forward(h, Dropped(h, id, reject).0)
    ensures id !in Dropped(h, id, reject).0.clients
  {
    if id in h.clients {
      DisconnectKeeps(h, p, id);
      var h1 := Moved(h, id, Disconnected);
      EraseKeeps(h1, p, id);
      ForwardTransitive(h, h1, Erased(h1, id));
    }
  }

  lemma CloseKeeps(h: Host, p: Params, id: nat)
    requires Inv(h, p)
    ensures Inv(Closed(h, id), p) && Forward(h, Closed(h, id))
  {
    if id in h.clients {
      var clients := h.clients - {id};
      var row := RowOf(id, h.clients[id].(state := Disconnected, rttMs := 0));
      assert Active(clients) == Active(h.clients) - {id};
      assert ConnectedIds(clients) == ConnectedIds(h.clients) - {id};
      AnnouncedGone(h, p, row);
    }
  }

  // ---------- the handlers ----------

  lemma HelloKeeps(h: Host, p: Params, id: nat, hello: Body)
    requires Inv(h, p) && hello.ClientHello?
    ensures Inv(HelloHandled(h, p, id, hello).0, p) && Forward(h, HelloHandled(h, p, id, hello).0)
  {
    if id in h.clients && h.clients[id].state == Connecting {
      var rec := h.clients[id].(name := if hello.clientName == [] then PLAYER else hello.clientName);
      var named := WithRecord(h, id, rec);
      EditKeeps(h, p, id, rec);
      assert Forward(h, named);
      if |named.clients| > p.maxClients {
        DropKeeps(named, p, id, Some(SERVER_FULL));
        ForwardTransitive(h, named, Dropped(named, id, Some(SERVER_FULL)).0);
      } else if !Verified(hello.sessionCode, p.sessionCode) {
        DropKeeps(named, p, id, Some(BAD_SESSION_CODE));
        ForwardTransitive(h, named, Dropped(named, id, Some(BAD_SESSION_CODE)).0);
      } else {
        var r := rec.(state := Authenticating, input := p.inputDefaults);
        PromoteKeeps(named, p, id, r);
        ForwardTransitive(h, named, Rebuilt(WithRecord(named, id, r)));
      }
    }
  }

  lemma CapabilitiesKeep(h: Host, p: Params, id: nat, caps: Body)
    requires Inv(h, p) && caps.ClientCapabilities?
    ensures Inv(CapabilitiesHandled(h, p, id, caps).0, p) && Forward(h, CapabilitiesHandled(h, p, id, caps).0)
  {
    if id in h.clients && h.clients[id].state == Authenticating {
      DropKeeps(h, p, id, Some(NO_COMMON_CODEC));
      ConnectKeeps(h, p, id);
    }
  }

  lemma Unmoved(h: Host, p: Params)
    requires TableInv(h, p)
    ensures Forward(h, h)
  {
  }

  lemma PongKeeps(h: Host, p: Params, id: nat, echo: nat, now: nat)
    requires Inv(h, p) && id in h.clients
    ensures Inv(PongHandled(h, id, echo, now), p) && Forward(h, PongHandled(h, id, echo, now))
  {
    EditKeeps(h, p, id, PongHandled(h, id, echo, now).clients[id]);
  }

  lemma OtherKeeps(h: Host, p: Params, id: nat, b: Body)
    requires Inv(h, p) && id in h.clients
    ensures Inv(OtherHandled(h, id, b).0, p) && Forward(h, OtherHandled(h, id, b).0)
  {
    Unmoved(h, p);
    DropKeeps(h, p, id, Some(PROTOCOL_ERROR));
  }

  lemma PingKeeps(h: Host, p: Params, id: nat, t: nat, now: nat)
    requires Inv(h, p) && id in h.clients
    ensures Inv(MessageHandled(h, p, id, Ping(t), now).0, p) && Forward(h, MessageHandled(h, p, id, Ping(t), now).0)
  {
    Unmoved(h, p);
  }

  lemma MessageKeeps(h: Host, p: Params, id: nat, b: Body, now: nat)
    requires Inv(h, p) && id in h.clients
    ensures Inv(MessageHandled(h, p, id, b, now).0, p) && Forward(h, MessageHandled(h, p, id, b, now).0)
  {
    if b.ClientHello? {
      HelloKeeps(h, p, id, b);
    } else if b.ClientCapabilities? {
      CapabilitiesKeep(h, p, id, b);
    } else if b.Ping? {
      PingKeeps(h, p, id, b.epochMs, now);
    } else if b.Pong? {
      PongKeeps(h, p, id, b.echoEpochMs, now);
    } else if b.Bye? {
      DropKeeps(h, p, id, None);
    } else {
      OtherKeeps(h, p, id, b);
    }
  }

  lemma FrameKeeps(h: Host, p: Params, id: nat, f: Frame, now: nat)
    requires Inv(h, p)
    ensures Inv(FrameHandled(h, p, id, f, now).0, p) && Forward(h, FrameHandled(h, p, id, f, now).0)
  {
    if f.UnknownType? {
      DropKeeps(h, p, id, Some(PROTOCOL_ERROR));
    } else if id in h.clients {
      var heard := WithRecord(h, id, h.clients[id].(lastActivity := now));
      TouchKeeps(h, p, heard.clients);
      if f.Malformed? {
        DropKeeps(heard, p, id, Some(PROTOCOL_ERROR));
      } else {
        MessageKeeps(heard, p, id, f.body, now);
      }
      ForwardTransitive(h, heard, FrameHandled(h, p, id, f, now).0);
    }
  }

  lemma {:induction false} DropAllKeeps(h: Host, p: Params, ids: seq<nat>)
    requires Inv(h, p)
    ensures Inv(DroppedAll(h, ids).0, p) && Forward(h, DroppedAll(h, ids).0)
  {
    if ids != [] {
      DropAllKeeps(h, p, ids[..|ids| - 1]);
      var h1, id := DroppedAll(h, ids[..|ids| - 1]).0, ids[|ids| - 1];
      DropKeeps(h1, p, id, Some(INACTIVITY_TIMEOUT));
      ForwardTransitive(h, h1, Dropped(h1, id, Some(INACTIVITY_TIMEOUT)).0);
    }
  }

  lemma {:induction false} ExpiredMembers(clients: Clients, n: nat, now: nat, id: nat)
    ensures id in Expired(clients, n, now) <==> id < n && id in clients && TimedOut(clients[id], now)
  {
    if n > 0 {
      ExpiredMembers(clients, n - 1, now, id);
    }
  }

  lemma {:induction false} DroppedAllKeys(h: Host, ids: seq<nat>, id: nat)
    ensures id in DroppedAll(h, ids).0.clients <==> id in h.clients && id !in ids
  {
    if ids != [] {
      DroppedAllKeys(h, ids[..|ids| - 1], id);
      assert ids == ids[..|ids| - 1] + [ids[|ids| - 1]];
    }
  }

  /** The timer removes exactly the clients that have been silent for longer than their state allows. */
  lemma HousekeepingDropsExactly(h: Host, p: Params, now: nat, id: nat)
    requires Inv(h, p)
    ensures id in Housekept(h, now).0.clients <==> id in h.clients && !TimedOut(h.clients[id], now)
  {
    ExpiredMembers(h.clients, h.nextId, now, id);
    DroppedAllKeys(Pinged(h, now), Expired(h.clients, h.nextId, now), id);
  }

  lemma HousekeepingKeeps(h: Host, p: Params, now: nat)
    requires Inv(h, p)
    ensures Inv(Housekept(h, now).0, p) && Forward(h, Housekept(h, now).0)
  {
    var pinged := Pinged(h, now);
    assert pinged.clients.Keys == h.clients.Keys;
    TouchKeeps(h, p, pinged.clients);
    var ids := Expired(h.clients, h.nextId, now);
    DropAllKeeps(pinged, p, ids);
    ForwardTransitive(h, pinged, DroppedAll(pinged, ids).0);
  }

  lemma ApproveKeeps(h: Host, p: Params, id: nat, accept: bool, now: nat)
    requires Inv(h, p)
    ensures Inv(Approved(h, p, id, accept, now).0, p) && Forward(h, Approved(h, p, id, accept, now).0)
  {
    Unmoved(h, p);
    if id in h.clients {
      if accept {
        TouchKeeps(h, p, h.clients[id := h.clients[id].(lastActivity := now)]);
      } else {
        DropKeeps(h, p, id, Some(REJECTED_BY_HOST));
      }
    }
  }

  lemma InputSetKeeps(h: Host, p: Params, id: nat, enableAll: bool)
    requires Inv(h, p)
    ensures Inv(InputSet(h, p, id, enableAll).0, p) && Forward(h, InputSet(h, p, id, enableAll).0)
  {
    Unmoved(h, p);
    if id in h.clients {
      TouchKeeps(h, p, InputSet(h, p, id, enableAll).0.clients);
    }
  }

  lemma KickKeeps(h: Host, p: Params, id: nat, reason: seq<byte>)
    requires Inv(h, p)
    ensures Inv(Kicked(h, id, reason).0, p) && Forward(h, Kicked(h, id, reason).0)
  {
    Unmoved(h, p);
    if id in h.clients {
      DisconnectKeeps(h, p, id);
    }
  }

  lemma StepKeeps(h: Host, p: Params, op: Op)
    requires Inv(h, p) && h.nextId > 0
    ensures Inv(Step(h, p, op).0, p) && Forward(h, Step(h, p, op).0)
  {
    match op
    case NewConnection(address, now) => AcceptKeeps(h, p, address, now);
    case Arrived(id, f, now) => FrameKeeps(h, p, id, f, now);
    case ApproveClient(id, accept, now) => ApproveKeeps(h, p, id, accept, now);
    case KickClient(id, reason) => KickKeeps(h, p, id, reason);
    case SetClientInput(id, enableAll) => InputSetKeeps(h, p, id, enableAll);
    case ConnectionClosed(id) => CloseKeeps(h, p, id);
    case Housekeeping(now) => HousekeepingKeeps(h, p, now);
  }

  // ---------- every run ----------

  /**
   * On every run, with any peers and however many sockets are pending: at most `maxClients` clients are authenticating
   * or connected, the snapshot agrees with the table in all columns but the input one, and the announcements say exactly
   * who is connected and never more than `maxClients` at a time.
   */
  lemma {:induction false} HostRuns(p: Params, ops: seq<Op>)
    ensures Inv(Run(p, ops), p) && Run(p, ops).nextId > 0
  {
    if ops == [] {
      assert Active(Start().clients) == {} && ConnectedIds(Start().clients) == {};
      assert Start().events[..0] == [];
    } else {
      HostRuns(p, ops[..|ops| - 1]);
      StepKeeps(Run(p, ops[..|ops| - 1]), p, ops[|ops| - 1]);
    }
  }

  /** Over any stretch of any run, each client's state only moves forward and a client that is gone never comes back. */
  lemma {:induction false} Lifecycle(p: Params, ops: seq<Op>, more: seq<Op>)
    ensures Forward(Run(p, ops), Run(p, ops + more))
  {
    if more == [] {
      HostRuns(p, ops);
      assert ops + more == ops;
    } else {
      var before, op := more[..|more| - 1], more[|more| - 1];
      Lifecycle(p, ops, before);
      assert (ops + more)[..|ops + more| - 1] == ops + before && (ops + more)[|ops + more| - 1] == op;
      HostRuns(p, ops + before);
      StepKeeps(Run(p, ops + before), p, op);
      ForwardTransitive(Run(p, ops), Run(p, ops + before), Run(p, ops + more));
    }
  }
}
