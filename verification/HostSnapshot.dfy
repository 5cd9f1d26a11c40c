/** When the snapshot shows the table in every column, the input column included (host/HostSession.cpp, lines 190-206 and 498-511). */
module HostSnapshot {
  import opened ControlCodec
  import opened HostSessions
  import opened HostSafety

  ghost predicate FullyAgrees(h: Host) {
    h.snapshot == Rows(h.clients, h.nextId)
  }

  /** The input column of a record. */
  predicate Enabled(r: Record) {
    r.input.controller || r.input.keyboard || r.input.mouse
  }

  // ---------- rows and records ----------

  lemma {:induction false} SameRows(a: Clients, b: Clients, n: nat)
    requires a.Keys == b.Keys && forall id <- a :: id < n ==> RowOf(id, a[id]) == RowOf(id, b[id])
    ensures Rows(a, n) == Rows(b, n)
  {
    if n > 0 {
      SameRows(a, b, n - 1);
      assert n - 1 in a.Keys <==> n - 1 in b.Keys;
    }
  }

  lemma {:induction false} RowsDetermine(a: Clients, b: Clients, n: nat, id: nat)
    requires a.Keys == b.Keys && Rows(a, n) == Rows(b, n) && id in a && id < n
    ensures RowOf(id, a[id]) == RowOf(id, b[id])
  {
    assert n - 1 in a.Keys <==> n - 1 in b.Keys;
    var ra, rb := Rows(a, n - 1), Rows(b, n - 1);
    if n - 1 in a {
      assert Rows(a, n) == ra + [RowOf(n - 1, a[n - 1])] && Rows(b, n) == rb + [RowOf(n - 1, b[n - 1])];
      assert Rows(a, n)[..|Rows(a, n)| - 1] == ra && Rows(b, n)[..|Rows(b, n)| - 1] == rb;
      assert Rows(a, n)[|Rows(a, n)| - 1] == Rows(b, n)[|Rows(b, n)| - 1];
    } else {
      assert Rows(a, n) == ra && Rows(b, n) == rb;
    }
    if id < n - 1 {
      RowsDetermine(a, b, n - 1, id);
    }
  }

  /** The snapshot's rows: exactly one for each client, with its name, state, round-trip time, input and address. */
  lemma {:induction false} RowsExactly(clients: Clients, n: nat, row: Row)
    ensures row in Rows(clients, n) <==>
      && row.id < n && row.id in clients
      && var r := clients[row.id];
        && row.name == r.name && row.state == r.state && row.rttMs == r.rttMs && row.address == r.address
        && row.inputEnabled == Enabled(r)
  {
    if n > 0 {
      RowsExactly(clients, n - 1, row);
      var last := if n - 1 in clients then [RowOf(n - 1, clients[n - 1])] else [];
      assert Rows(clients, n) == Rows(clients, n - 1) + last;
    }
  }

  /** They stand in ascending order of their ids. */
  lemma {:induction false} RowsAscend(clients: Clients, n: nat)
    ensures forall i, j :: 0 <= i < j < |Rows(clients, n)| ==> Rows(clients, n)[i].id < Rows(clients, n)[j].id
  {
    if n > 0 {
      RowsAscend(clients, n - 1);
      var before := Rows(clients, n - 1);
      forall i | 0 <= i < |before| ensures before[i].id < n - 1 {
        RowsExactly(clients, n - 1, before[i]);
      }
    }
  }

  // ---------- what one step does to the snapshot ----------

  /** The guards of the branches that rebuild the snapshot. */
  predicate Rebuilds(h: Host, op: Op) {
    match op
    case NewConnection(_, _) => true
    case Arrived(id, f, _) => id in h.clients && (!f.Decoded? || MessageRebuilds(h.clients[id].state, f.body))
    case ApproveClient(id, accept, _) => id in h.clients && h.clients[id].state == Authenticating && !accept
    case KickClient(id, _) => id in h.clients
    case SetClientInput(_, _) => false
    case ConnectionClosed(id) => id in h.clients
    case Housekeeping(now) => exists id <- h.clients :: TimedOut(h.clients[id], now)
  }

  predicate MessageRebuilds(state: ConnectionState, b: Body) {
    match b
    case ClientHello(_, _, _) => state == Connecting
    case ClientCapabilities(_) => state == Authenticating
    case Ping(_) => false
    case Pong(_) | Bye(_) => true
    case _ => IdOf(b) < 0x10 || state != Connected
  }

  /** The snapshot stays, and so does what it should show. */
  ghost predicate Unshown(h: Host, h': Host) {
    && h'.snapshot == h.snapshot && h'.nextId == h.nextId && h'.clients.Keys == h.clients.Keys
    && forall id <- h.clients :: RowOf(id, h'.clients[id]) == RowOf(id, h.clients[id])
  }

  lemma MessageSnapshot(h: Host, p: Params, id: nat, b: Body, now: nat)
    requires id in h.clients
    ensures var h' := MessageHandled(h, p, id, b, now).0;
      if MessageRebuilds(h.clients[id].state, b) then FullyAgrees(h') else Unshown(h, h')
  {
  }

  lemma {:induction false} DropAllSnapshot(h: Host, ids: seq<nat>)
    requires FullyAgrees(h) || exists id <- ids :: id in h.clients
    ensures FullyAgrees(DroppedAll(h, ids).0)
  {
    if ids != [] {
      var before, last := ids[..|ids| - 1], ids[|ids| - 1];
      if FullyAgrees(h) || exists id <- before :: id in h.clients {
        DropAllSnapshot(h, before);
      } else {
        assert ids == before + [last];
        DroppedAllKeys(h, before, last);
      }
    }
  }

  lemma HousekeepingSnapshot(h: Host, p: Params, now: nat)
    requires TableInv(h, p)
    ensures var h' := Housekept(h, now).0;
      if Rebuilds(h, Housekeeping(now)) then FullyAgrees(h') else Unshown(h, h')
  {
    var ids := Expired(h.clients, h.nextId, now);
    if Rebuilds(h, Housekeeping(now)) {
      var id :| id in h.clients && TimedOut(h.clients[id], now);
      ExpiredMembers(h.clients, h.nextId, now, id);
      assert id in Pinged(h, now).clients;
      DropAllSnapshot(Pinged(h, now), ids);
    } else {
      if ids != [] {
        ExpiredMembers(h.clients, h.nextId, now, ids[0]);
      }
      assert ids == [];
    }
  }

  lemma StepSnapshot(h: Host, p: Params, op: Op)
    requires TableInv(h, p) && !op.SetClientInput?
    ensures var h' := Step(h, p, op).0;
      if Rebuilds(h, op) then FullyAgrees(h') else Unshown(h, h')
  {
    match op
    case Arrived(id, f, now) =>
      if id in h.clients && f.Decoded? {
        MessageSnapshot(WithRecord(h, id, h.clients[id].(lastActivity := now)), p, id, f.body, now);
      }
    case Housekeeping(now) => HousekeepingSnapshot(h, p, now);
    case _ =>
  }

  // ---------- the exact condition, step by step ----------

  lemma UnshownAgrees(h: Host, h': Host, p: Params)
    requires TableInv(h, p) && Unshown(h, h')
    ensures FullyAgrees(h') <==> FullyAgrees(h)
  {
    SameRows(h.clients, h'.clients, h.nextId);
  }

  /** The one branch that changes a shown column and does not rebuild. */
  ghost predicate FlipsUnseen(h: Host, p: Params, op: Op) {
    op.SetClientInput? && op.id in h.clients &&
    Enabled(h.clients[op.id]) != (op.enableAll && (p.inputDefaults.controller || p.inputDefaults.keyboard || p.inputDefaults.mouse))
  }

  /**
   * From a state whose snapshot shows everything, a step leaves it so exactly when it is not a `setClientInput` that
   * turns a client's input column over.
   */
  lemma StepStaysExact(h: Host, p: Params, op: Op)
    requires TableInv(h, p) && FullyAgrees(h)
    ensures FullyAgrees(Step(h, p, op).0) <==> !FlipsUnseen(h, p, op)
  {
    var h' := Step(h, p, op).0;
    if !op.SetClientInput? {
      StepSnapshot(h, p, op);
      if !Rebuilds(h, op) {
        UnshownAgrees(h, h', p);
      }
    } else if op.id in h.clients {
      assert h'.clients.Keys == h.clients.Keys;
      if FlipsUnseen(h, p, op) {
        if FullyAgrees(h') {
          RowsDetermine(h.clients, h'.clients, h.nextId, op.id);
        }
      } else {
        SameRows(h.clients, h'.clients, h.nextId);
      }
    }
  }

  // ---------- the exact condition, over a run ----------

  /** How many steps of the run had been made when the snapshot was last rebuilt. */
  function LastRebuild(p: Params, ops: seq<Op>): (k: nat)
    ensures k <= |ops|
  {
    if ops == [] then 0
    else
      var before := ops[..|ops| - 1];
      if Rebuilds(Run(p, before), ops[|ops| - 1]) then |ops| else LastRebuild(p, before)
  }

  /** `h0` is the state at the last rebuild: what it showed is on display, and only input columns differ since. */
  ghost predicate Displays(h: Host, h0: Host) {
    h.snapshot == Rows(h0.clients, h.nextId) && h.nextId == h0.nextId && LookAlike(h.clients, h0.clients)
  }

  lemma QuietStepDisplays(h: Host, h0: Host, p: Params, op: Op)
    requires TableInv(h, p) && Displays(h, h0) && !Rebuilds(h, op)
    ensures Displays(Step(h, p, op).0, h0)
  {
    var h' := Step(h, p, op).0;
    if !op.SetClientInput? {
      StepSnapshot(h, p, op);
    } else if op.id in h.clients {
      assert h'.clients.Keys == h.clients.Keys;
    }
  }

  lemma {:induction false} SinceRebuild(p: Params, ops: seq<Op>)
    ensures var h, h0 := Run(p, ops), Run(p, ops[..LastRebuild(p, ops)]);
      Displays(h, h0)
  {
    if ops != [] {
      var before, op := ops[..|ops| - 1], ops[|ops| - 1];
      SinceRebuild(p, before);
      HostRuns(p, before);
      var h := Run(p, before);
      if Rebuilds(h, op) {
        StepSnapshot(h, p, op);
        assert ops[..|ops|] == ops;
      } else {
        var k := LastRebuild(p, before);
        assert ops[..k] == before[..k];
        QuietStepDisplays(h, Run(p, ops[..k]), p, op);
      }
    } else {
      assert ops[..0] == ops;
    }
  }

  /**
   * On every run the snapshot shows the whole table exactly when each client's input column is what it was when the
   * snapshot was last rebuilt.
   */
  lemma SnapshotExactly(p: Params, ops: seq<Op>)
    ensures var h, h0 := Run(p, ops), Run(p, ops[..LastRebuild(p, ops)]);
      && h.clients.Keys == h0.clients.Keys
      && (FullyAgrees(h) <==> forall id <- h.clients :: Enabled(h.clients[id]) == Enabled(h0.clients[id]))
  {
    SinceRebuild(p, ops);
    HostRuns(p, ops);
    var h, h0 := Run(p, ops), Run(p, ops[..LastRebuild(p, ops)]);
    forall id | id in h.clients && Enabled(h.clients[id]) == Enabled(h0.clients[id])
      ensures RowOf(id, h.clients[id]) == RowOf(id, h0.clients[id])
    {
      assert Shown(RowOf(id, h.clients[id])) == Shown(RowOf(id, h0.clients[id]));
    }
    if FullyAgrees(h) {
      forall id | id in h.clients ensures Enabled(h.clients[id]) == Enabled(h0.clients[id]) {
        RowsDetermine(h.clients, h0.clients, h.nextId, id);
      }
    } else if forall id <- h.clients :: Enabled(h.clients[id]) == Enabled(h0.clients[id]) {
      SameRows(h.clients, h0.clients, h.nextId);
    }
  }

  /** One connection whose input is then disabled: the row still says enabled. */
  lemma DisabledStillShown(p: Params)
    ensures var h := Run(p, [NewConnection([], 0), SetClientInput(1, false)]);
      h.snapshot != Rows(h.clients, h.nextId) && 1 in h.clients && !Enabled(h.clients[1])
  {
    var ops := [NewConnection([], 0), SetClientInput(1, false)];
    var first := ops[..1];
    assert ops[..|ops| - 1] == first && first[..0] == [];
    HostRuns(p, first);
    var h := Run(p, first);
    assert h == Accepted(Start(), [], 0);
    StepStaysExact(h, p, SetClientInput(1, false));
  }
}
