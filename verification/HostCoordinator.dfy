/** Player slots, handed out on the host's event stream (app/HostCoordinator.cpp, lines 172-181, 251-287 and 394-418). */
module HostCoordination {
  import HS = HostSessions
  import opened HostSafety

  const SLOTS := 4

  /** Live streams: client id to player index. */
  type Streams = map<nat, nat>

  ghost function Used(streams: Streams): (used: set<nat>) {
    set id | id in streams :: streams[id]
  }

  /** The lowest free slot, or the last one if none is free. */
  function FirstFree(used: set<nat>): (i: nat) {
    if 0 !in used then 0 else if 1 !in used then 1 else if 2 !in used then 2 else 3
  }

  /** The lowest slot that is not in use; the last one only if all four are. */
  lemma FirstFreeIsLowest(used: set<nat>)
    ensures FirstFree(used) <= 3 && forall i: nat :: i < FirstFree(used) ==> i in used
    ensures FirstFree(used) in used <==> {0, 1, 2, 3} <= used
  {
  }

  ghost function Begun(streams: Streams, id: nat, cryptoAvailable: bool): (s: Streams) {
    if id in streams || !cryptoAvailable then streams else streams[id := FirstFree(Used(streams))]
  }

  function TornDown(streams: Streams, id: nat): (s: Streams) {
    streams - {id}
  }

  ghost function Updated(streams: Streams, row: HS.Row, cryptoAvailable: bool): (s: Streams) {
    if row.state == HS.Connected then Begun(streams, row.id, cryptoAvailable)
    else if row.state == HS.Disconnected then TornDown(streams, row.id)
    else streams
  }

  // ---------- host and coordinator together ----------

  /** The host runs ahead; the coordinator has handled the first `seen` of its events. */
  datatype System = System(h: HS.Host, streams: Streams, seen: nat)

  datatype Op =
    | HostStep(op: HS.Op)
    | HandleEvent(cryptoAvailable: bool)   // the next queued event
    | UserKick(id: nat)                    // tears the stream down before the host is told

  ghost function Next(s: System, p: HS.Params, op: Op): (s': System) {
    match op
    case HostStep(op) => s.(h := HS.Step(s.h, p, op).0)
    case HandleEvent(crypto) =>
      if s.seen < |s.h.events| then s.(streams := Updated(s.streams, s.h.events[s.seen], crypto), seen := s.seen + 1) else s
    case UserKick(id) => s.(streams := TornDown(s.streams, id))
  }

  ghost function Run(p: HS.Params, ops: seq<Op>): (s: System) {
    if ops == [] then System(HS.Start(), map[], 0) else Next(Run(p, ops[..|ops| - 1]), p, ops[|ops| - 1])
  }

  ghost predicate Distinct(streams: Streams) {
    && (forall id <- streams :: streams[id] < SLOTS)
    && (forall a, b :: a in streams && b in streams && a != b ==> streams[a] != streams[b])
  }

  ghost predicate Inv(s: System, p: HS.Params) {
    && HostSafety.Inv(s.h, p) && s.h.nextId > 0
    && s.seen <= |s.h.events|
    && s.streams.Keys <= Live(s.h.events[..s.seen])
    && Distinct(s.streams)
  }

  lemma {:induction false} UsedSize(streams: Streams)
    ensures |Used(streams)| <= |streams|
  {
    if streams == map[] {
      assert Used(streams) == {};
    } else {
      var id :| id in streams;
      var rest := streams - {id};
      assert rest.Keys == streams.Keys - {id};
      assert |rest| == |rest.Keys| && |streams| == |streams.Keys|;
      UsedSize(rest);
      forall v | v in Used(streams) ensures v in Used(rest) + {streams[id]} {
        var k :| k in streams && streams[k] == v;
        assert k != id ==> k in rest && rest[k] == v;
      }
      SubsetSize(Used(streams), Used(rest) + {streams[id]});
    }
  }

  /** With fewer than four live streams a slot is free, and the first free one is free. */
  lemma FreeSlot(streams: Streams)
    requires |streams| < SLOTS
    ensures FirstFree(Used(streams)) !in Used(streams) && FirstFree(Used(streams)) < SLOTS
  {
    UsedSize(streams);
    if FirstFree(Used(streams)) in Used(streams) {
      var all: set<nat> := {0, 1, 2, 3};
      assert all <= Used(streams);
      SubsetSize(all, Used(streams));
    }
  }

  lemma AnnouncedMakesRoom(streams: Streams, before: seq<HS.Row>, row: HS.Row, bound: nat)
    requires streams.Keys <= Live(before) && row.state == HS.Connected && row.id !in streams
    requires |Live(before + [row])| <= bound
    ensures |streams| < bound
  {
    LiveAppend(before, row);
    SubsetSize(streams.Keys + {row.id}, Live(before + [row]));
    assert |streams| == |streams.Keys|;
  }

  lemma LiveAtMost(h: HS.Host, p: HS.Params, n: nat)
    requires HostSafety.EventInv(h, p) && n <= |h.events|
    ensures |Live(h.events[..n])| <= p.maxClients
  {
  }

  lemma SeenNext(events: seq<HS.Row>, n: nat)
    requires n < |events|
    ensures events[..n + 1] == events[..n] + [events[n]]
  {
  }

  /** When a client is announced as connected and has no stream yet, fewer than four others are live. */
  lemma RoomWhenAnnounced(s: System, p: HS.Params)
    requires Inv(s, p) && p.maxClients <= SLOTS && s.seen < |s.h.events|
    requires var row := s.h.events[s.seen]; row.state == HS.Connected && row.id !in s.streams
    ensures |s.streams| < SLOTS
  {
    SeenNext(s.h.events, s.seen);
    LiveAtMost(s.h, p, s.seen + 1);
    AnnouncedMakesRoom(s.streams, s.h.events[..s.seen], s.h.events[s.seen], p.maxClients);
  }

  /** An announcement begins a stream for a connected client if cryptography is there, and ends that of a disconnected one. */
  lemma AnnouncedExactly(streams: Streams, row: HS.Row, crypto: bool, id: nat)
    ensures id in Updated(streams, row, crypto) <==>
      if row.id == id && row.state == HS.Connected then id in streams || crypto
      else if row.id == id && row.state == HS.Disconnected then false
      else id in streams
    ensures id in streams && id in Updated(streams, row, crypto) ==> Updated(streams, row, crypto)[id] == streams[id]
  {
  }

  /** Nothing but announcements, handled with cryptography at hand. */
  ghost predicate Undisturbed(ops: seq<Op>) {
    forall op <- ops :: !op.UserKick? && (op.HandleEvent? ==> op.cryptoAvailable)
  }

  lemma UpdatedIsLive(streams: Streams, before: seq<HS.Row>, row: HS.Row)
    requires streams.Keys == Live(before)
    ensures Updated(streams, row, true).Keys == Live(before + [row])
  {
    LiveAppend(before, row);
  }

  lemma HostStepKeepsSeen(h: HS.Host, p: HS.Params, op: HS.Op, n: nat)
    requires HostSafety.Inv(h, p) && h.nextId > 0 && n <= |h.events|
    ensures var h' := HS.Step(h, p, op).0; n <= |h'.events| && h'.events[..n] == h.events[..n]
  {
    StepKeeps(h, p, op);
  }

  lemma NextIsLive(s: System, p: HS.Params, op: Op)
    requires HostSafety.Inv(s.h, p) && s.h.nextId > 0 && s.seen <= |s.h.events|
    requires s.streams.Keys == Live(s.h.events[..s.seen]) && !op.UserKick? && (op.HandleEvent? ==> op.cryptoAvailable)
    ensures var s' := Next(s, p, op); s'.seen <= |s'.h.events| && s'.streams.Keys == Live(s'.h.events[..s'.seen])
  {
    if op.HostStep? {
      HostStepKeepsSeen(s.h, p, op.op, s.seen);
    } else if s.seen < |s.h.events| {
      SeenNext(s.h.events, s.seen);
      UpdatedIsLive(s.streams, s.h.events[..s.seen], s.h.events[s.seen]);
    }
  }

  /** On such a run exactly the clients announced as connected have streams. */
  lemma {:induction false} StreamsAreLive(p: HS.Params, ops: seq<Op>)
    requires Undisturbed(ops) && p.maxClients <= SLOTS
    ensures var s := Run(p, ops); s.seen <= |s.h.events| && s.streams.Keys == Live(s.h.events[..s.seen])
  {
    if ops != [] {
      var before, op := ops[..|ops| - 1], ops[|ops| - 1];
      assert op in ops && forall x <- before :: x in ops;
      StreamsAreLive(p, before);
      SlotsStayDistinct(p, before);
      NextIsLive(Run(p, before), p, op);
    }
  }

  lemma BegunStaysDistinct(streams: Streams, id: nat)
    requires Distinct(streams) && id !in streams && |streams| < SLOTS
    ensures Distinct(streams[id := FirstFree(Used(streams))])
  {
    FreeSlot(streams);
    assert forall k <- streams :: streams[k] in Used(streams);
  }

  lemma HandleEventKeeps(s: System, p: HS.Params, crypto: bool)
    requires Inv(s, p) && p.maxClients <= SLOTS && s.seen < |s.h.events|
    ensures Inv(Next(s, p, HandleEvent(crypto)), p)
  {
    var before, row := s.h.events[..s.seen], s.h.events[s.seen];
    assert row.state == HS.Connected && row.id !in s.streams ==> |s.streams| < SLOTS by {
      if row.state == HS.Connected && row.id !in s.streams {
        RoomWhenAnnounced(s, p);
      }
    }
    UpdatedStaysDistinct(s.streams, before, row, crypto);
    assert s.h.events[..s.seen + 1] == before + [row] by {
      SeenNext(s.h.events, s.seen);
    }
    assert Next(s, p, HandleEvent(crypto)) == s.(streams := Updated(s.streams, row, crypto), seen := s.seen + 1);
  }

  lemma UpdatedStaysDistinct(streams: Streams, before: seq<HS.Row>, row: HS.Row, crypto: bool)
    requires Distinct(streams) && streams.Keys <= Live(before)
    requires row.state == HS.Connected && row.id !in streams ==> |streams| < SLOTS
    ensures Distinct(Updated(streams, row, crypto)) && Updated(streams, row, crypto).Keys <= Live(before + [row])
  {
    LiveAppend(before, row);
    if row.state == HS.Connected && row.id !in streams {
      BegunStaysDistinct(streams, row.id);
    }
  }

  lemma NextKeeps(s: System, p: HS.Params, op: Op)
    requires Inv(s, p) && p.maxClients <= SLOTS
    ensures Inv(Next(s, p, op), p)
  {
    match op
    case HostStep(hop) =>
      StepKeeps(s.h, p, hop);
      HostStepKeepsSeen(s.h, p, hop, s.seen);
    case HandleEvent(crypto) =>
      if s.seen < |s.h.events| {
        HandleEventKeeps(s, p, crypto);
      }
    case UserKick(id) =>
  }

  /**
   * On every run of host and coordinator, with at most four clients allowed, all live streams have distinct player
   * indices in 0..3, and whenever a stream is begun there is a free slot, so the fallback to slot 3 is never taken.
   */
  lemma {:induction false} SlotsStayDistinct(p: HS.Params, ops: seq<Op>)
    requires p.maxClients <= SLOTS
    ensures var s := Run(p, ops);
      && Inv(s, p)
      && Distinct(s.streams)
      && (s.seen < |s.h.events| && s.h.events[s.seen].state == HS.Connected && s.h.events[s.seen].id !in s.streams ==>
          FirstFree(Used(s.streams)) !in Used(s.streams))
  {
    if ops == [] {
      HostRuns(p, []);
      assert HS.Run(p, []) == HS.Start();
    } else {
      SlotsStayDistinct(p, ops[..|ops| - 1]);
      NextKeeps(Run(p, ops[..|ops| - 1]), p, ops[|ops| - 1]);
    }
    var s := Run(p, ops);
    if s.seen < |s.h.events| && s.h.events[s.seen].state == HS.Connected && s.h.events[s.seen].id !in s.streams {
      RoomWhenAnnounced(s, p);
      FreeSlot(s.streams);
    }
  }

  // ---------- the object ----------

  class HostCoordinator {
    var streams: Streams

    constructor ()
      ensures streams == map[]
    {
      streams := map[];
    }

    /** Marks the slots in use in a local array and takes the first that is free. */
    method AssignPlayerIndex() returns (index: nat)
      ensures index == FirstFree(Used(streams))
    {
      var used := new bool[SLOTS](_ => false);
      var rest := streams.Keys;
      while rest != {}
        invariant rest <= streams.Keys
        invariant forall i :: 0 <= i < SLOTS ==> (used[i] <==> exists id :: id in streams && id !in rest && streams[id] == i)
      {
        var id :| id in rest;
        if streams[id] < SLOTS {
          used[streams[id]] := true;
        }
        rest := rest - {id};
      }
      assert forall i :: 0 <= i < SLOTS ==> (used[i] <==> i in Used(streams));
      for i := 0 to SLOTS
        invariant forall k :: 0 <= k < i ==> used[k]
      {
        if !used[i] {
          return i;
        }
      }
      return 3;
    }

    method OnClientUpdated(row: HS.Row, cryptoAvailable: bool)
      modifies this
      ensures streams == Updated(old(streams), row, cryptoAvailable)
    {
      if row.state == HS.Connected {
        if row.id in streams {
          return;
        }
        var index := AssignPlayerIndex();
        if !cryptoAvailable {
          return;
        }
        streams := streams[row.id := index];
      } else if row.state == HS.Disconnected {
        streams := streams - {row.id};
      }
    }
  }
}
