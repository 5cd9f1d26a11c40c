/**
 * What becomes of a frame whose fragments all arrive: the run of `MediaSafety` seen as a trace of fragments and a run of
 * the jitter buffer, so that completeness of reassembly and the balance of the jitter buffer meet.
 */
module MediaDelivery {
  import opened Bytes
  import opened UdpHeaders
  import opened Fragments
  import opened Reassembly
  import opened FaithfulReassembly
  import opened MediaTransport
  import opened MediaSafety
  import ST = SequenceTracking
  import JB = JitterBuffering

  const INITIAL_TARGET := 30

  // ---------- a run as a trace ----------

  /** Datagram `i` is a fragment of this type that the receiver can read. */
  ghost predicate Readable(n: Net, i: nat, kind: byte)
    requires Inv(n) && i < |n.wire|
  {
    var o := n.origin[i];
    assert WireInv(n, i);
    o.FrameFragment? && o.kind == kind && Count(n.StreamOf(kind).sent[o.sequence]) <= MAX_FRAGMENTS
  }

  /** The step lets a fragment of this type in. */
  ghost predicate LetsIn(n: Net, op: Op, kind: byte)
    requires Inv(n)
  {
    op.Arrive? && op.i < |n.wire| && Readable(n, op.i, kind)
  }

  ghost function PieceOf(n: Net, op: Op): (p: Piece)
    requires Inv(n) && op.Arrive? && op.i < |n.wire| && n.origin[op.i].FrameFragment?
  {
    Piece(n.origin[op.i].sequence, n.origin[op.i].index)
  }

  /** What the last fragment of a trace completes. */
  ghost function Completion(sent: map<nat, Frame>, trace: seq<Piece>): (out: Option<Frame>) {
    if trace != [] && Sound(sent, trace) then OutputOf(sent, trace) else None
  }

  ghost function PushOf(out: Option<Frame>, targetMs: nat, nowNs: nat): (jops: seq<JB.Op>) {
    if out.Some? then [JB.SetTarget(targetMs), JB.Push(out.value, nowNs)] else []
  }

  /**
   * One type of a run: its fragments in the order of their arrival, those of frames of more than 1024 fragments left out,
   * and what its jitter buffer is asked to do.
   */
  datatype History = History(trace: seq<Piece>, jops: seq<JB.Op>)

  ghost function Grown(past: History, n: Net, op: Op, kind: byte): (h: History)
    requires Inv(n)
  {
    if LetsIn(n, op, kind) then
      var trace := past.trace + [PieceOf(n, op)];
      History(trace, past.jops + PushOf(Completion(n.StreamOf(kind).sent, trace), op.targetMs, op.nowNs))
    else if op.Poll? && op.kind == kind then past.(jops := past.jops + [JB.Pop(op.nowNs)])
    else past
  }

  ghost function HistoryOf(sessionId: nat, rxSessionId: nat, ops: seq<Op>, kind: byte): (h: History)
    requires sessionId < 0x1_0000_0000
  {
    if ops == [] then History([], [])
    else
      var before := ops[..|ops| - 1];
      Grown(HistoryOf(sessionId, rxSessionId, before, kind), MediaSafety.Run(sessionId, rxSessionId, before),
            ops[|ops| - 1], kind)
  }

  // ---------- the trace and the jitter run tell the state ----------

  function SequencesOf(trace: seq<Piece>): (xs: seq<nat>) {
    seq(|trace|, i requires 0 <= i < |trace| => trace[i].sequence)
  }

  /**
   * The stream is what loss tracking and reassembly make of the trace and the jitter buffer of its completions, none left out.
   */
  ghost predicate Mirrored(s: Stream, h: History) {
    && Sound(s.sent, h.trace)
    && s.lane.tracker == ST.Run(SequencesOf(h.trace))
    && s.lane.reassembler == StateAfter(s.sent, h.trace)
    && s.lane.jitter == JB.Run(INITIAL_TARGET, h.jops).j
    && s.delivered == JB.Run(INITIAL_TARGET, h.jops).delivered
    && (forall m :: 0 < m <= |h.trace| ==> Handed(s.sent, h.trace[..m], h.jops))
  }

  ghost predicate Handed(sent: map<nat, Frame>, trace: seq<Piece>, jops: seq<JB.Op>) {
    var out := Completion(sent, trace);
    out.Some? ==> out.value in JB.Run(INITIAL_TARGET, jops).pushed
  }

  lemma {:induction false} SamePackets(sent: map<nat, Frame>, more: map<nat, Frame>, trace: seq<Piece>)
    requires Sound(sent, trace) && Sendable(more) && forall k <- sent :: k in more && more[k] == sent[k]
    ensures Sound(more, trace) && Packets(more, trace) == Packets(sent, trace)
  {
    if trace != [] {
      var last := |trace| - 1;
      assert trace[last] in trace;
      assert Sound(sent, trace[..last]);
      SamePackets(sent, more, trace[..last]);
    }
  }

  /** Frames sent later do not change what earlier fragments completed. */
  lemma SameCompletion(sent: map<nat, Frame>, more: map<nat, Frame>, trace: seq<Piece>)
    requires Sound(sent, trace) && Sendable(more) && forall k <- sent :: k in more && more[k] == sent[k]
    ensures Completion(more, trace) == Completion(sent, trace)
  {
    SamePackets(sent, more, trace);
  }

  lemma SoundPrefix(sent: map<nat, Frame>, trace: seq<Piece>, m: nat)
    requires Sound(sent, trace) && m <= |trace|
    ensures Sound(sent, trace[..m])
  {
  }

  lemma SendMirrored(s: Stream, f: Frame, h: History)
    requires Mirrored(s, h) && f.sequence !in s.sent && |f.data| <= MAX_FRAME_SIZE
    ensures Mirrored(s.(sent := s.sent[f.sequence := f]), h)
  {
    var trace, jops := h.trace, h.jops;
    var more := s.sent[f.sequence := f];
    SamePackets(s.sent, more, trace);
    forall m | 0 < m <= |trace| ensures Handed(more, trace[..m], jops) {
      SoundPrefix(s.sent, trace, m);
      SameCompletion(s.sent, more, trace[..m]);
      assert Handed(s.sent, trace[..m], jops);
    }
  }

  lemma JitterRunAppend(jops: seq<JB.Op>, op: JB.Op)
    ensures JB.Run(INITIAL_TARGET, jops + [op]) == JB.Next(JB.Run(INITIAL_TARGET, jops), op)
  {
    assert (jops + [op])[..|jops|] == jops;
  }

  lemma PushRun(jops: seq<JB.Op>, f: Frame, targetMs: nat, nowNs: nat)
    ensures JB.Run(INITIAL_TARGET, jops + PushOf(Some(f), targetMs, nowNs)) ==
      JB.Next(JB.Next(JB.Run(INITIAL_TARGET, jops), JB.SetTarget(targetMs)), JB.Push(f, nowNs))
  {
    var aim := jops + [JB.SetTarget(targetMs)];
    JitterRunAppend(jops, JB.SetTarget(targetMs));
    JitterRunAppend(aim, JB.Push(f, nowNs));
    assert aim + [JB.Push(f, nowNs)] == jops + PushOf(Some(f), targetMs, nowNs);
  }

  lemma PushOutcome(o: JB.Outcome, f: Frame, targetMs: nat, nowNs: nat)
    ensures var o' := JB.Next(JB.Next(o, JB.SetTarget(targetMs)), JB.Push(f, nowNs));
      && o'.delivered == o.delivered && o'.pushed == o.pushed + multiset{f}
      && o'.j == JB.Pushed(o.j.(targetMs := targetMs), f, nowNs)
  {
  }

  lemma PushAppended(jops: seq<JB.Op>, out: Option<Frame>, targetMs: nat, nowNs: nat)
    ensures var o, o' := JB.Run(INITIAL_TARGET, jops), JB.Run(INITIAL_TARGET, jops + PushOf(out, targetMs, nowNs));
      && o'.delivered == o.delivered
      && o'.pushed == o.pushed + (if out.Some? then multiset{out.value} else multiset{})
      && o'.j == if out.Some? then JB.Pushed(o.j.(targetMs := targetMs), out.value, nowNs) else o.j
  {
    if out.Some? {
      PushRun(jops, out.value, targetMs, nowNs);
      PushOutcome(JB.Run(INITIAL_TARGET, jops), out.value, targetMs, nowNs);
    } else {
      assert jops + PushOf(out, targetMs, nowNs) == jops;
    }
  }

  /** One more operation leaves what was handed to the jitter buffer handed to it. */
  lemma HandedStays(sent: map<nat, Frame>, trace: seq<Piece>, jops: seq<JB.Op>, jops': seq<JB.Op>)
    requires forall m :: 0 < m <= |trace| ==> Handed(sent, trace[..m], jops)
    requires JB.Run(INITIAL_TARGET, jops).pushed <= JB.Run(INITIAL_TARGET, jops').pushed
    ensures forall m :: 0 < m <= |trace| ==> Handed(sent, trace[..m], jops')
  {
    forall m | 0 < m <= |trace| ensures Handed(sent, trace[..m], jops') {
      assert Handed(sent, trace[..m], jops);
    }
  }

  lemma HandedExtends(sent: map<nat, Frame>, trace: seq<Piece>, p: Piece, jops: seq<JB.Op>)
    requires forall m :: 0 < m <= |trace| ==> Handed(sent, trace[..m], jops)
    requires Handed(sent, trace + [p], jops)
    ensures forall m :: 0 < m <= |trace + [p]| ==> Handed(sent, (trace + [p])[..m], jops)
  {
    forall m | 0 < m <= |trace + [p]| ensures Handed(sent, (trace + [p])[..m], jops) {
      assert (trace + [p])[..m] == if m <= |trace| then trace[..m] else trace + [p];
    }
  }

  lemma SoundMore(sent: map<nat, Frame>, trace: seq<Piece>, p: Piece)
    requires Sound(sent, trace) && p.sequence in sent && p.index < Count(sent[p.sequence])
    ensures Sound(sent, trace + [p])
  {
  }

  lemma TrackerAfterPiece(trace: seq<Piece>, p: Piece)
    ensures ST.Run(SequencesOf(trace + [p])) == ST.Tracked(ST.Run(SequencesOf(trace)), p.sequence).0
  {
    assert SequencesOf(trace + [p]) == SequencesOf(trace) + [p.sequence];
    ST.RunAppend(SequencesOf(trace), p.sequence);
  }

  /** The three parts of a lane after one more fragment. */
  lemma LaneAfterPiece(s: Stream, trace: seq<Piece>, p: Piece, targetMs: nat, nowNs: nat)
    requires Sound(s.sent, trace + [p]) && Sound(s.sent, trace) && s.lane.Valid() && p.sequence in s.sent
    requires p.index < Count(s.sent[p.sequence]) && FragmentPacket(s.sent[p.sequence], p.index).Fits()
    requires s.lane.tracker == ST.Run(SequencesOf(trace)) && s.lane.reassembler == StateAfter(s.sent, trace)
    ensures var l := LaneReceived(s.lane, FragmentPacket(s.sent[p.sequence], p.index), targetMs, nowNs);
      var out := Completion(s.sent, trace + [p]);
      && l.tracker == ST.Run(SequencesOf(trace + [p]))
      && l.reassembler == StateAfter(s.sent, trace + [p])
      && l.jitter == if out.Some? then JB.Pushed(s.lane.jitter.(targetMs := targetMs), out.value, nowNs) else s.lane.jitter
  {
    TrackerAfterPiece(trace, p);
    var packet := FragmentPacket(s.sent[p.sequence], p.index);
    StepKeepsBand(s.lane.reassembler, packet);
    assert Step(s.lane.reassembler, packet) == (StateAfter(s.sent, trace + [p]), Completion(s.sent, trace + [p])) by {
      StateAfterStep(s.sent, trace, p);
    }
  }

  lemma ArriveMirrored(s: Stream, h: History, p: Piece, targetMs: nat, nowNs: nat)
    requires Mirrored(s, h) && s.lane.Valid() && p.sequence in s.sent && p.index < Count(s.sent[p.sequence])
    requires FragmentPacket(s.sent[p.sequence], p.index).Fits()
    ensures Mirrored(s.(lane := LaneReceived(s.lane, FragmentPacket(s.sent[p.sequence], p.index), targetMs, nowNs)),
                     History(h.trace + [p], h.jops + PushOf(Completion(s.sent, h.trace + [p]), targetMs, nowNs)))
  {
    var trace, jops := h.trace, h.jops;
    var out := Completion(s.sent, trace + [p]);
    var jops' := jops + PushOf(out, targetMs, nowNs);
    SoundMore(s.sent, trace, p);
    LaneAfterPiece(s, trace, p, targetMs, nowNs);
    PushAppended(jops, out, targetMs, nowNs);
    assert forall m :: 0 < m <= |trace + [p]| ==> Handed(s.sent, (trace + [p])[..m], jops') by {
      HandedStays(s.sent, trace, jops, jops');
      HandedExtends(s.sent, trace, p, jops');
    }
  }

  lemma PollMirrored(s: Stream, h: History, nowNs: nat)
    requires Mirrored(s, h)
    ensures Mirrored(AfterPoll(s, nowNs), h.(jops := h.jops + [JB.Pop(nowNs)]))
  {
    JitterRunAppend(h.jops, JB.Pop(nowNs));
    HandedStays(s.sent, h.trace, h.jops, h.jops + [JB.Pop(nowNs)]);
  }

  // ---------- every run ----------

  lemma ShutOut(n: Net, op: Op, kind: byte)
    requires Inv(n) && IsMedia(kind) && (n.rxSessionId == 0 || n.rxSessionId == n.sessionId) && op.Arrive?
    requires !LetsIn(n, op, kind)
    ensures MediaSafety.Next(n, op).StreamOf(kind) == n.StreamOf(kind)
  {
    if op.i < |n.wire| {
      if n.origin[op.i].Small? {
        SmallArrives(n, op.i, op.targetMs, op.nowNs);
      } else {
        FragmentArrives(n, op.i, op.targetMs, op.nowNs);
      }
    }
  }

  lemma ArriveStep(n: Net, op: Op, kind: byte)
    requires Inv(n) && IsMedia(kind) && (n.rxSessionId == 0 || n.rxSessionId == n.sessionId) && op.Arrive?
    requires LetsIn(n, op, kind)
    ensures var s, p := n.StreamOf(kind), PieceOf(n, op);
      && p.sequence in s.sent && p.index < Count(s.sent[p.sequence]) && FragmentPacket(s.sent[p.sequence], p.index).Fits()
      && MediaSafety.Next(n, op).StreamOf(kind) ==
         s.(lane := LaneReceived(s.lane, FragmentPacket(s.sent[p.sequence], p.index), op.targetMs, op.nowNs))
  {
    FragmentArrives(n, op.i, op.targetMs, op.nowNs);
  }

  lemma SendStep(n: Net, op: Op, kind: byte)
    requires Inv(n) && IsMedia(kind) && !op.Arrive? && !op.Poll?
    ensures var s, s' := n.StreamOf(kind), MediaSafety.Next(n, op).StreamOf(kind);
      || s' == s
      || exists f: Frame :: f.sequence !in s.sent && |f.data| <= MAX_FRAME_SIZE && s' == s.(sent := s.sent[f.sequence := f])
  {
    if op.SendFrame? && op.kind == kind && Legal(n, op) {
      var f := Frame(kind, n.sessionId, n.counters[kind], op.timestampNs, op.keyframe, op.data);
      assert f.sequence !in n.StreamOf(kind).sent;
    }
  }

  /** A step that lets no fragment of this type in. */
  lemma OtherStepMirrored(n: Net, op: Op, kind: byte, past: History)
    requires Inv(n) && IsMedia(kind) && (n.rxSessionId == 0 || n.rxSessionId == n.sessionId)
    requires Mirrored(n.StreamOf(kind), past) && !LetsIn(n, op, kind)
    ensures Mirrored(MediaSafety.Next(n, op).StreamOf(kind), Grown(past, n, op, kind))
  {
    var s := n.StreamOf(kind);
    if op.Arrive? {
      ShutOut(n, op, kind);
    } else if op.Poll? {
      if op.kind == kind {
        PollMirrored(s, past, op.nowNs);
      }
    } else {
      SendStep(n, op, kind);
      var s' := MediaSafety.Next(n, op).StreamOf(kind);
      if s' != s {
        var f: Frame :| f.sequence !in s.sent && |f.data| <= MAX_FRAME_SIZE && s' == s.(sent := s.sent[f.sequence := f]);
        SendMirrored(s, f, past);
      }
    }
  }

  lemma ArriveStepMirrored(n: Net, op: Op, kind: byte, past: History)
    requires Inv(n) && IsMedia(kind) && (n.rxSessionId == 0 || n.rxSessionId == n.sessionId)
    requires Mirrored(n.StreamOf(kind), past) && LetsIn(n, op, kind)
    ensures Mirrored(MediaSafety.Next(n, op).StreamOf(kind), Grown(past, n, op, kind))
  {
    ArriveStep(n, op, kind);
    ArriveMirrored(n.StreamOf(kind), past, PieceOf(n, op), op.targetMs, op.nowNs);
  }

  lemma {:induction false} RunMirrored(sessionId: nat, rxSessionId: nat, ops: seq<Op>, kind: byte)
    requires sessionId < 0x1_0000_0000 && IsMedia(kind) && (rxSessionId == 0 || rxSessionId == sessionId)
    ensures Mirrored(MediaSafety.Run(sessionId, rxSessionId, ops).StreamOf(kind), HistoryOf(sessionId, rxSessionId, ops, kind))
  {
    if ops != [] {
      var before, op := ops[..|ops| - 1], ops[|ops| - 1];
      RunMirrored(sessionId, rxSessionId, before, kind);
      var n, past := MediaSafety.Run(sessionId, rxSessionId, before), HistoryOf(sessionId, rxSessionId, before, kind);
      if LetsIn(n, op, kind) {
        ArriveStepMirrored(n, op, kind, past);
      } else {
        OtherStepMirrored(n, op, kind, past);
      }
    }
  }

  // ---------- delivery ----------

  /** The first moment at which every fragment has arrived. */
  lemma {:induction false} FirstComplete(sent: map<nat, Frame>, trace: seq<Piece>, k: nat, m: nat) returns (first: nat)
    requires k in sent && m <= |trace| && AllArrived(sent, trace[..m], k)
    ensures 0 < first <= m && AllArrived(sent, trace[..first], k) && !AllArrived(sent, trace[..first - 1], k)
  {
    assert Piece(k, 0) in trace[..m];
    if AllArrived(sent, trace[..m - 1], k) {
      first := FirstComplete(sent, trace, k, m - 1);
    } else {
      first := m;
    }
  }

  /** No fragmented frame in the trace is more than 64 ahead of frame `k`. */
  ghost predicate Near(sent: map<nat, Frame>, trace: seq<Piece>, k: nat) {
    forall p <- trace :: p.sequence in sent && Count(sent[p.sequence]) > 1 ==> p.sequence <= k + 64
  }

  /** After the first `m` arrivals frame `k` is there, and none of them is far ahead of it. */
  ghost predicate ArrivedInReach(s: Stream, h: History, k: nat, m: nat) {
    && k in s.sent && m <= |h.trace| && AllArrived(s.sent, h.trace[..m], k)
    && (Count(s.sent[k]) > 1 ==> Near(s.sent, h.trace[..m], k))
  }

  /** Every frame in the queue has waited the target. */
  ghost predicate AllWaited(j: JB.Jitter, nowNs: nat) {
    forall e <- j.queue :: JB.Waited(e, nowNs) >= j.targetMs * JB.NS_PER_MS
  }

  lemma CompletionOf(sent: map<nat, Frame>, trace: seq<Piece>, k: nat, m: nat) returns (first: nat)
    requires Sound(sent, trace) && k in sent && m <= |trace| && AllArrived(sent, trace[..m], k)
    requires Count(sent[k]) > 1 ==> Near(sent, trace[..m], k)
    ensures 0 < first <= |trace| && Completion(sent, trace[..first]) == Some(sent[k])
  {
    first := FirstComplete(sent, trace, k, m);
    var before, p := trace[..first - 1], trace[first - 1];
    assert trace[..first] == before + [p];
    SoundPrefix(sent, trace, first);
    assert forall x <- trace[..first] :: x in trace[..m];
    CompletesOnLastFragment(sent, before, p, k);
  }

  lemma CompleteIsHanded(s: Stream, h: History, k: nat, m: nat)
    requires Mirrored(s, h) && ArrivedInReach(s, h, k, m)
    ensures s.sent[k] in JB.Run(INITIAL_TARGET, h.jops).pushed
  {
    var first := CompletionOf(s.sent, h.trace, k, m);
    assert Handed(s.sent, h.trace[..first], h.jops);
  }

  /** A poll at which every entry has waited the target empties the queue. */
  lemma PollEmpties(j: JB.Jitter, nowNs: nat)
    requires AllWaited(j, nowNs)
    ensures JB.Popped(j, nowNs).0.queue == []
  {
    JB.PoppedExactly(j, nowNs);
    forall i | 0 <= i < |j.queue| ensures JB.Due(j, i, nowNs) {
      assert JB.Waited(j.queue[i], nowNs) >= j.targetMs * JB.NS_PER_MS;
    }
  }

  lemma QueueEmpty(jops: seq<JB.Op>, f: Frame)
    requires f in JB.Run(INITIAL_TARGET, jops).pushed && JB.Run(INITIAL_TARGET, jops).j.queue == []
    ensures var o := JB.Run(INITIAL_TARGET, jops);
      && (f in o.delivered || f in o.late || f in o.overflowed)
      && o.j.reordered == |o.late| && o.j.overflowDropped == |o.overflowed|
  {
    JB.JitterRuns(INITIAL_TARGET, jops);
    assert JB.Bag([]) == multiset{};
  }

  lemma RunAppend(sessionId: nat, rxSessionId: nat, ops: seq<Op>, op: Op, kind: byte)
    requires sessionId < 0x1_0000_0000
    ensures MediaSafety.Run(sessionId, rxSessionId, ops + [op]) == MediaSafety.Next(MediaSafety.Run(sessionId, rxSessionId, ops), op)
    ensures HistoryOf(sessionId, rxSessionId, ops + [op], kind) ==
      Grown(HistoryOf(sessionId, rxSessionId, ops, kind), MediaSafety.Run(sessionId, rxSessionId, ops), op, kind)
  {
    assert (ops + [op])[..|ops + [op]| - 1] == ops;
  }

  lemma NextPoll(n: Net, kind: byte, nowNs: nat)
    requires Inv(n) && IsMedia(kind)
    ensures MediaSafety.Next(n, Poll(kind, nowNs)).StreamOf(kind) == AfterPoll(n.StreamOf(kind), nowNs)
  {
    assert Legal(n, Poll(kind, nowNs));
    assert MediaSafety.Next(n, Poll(kind, nowNs)) == n.With(kind, AfterPoll(n.StreamOf(kind), nowNs));
  }

  lemma GrownByPoll(past: History, n: Net, kind: byte, nowNs: nat)
    requires Inv(n)
    ensures Grown(past, n, Poll(kind, nowNs), kind) == past.(jops := past.jops + [JB.Pop(nowNs)])
  {
  }

  /** What has become of frame `f` once the queue is empty; `o` tells who was dropped. */
  ghost predicate Settled(s: Stream, o: JB.Outcome, f: Frame) {
    && s.lane.jitter == o.j && o.j.queue == []
    && (f in s.delivered || f in o.late || f in o.overflowed)
    && o.j.reordered == |o.late| && o.j.overflowDropped == |o.overflowed|
    && (o.j.reordered == 0 && o.j.overflowDropped == 0 ==> f in s.delivered)
  }

  lemma HandedIsSettled(s: Stream, h: History, k: nat, m: nat, nowNs: nat)
    requires Mirrored(s, h) && ArrivedInReach(s, h, k, m) && AllWaited(s.lane.jitter, nowNs)
    ensures Settled(AfterPoll(s, nowNs), JB.Run(INITIAL_TARGET, h.jops + [JB.Pop(nowNs)]), s.sent[k])
  {
    CompleteIsHanded(s, h, k, m);
    PollEmpties(s.lane.jitter, nowNs);
    JitterRunAppend(h.jops, JB.Pop(nowNs));
    QueueEmpty(h.jops + [JB.Pop(nowNs)], s.sent[k]);
  }

  /**
   * On every run, a frame whose fragments have all arrived while no fragmented frame more than 64 ahead of it had is,
   * after a poll at which every waiting frame has waited the target, delivered, or counted as too late or as dropped on
   * overflow. If nothing was counted so, it is delivered.
   */
  lemma CompleteFramesAreDelivered(sessionId: nat, rxSessionId: nat, ops: seq<Op>, kind: byte, k: nat, m: nat, nowNs: nat)
    requires sessionId < 0x1_0000_0000 && IsMedia(kind) && (rxSessionId == 0 || rxSessionId == sessionId)
    requires var s := MediaSafety.Run(sessionId, rxSessionId, ops).StreamOf(kind);
      ArrivedInReach(s, HistoryOf(sessionId, rxSessionId, ops, kind), k, m) && AllWaited(s.lane.jitter, nowNs)
    ensures var f := MediaSafety.Run(sessionId, rxSessionId, ops).StreamOf(kind).sent[k];
      var s := MediaSafety.Run(sessionId, rxSessionId, ops + [Poll(kind, nowNs)]).StreamOf(kind);
      var o := JB.Run(INITIAL_TARGET, HistoryOf(sessionId, rxSessionId, ops + [Poll(kind, nowNs)], kind).jops);
      Settled(s, o, f)
  {
    var s := MediaSafety.Run(sessionId, rxSessionId, ops).StreamOf(kind);
    RunMirrored(sessionId, rxSessionId, ops, kind);
    HandedIsSettled(s, HistoryOf(sessionId, rxSessionId, ops, kind), k, m, nowNs);
    RunAppend(sessionId, rxSessionId, ops, Poll(kind, nowNs), kind);
    NextPoll(MediaSafety.Run(sessionId, rxSessionId, ops), kind, nowNs);
    GrownByPoll(HistoryOf(sessionId, rxSessionId, ops, kind), MediaSafety.Run(sessionId, rxSessionId, ops), kind, nowNs);
  }

  // ---------- frames that are not lost ----------

  /**
   * Step `op` brings the last missing fragment of frame `k`, no fragmented frame far ahead of it has begun, and no frame
   * delivered so far has overtaken it.
   */
  ghost predicate CompletesInTime(n: Net, op: Op, kind: byte, past: History, k: nat)
    requires Inv(n)
  {
    var s := n.StreamOf(kind);
    && LetsIn(n, op, kind)
    && k in s.sent && !AllArrived(s.sent, past.trace, k) && AllArrived(s.sent, past.trace + [PieceOf(n, op)], k)
    && (Count(s.sent[k]) > 1 ==> Near(s.sent, past.trace + [PieceOf(n, op)], k))
    && !JB.Overtaken(s.delivered, s.sent[k])
  }

  lemma PieceIsSound(n: Net, op: Op, kind: byte, trace: seq<Piece>)
    requires Inv(n) && IsMedia(kind) && LetsIn(n, op, kind) && Sound(n.StreamOf(kind).sent, trace)
    ensures Sound(n.StreamOf(kind).sent, trace + [PieceOf(n, op)])
  {
    assert WireInv(n, op.i);
  }

  lemma CompletionInReach(sent: map<nat, Frame>, trace: seq<Piece>, p: Piece, k: nat)
    requires Sound(sent, trace + [p]) && k in sent && !AllArrived(sent, trace, k) && AllArrived(sent, trace + [p], k)
    requires Count(sent[k]) > 1 ==> Near(sent, trace + [p], k)
    ensures Completion(sent, trace + [p]) == Some(sent[k])
  {
    CompletesOnLastFragment(sent, trace, p, k);
  }

  /** Then the frame is handed to the jitter buffer in this step. */
  lemma CompletesByPush(n: Net, op: Op, kind: byte, past: History, k: nat)
    requires Inv(n) && IsMedia(kind) && Sound(n.StreamOf(kind).sent, past.trace) && CompletesInTime(n, op, kind, past, k)
    ensures Grown(past, n, op, kind).jops ==
      past.jops + [JB.SetTarget(op.targetMs), JB.Push(n.StreamOf(kind).sent[k], op.nowNs)]
  {
    PieceIsSound(n, op, kind, past.trace);
    CompletionInReach(n.StreamOf(kind).sent, past.trace, PieceOf(n, op), k);
  }

  lemma GrownKeeps(past: History, n: Net, op: Op, kind: byte)
    requires Inv(n)
    ensures past.jops <= Grown(past, n, op, kind).jops
  {
  }

  lemma HistoryStep(sessionId: nat, rxSessionId: nat, ops: seq<Op>, kind: byte)
    requires sessionId < 0x1_0000_0000 && ops != []
    ensures HistoryOf(sessionId, rxSessionId, ops[..|ops| - 1], kind).jops <= HistoryOf(sessionId, rxSessionId, ops, kind).jops
  {
    var before := ops[..|ops| - 1];
    GrownKeeps(HistoryOf(sessionId, rxSessionId, before, kind), MediaSafety.Run(sessionId, rxSessionId, before),
               ops[|ops| - 1], kind);
  }

  lemma PrefixTransitive<T>(a: seq<T>, b: seq<T>, c: seq<T>)
    requires a <= b && b <= c
    ensures a <= c
  {
  }

  lemma {:induction false} HistoryGrows(sessionId: nat, rxSessionId: nat, ops: seq<Op>, kind: byte, i: nat)
    requires sessionId < 0x1_0000_0000 && i <= |ops|
    ensures HistoryOf(sessionId, rxSessionId, ops[..i], kind).jops <= HistoryOf(sessionId, rxSessionId, ops, kind).jops
    decreases |ops|
  {
    if i == |ops| {
      assert ops[..i] == ops;
    } else {
      var before := ops[..|ops| - 1];
      assert before[..i] == ops[..i];
      HistoryGrows(sessionId, rxSessionId, before, kind, i);
      var b, c := HistoryOf(sessionId, rxSessionId, before, kind).jops, HistoryOf(sessionId, rxSessionId, ops, kind).jops;
      assert b <= c by {
        HistoryStep(sessionId, rxSessionId, ops, kind);
      }
      PrefixTransitive(HistoryOf(sessionId, rxSessionId, ops[..i], kind).jops, b, c);
    }
  }

  lemma TwoBehind<T>(a: seq<T>, x: T, y: T, all: seq<T>)
    requires a + [x, y] <= all
    ensures |a| + 1 < |all| && all[..|a| + 1] == a + [x] && all[|a| + 1] == y
  {
    assert (a + [x, y])[|a| + 1] == y && (a + [x, y])[..|a| + 1] == a + [x];
  }

  /** The jitter buffer did not count this frame as late every time it was pushed. */
  lemma PushedInTime(past: seq<JB.Op>, jops: seq<JB.Op>, f: Frame, targetMs: nat, nowNs: nat)
    requires past + [JB.SetTarget(targetMs), JB.Push(f, nowNs)] <= jops
    requires !JB.Overtaken(JB.Run(INITIAL_TARGET, past).delivered, f)
    ensures JB.Run(INITIAL_TARGET, jops).late[f] < JB.Run(INITIAL_TARGET, jops).pushed[f]
  {
    TwoBehind(past, JB.SetTarget(targetMs), JB.Push(f, nowNs), jops);
    AimKeepsDelivered(past, targetMs);
    JB.OnTime(INITIAL_TARGET, jops, f, |past| + 1);
  }

  lemma PushedBeforePoll(past: seq<JB.Op>, jops: seq<JB.Op>, f: Frame, targetMs: nat, pushNs: nat, nowNs: nat)
    requires past + [JB.SetTarget(targetMs), JB.Push(f, pushNs)] <= jops
    requires !JB.Overtaken(JB.Run(INITIAL_TARGET, past).delivered, f)
    ensures var o := JB.Run(INITIAL_TARGET, jops + [JB.Pop(nowNs)]); o.late[f] < o.pushed[f]
  {
    PrefixTransitive(past + [JB.SetTarget(targetMs), JB.Push(f, pushNs)], jops, jops + [JB.Pop(nowNs)]);
    PushedInTime(past, jops + [JB.Pop(nowNs)], f, targetMs, pushNs);
  }

  lemma AimKeepsDelivered(jops: seq<JB.Op>, targetMs: nat)
    ensures JB.Run(INITIAL_TARGET, jops + [JB.SetTarget(targetMs)]).delivered == JB.Run(INITIAL_TARGET, jops).delivered
  {
    JitterRunAppend(jops, JB.SetTarget(targetMs));
  }

  lemma DeliveredIfKept(jops: seq<JB.Op>, f: Frame)
    requires JB.Run(INITIAL_TARGET, jops).late[f] < JB.Run(INITIAL_TARGET, jops).pushed[f]
    requires JB.Run(INITIAL_TARGET, jops).j.queue == [] && JB.Run(INITIAL_TARGET, jops).j.overflowDropped == 0
    ensures f in JB.Run(INITIAL_TARGET, jops).delivered
  {
    JB.JitterRuns(INITIAL_TARGET, jops);
    var o := JB.Run(INITIAL_TARGET, jops);
    assert JB.Bag([]) == multiset{} && o.overflowed == multiset{};
    assert o.pushed[f] == multiset(o.delivered)[f] + o.late[f];
  }

  /**
   * On every run, a frame whose last missing fragment arrived within reach and before any delivered frame had overtaken it
   * is, after a poll at which every waiting frame has waited the target, delivered, unless the jitter buffer overflowed.
   */
  lemma InTimeFramesAreDelivered(sessionId: nat, rxSessionId: nat, ops: seq<Op>, kind: byte, k: nat, i: nat, nowNs: nat)
    requires sessionId < 0x1_0000_0000 && IsMedia(kind) && (rxSessionId == 0 || rxSessionId == sessionId) && i < |ops|
    requires CompletesInTime(MediaSafety.Run(sessionId, rxSessionId, ops[..i]), ops[i], kind,
                             HistoryOf(sessionId, rxSessionId, ops[..i], kind), k)
    requires AllWaited(MediaSafety.Run(sessionId, rxSessionId, ops).StreamOf(kind).lane.jitter, nowNs)
    ensures var f := MediaSafety.Run(sessionId, rxSessionId, ops[..i]).StreamOf(kind).sent[k];
      var s := MediaSafety.Run(sessionId, rxSessionId, ops + [Poll(kind, nowNs)]).StreamOf(kind);
      s.lane.jitter.queue == [] && (s.lane.jitter.overflowDropped == 0 ==> f in s.delivered)
  {
    var s, h := MediaSafety.Run(sessionId, rxSessionId, ops).StreamOf(kind), HistoryOf(sessionId, rxSessionId, ops, kind);
    var f := MediaSafety.Run(sessionId, rxSessionId, ops[..i]).StreamOf(kind).sent[k];
    assert Mirrored(s, h) by {
      RunMirrored(sessionId, rxSessionId, ops, kind);
    }
    InTimeIsKept(sessionId, rxSessionId, ops, kind, k, i, nowNs);
    SettledInTime(s, h, f, nowNs);
    assert MediaSafety.Run(sessionId, rxSessionId, ops + [Poll(kind, nowNs)]).StreamOf(kind) == AfterPoll(s, nowNs) by {
      RunAppend(sessionId, rxSessionId, ops, Poll(kind, nowNs), kind);
      NextPoll(MediaSafety.Run(sessionId, rxSessionId, ops), kind, nowNs);
    }
  }

  lemma InTimeIsKept(sessionId: nat, rxSessionId: nat, ops: seq<Op>, kind: byte, k: nat, i: nat, nowNs: nat)
    requires sessionId < 0x1_0000_0000 && IsMedia(kind) && (rxSessionId == 0 || rxSessionId == sessionId) && i < |ops|
    requires CompletesInTime(MediaSafety.Run(sessionId, rxSessionId, ops[..i]), ops[i], kind,
                             HistoryOf(sessionId, rxSessionId, ops[..i], kind), k)
    ensures var f := MediaSafety.Run(sessionId, rxSessionId, ops[..i]).StreamOf(kind).sent[k];
      var o := JB.Run(INITIAL_TARGET, HistoryOf(sessionId, rxSessionId, ops, kind).jops + [JB.Pop(nowNs)]);
      o.late[f] < o.pushed[f]
  {
    var past, jops := HistoryOf(sessionId, rxSessionId, ops[..i], kind).jops, HistoryOf(sessionId, rxSessionId, ops, kind).jops;
    var f := MediaSafety.Run(sessionId, rxSessionId, ops[..i]).StreamOf(kind).sent[k];
    InTimeIsHanded(sessionId, rxSessionId, ops, kind, k, i);
    PushedBeforePoll(past, jops, f, ops[i].targetMs, ops[i].nowNs, nowNs);
  }

  lemma InTimeIsHanded(sessionId: nat, rxSessionId: nat, ops: seq<Op>, kind: byte, k: nat, i: nat)
    requires sessionId < 0x1_0000_0000 && IsMedia(kind) && (rxSessionId == 0 || rxSessionId == sessionId) && i < |ops|
    requires CompletesInTime(MediaSafety.Run(sessionId, rxSessionId, ops[..i]), ops[i], kind,
                             HistoryOf(sessionId, rxSessionId, ops[..i], kind), k)
    ensures var past := HistoryOf(sessionId, rxSessionId, ops[..i], kind).jops;
      var f := MediaSafety.Run(sessionId, rxSessionId, ops[..i]).StreamOf(kind).sent[k];
      && past + [JB.SetTarget(ops[i].targetMs), JB.Push(f, ops[i].nowNs)] <= HistoryOf(sessionId, rxSessionId, ops, kind).jops
      && !JB.Overtaken(JB.Run(INITIAL_TARGET, past).delivered, f)
  {
    RunMirrored(sessionId, rxSessionId, ops[..i], kind);
    CompletesByPush(MediaSafety.Run(sessionId, rxSessionId, ops[..i]), ops[i], kind,
                    HistoryOf(sessionId, rxSessionId, ops[..i], kind), k);
    GrownIsNext(sessionId, rxSessionId, ops, kind, i);
    HistoryGrows(sessionId, rxSessionId, ops, kind, i + 1);
  }

  lemma GrownIsNext(sessionId: nat, rxSessionId: nat, ops: seq<Op>, kind: byte, i: nat)
    requires sessionId < 0x1_0000_0000 && i < |ops|
    ensures HistoryOf(sessionId, rxSessionId, ops[..i + 1], kind) ==
      Grown(HistoryOf(sessionId, rxSessionId, ops[..i], kind), MediaSafety.Run(sessionId, rxSessionId, ops[..i]), ops[i], kind)
  {
    assert ops[..i + 1] == ops[..i] + [ops[i]];
    RunAppend(sessionId, rxSessionId, ops[..i], ops[i], kind);
  }

  lemma SettledInTime(s: Stream, h: History, f: Frame, nowNs: nat)
    requires Mirrored(s, h) && AllWaited(s.lane.jitter, nowNs)
    requires var o := JB.Run(INITIAL_TARGET, h.jops + [JB.Pop(nowNs)]); o.late[f] < o.pushed[f]
    ensures var s' := AfterPoll(s, nowNs);
      s'.lane.jitter.queue == [] && (s'.lane.jitter.overflowDropped == 0 ==> f in s'.delivered)
  {
    PollEmpties(s.lane.jitter, nowNs);
    JitterRunAppend(h.jops, JB.Pop(nowNs));
    var o := JB.Run(INITIAL_TARGET, h.jops + [JB.Pop(nowNs)]);
    if o.j.overflowDropped == 0 {
      DeliveredIfKept(h.jops + [JB.Pop(nowNs)], f);
    }
  }
}
