/**
 * A sender, a network that drops, repeats and reorders datagrams, and a receiver: whatever the network does,
 * only sent frames come out, unchanged and in order.
 */
module MediaSafety {
  import opened Bytes
  import opened UdpHeaders
  import opened Fragments
  import opened Reassembly
  import opened FaithfulReassembly
  import opened MediaTransport
  import JB = JitterBuffering

  /** One media stream end to end: what was sent, the receive state, what the decoder was given. */
  datatype Stream = Stream(sent: map<nat, Frame>, lane: Lane, delivered: seq<Frame>)

  /** Where a datagram on the wire came from. */
  datatype Origin = FrameFragment(kind: byte, sequence: nat, index: nat) | Small

  datatype Net = Net(
    sessionId: nat,               // of the sender
    counters: seq<nat>,           // next sequence number, by datagram type
    wire: seq<seq<byte>>,         // every datagram posted so far
    origin: seq<Origin>,
    rxSessionId: nat,             // of the receiver, 0 for any
    video: Stream,
    audio: Stream)
  {
    function Rx(): (rx: Receiver) {
      Receiver(rxSessionId, video.lane, audio.lane)
    }

    function StreamOf(kind: byte): (s: Stream) {
      if kind == VIDEO then video else audio
    }

    function With(kind: byte, s: Stream): (n: Net) {
      if kind == VIDEO then this.(video := s) else this.(audio := s)
    }
  }

  datatype Op =
    | SendFrame(kind: byte, keyframe: bool, data: seq<byte>, timestampNs: nat)
    | SendSmall(kind: byte, data: seq<byte>, timestampNs: nat)
    | Arrive(i: nat, targetMs: nat, nowNs: nat)   // any posted datagram, any number of times, in any order
    | Poll(kind: byte, nowNs: nat)

  // ---------- what every state keeps ----------

  ghost predicate SentWell(sent: map<nat, Frame>, kind: byte, sessionId: nat, next: nat) {
    && Sendable(sent)
    && forall k <- sent :: k < next && sent[k].kind == kind && sent[k].sessionId == sessionId && sent[k].InRange()
  }

  ghost predicate WasSent(sent: map<nat, Frame>, f: Frame) {
    f.sequence in sent && sent[f.sequence] == f
  }

  ghost predicate LaneHolds(l: Lane, sent: map<nat, Frame>) {
    && l.Valid()
    && HoldsParts(l.reassembler, sent)
    && JB.Good(l.jitter)
    && forall e <- l.jitter.queue :: WasSent(sent, e.frame)
  }

  /** What the decoder was given: sent frames only, in non-decreasing sequence order. */
  ghost predicate DeliveredWell(s: Stream) {
    && (forall f <- s.delivered :: WasSent(s.sent, f))
    && JB.NonDecreasing(s.delivered)
    && (s.delivered != [] ==>
        s.lane.jitter.initialized && s.lane.jitter.lastPopped == s.delivered[|s.delivered| - 1].sequence)
  }

  ghost predicate StreamInv(s: Stream, kind: byte, sessionId: nat, next: nat) {
    SentWell(s.sent, kind, sessionId, next) && LaneHolds(s.lane, s.sent) && DeliveredWell(s)
  }

  /** A datagram is a fragment of a sent frame, or is not read as media. */
  ghost predicate WireInv(n: Net, i: nat)
    requires i < |n.wire| == |n.origin|
  {
    match n.origin[i]
    case FrameFragment(kind, s, fi) =>
      IsMedia(kind) && s in n.StreamOf(kind).sent && fi < Count(n.StreamOf(kind).sent[s]) &&
      n.wire[i] == Datagram(n.StreamOf(kind).sent[s], fi)
    case Small => var h := DecodeUdpHeader(n.wire[i]); h.Some? ==> !IsMedia(h.value.kind)
  }

  ghost predicate Inv(n: Net) {
    && n.sessionId < 0x1_0000_0000
    && |n.counters| == KINDS
    && |n.wire| == |n.origin|
    && StreamInv(n.video, VIDEO, n.sessionId, n.counters[VIDEO])
    && StreamInv(n.audio, AUDIO, n.sessionId, n.counters[AUDIO])
    && forall i :: 0 <= i < |n.wire| ==> WireInv(n, i)
  }

  // ---------- steps ----------

  /** Fields fit their wire width, the per-type counter has not wrapped, and the frame fits the fragment counter. */
  ghost predicate Legal(n: Net, op: Op)
    requires |n.counters| == KINDS
  {
    match op
    case SendFrame(kind, _, data, ts) =>
      IsMedia(kind) && |data| <= MAX_FRAME_SIZE && ts < 0x1_0000_0000_0000_0000
      && n.counters[kind] < 0x1_0000_0000_0000_0000
    case SendSmall(kind, _, ts) =>
      !IsMedia(kind) && kind < KINDS && ts < 0x1_0000_0000_0000_0000 && n.counters[kind] < 0x1_0000_0000_0000_0000
    case Arrive(i, _, _) => i < |n.wire|
    case Poll(kind, _) => IsMedia(kind)
  }

  ghost function AfterSendFrame(n: Net, kind: byte, keyframe: bool, data: seq<byte>, ts: nat): (n': Net)
    requires |n.counters| == KINDS && IsMedia(kind)
  {
    var f := Frame(kind, n.sessionId, n.counters[kind], ts, keyframe, data);
    var s := n.StreamOf(kind);
    n.(counters := n.counters[kind := n.counters[kind] + 1],
       wire := n.wire + seq(Count(f), fi requires 0 <= fi < Count(f) => Datagram(f, fi)),
       origin := n.origin + seq(Count(f), fi requires 0 <= fi < Count(f) => FrameFragment(kind, f.sequence, fi)))
     .With(kind, s.(sent := s.sent[f.sequence := f]))
  }

  ghost function AfterSendSmall(n: Net, kind: byte, data: seq<byte>, ts: nat): (n': Net)
    requires |n.counters| == KINDS && kind < KINDS
  {
    n.(counters := n.counters[kind := n.counters[kind] + 1],
       wire := n.wire + [SmallDatagram(kind, n.sessionId, n.counters[kind], ts, data)],
       origin := n.origin + [Small])
  }

  ghost function AfterArrive(n: Net, buf: seq<byte>, targetMs: nat, nowNs: nat): (n': Net)
    requires n.Rx().Valid() && Safe(n.Rx(), buf)
  {
    var rx := Received(n.Rx(), buf, targetMs, nowNs);
    n.(video := n.video.(lane := rx.video), audio := n.audio.(lane := rx.audio))
  }

  ghost function AfterPoll(s: Stream, nowNs: nat): (s': Stream) {
    var (j, out) := JB.Popped(s.lane.jitter, nowNs);
    s.(lane := s.lane.(jitter := j), delivered := s.delivered + out)
  }

  ghost function Next(n: Net, op: Op): (n': Net)
    requires Inv(n)
    ensures Inv(n') && n'.sessionId == n.sessionId && n'.rxSessionId == n.rxSessionId
  {
    if !Legal(n, op) then n
    else
      match op
      case SendFrame(kind, keyframe, data, ts) =>
        SendFrameKeepsInv(n, kind, keyframe, data, ts);
        AfterSendFrame(n, kind, keyframe, data, ts)
      case SendSmall(kind, data, ts) =>
        SendSmallKeepsInv(n, kind, data, ts);
        AfterSendSmall(n, kind, data, ts)
      case Arrive(i, targetMs, now) =>
        ArriveKeepsInv(n, i, targetMs, now);
        AfterArrive(n, n.wire[i], targetMs, now)
      case Poll(kind, now) =>
        PollKeepsInv(n, kind, now);
        n.With(kind, AfterPoll(n.StreamOf(kind), now))
  }

  // ---------- sending ----------

  lemma MoreSentHolds(l: Lane, sent: map<nat, Frame>, f: Frame)
    requires LaneHolds(l, sent) && f.sequence !in sent
    ensures LaneHolds(l, sent[f.sequence := f])
  {
  }

  lemma StreamAfterSend(s: Stream, kind: byte, sessionId: nat, f: Frame)
    requires StreamInv(s, kind, sessionId, f.sequence)
    requires f.kind == kind && f.sessionId == sessionId && f.InRange() && |f.data| <= MAX_FRAME_SIZE
    ensures StreamInv(s.(sent := s.sent[f.sequence := f]), kind, sessionId, f.sequence + 1)
  {
    MoreSentHolds(s.lane, s.sent, f);
  }

  lemma SendFrameKeepsInv(n: Net, kind: byte, keyframe: bool, data: seq<byte>, ts: nat)
    requires Inv(n) && Legal(n, SendFrame(kind, keyframe, data, ts))
    ensures Inv(AfterSendFrame(n, kind, keyframe, data, ts))
  {
    var f := Frame(kind, n.sessionId, n.counters[kind], ts, keyframe, data);
    var n' := AfterSendFrame(n, kind, keyframe, data, ts);
    StreamAfterSend(n.StreamOf(kind), kind, n.sessionId, f);
    forall i | 0 <= i < |n'.wire| ensures WireInv(n', i) {
      if i < |n.wire| {
        assert WireInv(n, i);
        OldFragmentStays(n, n', i);
      } else {
        assert n'.origin[i] == FrameFragment(kind, f.sequence, i - |n.wire|);
      }
    }
  }

  /** A datagram already on the wire stays a fragment of the same frame when another frame is sent. */
  lemma OldFragmentStays(n: Net, n': Net, i: nat)
    requires i < |n.wire| == |n.origin| && |n.wire| <= |n'.wire| == |n'.origin| && WireInv(n, i)
    requires n'.wire[i] == n.wire[i] && n'.origin[i] == n.origin[i]
    requires forall k <- n.video.sent :: k in n'.video.sent && n'.video.sent[k] == n.video.sent[k]
    requires forall k <- n.audio.sent :: k in n'.audio.sent && n'.audio.sent[k] == n.audio.sent[k]
    ensures WireInv(n', i)
  {
  }

  lemma SmallIsNotMedia(kind: byte, sessionId: nat, sequence: nat, ts: nat, data: seq<byte>)
    requires !IsMedia(kind) && sessionId < 0x1_0000_0000
    requires sequence < 0x1_0000_0000_0000_0000 && ts < 0x1_0000_0000_0000_0000
    ensures var h := DecodeUdpHeader(SmallDatagram(kind, sessionId, sequence, ts, data));
      h.Some? ==> !IsMedia(h.value.kind)
  {
    var size := Min(|data|, MAX_PAYLOAD);
    DecodeOfEncode(SmallHeader(kind, sessionId, sequence, ts, size), data[..size]);
  }

  lemma SendSmallKeepsInv(n: Net, kind: byte, data: seq<byte>, ts: nat)
    requires Inv(n) && Legal(n, SendSmall(kind, data, ts))
    ensures Inv(AfterSendSmall(n, kind, data, ts))
  {
    var n' := AfterSendSmall(n, kind, data, ts);
    SmallIsNotMedia(kind, n.sessionId, n.counters[kind], ts, data);
    forall i | 0 <= i < |n'.wire| ensures WireInv(n', i) {
      if i < |n.wire| {
        assert WireInv(n, i);
      }
    }
  }

  // ---------- receiving ----------

  /** A fragment of a sent frame is read as exactly that fragment, or, from another session or of too many, not at all. */
  lemma FragmentAdmitted(rxSessionId: nat, f: Frame, fi: nat)
    requires f.InRange() && IsMedia(f.kind) && |f.data| <= MAX_FRAME_SIZE && fi < Count(f)
    ensures var h := Admitted(rxSessionId, Datagram(f, fi));
      && (h.Some? <==> Count(f) <= MAX_FRAGMENTS && (rxSessionId == 0 || rxSessionId == f.sessionId))
      && (h.Some? ==> h.value.kind == f.kind && PacketOf(Datagram(f, fi), h.value) == FragmentPacket(f, fi))
    ensures FragmentPacket(f, fi).Fits()
  {
    DatagramDecodes(f, fi);
    FragmentPacketFits(f, fi);
    var dg := Datagram(f, fi);
    assert dg[HEADER_SIZE..] == dg[HEADER_SIZE..HEADER_SIZE + PayloadSize(f, fi)];
  }

  lemma LaneAfterFragment(l: Lane, sent: map<nat, Frame>, k: nat, fi: nat, targetMs: nat, nowNs: nat)
    requires LaneHolds(l, sent) && Sendable(sent) && k in sent && fi < Count(sent[k])
    ensures FragmentPacket(sent[k], fi).Fits()
    ensures var l' := LaneReceived(l, FragmentPacket(sent[k], fi), targetMs, nowNs);
      LaneHolds(l', sent) && l'.jitter.initialized == l.jitter.initialized && l'.jitter.lastPopped == l.jitter.lastPopped
  {
    StepIsFaithful(l.reassembler, sent, k, fi);
    var out := Step(l.reassembler, FragmentPacket(sent[k], fi)).1;
    if out.Some? {
      JB.PushedIsGood(l.jitter.(targetMs := targetMs), out.value, nowNs);
    }
  }

  /** A fragment on the wire changes the lane of its type, or, if it is not admitted, nothing. */
  lemma FragmentArrives(n: Net, i: nat, targetMs: nat, nowNs: nat)
    requires Inv(n) && i < |n.wire| && n.origin[i].FrameFragment?
    ensures var o := n.origin[i];
      var s := n.StreamOf(o.kind);
      && IsMedia(o.kind) && o.sequence in s.sent && o.index < Count(s.sent[o.sequence])
      && FragmentPacket(s.sent[o.sequence], o.index).Fits()
      && Safe(n.Rx(), n.wire[i])
      && AfterArrive(n, n.wire[i], targetMs, nowNs) ==
         if Count(s.sent[o.sequence]) <= MAX_FRAGMENTS && (n.rxSessionId == 0 || n.rxSessionId == n.sessionId)
         then n.With(o.kind, s.(lane := LaneReceived(s.lane, FragmentPacket(s.sent[o.sequence], o.index), targetMs, nowNs)))
         else n
  {
    assert WireInv(n, i);
    var o := n.origin[i];
    FragmentAdmitted(n.rxSessionId, n.StreamOf(o.kind).sent[o.sequence], o.index);
  }

  /** A small datagram changes neither lane. */
  lemma SmallArrives(n: Net, i: nat, targetMs: nat, nowNs: nat)
    requires Inv(n) && i < |n.wire| && n.origin[i].Small?
    ensures Safe(n.Rx(), n.wire[i]) && AfterArrive(n, n.wire[i], targetMs, nowNs) == n
  {
    assert WireInv(n, i);
  }

  lemma LaneChangeKeepsInv(n: Net, kind: byte, l: Lane)
    requires Inv(n) && IsMedia(kind)
    requires var s := n.StreamOf(kind);
      LaneHolds(l, s.sent) && l.jitter.initialized == s.lane.jitter.initialized && l.jitter.lastPopped == s.lane.jitter.lastPopped
    ensures Inv(n.With(kind, n.StreamOf(kind).(lane := l)))
  {
    var n' := n.With(kind, n.StreamOf(kind).(lane := l));
    forall x | 0 <= x < |n'.wire| ensures WireInv(n', x) {
      assert WireInv(n, x);
    }
  }

  lemma ArriveKeepsInv(n: Net, i: nat, targetMs: nat, nowNs: nat)
    requires Inv(n) && i < |n.wire|
    ensures Safe(n.Rx(), n.wire[i])
    ensures Inv(AfterArrive(n, n.wire[i], targetMs, nowNs))
  {
    var o := n.origin[i];
    if o.Small? {
      SmallArrives(n, i, targetMs, nowNs);
    } else {
      FragmentArrives(n, i, targetMs, nowNs);
      var s := n.StreamOf(o.kind);
      LaneAfterFragment(s.lane, s.sent, o.sequence, o.index, targetMs, nowNs);
      LaneChangeKeepsInv(n, o.kind, LaneReceived(s.lane, FragmentPacket(s.sent[o.sequence], o.index), targetMs, nowNs));
    }
  }

  lemma StreamAfterPoll(s: Stream, kind: byte, sessionId: nat, next: nat, nowNs: nat)
    requires StreamInv(s, kind, sessionId, next)
    ensures StreamInv(AfterPoll(s, nowNs), kind, sessionId, next)
  {
    JB.PoppedIsGood(s.lane.jitter, nowNs);
    JB.PoppedSplits(s.lane.jitter, nowNs);
    var (j, out) := JB.Popped(s.lane.jitter, nowNs);
    if out == [] {
      assert s.delivered + out == s.delivered;
    } else {
      JB.NonDecreasingConcat(s.delivered, out);
      assert (s.delivered + out)[|s.delivered + out| - 1] == out[|out| - 1];
    }
    forall i | 0 <= i < |out| ensures WasSent(s.sent, out[i]) {
      assert s.lane.jitter.queue[i] in s.lane.jitter.queue;
    }
    assert forall e <- j.queue :: e in s.lane.jitter.queue;
  }

  lemma PollKeepsInv(n: Net, kind: byte, nowNs: nat)
    requires Inv(n) && IsMedia(kind)
    ensures Inv(n.With(kind, AfterPoll(n.StreamOf(kind), nowNs)))
  {
    StreamAfterPoll(n.StreamOf(kind), kind, n.sessionId, n.counters[kind], nowNs);
    var n' := n.With(kind, AfterPoll(n.StreamOf(kind), nowNs));
    forall i | 0 <= i < |n'.wire| ensures WireInv(n', i) {
      assert WireInv(n, i);
    }
  }

  // ---------- every run ----------

  ghost function Start(sessionId: nat, rxSessionId: nat): (n: Net) {
    Net(sessionId, seq(KINDS, _ => 0), [], [], rxSessionId,
        Stream(map[], FreshLane(), []), Stream(map[], FreshLane(), []))
  }

  ghost function Run(sessionId: nat, rxSessionId: nat, ops: seq<Op>): (n: Net)
    requires sessionId < 0x1_0000_0000
    ensures Inv(n) && n.sessionId == sessionId && n.rxSessionId == rxSessionId
  {
    if ops == [] then Start(sessionId, rxSessionId)
    else Next(Run(sessionId, rxSessionId, ops[..|ops| - 1]), ops[|ops| - 1])
  }

  /** How many frames of this type the run has sent. */
  ghost function Sends(sessionId: nat, rxSessionId: nat, ops: seq<Op>, kind: byte): (n: nat)
    requires sessionId < 0x1_0000_0000
  {
    if ops == [] then 0
    else
      var before, op := ops[..|ops| - 1], ops[|ops| - 1];
      Sends(sessionId, rxSessionId, before, kind)
      + if op.SendFrame? && op.kind == kind && Legal(Run(sessionId, rxSessionId, before), op) then 1 else 0
  }

  lemma NextCounter(n: Net, op: Op, kind: byte)
    requires Inv(n) && IsMedia(kind)
    ensures Next(n, op).counters[kind] == n.counters[kind] + if op.SendFrame? && op.kind == kind && Legal(n, op) then 1 else 0
  {
  }

  lemma {:induction false} CounterIsSends(sessionId: nat, rxSessionId: nat, ops: seq<Op>, kind: byte)
    requires sessionId < 0x1_0000_0000 && IsMedia(kind)
    ensures Run(sessionId, rxSessionId, ops).counters[kind] == Sends(sessionId, rxSessionId, ops, kind)
  {
    if ops != [] {
      var before := ops[..|ops| - 1];
      CounterIsSends(sessionId, rxSessionId, before, kind);
      NextCounter(Run(sessionId, rxSessionId, before), ops[|ops| - 1], kind);
    }
  }

  /** After these steps `f` can be sent, as the next frame of its type: exactly `f.sequence` were sent before. */
  ghost predicate IsNext(sessionId: nat, rxSessionId: nat, before: seq<Op>, f: Frame)
    requires sessionId < 0x1_0000_0000
  {
    && Legal(Run(sessionId, rxSessionId, before), SendFrame(f.kind, f.keyframe, f.data, f.timestampNs))
    && Sends(sessionId, rxSessionId, before, f.kind) == f.sequence
  }

  /** Some step of the run hands frame number `f.sequence` of its type to `sendFrame`, with these very contents. */
  ghost predicate SentInRun(sessionId: nat, rxSessionId: nat, ops: seq<Op>, f: Frame)
    requires sessionId < 0x1_0000_0000
  {
    ops != [] &&
    var before, op := ops[..|ops| - 1], ops[|ops| - 1];
    || SentInRun(sessionId, rxSessionId, before, f)
    || (op == SendFrame(f.kind, f.keyframe, f.data, f.timestampNs) && IsNext(sessionId, rxSessionId, before, f))
  }

  lemma NextSent(n: Net, op: Op, kind: byte, k: nat)
    requires Inv(n) && IsMedia(kind) && k in Next(n, op).StreamOf(kind).sent
    ensures var f := Next(n, op).StreamOf(kind).sent[k];
      || (k in n.StreamOf(kind).sent && n.StreamOf(kind).sent[k] == f)
      || (op == SendFrame(f.kind, f.keyframe, f.data, f.timestampNs) && Legal(n, op)
          && f.kind == kind && f.sequence == n.counters[kind])
  {
  }

  lemma {:induction false} SentComesFromOps(sessionId: nat, rxSessionId: nat, ops: seq<Op>, kind: byte, k: nat)
    requires sessionId < 0x1_0000_0000 && IsMedia(kind)
    requires k in Run(sessionId, rxSessionId, ops).StreamOf(kind).sent
    ensures SentInRun(sessionId, rxSessionId, ops, Run(sessionId, rxSessionId, ops).StreamOf(kind).sent[k])
  {
    var before, op := ops[..|ops| - 1], ops[|ops| - 1];
    var n, f := Run(sessionId, rxSessionId, before), Run(sessionId, rxSessionId, ops).StreamOf(kind).sent[k];
    NextSent(n, op, kind, k);
    if k in n.StreamOf(kind).sent && n.StreamOf(kind).sent[k] == f {
      SentComesFromOps(sessionId, rxSessionId, before, kind, k);
    } else {
      CounterIsSends(sessionId, rxSessionId, before, kind);
    }
  }

  lemma DeliveredAreSent(n: Net, kind: byte)
    requires Inv(n) && IsMedia(kind)
    ensures var s := n.StreamOf(kind);
      && JB.NonDecreasing(s.delivered)
      && forall f <- s.delivered :: WasSent(s.sent, f) && f.kind == kind && f.sessionId == n.sessionId
  {
  }

  /**
   * On every run, each frame the decoder is given is one that was sent, with its bytes, sequence number,
   * timestamp, session and keyframe bit, and the delivered sequence numbers never decrease.
   */
  lemma EndToEnd(sessionId: nat, rxSessionId: nat, ops: seq<Op>, kind: byte)
    requires sessionId < 0x1_0000_0000 && IsMedia(kind)
    ensures var n := Run(sessionId, rxSessionId, ops);
      var s := n.StreamOf(kind);
      && JB.NonDecreasing(s.delivered)
      && forall f <- s.delivered ::
          WasSent(s.sent, f) && f.kind == kind && f.sessionId == sessionId && SentInRun(sessionId, rxSessionId, ops, f)
  {
    var n := Run(sessionId, rxSessionId, ops);
    var s := n.StreamOf(kind);
    DeliveredAreSent(n, kind);
    forall f | f in s.delivered ensures SentInRun(sessionId, rxSessionId, ops, f) {
      SentComesFromOps(sessionId, rxSessionId, ops, kind, f.sequence);
    }
  }
}
