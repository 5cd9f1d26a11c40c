/** What reassembly yields when the fragments come from a sender: only sent frames, and every frame that fully arrives. */
module FaithfulReassembly {
  import opened Bytes
  import opened Fragments
  import opened Reassembly

  // ---------- counting received fragments ----------

  ghost function CountTrue(s: seq<bool>): (n: nat)
    ensures n <= |s|
  {
    if s == [] then 0 else CountTrue(s[..|s| - 1]) + if s[|s| - 1] then 1 else 0
  }

  lemma {:induction false} CountTrueSet(s: seq<bool>, i: nat)
    requires i < |s| && !s[i]
    ensures CountTrue(s[i := true]) == CountTrue(s) + 1
  {
    var last := |s| - 1;
    if i < last {
      CountTrueSet(s[..last], i);
      assert s[i := true][..last] == s[..last][i := true];
    } else {
      assert s[i := true][..last] == s[..last];
    }
  }

  lemma {:induction false} CountTrueFull(s: seq<bool>)
    ensures CountTrue(s) == |s| <==> forall i :: 0 <= i < |s| ==> s[i]
  {
    if s != [] {
      CountTrueFull(s[..|s| - 1]);
      if CountTrue(s) == |s| {
        assert CountTrue(s[..|s| - 1]) == |s| - 1;
        forall i | 0 <= i < |s| ensures s[i] {
          if i < |s| - 1 {
            assert s[i] == s[..|s| - 1][i];
          }
        }
      }
    }
  }

  lemma {:induction false} CountTrueNone(n: nat)
    ensures CountTrue(seq(n, _ => false)) == 0
  {
    if n > 0 {
      CountTrueNone(n - 1);
      assert seq(n, _ => false)[..n - 1] == seq(n - 1, _ => false);
    }
  }

  // ---------- a buffer that holds part of a sent frame ----------

  ghost predicate SlotMatches(f: Frame, b: FrameBuf, i: nat)
    requires i < Count(f)
  {
    && i * MAX_PAYLOAD + PayloadSize(f, i) <= |b.data|
    && b.data[i * MAX_PAYLOAD..i * MAX_PAYLOAD + PayloadSize(f, i)] == FragmentPayload(f, i)
  }

  ghost predicate PartOf(f: Frame, b: FrameBuf) {
    && b.Valid()
    && b.fragmentCount == Count(f)
    && b.timestampNs == f.timestampNs
    && b.keyframe == f.keyframe
    && b.received == CountTrue(b.have)
    && b.totalSize == (if b.have[Count(f) - 1] then |f.data| else 0)
    && (forall i :: 0 <= i < Count(f) && b.have[i] ==> SlotMatches(f, b, i))
  }

  lemma NewBufIsPart(f: Frame, fi: nat)
    requires |f.data| <= MAX_FRAME_SIZE && fi < Count(f) && Count(f) > 1
    ensures PartOf(f, NewBuf(FragmentHeader(f, fi)))
  {
    CountTrueNone(Count(f));
  }

  ghost function FragmentPacket(f: Frame, fi: nat): (p: Packet)
    requires fi < Count(f)
  {
    Packet(FragmentHeader(f, fi), FragmentPayload(f, fi))
  }

  lemma FragmentPacketFits(f: Frame, fi: nat)
    requires |f.data| <= MAX_FRAME_SIZE && fi < Count(f)
    ensures FragmentPacket(f, fi).Fits()
  {
    FragmentShape(f, fi);
  }

  lemma FilledSlots(f: Frame, b: FrameBuf, fi: nat, i: nat)
    requires |f.data| <= MAX_FRAME_SIZE && fi < Count(f) && PartOf(f, b) && i < Count(f)
    requires FragmentPacket(f, fi).Fits()
    requires i == fi || b.have[i]
    ensures SlotMatches(f, Filled(b, FragmentHeader(f, fi), FragmentPayload(f, fi)), i)
  {
    FragmentShape(f, fi);
    FragmentShape(f, i);
    var b' := Filled(b, FragmentHeader(f, fi), FragmentPayload(f, fi));
    var lo, n := i * MAX_PAYLOAD, PayloadSize(f, i);
    if i == fi {
      assert b'.data[lo..lo + n] == FragmentPayload(f, fi);
    } else {
      assert SlotMatches(f, b, i);
      assert b'.data[lo..lo + n] == b.data[lo..lo + n];
    }
  }

  lemma FilledIsPart(f: Frame, b: FrameBuf, fi: nat)
    requires |f.data| <= MAX_FRAME_SIZE && fi < Count(f) && PartOf(f, b) && !b.have[fi]
    requires FragmentPacket(f, fi).Fits()
    ensures PartOf(f, Filled(b, FragmentHeader(f, fi), FragmentPayload(f, fi)))
  {
    var b' := Filled(b, FragmentHeader(f, fi), FragmentPayload(f, fi));
    CountTrueSet(b.have, fi);
    FragmentShape(f, fi);
    forall i | 0 <= i < Count(f) && b'.have[i] ensures SlotMatches(f, b', i) {
      FilledSlots(f, b, fi, i);
    }
  }

  lemma SlotByte(f: Frame, b: FrameBuf, i: nat, p: nat)
    requires i < Count(f) && SlotMatches(f, b, i)
    requires i * MAX_PAYLOAD <= p < i * MAX_PAYLOAD + PayloadSize(f, i)
    ensures p < |b.data| && b.data[p] == f.data[p]
  {
    var lo := i * MAX_PAYLOAD;
    assert b.data[p] == b.data[lo..lo + PayloadSize(f, i)][p - lo] == FragmentPayload(f, i)[p - lo];
  }

  /** Once every fragment is there, the buffer holds the frame. */
  lemma FullBufferIsFrame(f: Frame, b: FrameBuf)
    requires |f.data| <= MAX_FRAME_SIZE && PartOf(f, b) && b.received == b.fragmentCount
    ensures b.totalSize == |f.data| && 0 < |f.data| <= |b.data| && b.data[..|f.data|] == f.data
  {
    CountTrueFull(b.have);
    CountIsNeededExactly(|f.data|);
    forall p | 0 <= p < |f.data| ensures b.data[p] == f.data[p] {
      var i := p / MAX_PAYLOAD;
      FragmentShape(f, i);
      assert b.have[i] && SlotMatches(f, b, i);
      SlotByte(f, b, i, p);
    }
  }

  // ---------- safety: only sent frames come out ----------

  /** The frames sent so far on one stream, by sequence number. */
  ghost predicate Sendable(sent: map<nat, Frame>) {
    forall k <- sent :: sent[k].sequence == k && |sent[k].data| <= MAX_FRAME_SIZE
  }

  ghost predicate HoldsParts(r: Reassembler, sent: map<nat, Frame>) {
    forall k <- r.frames :: k in sent && PartOf(sent[k], r.frames[k])
  }

  lemma OpenedHoldsParts(r: Reassembler, sent: map<nat, Frame>, k: nat, fi: nat)
    requires r.Valid() && |r.frames| + 1 <= MAX_IN_FLIGHT
    requires Sendable(sent) && HoldsParts(r, sent) && k in sent && fi < Count(sent[k]) && Count(sent[k]) > 1
    ensures HoldsParts(Opened(r, FragmentHeader(sent[k], fi)), sent)
  {
    OpenedWithRoom(r, FragmentHeader(sent[k], fi));
    NewBufIsPart(sent[k], fi);
  }

  lemma AcceptedHoldsParts(r: Reassembler, sent: map<nat, Frame>, k: nat, fi: nat)
    requires r.Valid() && Sendable(sent) && HoldsParts(r, sent) && k in sent && k in r.frames
    requires fi < Count(sent[k]) && Count(sent[k]) > 1 && FragmentPacket(sent[k], fi).Fits()
    ensures var (a, out) := Accepted(r, FragmentHeader(sent[k], fi), FragmentPayload(sent[k], fi));
      HoldsParts(a, sent) && (out.Some? ==> out.value == sent[k])
  {
    var f, b := sent[k], r.frames[k];
    assert PartOf(f, b);
    if !b.have[fi] {
      FilledIsPart(f, b, fi);
      var b' := Filled(b, FragmentHeader(f, fi), FragmentPayload(f, fi));
      if b'.received == b'.fragmentCount {
        FullBufferIsFrame(f, b');
      }
    }
  }

  /** One genuine fragment: the buffers stay parts of sent frames, and a completed frame is the sent one. */
  lemma StepIsFaithful(r: Reassembler, sent: map<nat, Frame>, k: nat, fi: nat)
    requires r.Valid() && r.Banded() && Sendable(sent) && HoldsParts(r, sent)
    requires k in sent && fi < Count(sent[k])
    ensures FragmentPacket(sent[k], fi).Fits() && RoomFor(r, k)
    ensures var (r', out) := Step(r, FragmentPacket(sent[k], fi));
      r'.Banded() && HoldsParts(r', sent) && (out.Some? ==> out.value == sent[k])
  {
    var f := sent[k];
    FragmentPacketFits(f, fi);
    StepKeepsBand(r, FragmentPacket(f, fi));
    if Count(f) > 1 {
      OpenedHoldsParts(r, sent, k, fi);
      AcceptedHoldsParts(Opened(r, FragmentHeader(f, fi)), sent, k, fi);
    } else {
      FragmentShape(f, fi);
      assert FragmentPayload(f, fi) == f.data;
    }
  }

  // ---------- completeness: a frame whose fragments all arrive comes out ----------

  /** Arrival of fragment `index` of the frame sent as `sequence`. */
  datatype Piece = Piece(sequence: nat, index: nat)

  ghost predicate Sound(sent: map<nat, Frame>, trace: seq<Piece>) {
    Sendable(sent) && forall p <- trace :: p.sequence in sent && p.index < Count(sent[p.sequence])
  }

  ghost function Packets(sent: map<nat, Frame>, trace: seq<Piece>): (ps: seq<Packet>)
    requires Sound(sent, trace)
    ensures |ps| == |trace| && (forall p <- ps :: p.Fits()) && StaysInside(ps)
  {
    if trace == [] then []
    else
      var last := |trace| - 1;
      var p := trace[last];
      assert p in trace;
      FragmentPacketFits(sent[p.sequence], p.index);
      assert Sound(sent, trace[..last]);
      var ps := Packets(sent, trace[..last]) + [FragmentPacket(sent[p.sequence], p.index)];
      FittingStaysInside(ps);
      ps
  }

  ghost function StateAfter(sent: map<nat, Frame>, trace: seq<Piece>): (r: Reassembler)
    requires Sound(sent, trace)
    ensures r.Valid() && r.Banded()
  {
    Run(Packets(sent, trace))
  }

  /** What the last arrival of the trace completes. */
  ghost function OutputOf(sent: map<nat, Frame>, trace: seq<Piece>): (out: Option<Frame>)
    requires Sound(sent, trace) && trace != []
  {
    LastOutput(Packets(sent, trace))
  }

  ghost predicate AllArrived(sent: map<nat, Frame>, trace: seq<Piece>, s: nat)
    requires s in sent
  {
    forall i :: 0 <= i < Count(sent[s]) ==> Piece(s, i) in trace
  }

  /** No fragmented frame in the trace is more than 64 ahead of `s`. */
  ghost predicate WithinReach(sent: map<nat, Frame>, trace: seq<Piece>, s: nat)
    requires Sound(sent, trace)
  {
    forall p <- trace :: Count(sent[p.sequence]) > 1 ==> p.sequence <= s + 64
  }

  lemma StateAfterStep(sent: map<nat, Frame>, before: seq<Piece>, p: Piece)
    requires Sound(sent, before + [p])
    ensures Sound(sent, before)
    ensures FragmentPacket(sent[p.sequence], p.index).Fits()
    ensures RoomFor(StateAfter(sent, before), p.sequence) && |StateAfter(sent, before).frames| + 1 <= MAX_IN_FLIGHT
    ensures var (r, out) := Step(StateAfter(sent, before), FragmentPacket(sent[p.sequence], p.index));
      StateAfter(sent, before + [p]) == r && OutputOf(sent, before + [p]) == out
  {
    var trace := before + [p];
    assert p in trace;
    assert forall q <- before :: q in trace;
    FragmentPacketFits(sent[p.sequence], p.index);
    assert trace[..|trace| - 1] == before;
    var ps := Packets(sent, trace);
    assert ps[..|ps| - 1] == Packets(sent, before);
    StepKeepsBand(StateAfter(sent, before), FragmentPacket(sent[p.sequence], p.index));
  }

  lemma {:induction false} RunHoldsParts(sent: map<nat, Frame>, trace: seq<Piece>)
    requires Sound(sent, trace)
    ensures HoldsParts(StateAfter(sent, trace), sent)
    ensures trace != [] ==>
      var out := OutputOf(sent, trace);
      out.Some? ==> out.value == sent[trace[|trace| - 1].sequence]
  {
    if trace != [] {
      var before, p := trace[..|trace| - 1], trace[|trace| - 1];
      assert trace == before + [p];
      StateAfterStep(sent, before, p);
      RunHoldsParts(sent, before);
      StepIsFaithful(StateAfter(sent, before), sent, p.sequence, p.index);
    }
  }

  lemma {:induction false} HighestIsInTrace(sent: map<nat, Frame>, trace: seq<Piece>, s: nat)
    requires Sound(sent, trace) && WithinReach(sent, trace, s)
    ensures StateAfter(sent, trace).highestStarted <= s + GC_WINDOW
  {
    if trace != [] {
      var before, p := trace[..|trace| - 1], trace[|trace| - 1];
      assert trace == before + [p];
      StateAfterStep(sent, before, p);
      HighestIsInTrace(sent, before, s);
      FedElsewhere(StateAfter(sent, before), FragmentPacket(sent[p.sequence], p.index));
    }
  }

  /** The fragments of `f` that the reassembler has. */
  ghost function HaveOf(r: Reassembler, f: Frame): (have: seq<bool>) {
    if f.sequence in r.frames then r.frames[f.sequence].have else seq(Count(f), _ => false)
  }

  ghost predicate Flags(have: seq<bool>, trace: seq<Piece>, s: nat, n: nat) {
    |have| == n && forall i :: 0 <= i < n ==> (have[i] <==> Piece(s, i) in trace)
  }

  /** The buffer of `s` mirrors exactly which of its fragments have arrived. */
  ghost predicate Mirrors(r: Reassembler, sent: map<nat, Frame>, trace: seq<Piece>, s: nat)
    requires s in sent
  {
    Flags(HaveOf(r, sent[s]), trace, s, Count(sent[s]))
  }

  lemma FlagsAfter(have: seq<bool>, before: seq<Piece>, s: nat, n: nat, fi: nat)
    requires Flags(have, before, s, n) && fi < n
    ensures Flags(have[fi := true], before + [Piece(s, fi)], s, n)
  {
    var p := Piece(s, fi);
    assert forall i :: Piece(s, i) in before + [p] <==> Piece(s, i) in before || i == fi;
  }

  lemma FlagsAfterOther(have: seq<bool>, before: seq<Piece>, s: nat, n: nat, p: Piece)
    requires Flags(have, before, s, n) && p.sequence != s
    ensures Flags(have, before + [p], s, n)
  {
    assert forall i :: Piece(s, i) in before + [p] <==> Piece(s, i) in before;
  }

  /** The effect of `gc` and of other frames' fragments on the buffer of a frame that is within reach: none. */
  lemma KeptInReach(r: Reassembler, p: Packet, s: nat)
    requires r.Valid() && r.Banded() && p.Fits() && |r.frames| + 1 <= MAX_IN_FLIGHT
    requires Step(r, p).0.highestStarted <= s + GC_WINDOW
    ensures s in Step(r, p).0.frames <==> s in Fed(r, p).0.frames
    ensures s in Step(r, p).0.frames ==> Step(r, p).0.frames[s] == Fed(r, p).0.frames[s]
    ensures p.h.sequence != s ==> (s in Step(r, p).0.frames <==> s in r.frames)
    ensures p.h.sequence != s && s in r.frames ==> Step(r, p).0.frames[s] == r.frames[s]
  {
    FedElsewhere(r, p);
  }

  /** The next fragment of a fragmented frame: its flag is set, or the frame is complete. */
  lemma OwnFragment(r: Reassembler, f: Frame, fi: nat)
    requires r.Valid() && |r.frames| + 1 <= MAX_IN_FLIGHT && fi < Count(f) && Count(f) > 1
    requires |f.data| <= MAX_FRAME_SIZE && FragmentPacket(f, fi).Fits()
    requires f.sequence in r.frames ==> PartOf(f, r.frames[f.sequence])
    ensures var have := HaveOf(r, f);
      var (r', out) := Fed(r, FragmentPacket(f, fi));
      |have| == Count(f) &&
      if !have[fi] && CountTrue(have) + 1 == Count(f) then out == Some(f)
      else out == None && f.sequence in r'.frames && r'.frames[f.sequence].have == have[fi := true]
  {
    var h := FragmentHeader(f, fi);
    OpenedWithRoom(r, h);
    NewBufIsPart(f, fi);
    CountTrueNone(Count(f));
    var b := Opened(r, h).frames[f.sequence];
    assert PartOf(f, b);
    if !b.have[fi] {
      FilledIsPart(f, b, fi);
      var b' := Filled(b, h, FragmentPayload(f, fi));
      if b'.received == b'.fragmentCount {
        FullBufferIsFrame(f, b');
      }
    } else {
      assert b.have == b.have[fi := true];
    }
  }

  /** Whether a new fragment is the last missing one shows in the count of the flags. */
  lemma LastMissing(sent: map<nat, Frame>, before: seq<Piece>, s: nat, fi: nat, have: seq<bool>)
    requires s in sent && fi < Count(sent[s]) && Flags(have, before, s, Count(sent[s])) && !AllArrived(sent, before, s)
    ensures AllArrived(sent, before + [Piece(s, fi)], s) <==> !have[fi] && CountTrue(have) + 1 == Count(sent[s])
  {
    FlagsAfter(have, before, s, Count(sent[s]), fi);
    CountTrueFull(have[fi := true]);
    if have[fi] {
      assert have[fi := true] == have;
    } else {
      CountTrueSet(have, fi);
    }
  }

  /** One arrival of another frame. */
  lemma OtherArrival(sent: map<nat, Frame>, before: seq<Piece>, p: Piece, s: nat)
    requires Sound(sent, before + [p]) && Sound(sent, before) && s in sent && p.sequence != s
    requires WithinReach(sent, before + [p], s) && !AllArrived(sent, before, s)
    requires Mirrors(StateAfter(sent, before), sent, before, s)
    ensures !AllArrived(sent, before + [p], s)
    ensures Mirrors(StateAfter(sent, before + [p]), sent, before + [p], s)
  {
    StateAfterStep(sent, before, p);
    HighestIsInTrace(sent, before + [p], s);
    KeptInReach(StateAfter(sent, before), FragmentPacket(sent[p.sequence], p.index), s);
    FlagsAfterOther(HaveOf(StateAfter(sent, before), sent[s]), before, s, Count(sent[s]), p);
  }

  /** One arrival of a fragment of the frame itself. */
  lemma OwnArrival(sent: map<nat, Frame>, before: seq<Piece>, p: Piece, s: nat)
    requires Sound(sent, before + [p]) && Sound(sent, before) && s in sent && p.sequence == s && Count(sent[s]) > 1
    requires WithinReach(sent, before + [p], s) && !AllArrived(sent, before, s)
    requires Mirrors(StateAfter(sent, before), sent, before, s)
    ensures AllArrived(sent, before + [p], s) ==> OutputOf(sent, before + [p]) == Some(sent[s])
    ensures !AllArrived(sent, before + [p], s) ==>
      && Mirrors(StateAfter(sent, before + [p]), sent, before + [p], s)
      && OutputOf(sent, before + [p]) == None
  {
    var r := StateAfter(sent, before);
    var have := HaveOf(r, sent[s]);
    StateAfterStep(sent, before, p);
    assert |r.frames| + 1 <= MAX_IN_FLIGHT;
    RunHoldsParts(sent, before);
    HighestIsInTrace(sent, before + [p], s);
    KeptInReach(r, FragmentPacket(sent[s], p.index), s);
    OwnFragment(r, sent[s], p.index);
    LastMissing(sent, before, s, p.index, have);
    FlagsAfter(have, before, s, Count(sent[s]), p.index);
  }

  lemma {:induction false} MirrorsUntilComplete(sent: map<nat, Frame>, trace: seq<Piece>, s: nat)
    requires Sound(sent, trace) && s in sent && Count(sent[s]) > 1
    requires WithinReach(sent, trace, s) && !AllArrived(sent, trace, s)
    ensures Mirrors(StateAfter(sent, trace), sent, trace, s)
  {
    if trace != [] {
      var before, p := trace[..|trace| - 1], trace[|trace| - 1];
      assert trace == before + [p];
      assert forall x <- before :: x in trace;
      MirrorsUntilComplete(sent, before, s);
      if p.sequence == s {
        OwnArrival(sent, before, p, s);
      } else {
        OtherArrival(sent, before, p, s);
      }
    }
  }

  lemma SingleFragmentFed(r: Reassembler, f: Frame)
    requires r.Valid() && Count(f) == 1 && |f.data| <= MAX_FRAME_SIZE
    requires FragmentPacket(f, 0).Fits() && RoomFor(r, f.sequence)
    ensures Fed(r, FragmentPacket(f, 0)).1 == Some(f)
  {
    FragmentShape(f, 0);
    assert FragmentPayload(f, 0) == f.data;
  }

  lemma SingleMissing(sent: map<nat, Frame>, before: seq<Piece>, p: Piece, s: nat)
    requires s in sent && Count(sent[s]) == 1 && !AllArrived(sent, before, s) && (p.sequence == s ==> p.index == 0)
    ensures AllArrived(sent, before + [p], s) <==> p.sequence == s
  {
    assert Piece(s, 0) !in before;
    assert Piece(s, 0) in before + [p] <==> Piece(s, 0) == p;
  }

  lemma SingleArrival(sent: map<nat, Frame>, before: seq<Piece>, p: Piece)
    requires Sound(sent, before + [p]) && p.sequence in sent && Count(sent[p.sequence]) == 1 && p.index == 0
    ensures OutputOf(sent, before + [p]) == Some(sent[p.sequence])
  {
    StateAfterStep(sent, before, p);
    SingleFragmentFed(StateAfter(sent, before), sent[p.sequence]);
  }

  lemma FragmentedArrival(sent: map<nat, Frame>, before: seq<Piece>, p: Piece, s: nat)
    requires Sound(sent, before + [p]) && s in sent && Count(sent[s]) > 1 && WithinReach(sent, before + [p], s)
    requires !AllArrived(sent, before, s)
    ensures AllArrived(sent, before + [p], s) ==> OutputOf(sent, before + [p]) == Some(sent[s])
    ensures !AllArrived(sent, before + [p], s) && p.sequence == s ==> OutputOf(sent, before + [p]) == None
  {
    assert forall x <- before :: x in before + [p];
    MirrorsUntilComplete(sent, before, s);
    if p.sequence == s {
      OwnArrival(sent, before, p, s);
    } else {
      OtherArrival(sent, before, p, s);
    }
  }

  /**
   * However its fragments are ordered, repeated and interleaved with other frames, a frame comes out
   * exactly when its last missing fragment arrives, and it comes out as it was sent.
   */
  lemma CompletesOnLastFragment(sent: map<nat, Frame>, before: seq<Piece>, p: Piece, s: nat)
    requires Sound(sent, before + [p]) && s in sent
    requires Count(sent[s]) > 1 ==> WithinReach(sent, before + [p], s)
    requires !AllArrived(sent, before, s)
    ensures if AllArrived(sent, before + [p], s) then OutputOf(sent, before + [p]) == Some(sent[s])
            else forall f :: OutputOf(sent, before + [p]) == Some(f) ==> f.sequence != s
  {
    assert p in before + [p];
    if Count(sent[s]) > 1 {
      FragmentedArrival(sent, before, p, s);
    } else {
      SingleMissing(sent, before, p, s);
      if p.sequence == s {
        SingleArrival(sent, before, p);
      }
    }
    if p.sequence != s {
      RunHoldsParts(sent, before + [p]);
    }
  }
}
