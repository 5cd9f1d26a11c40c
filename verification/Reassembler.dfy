/** Rebuilding frames from fragments (networking/UdpProtocol.cpp, lines 98-172). */
module Reassembly {
  import opened Bytes
  import opened UdpHeaders
  import opened Fragments

  const MAX_IN_FLIGHT := 96
  const GC_WINDOW := 64

  datatype FrameBuf = FrameBuf(
    data: seq<byte>, have: seq<bool>, received: nat, fragmentCount: nat,
    totalSize: nat, timestampNs: nat, keyframe: bool)
  {
    ghost predicate Valid() {
      fragmentCount > 1 && |have| == fragmentCount && |data| == fragmentCount * MAX_PAYLOAD
    }
  }

  datatype Reassembler = Reassembler(
    frames: map<nat, FrameBuf>, highestStarted: nat, initialized: bool, droppedIncomplete: nat, completed: nat)
  {
    ghost predicate Valid() {
      && (forall k <- frames :: frames[k].Valid())
      && (!initialized ==> frames == map[] && highestStarted == 0)
    }

    /** Buffered sequences lie in a band of 65 that ends at the newest started one. */
    ghost predicate Banded() {
      forall k <- frames :: k <= highestStarted <= k + GC_WINDOW
    }
  }

  /** A decoded datagram. */
  datatype Packet = Packet(h: UdpHeader, payload: seq<byte>)
  {
    /** What `decodeUdpHeader` grants. */
    ghost predicate Decoded() {
      |payload| == h.payloadSize && h.fragmentIndex < h.fragmentCount
    }

    /** There is room for the payload behind its fragment's offset as well. */
    ghost predicate Fits() {
      && Decoded()
      && (h.fragmentCount > 1 ==> h.fragmentIndex * MAX_PAYLOAD + h.payloadSize <= h.fragmentCount * MAX_PAYLOAD)
    }
  }

  function Empty(): (r: Reassembler)
    ensures r.Valid() && r.Banded()
  {
    Reassembler(map[], 0, false, 0, 0)
  }

  ghost function LeastKey(keys: set<nat>): (k: nat)
    requires keys != {}
    ensures k in keys
    ensures forall x <- keys :: k <= x
  {
    var x :| x in keys;
    if keys == {x} then x
    else
      var y := LeastKey(keys - {x});
      assert keys == (keys - {x}) + {x};
      if x < y then x else y
  }

  /**
   * Making room for one more buffer does not evict that very buffer, whose address `feed` goes on using: either the table
   * is not full or an older sequence is in it.
   */
  ghost predicate RoomFor(r: Reassembler, sequence: nat) {
    sequence !in r.frames && |r.frames| >= MAX_IN_FLIGHT ==> exists k :: k in r.frames && k < sequence
  }

  /** A fragment with this header is new to its buffer and will be copied into it. */
  ghost predicate Copies(r: Reassembler, h: UdpHeader)
    requires r.Valid() && h.fragmentIndex < h.fragmentCount
  {
    h.fragmentCount > 1 &&
    (h.sequence in r.frames ==>
      r.frames[h.sequence].fragmentCount == h.fragmentCount && !r.frames[h.sequence].have[h.fragmentIndex])
  }

  /** If the fragment is copied, the copy stays inside its buffer. */
  ghost predicate Stays(r: Reassembler, p: Packet)
    requires r.Valid()
  {
    p.Decoded() && (Copies(r, p.h) ==> p.Fits())
  }

  /** A decoded datagram makes the copy leave its buffer exactly when it is new and larger than the slots from its own on. */
  lemma LeavesBufferExactly(r: Reassembler, p: Packet)
    requires r.Valid() && p.Decoded()
    ensures !Stays(r, p) <==>
      Copies(r, p.h) && p.h.payloadSize > (p.h.fragmentCount - p.h.fragmentIndex) * MAX_PAYLOAD
    ensures p.h.fragmentCount > 1 ==>
      (p.Fits() <==> p.h.payloadSize <= (p.h.fragmentCount - p.h.fragmentIndex) * MAX_PAYLOAD)
  {
  }

  function NewBuf(h: UdpHeader): (b: FrameBuf)
    ensures h.fragmentCount > 1 ==> b.Valid()
  {
    FrameBuf(seq(h.fragmentCount * MAX_PAYLOAD, _ => 0), seq(h.fragmentCount, _ => false), 0, h.fragmentCount,
             0, h.timestampNs, HasKeyframe(h.flags))
  }

  lemma GrownSize(frames: map<nat, FrameBuf>, k: nat, b: FrameBuf)
    ensures |frames[k := b]| == |frames| + if k in frames then 0 else 1
  {
    assert frames[k := b].Keys == frames.Keys + {k};
    assert |frames[k := b]| == |frames[k := b].Keys| && |frames| == |frames.Keys|;
  }

  lemma ShrunkSize(frames: map<nat, FrameBuf>, k: nat)
    ensures |frames - {k}| == |frames| - if k in frames then 1 else 0
  {
    assert (frames - {k}).Keys == frames.Keys - {k};
    assert |frames - {k}| == |(frames - {k}).Keys| && |frames| == |frames.Keys|;
  }

  /** The buffer table with a buffer for this header, the oldest one dropped if there are too many. */
  ghost function Opened(r: Reassembler, h: UdpHeader): (r': Reassembler)
    requires r.Valid() && h.fragmentCount > 1
    requires h.sequence in r.frames ==> r.initialized
    ensures r'.Valid() && (RoomFor(r, h.sequence) ==> h.sequence in r'.frames)
  {
    var r := r.(highestStarted := if !r.initialized || h.sequence > r.highestStarted then h.sequence else r.highestStarted,
                initialized := true);
    if h.sequence in r.frames then r
    else
      var frames := r.frames[h.sequence := NewBuf(h)];
      assert |frames| == |r.frames| + 1 by { GrownSize(r.frames, h.sequence, NewBuf(h)); }
      if |frames| > MAX_IN_FLIGHT then
        assert RoomFor(r, h.sequence) ==> LeastKey(frames.Keys) < h.sequence by {
          assert forall k <- r.frames :: k in frames.Keys;
        }
        r.(frames := frames - {LeastKey(frames.Keys)}, droppedIncomplete := r.droppedIncomplete + 1)
      else
        r.(frames := frames)
  }

  /** Fragment `h` copied into its buffer. */
  function Filled(b: FrameBuf, h: UdpHeader, payload: seq<byte>): (b': FrameBuf)
    requires b.Valid() && Packet(h, payload).Fits() && b.fragmentCount == h.fragmentCount
    ensures b'.Valid()
  {
    var off := h.fragmentIndex * MAX_PAYLOAD;
    b.(data := b.data[..off] + payload + b.data[off + |payload|..],
       have := b.have[h.fragmentIndex := true],
       received := b.received + 1,
       totalSize := if h.fragmentIndex + 1 == h.fragmentCount
                    then (h.fragmentCount - 1) * MAX_PAYLOAD + h.payloadSize
                    else b.totalSize)
  }

  /** What happens once the buffer for the fragment exists. */
  ghost function Accepted(r: Reassembler, h: UdpHeader, payload: seq<byte>): (res: (Reassembler, Option<Frame>))
    requires r.Valid() && h.fragmentCount > 1 && Stays(r, Packet(h, payload)) && h.sequence in r.frames
    ensures res.0.Valid()
  {
    var b := r.frames[h.sequence];
    if b.fragmentCount != h.fragmentCount || b.have[h.fragmentIndex] then (r, None)
    else
      var b := Filled(b, h, payload);
      if b.received != b.fragmentCount then (r.(frames := r.frames[h.sequence := b]), None)
      else if b.totalSize == 0 || b.totalSize > |b.data| then
        (r.(frames := r.frames - {h.sequence}, droppedIncomplete := r.droppedIncomplete + 1), None)
      else
        (r.(frames := r.frames - {h.sequence}, completed := r.completed + 1),
         Some(Frame(h.kind, h.sessionId, h.sequence, b.timestampNs, b.keyframe, b.data[..b.totalSize])))
  }

  /** One call of `feed`. */
  ghost function Fed(r: Reassembler, p: Packet): (res: (Reassembler, Option<Frame>))
    requires r.Valid() && Stays(r, p) && RoomFor(r, p.h.sequence)
    ensures res.0.Valid()
  {
    if p.h.fragmentCount == 1 then
      (r.(completed := r.completed + 1),
       Some(Frame(p.h.kind, p.h.sessionId, p.h.sequence, p.h.timestampNs, HasKeyframe(p.h.flags), p.payload)))
    else
      Accepted(Opened(r, p.h), p.h, p.payload)
  }

  ghost function Stale(r: Reassembler): (keys: set<nat>) {
    set k | k in r.frames && r.highestStarted > k + GC_WINDOW
  }

  /** One call of `gc`: everything further than 64 behind the newest started frame is dropped. */
  ghost function Collected(r: Reassembler): (r': Reassembler)
    requires r.Valid()
    ensures r'.Valid()
  {
    r.(frames := r.frames - Stale(r), droppedIncomplete := r.droppedIncomplete + |Stale(r)|)
  }

  /** The discipline of the transport: every `feed` is followed by `gc`. */
  ghost function Step(r: Reassembler, p: Packet): (res: (Reassembler, Option<Frame>))
    requires r.Valid() && Stays(r, p) && RoomFor(r, p.h.sequence)
    ensures res.0.Valid()
  {
    var fed := Fed(r, p);
    (Collected(fed.0), fed.1)
  }

  /** Collecting one stale buffer first makes no difference. */
  lemma CollectOne(r: Reassembler, k: nat)
    requires r.Valid() && k in Stale(r)
    ensures var r1 := r.(frames := r.frames - {k}, droppedIncomplete := r.droppedIncomplete + 1);
      r1.Valid() && Collected(r1) == Collected(r)
  {
    var r1 := r.(frames := r.frames - {k}, droppedIncomplete := r.droppedIncomplete + 1);
    assert Stale(r1) == Stale(r) - {k};
    assert r1.frames - Stale(r1) == r.frames - Stale(r);
  }

  /** If the oldest buffer is recent enough, all are. */
  lemma NothingToCollect(r: Reassembler)
    requires r.Valid() && forall k <- r.frames :: r.highestStarted <= k + GC_WINDOW
    ensures Collected(r) == r
  {
    assert Stale(r) == {};
    assert r.frames - {} == r.frames;
  }

  // ---------- the in-flight set is bounded ----------

  lemma {:induction false} IntervalSize(keys: set<nat>, lo: int, hi: int)
    requires lo <= hi && forall k <- keys :: lo <= k < hi
    ensures |keys| <= hi - lo
    decreases hi - lo
  {
    if lo == hi {
      assert keys == {};
    } else {
      IntervalSize(keys - {hi - 1}, lo, hi - 1);
    }
  }

  lemma BandedIsSmall(r: Reassembler)
    requires r.Banded()
    ensures |r.frames| <= GC_WINDOW + 1
  {
    IntervalSize(r.frames.Keys, r.highestStarted - GC_WINDOW, r.highestStarted + 1);
    assert |r.frames| == |r.frames.Keys|;
  }

  lemma BandedHasRoom(r: Reassembler, sequence: nat)
    requires r.Banded()
    ensures |r.frames| + 1 <= MAX_IN_FLIGHT && RoomFor(r, sequence)
  {
    BandedIsSmall(r);
  }

  ghost predicate SameExcept(a: map<nat, FrameBuf>, b: map<nat, FrameBuf>, sequence: nat) {
    forall k :: k != sequence ==> (k in a <==> k in b) && (k in a ==> a[k] == b[k])
  }

  lemma OpenedWithRoom(r: Reassembler, h: UdpHeader)
    requires r.Valid() && h.fragmentCount > 1 && |r.frames| + 1 <= MAX_IN_FLIGHT
    ensures var o := Opened(r, h);
      && o.frames == (if h.sequence in r.frames then r.frames else r.frames[h.sequence := NewBuf(h)])
      && o.initialized
      && o.highestStarted == if !r.initialized then h.sequence else Max(r.highestStarted, h.sequence)
  {
    GrownSize(r.frames, h.sequence, NewBuf(h));
  }

  lemma AcceptedElsewhere(r: Reassembler, h: UdpHeader, payload: seq<byte>)
    requires r.Valid() && h.fragmentCount > 1 && Stays(r, Packet(h, payload)) && h.sequence in r.frames
    ensures var a := Accepted(r, h, payload).0;
      SameExcept(a.frames, r.frames, h.sequence) && a.initialized == r.initialized && a.highestStarted == r.highestStarted
  {
  }

  /** Without eviction, `feed` touches only the buffer of its own sequence. */
  lemma FedElsewhere(r: Reassembler, p: Packet)
    requires r.Valid() && Stays(r, p) && |r.frames| + 1 <= MAX_IN_FLIGHT
    ensures SameExcept(Fed(r, p).0.frames, r.frames, p.h.sequence)
    ensures p.h.fragmentCount == 1 ==> Fed(r, p).0.frames == r.frames
    ensures Fed(r, p).0.highestStarted ==
      if p.h.fragmentCount == 1 then r.highestStarted
      else if !r.initialized then p.h.sequence
      else Max(r.highestStarted, p.h.sequence)
    ensures Fed(r, p).0.initialized == (p.h.fragmentCount > 1 || r.initialized)
  {
    if p.h.fragmentCount > 1 {
      OpenedWithRoom(r, p.h);
      AcceptedElsewhere(Opened(r, p.h), p.h, p.payload);
    }
  }

  /** Feed-then-collect keeps the band, whatever arrives. */
  lemma StepKeepsBand(r: Reassembler, p: Packet)
    requires r.Valid() && r.Banded() && Stays(r, p)
    ensures |r.frames| + 1 <= MAX_IN_FLIGHT && RoomFor(r, p.h.sequence)
    ensures Step(r, p).0.Banded()
  {
    BandedHasRoom(r, p.h.sequence);
    FedElsewhere(r, p);
    var fed := Fed(r, p).0;
    forall k | k in fed.frames - Stale(fed) ensures k <= fed.highestStarted <= k + GC_WINDOW {
      assert k in fed.frames && k !in Stale(fed);
    }
  }

  // ---------- every run of feed-then-collect ----------

  /** Any decoded datagrams, as long as no copy leaves its buffer: beyond that point the program promises nothing. */
  ghost predicate StaysInside(packets: seq<Packet>)
    decreases |packets|, 0
  {
    packets == [] ||
    var last := |packets| - 1;
    StaysInside(packets[..last]) && Stays(Run(packets[..last]), packets[last])
  }

  /** Datagrams that fit are no danger whatever came before. */
  lemma {:induction false} FittingStaysInside(packets: seq<Packet>)
    requires forall p <- packets :: p.Fits()
    ensures StaysInside(packets)
  {
    if packets != [] {
      FittingStaysInside(packets[..|packets| - 1]);
      assert packets[|packets| - 1] in packets;
    }
  }

  ghost function Run(packets: seq<Packet>): (r: Reassembler)
    requires StaysInside(packets)
    ensures r.Valid() && r.Banded()
    decreases |packets|, 1
  {
    if packets == [] then Empty()
    else
      var last := |packets| - 1;
      var r := Run(packets[..last]);
      StepKeepsBand(r, packets[last]);
      Step(r, packets[last]).0
  }

  /** What the last packet of a run completes. */
  ghost function LastOutput(packets: seq<Packet>): (out: Option<Frame>)
    requires packets != [] && StaysInside(packets)
  {
    var last := |packets| - 1;
    var r := Run(packets[..last]);
    StepKeepsBand(r, packets[last]);
    Step(r, packets[last]).1
  }

  /** How many frames the run began: buffers created plus single-fragment frames. */
  ghost function Begun(packets: seq<Packet>): (n: nat)
    requires StaysInside(packets)
  {
    if packets == [] then 0
    else
      var last := |packets| - 1;
      Begun(packets[..last]) + Opens(Run(packets[..last]), packets[last])
  }

  ghost function Opens(r: Reassembler, p: Packet): (n: nat) {
    if p.h.fragmentCount == 1 || p.h.sequence !in r.frames then 1 else 0
  }

  lemma OpenedBalance(r: Reassembler, h: UdpHeader)
    requires r.Valid() && h.fragmentCount > 1 && RoomFor(r, h.sequence)
    ensures var o := Opened(r, h);
      o.completed == r.completed &&
      o.droppedIncomplete + |o.frames| == r.droppedIncomplete + |r.frames| + if h.sequence in r.frames then 0 else 1
  {
    if h.sequence !in r.frames {
      var frames := r.frames[h.sequence := NewBuf(h)];
      GrownSize(r.frames, h.sequence, NewBuf(h));
      ShrunkSize(frames, LeastKey(frames.Keys));
    }
  }

  lemma AcceptedBalance(r: Reassembler, h: UdpHeader, payload: seq<byte>)
    requires r.Valid() && h.fragmentCount > 1 && Stays(r, Packet(h, payload)) && h.sequence in r.frames
    ensures var a := Accepted(r, h, payload).0;
      a.completed + a.droppedIncomplete + |a.frames| == r.completed + r.droppedIncomplete + |r.frames|
  {
    ShrunkSize(r.frames, h.sequence);
    var b := r.frames[h.sequence];
    if Copies(r, h) {
      GrownSize(r.frames, h.sequence, Filled(b, h, payload));
    }
  }

  /** `feed` loses no frame, whether or not it has to evict. */
  lemma FedBalance(r: Reassembler, p: Packet)
    requires r.Valid() && Stays(r, p) && RoomFor(r, p.h.sequence)
    ensures var f := Fed(r, p).0;
      f.completed + f.droppedIncomplete + |f.frames| == r.completed + r.droppedIncomplete + |r.frames| + Opens(r, p)
  {
    if p.h.fragmentCount > 1 {
      OpenedBalance(r, p.h);
      AcceptedBalance(Opened(r, p.h), p.h, p.payload);
    }
  }

  /** A frame counts as completed exactly when `feed` hands one out, and it is then no longer in flight. */
  lemma CompletedCountsFrames(r: Reassembler, p: Packet)
    requires r.Valid() && Stays(r, p) && RoomFor(r, p.h.sequence)
    ensures var (f, out) := Fed(r, p);
      && f.completed == r.completed + (if out.Some? then 1 else 0)
      && (out.Some? && p.h.fragmentCount > 1 ==> p.h.sequence !in f.frames)
      && (out.Some? ==> out.value.kind == p.h.kind && out.value.sessionId == p.h.sessionId && out.value.sequence == p.h.sequence)
  {
  }

  /** A repeated fragment, or one that does not agree on the number of fragments, changes nothing but the newest sequence. */
  lemma NotCopiedChangesNothing(r: Reassembler, p: Packet)
    requires r.Valid() && p.Decoded() && p.h.fragmentCount > 1 && RoomFor(r, p.h.sequence) && !Copies(r, p.h)
    ensures var (f, out) := Fed(r, p);
      && out == None && f.frames == r.frames && f.completed == r.completed && f.droppedIncomplete == r.droppedIncomplete
      && f.highestStarted == if r.initialized then Max(r.highestStarted, p.h.sequence) else p.h.sequence
  {
  }

  lemma CollectedBalance(r: Reassembler)
    requires r.Valid()
    ensures var c := Collected(r);
      c.completed == r.completed && c.droppedIncomplete + |c.frames| == r.droppedIncomplete + |r.frames|
  {
    var c := Collected(r);
    assert c.frames.Keys == r.frames.Keys - Stale(r);
    assert |c.frames| == |c.frames.Keys| && |r.frames| == |r.frames.Keys|;
    assert Stale(r) <= r.frames.Keys;
  }

  /** On every run the in-flight set stays under the eviction limit, and every begun frame is accounted for. */
  lemma {:induction false} InFlightBoundAndBalance(packets: seq<Packet>)
    requires StaysInside(packets)
    ensures var r := Run(packets);
      && |r.frames| <= 65 < MAX_IN_FLIGHT
      && r.Banded()
      && Begun(packets) == r.completed + r.droppedIncomplete + |r.frames|
  {
    BandedIsSmall(Run(packets));
    if packets != [] {
      var last := |packets| - 1;
      InFlightBoundAndBalance(packets[..last]);
      var r, p := Run(packets[..last]), packets[last];
      StepKeepsBand(r, p);
      FedBalance(r, p);
      CollectedBalance(Fed(r, p).0);
    }
  }

  // ---------- the object ----------

  /** `std::map::begin()`. */
  method FirstKey(frames: map<nat, FrameBuf>) returns (k: nat)
    requires frames != map[]
    ensures k in frames && forall x <- frames :: k <= x
  {
    var keys := frames.Keys;
    k :| k in keys;
    var rest := keys - {k};
    while rest != {}
      invariant k in frames && rest <= frames.Keys
      invariant forall x <- frames :: x !in rest ==> k <= x
    {
      var x :| x in rest;
      if x < k {
        k := x;
      }
      rest := rest - {x};
    }
  }

  class FragmentReassembler {
    var frames: map<nat, FrameBuf>
    var highestStarted: nat
    var initialized: bool
    var droppedIncomplete: nat
    var completed: nat

    ghost function State(): (r: Reassembler)
      reads this
    {
      Reassembler(frames, highestStarted, initialized, droppedIncomplete, completed)
    }

    constructor ()
      ensures State() == Empty()
    {
      frames, highestStarted, initialized := map[], 0, false;
      droppedIncomplete, completed := 0, 0;
    }

    method Feed(p: Packet) returns (out: Option<Frame>)
      requires State().Valid() && Stays(State(), p) && RoomFor(State(), p.h.sequence)
      modifies this
      ensures (State(), out) == Fed(old(State()), p)
    {
      var h := p.h;
      if h.fragmentCount == 1 {
        completed := completed + 1;
        return Some(Frame(h.kind, h.sessionId, h.sequence, h.timestampNs, HasKeyframe(h.flags), p.payload));
      }
      if !initialized || h.sequence > highestStarted {
        highestStarted := h.sequence;
      }
      initialized := true;
      OpenBuffer(h);
      assert State() == Opened(old(State()), h);
      out := AcceptFragment(h, p.payload);
    }

    /** The copy into the buffer, and the hand-over of a complete frame. */
    method AcceptFragment(h: UdpHeader, payload: seq<byte>) returns (out: Option<Frame>)
      requires State().Valid() && h.fragmentCount > 1 && Stays(State(), Packet(h, payload)) && h.sequence in frames
      modifies this
      ensures (State(), out) == Accepted(old(State()), h, payload)
    {
      var b := frames[h.sequence];
      if b.fragmentCount != h.fragmentCount {
        return None;
      }
      if h.fragmentIndex >= b.fragmentCount || b.have[h.fragmentIndex] {
        return None;
      }
      b := Filled(b, h, payload);
      frames := frames[h.sequence := b];
      if b.received == b.fragmentCount {
        frames := frames - {h.sequence};
        assert frames == old(frames) - {h.sequence};
        if b.totalSize == 0 || b.totalSize > |b.data| {
          droppedIncomplete := droppedIncomplete + 1;
          return None;
        }
        completed := completed + 1;
        return Some(Frame(h.kind, h.sessionId, h.sequence, b.timestampNs, b.keyframe, b.data[..b.totalSize]));
      }
      return None;
    }

    /** `frames_[sequence]` with the eviction and initialisation of a new buffer. */
    method OpenBuffer(h: UdpHeader)
      requires h.fragmentCount > 1
      modifies this`frames, this`droppedIncomplete
      ensures h.sequence in old(frames) ==> frames == old(frames) && droppedIncomplete == old(droppedIncomplete)
      ensures h.sequence !in old(frames) ==>
        var grown := old(frames)[h.sequence := NewBuf(h)];
        if |grown| > MAX_IN_FLIGHT
        then frames == grown - {LeastKey(grown.Keys)} && droppedIncomplete == old(droppedIncomplete) + 1
        else frames == grown && droppedIncomplete == old(droppedIncomplete)
    {
      if h.sequence !in frames {
        frames := frames[h.sequence := NewBuf(h)];
        if |frames| > MAX_IN_FLIGHT {
          var oldest := FirstKey(frames);
          assert oldest == LeastKey(frames.Keys);
          frames := frames - {oldest};
          droppedIncomplete := droppedIncomplete + 1;
        }
      }
    }

    /** Pops buffers off the front while they are too old. */
    method Gc()
      requires State().Valid()
      modifies this`frames, this`droppedIncomplete
      ensures State() == Collected(old(State()))
    {
      var more := frames != map[];
      if !more {
        NothingToCollect(State());
      }
      while more
        invariant State().Valid() && Collected(State()) == Collected(old(State()))
        invariant if more then frames != map[] else Collected(State()) == State()
        decreases more, |frames|
      {
        more := PopStale();
      }
    }

    /** One turn of the loop: the front buffer goes if it is too old; `more` if there is another to look at. */
    method PopStale() returns (more: bool)
      requires State().Valid() && frames != map[]
      modifies this`frames, this`droppedIncomplete
      ensures State().Valid() && Collected(State()) == Collected(old(State()))
      ensures if more then frames != map[] && |frames| < |old(frames)| else Collected(State()) == State()
    {
      var lowest := FirstKey(frames);
      if highestStarted > lowest + GC_WINDOW {
        CollectOne(State(), lowest);
        ShrunkSize(frames, lowest);
        frames := frames - {lowest};
        droppedIncomplete := droppedIncomplete + 1;
        more := frames != map[];
      } else {
        more := false;
      }
      if !more {
        NothingToCollect(State());
      }
    }
  }
}
