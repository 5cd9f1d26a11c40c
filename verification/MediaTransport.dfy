/** The receive and send paths of media frames without encryption (networking/UdpTransport.cpp, lines 134-168, 234-347, 423-431). */
module MediaTransport {
  import opened Bytes
  import opened UdpHeaders
  import opened Fragments
  import opened SequenceTracking
  import opened Reassembly
  import JB = JitterBuffering

  const FLAG_ENCRYPTED := 4
  const KINDS := 9

  /** The per-type receive state: tracker, reassembler and jitter buffer of video or of audio. */
  datatype Lane = Lane(tracker: Tracker, reassembler: Reassembler, jitter: JB.Jitter)
  {
    ghost predicate Valid() {
      tracker.Valid() && reassembler.Valid() && reassembler.Banded()
    }
  }

  datatype Receiver = Receiver(sessionId: nat, video: Lane, audio: Lane)
  {
    ghost predicate Valid() {
      video.Valid() && audio.Valid()
    }
  }

  function FreshLane(): (l: Lane)
    ensures l.Valid()
  {
    Lane(SequenceTracking.Fresh(), Empty(), JB.Fresh(30))
  }

  /** One media datagram: track, feed, collect, and push what was completed. */
  ghost function LaneReceived(l: Lane, p: Packet, targetMs: nat, nowNs: nat): (l': Lane)
    requires l.Valid() && Stays(l.reassembler, p)
    ensures l'.Valid()
  {
    StepKeepsBand(l.reassembler, p);
    var (r, out) := Step(l.reassembler, p);
    Lane(Tracked(l.tracker, p.h.sequence).0, r,
         if out.Some? then JB.Pushed(l.jitter.(targetMs := targetMs), out.value, nowNs) else l.jitter)
  }

  predicate IsEncrypted(flags: byte) {
    flags / FLAG_ENCRYPTED % 2 == 1
  }

  function PacketOf(buf: seq<byte>, h: UdpHeader): (p: Packet)
    requires HEADER_SIZE + h.payloadSize <= |buf|
  {
    Packet(h, buf[HEADER_SIZE..HEADER_SIZE + h.payloadSize])
  }

  /** The header of a datagram that passes the checks in front of the media path. */
  function Admitted(sessionId: nat, buf: seq<byte>): (r: Option<UdpHeader>)
    ensures r.Some? ==> HEADER_SIZE + r.value.payloadSize <= |buf|
  {
    match DecodeUdpHeader(buf)
    case None => None
    case Some(h) =>
      if sessionId != 0 && h.sessionId != sessionId then None
      else if IsEncrypted(h.flags) then None
      else Some(h)
  }

  predicate IsMedia(kind: byte) {
    kind == VIDEO || kind == AUDIO
  }

  /** A datagram is let through exactly if it decodes, is of this session or any is taken, and is not marked as encrypted. */
  lemma AdmittedExactly(sessionId: nat, buf: seq<byte>)
    ensures var h := DecodeUdpHeader(buf);
      Admitted(sessionId, buf) ==
        if h.Some? && (sessionId == 0 || h.value.sessionId == sessionId) && h.value.flags / 4 % 2 == 0 then h else None
  {
  }

  /** A small datagram carries the first 1100 bytes of what was given, as one fragment. */
  lemma SmallDecodes(kind: byte, sessionId: nat, sequence: nat, timestampNs: nat, data: seq<byte>)
    requires kind <= 8 && sessionId < 0x1_0000_0000
    requires sequence < 0x1_0000_0000_0000_0000 && timestampNs < 0x1_0000_0000_0000_0000
    ensures var n := if |data| < 1100 then |data| else 1100;
      var dg := SmallDatagram(kind, sessionId, sequence, timestampNs, data);
      && DecodeUdpHeader(dg) == Some(UdpHeader(0x5252, 1, kind, 0, sessionId, sequence, 0, 1, timestampNs, n))
      && dg[31..] == data[..n]
  {
    var n := Min(|data|, MAX_PAYLOAD);
    DecodeOfEncode(SmallHeader(kind, sessionId, sequence, timestampNs, n), data[..n]);
  }

  /** If the datagram is a fragment that is copied, the copy stays inside its buffer. */
  ghost predicate Safe(rx: Receiver, buf: seq<byte>)
    requires rx.Valid()
  {
    var h := Admitted(rx.sessionId, buf);
    h.Some? && IsMedia(h.value.kind) ==>
      Stays((if h.value.kind == VIDEO then rx.video else rx.audio).reassembler, PacketOf(buf, h.value))
  }

  /** Whatever is admitted has what decoding grants, so only the size of a new fragment can be unsafe. */
  lemma UnsafeExactly(rx: Receiver, buf: seq<byte>)
    requires rx.Valid()
    ensures var h := Admitted(rx.sessionId, buf);
      !Safe(rx, buf) <==>
        && h.Some? && IsMedia(h.value.kind)
        && Copies((if h.value.kind == VIDEO then rx.video else rx.audio).reassembler, h.value)
        && h.value.payloadSize > (h.value.fragmentCount - h.value.fragmentIndex) * MAX_PAYLOAD
  {
    var h := Admitted(rx.sessionId, buf);
    if h.Some? && IsMedia(h.value.kind) {
      LeavesBufferExactly((if h.value.kind == VIDEO then rx.video else rx.audio).reassembler, PacketOf(buf, h.value));
    }
  }

  /** A video datagram that decodes, is fragment 1 of 2 and has one byte too many: a new receiver copies past its buffer. */
  lemma OversizeFragmentDecodes(sessionId: nat, payload: seq<byte>)
    requires sessionId < 0x1_0000_0000 && |payload| == MAX_PAYLOAD + 1
    ensures var h := UdpHeader(MAGIC, VERSION, VIDEO, FLAG_FRAGMENT, sessionId, 0, 1, 2, 0, MAX_PAYLOAD + 1);
      var buf := EncodeUdpHeader(h) + payload;
      DecodeUdpHeader(buf) == Some(h) && !Safe(Receiver(sessionId, FreshLane(), FreshLane()), buf)
  {
    var h := UdpHeader(MAGIC, VERSION, VIDEO, FLAG_FRAGMENT, sessionId, 0, 1, 2, 0, MAX_PAYLOAD + 1);
    DecodeOfEncode(h, payload);
    UnsafeExactly(Receiver(sessionId, FreshLane(), FreshLane()), EncodeUdpHeader(h) + payload);
  }

  ghost function Received(rx: Receiver, buf: seq<byte>, targetMs: nat, nowNs: nat): (rx': Receiver)
    requires rx.Valid() && Safe(rx, buf)
    ensures rx'.Valid()
  {
    var h := Admitted(rx.sessionId, buf);
    if h.None? then rx
    else if h.value.kind == VIDEO then rx.(video := LaneReceived(rx.video, PacketOf(buf, h.value), targetMs, nowNs))
    else if h.value.kind == AUDIO then rx.(audio := LaneReceived(rx.audio, PacketOf(buf, h.value), targetMs, nowNs))
    else rx
  }

  function SmallHeader(kind: byte, sessionId: nat, sequence: nat, timestampNs: nat, size: nat): (h: UdpHeader) {
    UdpHeader(MAGIC, VERSION, kind, 0, sessionId, sequence, 0, 1, timestampNs, size)
  }

  /** The single datagram of `sendSmall`: at most 1100 bytes of the payload. */
  function SmallDatagram(kind: byte, sessionId: nat, sequence: nat, timestampNs: nat, data: seq<byte>): (s: seq<byte>) {
    var size := Min(|data|, MAX_PAYLOAD);
    EncodeUdpHeader(SmallHeader(kind, sessionId, sequence, timestampNs, size)) + data[..size]
  }

  // ---------- the object ----------

  class MediaLane {
    const sequences: SequenceTracker
    const reassembly: FragmentReassembler
    const jitter: JB.JitterBuffer
    ghost const Repr: set<object>

    ghost predicate Valid()
      reads this, Repr
    {
      && Repr == {sequences, sequences.seenWindow, sequences.seenMask, reassembly, jitter}
      && sequences.Valid()
      && State().Valid()
    }

    ghost function State(): (l: Lane)
      requires sequences.Valid()
      reads sequences, sequences.seenWindow, sequences.seenMask, reassembly, jitter
    {
      Lane(sequences.State(), reassembly.State(), jitter.State())
    }

    constructor ()
      ensures Valid() && fresh(Repr)
      ensures State() == FreshLane()
    {
      var s := new SequenceTracker();
      var r := new FragmentReassembler();
      var j := new JB.JitterBuffer(30);
      sequences, reassembly, jitter := s, r, j;
      Repr := {s, s.seenWindow, s.seenMask, r, j};
    }

    method Receive(p: Packet, targetMs: nat, nowNs: nat) returns (gap: int)
      requires Valid() && Stays(State().reassembler, p)
      modifies Repr
      ensures Valid() && State() == LaneReceived(old(State()), p, targetMs, nowNs)
      ensures gap == Tracked(old(State().tracker), p.h.sequence).1
    {
      ghost var before := State();
      StepKeepsBand(before.reassembler, p);
      gap := sequences.Track(p.h.sequence);
      var out := reassembly.Feed(p);
      reassembly.Gc();
      if out.Some? {
        jitter.SetTargetMs(targetMs);
        jitter.Push(out.value, nowNs);
      }
      assert State() == LaneReceived(before, p, targetMs, nowNs);
    }
  }

  class UdpTransport {
    const sessionId: nat
    const video: MediaLane
    const audio: MediaLane
    const seqCounter: array<nat>
    var running: bool
    var socketOpen: bool
    var havePeer: bool
    /** Datagrams handed to the socket, in order. */
    var posted: seq<seq<byte>>

    ghost predicate Valid()
      reads video, video.Repr, audio, audio.Repr
    {
      && video.Valid() && audio.Valid()
      && video.Repr !! audio.Repr
      && (seqCounter as object) !in video.Repr + audio.Repr
      && (this as object) !in video.Repr + audio.Repr
      && seqCounter.Length == KINDS
    }

    ghost function State(): (rx: Receiver)
      requires video.sequences.Valid() && audio.sequences.Valid()
      reads video.sequences, video.sequences.seenWindow, video.sequences.seenMask, video.reassembly, video.jitter
      reads audio.sequences, audio.sequences.seenWindow, audio.sequences.seenMask, audio.reassembly, audio.jitter
    {
      Receiver(sessionId, video.State(), audio.State())
    }

    constructor (sessionId: nat)
      ensures Valid() && State() == Receiver(sessionId, FreshLane(), FreshLane())
      ensures posted == [] && !running && !socketOpen && !havePeer
      ensures forall k :: 0 <= k < KINDS ==> seqCounter[k] == 0
    {
      this.sessionId := sessionId;
      video := new MediaLane();
      audio := new MediaLane();
      seqCounter := new nat[KINDS](_ => 0);
      posted, running, socketOpen, havePeer := [], false, false, false;
    }

    predicate CanSend()
      reads this
    {
      running && socketOpen && havePeer
    }

    /** Every fragment of the frame is posted under one fresh sequence number of its type; nothing without socket and peer. */
    method SendFrame(kind: byte, keyframe: bool, data: seq<byte>, timestampNs: nat) returns (ghost f: Frame)
      requires Valid() && kind < KINDS
      modifies this`posted, seqCounter
      ensures f == Frame(kind, sessionId, old(seqCounter[kind]), timestampNs, keyframe, data)
      ensures !CanSend() ==> posted == old(posted) && seqCounter[..] == old(seqCounter[..])
      ensures CanSend() ==> |posted| == |old(posted)| + Count(f) && posted[..|old(posted)|] == old(posted)
      ensures CanSend() ==> forall fi :: 0 <= fi < Count(f) ==> posted[|old(posted)| + fi] == Datagram(f, fi)
      ensures CanSend() ==> seqCounter[..] == old(seqCounter[..])[kind := old(seqCounter[kind]) + 1]
    {
      if !running || !socketOpen || !havePeer {
        return Frame(kind, sessionId, seqCounter[kind], timestampNs, keyframe, data);
      }
      var frame := Frame(kind, sessionId, seqCounter[kind], timestampNs, keyframe, data);
      seqCounter[kind] := seqCounter[kind] + 1;
      var datagrams := MakeDatagrams(frame);
      posted := posted + datagrams;
      f := frame;
    }

    /** One unfragmented datagram, or nothing without socket and peer. */
    method SendSmall(kind: byte, data: seq<byte>, nowNs: nat)
      requires Valid() && kind < KINDS
      modifies this`posted, seqCounter
      ensures !CanSend() ==> posted == old(posted) && seqCounter[..] == old(seqCounter[..])
      ensures CanSend() ==>
        && posted == old(posted) + [SmallDatagram(kind, sessionId, old(seqCounter[kind]), nowNs, data)]
        && seqCounter[..] == old(seqCounter[..])[kind := old(seqCounter[kind]) + 1]
    {
      if !running || !socketOpen || !havePeer {
        return;
      }
      var size := Min(|data|, MAX_PAYLOAD);
      var h := SmallHeader(kind, sessionId, seqCounter[kind], nowNs, size);
      seqCounter[kind] := seqCounter[kind] + 1;
      var dg := FillDatagram(h, data, 0);
      posted := posted + [dg];
    }

    /** The first datagram admitted also tells where the peer is. */
    method HandleDatagram(buf: seq<byte>, targetMs: nat, nowNs: nat)
      requires Valid() && Safe(State(), buf)
      modifies this`havePeer, video.Repr, audio.Repr
      ensures Valid() && State() == Received(old(State()), buf, targetMs, nowNs)
      ensures havePeer == (old(havePeer) || Admitted(sessionId, buf).Some?)
    {
      var h := Admitted(sessionId, buf);
      if h.Some? {
        havePeer := true;
        if h.value.kind == VIDEO {
          var gap := video.Receive(PacketOf(buf, h.value), targetMs, nowNs);
        } else if h.value.kind == AUDIO {
          var gap := audio.Receive(PacketOf(buf, h.value), targetMs, nowNs);
        }
      }
    }

    method PollVideo(nowNs: nat) returns (out: seq<Frame>)
      requires Valid()
      modifies video.Repr
      ensures Valid()
      ensures JB.Popped(old(State().video.jitter), nowNs) == (State().video.jitter, out)
      ensures State() == old(State()).(video := old(State().video).(jitter := State().video.jitter))
    {
      out := video.jitter.Pop(nowNs);
    }
  }
}
