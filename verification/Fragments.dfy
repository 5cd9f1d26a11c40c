/** How a frame is cut into datagrams (networking/UdpProtocol.cpp, lines 56-60; networking/UdpTransport.cpp, lines 297-329). */
module Fragments {
  import opened Bytes
  import opened UdpHeaders

  const MAX_PAYLOAD := 1100
  const FLAG_FRAGMENT := 1
  const FLAG_KEYFRAME := 2

  /** The largest frame whose fragment count fits the 16-bit counter. */
  const MAX_FRAME_SIZE := 0xFFFF * MAX_PAYLOAD

  /** A whole frame, as it is sent and as it is handed to the decoder. */
  datatype Frame = Frame(
    kind: byte, sessionId: nat, sequence: nat, timestampNs: nat, keyframe: bool, data: seq<byte>)
  {
    ghost predicate InRange() {
      && sessionId < 0x1_0000_0000
      && sequence < 0x1_0000_0000_0000_0000
      && timestampNs < 0x1_0000_0000_0000_0000
    }
  }

  /** The count is computed in `size_t` and then cut to 16 bits. */
  function FragmentCountFor(size: nat): (n: nat)
    ensures 1 <= n < 0x1_0000
    ensures size > 0 ==> (n - 1) * MAX_PAYLOAD < size
  {
    if size == 0 then 1 else
      var n := (size + MAX_PAYLOAD - 1) / MAX_PAYLOAD % 0x1_0000;
      if n < 1 then 1 else n
  }

  /** The number of datagrams a frame needs. */
  function NeededFragments(size: nat): (n: nat) {
    if size == 0 then 1 else (size + MAX_PAYLOAD - 1) / MAX_PAYLOAD
  }

  function Count(f: Frame): (n: nat)
    ensures n >= 1
  {
    FragmentCountFor(|f.data|)
  }

  function PayloadSize(f: Frame, fi: nat): (n: nat)
    requires fi < Count(f)
    ensures fi * MAX_PAYLOAD + n <= |f.data|
  {
    (if fi + 1 == Count(f) then |f.data| - fi * MAX_PAYLOAD else MAX_PAYLOAD) % 0x1_0000
  }

  function HasKeyframe(flags: byte): (b: bool) {
    flags / FLAG_KEYFRAME % 2 == 1
  }

  function FragmentHeader(f: Frame, fi: nat): (h: UdpHeader)
    requires fi < Count(f)
    ensures HasKeyframe(h.flags) == f.keyframe
  {
    UdpHeader(MAGIC, VERSION, f.kind,
              (if f.keyframe then FLAG_KEYFRAME else 0) + (if Count(f) > 1 then FLAG_FRAGMENT else 0),
              f.sessionId, f.sequence, fi, Count(f), f.timestampNs, PayloadSize(f, fi))
  }

  function FragmentPayload(f: Frame, fi: nat): (s: seq<byte>)
    requires fi < Count(f)
    ensures |s| == PayloadSize(f, fi)
  {
    f.data[fi * MAX_PAYLOAD..fi * MAX_PAYLOAD + PayloadSize(f, fi)]
  }

  function Datagram(f: Frame, fi: nat): (s: seq<byte>)
    requires fi < Count(f)
  {
    EncodeUdpHeader(FragmentHeader(f, fi)) + FragmentPayload(f, fi)
  }

  /** The payloads of the first `n` fragments, in order. */
  ghost function Joined(f: Frame, n: nat): (s: seq<byte>)
    requires n <= Count(f)
  {
    if n == 0 then [] else Joined(f, n - 1) + FragmentPayload(f, n - 1)
  }

  lemma CountIsNeededExactly(size: nat)
    ensures FragmentCountFor(size) == NeededFragments(size) <==> size <= 65535 * 1100
  {
  }

  lemma {:induction false} JoinedIsPrefix(f: Frame, n: nat)
    requires n < Count(f)
    ensures Joined(f, n) == f.data[..n * MAX_PAYLOAD]
  {
    if n > 0 {
      JoinedIsPrefix(f, n - 1);
      assert f.data[..n * MAX_PAYLOAD]
          == f.data[..(n - 1) * MAX_PAYLOAD] + f.data[(n - 1) * MAX_PAYLOAD..n * MAX_PAYLOAD];
    }
  }

  lemma JoinedSize(f: Frame)
    ensures Joined(f, Count(f)) == f.data[..(Count(f) - 1) * MAX_PAYLOAD + PayloadSize(f, Count(f) - 1)]
  {
    var last := Count(f) - 1;
    JoinedIsPrefix(f, last);
    assert f.data[..last * MAX_PAYLOAD + PayloadSize(f, last)]
        == f.data[..last * MAX_PAYLOAD] + FragmentPayload(f, last);
  }

  /** The fragments carry the whole frame exactly when its size does not overflow the 16-bit fragment count. */
  lemma FragmentsCarryFrame(f: Frame)
    ensures Joined(f, Count(f)) == f.data <==> |f.data| <= 65535 * 1100
  {
    JoinedSize(f);
    var last := Count(f) - 1;
    assert f.data[..|f.data|] == f.data;
    if |f.data| <= MAX_FRAME_SIZE {
      CountIsNeededExactly(|f.data|);
    } else {
      assert |f.data| - last * MAX_PAYLOAD >= 0x1_0000;
    }
  }

  /** A frame just over the limit is sent as one datagram that holds only its first five bytes. */
  lemma OversizeFrameIsCutShort(f: Frame)
    requires |f.data| == 0x1_0000 * MAX_PAYLOAD + 5
    ensures Count(f) == 1 && FragmentPayload(f, 0) == f.data[..5]
  {
  }

  /** Within the limit, each payload fits its slot and only the last may be short. */
  lemma FragmentShape(f: Frame, fi: nat)
    requires |f.data| <= MAX_FRAME_SIZE && fi < Count(f)
    ensures Count(f) == NeededFragments(|f.data|)
    ensures PayloadSize(f, fi) == if fi + 1 == Count(f) then |f.data| - fi * MAX_PAYLOAD else MAX_PAYLOAD
    ensures PayloadSize(f, fi) <= MAX_PAYLOAD
    ensures Count(f) > 1 ==> PayloadSize(f, fi) > 0
  {
    CountIsNeededExactly(|f.data|);
  }

  /** What stands in front of each fragment. */
  lemma HeaderOfFragment(f: Frame, fi: nat)
    requires |f.data| <= 65535 * 1100 && fi < Count(f)
    ensures var n := if f.data == [] then 1 else (|f.data| + 1099) / 1100;
      FragmentHeader(f, fi) ==
        UdpHeader(0x5252, 1, f.kind, (if f.keyframe then 2 else 0) + (if n > 1 then 1 else 0), f.sessionId, f.sequence,
                  fi, n, f.timestampNs, if fi + 1 < n then 1100 else |f.data| - (n - 1) * 1100)
  {
    FragmentShape(f, fi);
  }

  /** The bytes of one fragment read back as its header and payload, unless the frame has too many fragments. */
  lemma DatagramDecodes(f: Frame, fi: nat)
    requires f.InRange() && f.kind <= 8 && fi < Count(f)
    ensures DecodeUdpHeader(Datagram(f, fi)) == if Count(f) <= MAX_FRAGMENTS then Some(FragmentHeader(f, fi)) else None
    ensures Datagram(f, fi)[HEADER_SIZE..] == FragmentPayload(f, fi)
  {
    DecodeOfEncode(FragmentHeader(f, fi), FragmentPayload(f, fi));
  }

  /** One buffer: the header in front, the payload copied behind it. */
  method FillDatagram(h: UdpHeader, data: seq<byte>, off: nat) returns (dg: seq<byte>)
    requires off + h.payloadSize <= |data|
    ensures dg == EncodeUdpHeader(h) + data[off..off + h.payloadSize]
  {
    var buf := new byte[HEADER_SIZE + h.payloadSize](_ => 0);
    WriteUdpHeader(buf, h);
    for k := 0 to h.payloadSize
      invariant buf[..HEADER_SIZE] == EncodeUdpHeader(h)
      invariant buf[HEADER_SIZE..HEADER_SIZE + k] == data[off..off + k]
    {
      buf[HEADER_SIZE + k] := data[off + k];
    }
    assert buf[..] == buf[..HEADER_SIZE] + buf[HEADER_SIZE..HEADER_SIZE + h.payloadSize];
    return buf[..];
  }

  /** The fragmenting loop of `sendFrame`. */
  method MakeDatagrams(f: Frame) returns (out: seq<seq<byte>>)
    ensures |out| == Count(f)
    ensures forall i :: 0 <= i < |out| ==> out[i] == Datagram(f, i)
  {
    out := [];
    var frags := FragmentCountFor(|f.data|);
    for fi := 0 to frags
      invariant |out| == fi
      invariant forall i :: 0 <= i < fi ==> out[i] == Datagram(f, i)
    {
      var dg := FillDatagram(FragmentHeader(f, fi), f.data, fi * MAX_PAYLOAD);
      out := out + [dg];
    }
  }
}
