/** Frames on the control connection: header, stream and read loop (networking/Packet.cpp, lines 28-57; networking/TcpTransport.cpp, lines 93-132). */
module TcpFraming {
  import opened Bytes

  const HEADER_SIZE := 10
  const MAGIC := 0x5250
  const VERSION := 1
  const MAX_PAYLOAD := 64 * 1024

  datatype Message = Message(kind: nat, flags: byte, payload: seq<byte>)
  {
    ghost predicate InRange() {
      kind < 0x1_0000 && |payload| < 0x1_0000_0000
    }
  }

  datatype FrameHeader = FrameHeader(kind: nat, flags: byte, payloadSize: nat)

  function MakeHeader(m: Message): (s: seq<byte>)
    ensures |s| == HEADER_SIZE
  {
    PutLE(MAGIC, 2) + [VERSION] + PutLE(m.kind, 2) + [m.flags] + PutLE(|m.payload|, 4)
  }

  function MakeFrame(m: Message): (s: seq<byte>)
    ensures |s| == HEADER_SIZE + |m.payload|
  {
    MakeHeader(m) + m.payload
  }

  function ParseFrameHeader(s: seq<byte>): (r: Option<FrameHeader>) {
    if |s| < HEADER_SIZE then None
    else
      var size := GetLE(s[6..10]);
      if GetLE(s[0..2]) != MAGIC || s[2] != VERSION || size > MAX_PAYLOAD then None
      else Some(FrameHeader(GetLE(s[3..5]), s[5], size))
  }

  /** A header is accepted exactly when the payload it announces is within the limit. */
  lemma ParseOfMake(m: Message)
    requires m.InRange()
    ensures ParseFrameHeader(MakeHeader(m))
      == if |m.payload| <= MAX_PAYLOAD then Some(FrameHeader(m.kind, m.flags, |m.payload|)) else None
  {
    var s := MakeHeader(m);
    assert s[0..2] == PutLE(MAGIC, 2) && s[3..5] == PutLE(m.kind, 2) && s[6..10] == PutLE(|m.payload|, 4);
    Widths();
    GetPutLE(MAGIC, 2);
    GetPutLE(m.kind, 2);
    GetPutLE(|m.payload|, 4);
  }

  /** What the read loop made of the bytes so far: messages handed out, bytes it still waits on, or a violation. */
  datatype Reading = Reading(messages: seq<Message>, pending: seq<byte>, failed: bool)

  function Read(s: seq<byte>): (r: Reading)
    decreases |s|
  {
    if |s| < HEADER_SIZE then Reading([], s, false)
    else
      match ParseFrameHeader(s[..HEADER_SIZE])
      case None => Reading([], s, true)
      case Some(h) =>
        var end := HEADER_SIZE + h.payloadSize;
        if |s| < end then Reading([], s, false)
        else
          var r := Read(s[end..]);
          r.(messages := [Message(h.kind, h.flags, s[HEADER_SIZE..end])] + r.messages)
  }

  function Stream(ms: seq<Message>): (s: seq<byte>) {
    if ms == [] then [] else MakeFrame(ms[0]) + Stream(ms[1..])
  }

  ghost predicate Sendable(ms: seq<Message>) {
    forall m <- ms :: m.InRange() && |m.payload| <= MAX_PAYLOAD
  }

  /** The read loop hands out exactly these messages, waits on exactly these bytes and sees no violation. */
  ghost predicate ReadsAs(s: seq<byte>, ms: seq<Message>, pending: seq<byte>) {
    Read(s) == Reading(ms, pending, false)
  }

  lemma ReadBehind(m: Message, tail: seq<byte>)
    requires m.InRange() && |m.payload| <= MAX_PAYLOAD
    ensures Read(MakeFrame(m) + tail) == Read(tail).(messages := [m] + Read(tail).messages)
  {
    var s := MakeFrame(m) + tail;
    ParseOfMake(m);
    assert s[..HEADER_SIZE] == MakeHeader(m);
    assert s[HEADER_SIZE..HEADER_SIZE + |m.payload|] == m.payload && s[HEADER_SIZE + |m.payload|..] == tail;
  }

  lemma ReadCut(m: Message, n: nat)
    requires m.InRange() && |m.payload| <= MAX_PAYLOAD && n < |MakeFrame(m)|
    ensures ReadsAs(MakeFrame(m)[..n], [], MakeFrame(m)[..n])
  {
    if n >= HEADER_SIZE {
      ParseOfMake(m);
      assert MakeFrame(m)[..n][..HEADER_SIZE] == MakeHeader(m);
    }
  }

  lemma CutBehind(first: seq<byte>, rest: seq<byte>, n: nat)
    requires |first| <= n <= |first| + |rest|
    ensures (first + rest)[..n] == first + rest[..n - |first|]
  {
  }

  lemma FirstAndRest(ms: seq<Message>, k: nat)
    requires k < |ms|
    ensures ms[..k + 1] == [ms[0]] + ms[1..][..k]
  {
  }

  /** The number of whole frames in the first `n` bytes. */
  ghost function WholeFrames(ms: seq<Message>, n: nat): (k: nat)
    ensures k <= |ms|
  {
    if ms == [] || n < |MakeFrame(ms[0])| then 0 else 1 + WholeFrames(ms[1..], n - |MakeFrame(ms[0])|)
  }

  /** What follows the whole frames in the first `n` bytes: the beginning of the next frame. */
  ghost function Begun(ms: seq<Message>, n: nat): (s: seq<byte>)
    requires n <= |Stream(ms)|
  {
    if ms == [] then []
    else if n < |MakeFrame(ms[0])| then MakeFrame(ms[0])[..n]
    else Begun(ms[1..], n - |MakeFrame(ms[0])|)
  }

  /** The whole frames and the begun one make up the bytes, and the begun one is a strict part of the next frame. */
  lemma {:induction false} BegunCompletes(ms: seq<Message>, n: nat)
    requires n <= |Stream(ms)|
    ensures var k := WholeFrames(ms, n);
      && Stream(ms[..k]) + Begun(ms, n) == Stream(ms)[..n]
      && if k == |ms| then Begun(ms, n) == [] else |Begun(ms, n)| < |MakeFrame(ms[k])| && Begun(ms, n) <= MakeFrame(ms[k])
  {
    if ms != [] {
      var first, rest := MakeFrame(ms[0]), Stream(ms[1..]);
      if n < |first| {
        assert ms[..0] == [] && Stream(ms)[..n] == first[..n];
      } else {
        var k := WholeFrames(ms[1..], n - |first|);
        BegunCompletes(ms[1..], n - |first|);
        FirstAndRest(ms, k);
        assert ms[..k + 1][1..] == ms[1..][..k];
        CutBehind(first, rest, n);
        ConcatAssociates(first, Stream(ms[1..][..k]), Begun(ms[1..], n - |first|));
      }
    }
  }

  /** One whole frame in front of what is read. */
  lemma ReadOneMore(ms: seq<Message>, n: nat)
    requires Sendable(ms) && ms != [] && |MakeFrame(ms[0])| <= n <= |Stream(ms)|
    requires var k := WholeFrames(ms[1..], n - |MakeFrame(ms[0])|);
      ReadsAs(Stream(ms[1..])[..n - |MakeFrame(ms[0])|], ms[1..][..k], Begun(ms[1..], n - |MakeFrame(ms[0])|))
    ensures ReadsAs(Stream(ms)[..n], ms[..WholeFrames(ms, n)], Begun(ms, n))
  {
    var first, rest := MakeFrame(ms[0]), Stream(ms[1..]);
    CutBehind(first, rest, n);
    ReadBehind(ms[0], rest[..n - |first|]);
    FirstAndRest(ms, WholeFrames(ms[1..], n - |first|));
  }

  /**
   * Whatever part of the stream has arrived, the read loop has handed out exactly the messages that are
   * complete in it, in order and unchanged, waits on the beginning of the next one, and sees no violation.
   */
  lemma {:induction false} ReadsBack(ms: seq<Message>, n: nat)
    requires Sendable(ms) && n <= |Stream(ms)|
    ensures ReadsAs(Stream(ms)[..n], ms[..WholeFrames(ms, n)], Begun(ms, n))
    ensures n == |Stream(ms)| ==> WholeFrames(ms, n) == |ms|
  {
    if ms == [] {
      assert Stream(ms)[..n] == [];
    } else if n < |MakeFrame(ms[0])| {
      assert Stream(ms)[..n] == MakeFrame(ms[0])[..n];
      ReadCut(ms[0], n);
    } else {
      ReadsBack(ms[1..], n - |MakeFrame(ms[0])|);
      ReadOneMore(ms, n);
    }
  }

  lemma {:induction false} StreamAppend(a: seq<Message>, b: seq<Message>)
    ensures Stream(a + b) == Stream(a) + Stream(b)
  {
    if a == [] {
      assert a + b == b;
    } else {
      StreamAppend(a[1..], b);
      assert (a + b)[1..] == a[1..] + b;
      ConcatAssociates(MakeFrame(a[0]), Stream(a[1..]), Stream(b));
    }
  }

  // ---------- violations ----------

  /** Ten bytes that are no header, behind whole frames: the frames are handed out, and then the connection is given up. */
  lemma {:induction false} BadHeaderFails(ms: seq<Message>, bad: seq<byte>)
    requires Sendable(ms) && |bad| >= 10
    requires GetLE(bad[0..2]) != 0x5250 || bad[2] != 1 || GetLE(bad[6..10]) > 65536
    ensures Read(Stream(ms) + bad) == Reading(ms, bad, true)
  {
    if ms == [] {
      var h := bad[..10];
      assert h[0..2] == bad[0..2] && h[6..10] == bad[6..10];
      assert Stream(ms) + bad == bad;
    } else {
      BadHeaderFails(ms[1..], bad);
      ReadBehind(ms[0], Stream(ms[1..]) + bad);
      ConcatAssociates(MakeFrame(ms[0]), Stream(ms[1..]), bad);
    }
  }

  /** One header written out: magic, version, type, flags and size, all of them little-endian. */
  lemma HeaderBytes()
    ensures MakeHeader(Message(0x0102, 3, [7, 7, 7, 7, 7])) == [0x50, 0x52, 1, 0x02, 0x01, 3, 5, 0, 0, 0]
  {
    assert PutLE(0x5250, 2) == [0x50] + PutLE(0x52, 1) == [0x50, 0x52];
    assert PutLE(0x0102, 2) == [0x02] + PutLE(0x01, 1) == [0x02, 0x01];
    assert PutLE(5, 4) == [5] + PutLE(0, 3) && PutLE(0, 3) == [0] + PutLE(0, 2) && PutLE(0, 2) == [0] + PutLE(0, 1);
    assert PutLE(0, 1) == [0] + PutLE(0, 0);
  }
}
