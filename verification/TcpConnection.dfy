/** The write pump and shutdown of a control connection (networking/TcpTransport.cpp, lines 55-85 and 134-162). */
module TcpConnections {
  import opened Bytes
  import opened TcpFraming

  datatype Cause = Drained | Asked | Error

  datatype Conn = Conn(
    outbox: seq<seq<byte>>, writing: bool, closeAfterWrite: bool, closed: bool,
    posted: seq<Message>,        // messages taken into the outbox, in order
    finished: nat,               // of these, completely written
    taken: nat,                  // bytes of the front frame the socket has taken
    wire: seq<byte>,             // everything the socket has taken
    cause: Option<Cause>,        // why it closed
    callbacks: nat)              // calls of the close handler

  datatype Op =
    | Send(m: Message)
    | SendAndClose(m: Message)
    | Close
    | Progress(n: nat)           // the outstanding write moves on by up to `n` bytes
    | WriteDone                  // it completes
    | WriteFailed
    | ReadFailed                 // end of stream, socket error or protocol violation

  function Opened(): (c: Conn) {
    Conn([], false, false, false, [], 0, 0, [], None, 0)
  }

  function Pumped(c: Conn): (c': Conn) {
    if c.writing || c.outbox == [] || c.closed then c else c.(writing := true, taken := 0)
  }

  function Shut(c: Conn, cause: Cause): (c': Conn) {
    if c.closed then c else c.(closed := true, outbox := [], cause := Some(cause), callbacks := c.callbacks + 1)
  }

  function Posted(c: Conn, m: Message, andClose: bool): (c': Conn) {
    if c.closed then c
    else Pumped(c.(outbox := c.outbox + [MakeFrame(m)], posted := c.posted + [m],
                   closeAfterWrite := c.closeAfterWrite || andClose))
  }

  function Progressed(c: Conn, n: nat): (c': Conn) {
    if c.closed || !c.writing || c.outbox == [] || c.taken > |c.outbox[0]| then c
    else
      var k := Min(n, |c.outbox[0]| - c.taken);
      c.(wire := c.wire + c.outbox[0][c.taken..c.taken + k], taken := c.taken + k)
  }

  /** The completion handler; a write completes once the socket has taken the whole frame. */
  function Completed(c: Conn): (c': Conn) {
    if !c.writing || (c.outbox != [] && c.taken != |c.outbox[0]|) then c
    else
      var c := c.(writing := false);
      var c := if c.outbox == [] then c else c.(outbox := c.outbox[1..], finished := c.finished + 1);
      if c.closeAfterWrite && c.outbox == [] then Shut(c, Drained) else Pumped(c)
  }

  function Next(c: Conn, op: Op): (c': Conn) {
    match op
    case Send(m) => Posted(c, m, false)
    case SendAndClose(m) => Posted(c, m, true)
    case Close => Shut(c, Asked)
    case Progress(n) => Progressed(c, n)
    case WriteDone => Completed(c)
    case WriteFailed => if c.writing then Shut(c.(writing := false), Error) else c
    case ReadFailed => Shut(c, Error)
  }

  function Run(ops: seq<Op>): (c: Conn) {
    if ops == [] then Opened() else Next(Run(ops[..|ops| - 1]), ops[|ops| - 1])
  }

  // ---------- what every state keeps ----------

  ghost function Partial(c: Conn): (s: seq<byte>) {
    if c.writing && c.outbox != [] && c.taken <= |c.outbox[0]| then c.outbox[0][..c.taken] else []
  }

  /** While open: the outbox holds the frames not yet written, the first one is being written, and the wire has the rest. */
  ghost predicate OpenInv(c: Conn) {
    && c.finished + |c.outbox| == |c.posted|
    && (forall i :: 0 <= i < |c.outbox| ==> c.outbox[i] == MakeFrame(c.posted[c.finished + i]))
    && (c.writing <==> c.outbox != [])
    && (c.writing ==> c.taken <= |c.outbox[0]|)
    && c.wire == Stream(c.posted[..c.finished]) + Partial(c)
  }

  ghost predicate Inv(c: Conn) {
    && c.callbacks == (if c.closed then 1 else 0)
    && (c.closed <==> c.cause.Some?)
    && (!c.closed ==> OpenInv(c))
    && c.wire <= Stream(c.posted)
    && (c.cause == Some(Drained) ==> c.closeAfterWrite && c.wire == Stream(c.posted))
  }

  lemma WireIsPrefix(c: Conn)
    requires OpenInv(c)
    ensures c.wire <= Stream(c.posted)
    ensures c.outbox == [] ==> c.wire == Stream(c.posted)
  {
    var k := c.finished;
    assert c.posted == c.posted[..k] + c.posted[k..];
    StreamAppend(c.posted[..k], c.posted[k..]);
    if c.outbox == [] {
      assert c.posted[k..] == [] && c.posted[..k] == c.posted;
    } else {
      assert c.posted[k..][0] == c.posted[k];
      assert Stream(c.posted[k..]) == c.outbox[0] + Stream(c.posted[k..][1..]);
      assert Partial(c) <= Stream(c.posted[k..]);
    }
  }

  lemma PostedKeepsInv(c: Conn, m: Message, andClose: bool)
    requires Inv(c)
    ensures Inv(Posted(c, m, andClose))
  {
    if !c.closed {
      var c' := Posted(c, m, andClose);
      assert c'.posted[..c.finished] == c.posted[..c.finished];
      assert c'.outbox == c.outbox + [MakeFrame(m)];
      assert Partial(c') == Partial(c);
      WireIsPrefix(c');
    }
  }

  lemma MoreTaken(frame: seq<byte>, taken: nat, k: nat)
    requires taken + k <= |frame|
    ensures frame[..taken] + frame[taken..taken + k] == frame[..taken + k]
  {
  }

  lemma MoreOnWire(c: Conn, k: nat)
    requires OpenInv(c) && c.writing && c.taken + k <= |c.outbox[0]|
    ensures OpenInv(c.(wire := c.wire + c.outbox[0][c.taken..c.taken + k], taken := c.taken + k))
  {
    MoreTaken(c.outbox[0], c.taken, k);
    ConcatAssociates(Stream(c.posted[..c.finished]), Partial(c), c.outbox[0][c.taken..c.taken + k]);
  }

  lemma ProgressedKeepsInv(c: Conn, n: nat)
    requires Inv(c)
    ensures Inv(Progressed(c, n))
  {
    if !c.closed && c.writing {
      MoreOnWire(c, Min(n, |c.outbox[0]| - c.taken));
      WireIsPrefix(Progressed(c, n));
    }
  }

  lemma StreamGrows(ms: seq<Message>, k: nat)
    requires k < |ms|
    ensures Stream(ms[..k + 1]) == Stream(ms[..k]) + MakeFrame(ms[k])
  {
    assert ms[..k + 1] == ms[..k] + [ms[k]];
    StreamAppend(ms[..k], [ms[k]]);
    assert [ms[k]][1..] == [];
    assert Stream([ms[k]]) == MakeFrame(ms[k]) + [];
  }

  /** The front frame leaves the outbox: now it counts as written. */
  lemma PopKeepsInv(c: Conn)
    requires OpenInv(c) && c.writing && c.taken == |c.outbox[0]|
    ensures var d := c.(writing := false, outbox := c.outbox[1..], finished := c.finished + 1);
      && d.wire == Stream(d.posted[..d.finished])
      && (forall i :: 0 <= i < |d.outbox| ==> d.outbox[i] == MakeFrame(d.posted[d.finished + i]))
      && (d.outbox == [] ==> d.wire == Stream(d.posted))
  {
    var k := c.finished;
    assert Partial(c) == c.outbox[0] == MakeFrame(c.posted[k]);
    StreamGrows(c.posted, k);
    if |c.outbox| == 1 {
      assert c.posted[..k + 1] == c.posted;
    }
  }

  /** The next write starts with nothing of its frame on the wire. */
  lemma PumpKeepsInv(d: Conn)
    requires !d.closed && !d.writing && d.callbacks == 0 && d.cause == None
    requires d.finished + |d.outbox| == |d.posted| && d.wire == Stream(d.posted[..d.finished])
    requires forall i :: 0 <= i < |d.outbox| ==> d.outbox[i] == MakeFrame(d.posted[d.finished + i])
    ensures Inv(Pumped(d))
  {
    assert d.wire + [] == d.wire;
    assert Partial(Pumped(d)) == [];
    WireIsPrefix(Pumped(d));
  }

  lemma CompletedKeepsInv(c: Conn)
    requires Inv(c)
    ensures Inv(Completed(c))
  {
    var c' := Completed(c);
    if !c.closed && c' != c {
      PopKeepsInv(c);
      if !c'.closed {
        PumpKeepsInv(c.(writing := false, outbox := c.outbox[1..], finished := c.finished + 1));
      }
    }
  }

  lemma NextKeepsInv(c: Conn, op: Op)
    requires Inv(c)
    ensures Inv(Next(c, op))
  {
    match op
    case Send(m) => PostedKeepsInv(c, m, false);
    case SendAndClose(m) => PostedKeepsInv(c, m, true);
    case Close =>
    case Progress(n) => ProgressedKeepsInv(c, n);
    case WriteDone => CompletedKeepsInv(c);
    case WriteFailed =>
    case ReadFailed =>
  }

  lemma {:induction false} RunKeepsInv(ops: seq<Op>)
    ensures Inv(Run(ops))
  {
    if ops != [] {
      RunKeepsInv(ops[..|ops| - 1]);
      NextKeepsInv(Run(ops[..|ops| - 1]), ops[|ops| - 1]);
    } else {
      assert Stream([]) + Partial(Opened()) == [];
    }
  }

  lemma CauseAfter(c: Conn, op: Op)
    ensures var d := Next(c, op);
      || d.cause == c.cause || d.cause == Some(Drained)
      || (d.cause == Some(Asked) && op == Close)
      || (d.cause == Some(Error) && (op == WriteFailed || op == ReadFailed))
  {
  }

  lemma {:induction false} CauseComesFromOps(ops: seq<Op>)
    ensures Run(ops).cause == Some(Asked) ==> Close in ops
    ensures Run(ops).cause == Some(Error) ==> WriteFailed in ops || ReadFailed in ops
  {
    if ops != [] {
      var before, op := ops[..|ops| - 1], ops[|ops| - 1];
      CauseComesFromOps(before);
      assert op in ops && forall x <- before :: x in ops;
      CauseAfter(Run(before), op);
    }
  }

  /**
   * On every run: the bytes on the wire are a prefix of the posted frames in order, the close handler ran once if the
   * connection is closed and not at all otherwise, and a connection that nobody closed and that did not fail is closed
   * only after a close-after-send was posted and everything posted was written.
   */
  lemma WritePump(ops: seq<Op>)
    ensures var c := Run(ops);
      && c.wire <= Stream(c.posted)
      && c.callbacks == (if c.closed then 1 else 0)
      && (c.closed && Close !in ops && WriteFailed !in ops && ReadFailed !in ops ==> c.closeAfterWrite && c.wire == Stream(c.posted))
  {
    RunKeepsInv(ops);
    CauseComesFromOps(ops);
  }

  // ---------- what the operations say ----------

  /** The messages of all sends among the operations, in order. */
  function Sends(ops: seq<Op>): (ms: seq<Message>) {
    if ops == [] then []
    else
      Sends(ops[..|ops| - 1]) + match ops[|ops| - 1] case Send(m) => [m] case SendAndClose(m) => [m] case _ => []
  }

  /** Whether the last message was to be the last one. */
  predicate AskedToClose(ops: seq<Op>) {
    exists op <- ops :: op.SendAndClose?
  }

  lemma OpenStep(c: Conn, op: Op)
    requires !Next(c, op).closed
    ensures !c.closed
    ensures Next(c, op).posted ==
      c.posted + match op case Send(m) => [m] case SendAndClose(m) => [m] case _ => []
    ensures Next(c, op).closeAfterWrite <==> c.closeAfterWrite || op.SendAndClose?
  {
    assert c.posted + [] == c.posted;
  }

  /** While the connection is open nothing that was sent is missing, and it remembers whether it is to close. */
  lemma {:induction false} OpenTakesAll(ops: seq<Op>)
    requires !Run(ops).closed
    ensures Run(ops).posted == Sends(ops)
    ensures Run(ops).closeAfterWrite <==> AskedToClose(ops)
  {
    if ops != [] {
      var before, op := ops[..|ops| - 1], ops[|ops| - 1];
      OpenStep(Run(before), op);
      OpenTakesAll(before);
      assert forall x :: x in ops <==> x in before || x == op;
      assert Sends(before) + [] == Sends(before);
    }
  }

  /** How many operations the connection saw while open. */
  ghost function OpenFor(ops: seq<Op>): (k: nat)
    ensures k <= |ops|
  {
    if ops == [] then 0
    else if Run(ops[..|ops| - 1]).closed then OpenFor(ops[..|ops| - 1])
    else |ops| - 1 + if Run(ops).closed then 0 else 1
  }

  lemma ClosedTakesNothing(c: Conn, op: Op)
    requires c.closed
    ensures Next(c, op).closed && Next(c, op).posted == c.posted
  {
  }

  /** On every run exactly the messages sent before the connection closed were taken, in order. */
  lemma {:induction false} TakesSendsUntilClosed(ops: seq<Op>)
    ensures Run(ops).posted == Sends(ops[..OpenFor(ops)]) && !Run(ops[..OpenFor(ops)]).closed
    ensures !Run(ops).closed ==> OpenFor(ops) == |ops|
  {
    if ops != [] {
      var before := ops[..|ops| - 1];
      if !Run(ops).closed {
        assert ops[..|ops|] == ops;
        OpenTakesAll(ops);
        assert !Run(before).closed by {
          if Run(before).closed {
            ClosedTakesNothing(Run(before), ops[|ops| - 1]);
          }
        }
      } else if Run(before).closed {
        ClosedTakesNothing(Run(before), ops[|ops| - 1]);
        TakesSendsUntilClosed(before);
        assert ops[..OpenFor(ops)] == before[..OpenFor(before)];
      } else {
        OpenTakesAll(before);
        ClosingTakesNothing(Run(before), ops[|ops| - 1]);
      }
    }
  }

  lemma ClosingTakesNothing(c: Conn, op: Op)
    requires !c.closed && Next(c, op).closed
    ensures Next(c, op).posted == c.posted
  {
  }

  /** The socket has taken the whole front frame. */
  predicate FrontTaken(c: Conn) {
    c.writing && c.outbox != [] && c.taken == |c.outbox[0]|
  }

  /**
   * On every run an open connection is closed by exactly these: the request, a failed read or write, and the completion of
   * the write that leaves nothing of what was sent when the last message was to close it. The close handler runs then.
   */
  lemma ClosesExactly(ops: seq<Op>, op: Op)
    requires !Run(ops).closed
    ensures var c, d := Run(ops), Next(Run(ops), op);
      && (d.closed <==>
          || op == Close || op == ReadFailed
          || (op == WriteFailed && c.finished < |Sends(ops)|)
          || (op == WriteDone && FrontTaken(c) && c.finished + 1 == |Sends(ops)| && AskedToClose(ops)))
      && (d.closed ==> d.callbacks == 1 && d.outbox == [])
  {
    RunKeepsInv(ops);
    OpenTakesAll(ops);
  }

  /** Nothing is left lying: on every run an open connection is writing exactly when a sent message is not yet written. */
  lemma WritesWhileBehind(ops: seq<Op>)
    requires !Run(ops).closed
    ensures Run(ops).writing <==> Run(ops).finished < |Sends(ops)|
    ensures Run(ops).writing ==>
      Run(ops).finished < |Sends(ops)| && Run(ops).outbox != [] && Run(ops).outbox[0] == MakeFrame(Sends(ops)[Run(ops).finished])
  {
    RunKeepsInv(ops);
    OpenTakesAll(ops);
  }

  /** An open connection that is not writing has put everything that was sent on the wire. */
  lemma IdleHasWrittenAll(ops: seq<Op>)
    requires !Run(ops).closed && !Run(ops).writing
    ensures Run(ops).wire == Stream(Sends(ops))
  {
    RunKeepsInv(ops);
    OpenTakesAll(ops);
    WireIsPrefix(Run(ops));
  }

  lemma {:induction false} SendsPrefix(ops: seq<Op>, k: nat)
    requires k <= |ops|
    ensures Sends(ops[..k]) <= Sends(ops)
  {
    if k == |ops| {
      assert ops[..k] == ops;
    } else {
      assert ops[..|ops| - 1][..k] == ops[..k];
      SendsPrefix(ops[..|ops| - 1], k);
    }
  }

  /** Both ends: whatever part of the wire has arrived, the peer's read loop has handed out a prefix of the posted messages. */
  lemma PeerReadsPosted(ops: seq<Op>, n: nat)
    requires Sendable(Run(ops).posted) && n <= |Run(ops).wire|
    ensures var r := Read(Run(ops).wire[..n]); r.messages <= Run(ops).posted && !r.failed
  {
    WritePump(ops);
    var c := Run(ops);
    assert c.wire[..n] == Stream(c.posted)[..n];
    ReadsBack(c.posted, n);
  }

  /** Told by the operations: the peer holds the first few of the messages sent, and all of them when nothing is left to write. */
  lemma PeerReadsSends(ops: seq<Op>, n: nat)
    requires Sendable(Sends(ops)) && n <= |Run(ops).wire|
    ensures var r := Read(Run(ops).wire[..n]); r.messages <= Sends(ops) && !r.failed
    ensures !Run(ops).closed && !Run(ops).writing && n == |Run(ops).wire| ==>
      Read(Run(ops).wire[..n]).messages == Sends(ops)
  {
    TakesSendsUntilClosed(ops);
    SendsPrefix(ops, OpenFor(ops));
    PrefixSendable(Run(ops).posted, Sends(ops));
    PeerReadsPosted(ops, n);
    if !Run(ops).closed && !Run(ops).writing && n == |Run(ops).wire| {
      IdleHasWrittenAll(ops);
      ReadsBack(Sends(ops), n);
      assert Run(ops).wire[..n] == Stream(Sends(ops))[..n];
      assert Sends(ops)[..|Sends(ops)|] == Sends(ops);
    }
  }

  lemma PrefixSendable(a: seq<Message>, b: seq<Message>)
    requires a <= b && Sendable(b)
    ensures Sendable(a)
  {
    forall m | m in a ensures m.InRange() && |m.payload| <= MAX_PAYLOAD {
      assert m in b;
    }
  }

  // ---------- the object ----------

  class TcpConnection {
    var outbox: seq<seq<byte>>
    var writing: bool
    var closeAfterWrite: bool
    var closed: bool
    ghost var posted: seq<Message>
    ghost var finished: nat
    ghost var taken: nat
    ghost var wire: seq<byte>
    ghost var cause: Option<Cause>
    ghost var callbacks: nat

    ghost function State(): (c: Conn)
      reads this
    {
      Conn(outbox, writing, closeAfterWrite, closed, posted, finished, taken, wire, cause, callbacks)
    }

    /** What every run keeps: the wire is a prefix of the posted frames, and the rest of it is in the outbox while open. */
    ghost predicate Valid()
      reads this
    {
      Inv(State())
    }

    constructor ()
      ensures Valid() && State() == Opened()
    {
      outbox, writing, closeAfterWrite, closed := [], false, false, false;
      posted, finished, taken, wire, cause, callbacks := [], 0, 0, [], None, 0;
      new;
      RunKeepsInv([]);
    }

    method Send(m: Message, andClose: bool)
      requires Valid()
      modifies this
      ensures Valid() && State() == Posted(old(State()), m, andClose)
    {
      PostedKeepsInv(State(), m, andClose);
      if closed {
        return;
      }
      outbox := outbox + [MakeFrame(m)];
      posted := posted + [m];
      if andClose {
        closeAfterWrite := true;
      }
      PumpWrite();
    }

    method PumpWrite()
      modifies this
      ensures State() == Pumped(old(State()))
    {
      if writing || outbox == [] || closed {
        return;
      }
      writing := true;
      taken := 0;
    }

    /** The socket takes up to `n` more bytes of the front frame. */
    ghost method Progress(n: nat)
      requires Valid()
      modifies this`wire, this`taken
      ensures Valid() && State() == Progressed(old(State()), n)
    {
      ProgressedKeepsInv(State(), n);
      if !closed && writing {
        var k := Min(n, |outbox[0]| - taken);
        wire, taken := wire + outbox[0][taken..taken + k], taken + k;
      }
    }

    /** The completion handler of the outstanding write. */
    method OnWritten()
      requires Valid() && writing && (outbox != [] ==> taken == |outbox[0]|)
      modifies this
      ensures Valid() && State() == Completed(old(State()))
    {
      CompletedKeepsInv(State());
      writing := false;
      if outbox != [] {
        outbox := outbox[1..];
        finished := finished + 1;
      }
      if closeAfterWrite && outbox == [] {
        Shutdown(Drained);
        return;
      }
      PumpWrite();
    }

    /** The outstanding write failed. */
    method OnWriteFailed()
      requires Valid() && writing
      modifies this
      ensures Valid() && State() == Next(old(State()), WriteFailed)
    {
      writing := false;
      Shutdown(Error);
    }

    /** End of stream, a socket error or a protocol violation on the read side. */
    method OnReadFailed()
      requires Valid()
      modifies this
      ensures Valid() && State() == Next(old(State()), ReadFailed)
    {
      Shutdown(Error);
    }

    method Close()
      requires Valid()
      modifies this
      ensures Valid() && State() == Next(old(State()), Op.Close)
    {
      Shutdown(Asked);
    }

    method Shutdown(ghost why: Cause)
      modifies this
      ensures State() == Shut(old(State()), why)
    {
      if closed {
        return;
      }
      closed := true;
      outbox := [];
      cause := Some(why);
      callbacks := callbacks + 1;
    }
  }
}
