/** The jitter buffer: completed frames wait here and leave in sequence order (networking/UdpProtocol.cpp, lines 180-215). */
module JitterBuffering {
  import opened Bytes
  import opened Fragments

  const HIGH_WATERMARK := 8
  const CAPACITY := 2 * HIGH_WATERMARK
  const NS_PER_MS := 1_000_000

  datatype Entry = Entry(frame: Frame, arriveNs: nat)

  datatype Jitter = Jitter(
    queue: seq<Entry>, targetMs: nat, reordered: nat, overflowDropped: nat, lastPopped: nat, initialized: bool)

  function Fresh(targetMs: nat): (j: Jitter) {
    Jitter([], targetMs, 0, 0, 0, false)
  }

  predicate TooLate(j: Jitter, frame: Frame) {
    j.initialized && frame.sequence <= j.lastPopped && j.lastPopped > 0
  }

  /** `e` placed behind the last entry that does not have a larger sequence. */
  function Inserted(q: seq<Entry>, e: Entry): (q': seq<Entry>)
    ensures |q'| == |q| + 1
  {
    if q == [] || q[|q| - 1].frame.sequence <= e.frame.sequence then q + [e]
    else Inserted(q[..|q| - 1], e) + [q[|q| - 1]]
  }

  /** How many of the oldest entries an extreme backlog costs. */
  function Backlog(q: seq<Entry>): (n: nat)
    ensures n <= |q| && |q| - n < CAPACITY
  {
    if |q| >= CAPACITY then |q| - CAPACITY + 1 else 0
  }

  function Pushed(j: Jitter, frame: Frame, nowNs: nat): (j': Jitter) {
    if TooLate(j, frame) then j.(reordered := j.reordered + 1)
    else
      var n := Backlog(j.queue);
      j.(queue := Inserted(j.queue[n..], Entry(frame, nowNs)), overflowDropped := j.overflowDropped + n)
  }

  function Waited(e: Entry, nowNs: nat): (ns: nat) {
    if nowNs > e.arriveNs then nowNs - e.arriveNs else 0
  }

  /** The head may leave: it waited long enough, the queue is too long, or frames before it are missing. */
  predicate Ready(j: Jitter, nowNs: nat)
    requires j.queue != []
  {
    var head := j.queue[0];
    || Waited(head, nowNs) >= j.targetMs * NS_PER_MS
    || |j.queue| > HIGH_WATERMARK
    || (j.initialized && head.frame.sequence > j.lastPopped + 1 && Waited(head, nowNs) >= j.targetMs / 2)
  }

  function Popped(j: Jitter, nowNs: nat): (r: (Jitter, seq<Frame>))
    decreases |j.queue|
  {
    if j.queue == [] || !Ready(j, nowNs) then (j, [])
    else
      var head := j.queue[0].frame;
      var rest := Popped(j.(queue := j.queue[1..], lastPopped := head.sequence, initialized := true), nowNs);
      (rest.0, [head] + rest.1)
  }

  // ---------- order and bounds ----------

  ghost predicate Ordered(q: seq<Entry>) {
    forall i, j :: 0 <= i < j < |q| ==> q[i].frame.sequence <= q[j].frame.sequence
  }

  ghost predicate NonDecreasing(frames: seq<Frame>) {
    forall i, j :: 0 <= i < j < |frames| ==> frames[i].sequence <= frames[j].sequence
  }

  /** The queue is in order, within its capacity, and nothing in it precedes what was already delivered. */
  ghost predicate Good(j: Jitter) {
    && Ordered(j.queue)
    && |j.queue| <= 16
    && (j.initialized ==> forall e <- j.queue :: j.lastPopped <= e.frame.sequence)
  }

  lemma InsertedFurther(q: seq<Entry>, e: Entry, i: nat)
    requires 0 < i <= |q| && q[i - 1].frame.sequence > e.frame.sequence
    ensures Inserted(q[..i], e) + q[i..] == Inserted(q[..i - 1], e) + q[i - 1..]
  {
    assert q[..i][..i - 1] == q[..i - 1];
    assert [q[i - 1]] + q[i..] == q[i - 1..];
    ConcatAssociates(Inserted(q[..i - 1], e), [q[i - 1]], q[i..]);
  }

  lemma Swapped(q: seq<Entry>, e: Entry, i: nat)
    requires 0 < i <= |q|
    ensures var s := q[..i] + [e] + q[i..];
      s[i] == e && s[i - 1] == q[i - 1] && s[i := s[i - 1]][i - 1 := s[i]] == q[..i - 1] + [e] + q[i - 1..]
  {
  }

  lemma InsertedHere(q: seq<Entry>, e: Entry, i: nat)
    requires 0 < i <= |q| && q[i - 1].frame.sequence <= e.frame.sequence
    ensures Inserted(q[..i], e) == q[..i] + [e]
  {
  }

  /** Where the new entry goes: behind everything not larger, before everything larger. */
  lemma {:induction false} InsertedAt(q: seq<Entry>, e: Entry) returns (p: nat)
    requires Ordered(q)
    ensures p <= |q| && Inserted(q, e) == q[..p] + [e] + q[p..]
    ensures forall i :: 0 <= i < p ==> q[i].frame.sequence <= e.frame.sequence
    ensures forall i :: p <= i < |q| ==> e.frame.sequence < q[i].frame.sequence
  {
    if q == [] || q[|q| - 1].frame.sequence <= e.frame.sequence {
      p := |q|;
      assert q[..p] + [e] + q[p..] == q + [e];
    } else {
      var front, last := q[..|q| - 1], q[|q| - 1];
      p := InsertedAt(front, e);
      assert front[..p] == q[..p] && front[p..] + [last] == q[p..];
      assert front[..p] + [e] + front[p..] + [last] == q[..p] + [e] + q[p..];
    }
  }

  lemma InsertedIsOrdered(q: seq<Entry>, e: Entry)
    requires Ordered(q)
    ensures Ordered(Inserted(q, e))
    ensures forall x <- Inserted(q, e) :: x == e || x in q
  {
    var p := InsertedAt(q, e);
  }

  lemma PushedIsGood(j: Jitter, frame: Frame, nowNs: nat)
    requires Good(j)
    ensures Good(Pushed(j, frame, nowNs))
    ensures forall e <- Pushed(j, frame, nowNs).queue :: e.frame == frame || e in j.queue
  {
    if !TooLate(j, frame) {
      InsertedIsOrdered(j.queue[Backlog(j.queue)..], Entry(frame, nowNs));
    }
  }

  /** What leaves is the front of the queue, and the last frame that left is remembered. */
  lemma {:induction false} PoppedSplits(j: Jitter, nowNs: nat)
    ensures var (j', out) := Popped(j, nowNs);
      && |out| <= |j.queue|
      && j'.queue == j.queue[|out|..]
      && (forall i :: 0 <= i < |out| ==> out[i] == j.queue[i].frame)
      && (out == [] ==> j' == j)
      && (out != [] ==> j'.initialized && j'.lastPopped == out[|out| - 1].sequence)
    decreases |j.queue|
  {
    if j.queue != [] && Ready(j, nowNs) {
      PoppedSplits(j.(queue := j.queue[1..], lastPopped := j.queue[0].frame.sequence, initialized := true), nowNs);
    }
  }

  lemma FrontAndRest(q: seq<Entry>, out: seq<Frame>, low: nat)
    requires Ordered(q) && |out| <= |q| && (forall i :: 0 <= i < |out| ==> out[i] == q[i].frame)
    requires forall i :: 0 <= i < |q| ==> low <= q[i].frame.sequence
    ensures NonDecreasing(out) && Ordered(q[|out|..])
    ensures forall f <- out :: low <= f.sequence
    ensures forall e <- q[|out|..] :: (if out == [] then low else out[|out| - 1].sequence) <= e.frame.sequence
  {
  }

  /** What leaves is in order and continues from what left before. */
  lemma PoppedIsGood(j: Jitter, nowNs: nat)
    requires Good(j)
    ensures var (j', out) := Popped(j, nowNs);
      && Good(j')
      && NonDecreasing(out)
      && (j.initialized ==> forall f <- out :: j.lastPopped <= f.sequence)
  {
    PoppedSplits(j, nowNs);
    FrontAndRest(j.queue, Popped(j, nowNs).1, if j.initialized then j.lastPopped else 0);
  }

  /**
   * Entry `i` may leave once those before it have: it waited long enough, more than eight are left with it, or
   * frames between it and its predecessor are missing and it waited a little.
   */
  predicate Due(j: Jitter, i: nat, nowNs: nat)
    requires i < |j.queue|
  {
    var e := j.queue[i];
    || j.targetMs == 0 || nowNs >= e.arriveNs + j.targetMs * 1_000_000
    || |j.queue| - i > 8
    || ((i > 0 || j.initialized)
        && e.frame.sequence > (if i > 0 then j.queue[i - 1].frame.sequence else j.lastPopped) + 1
        && (j.targetMs <= 1 || nowNs >= e.arriveNs + j.targetMs / 2))
  }

  /** A poll releases exactly the longest run of entries from the head that are all due, and keeps the rest. */
  lemma {:induction false} PoppedExactly(j: Jitter, nowNs: nat)
    ensures var (j', out) := Popped(j, nowNs);
      && |out| <= |j.queue| && j'.queue == j.queue[|out|..] && j'.targetMs == j.targetMs
      && (forall i :: 0 <= i < |out| ==> out[i] == j.queue[i].frame && Due(j, i, nowNs))
      && (|out| < |j.queue| ==> !Due(j, |out|, nowNs))
    decreases |j.queue|
  {
    if j.queue != [] {
      ReadyIsDue(j, nowNs);
      if Ready(j, nowNs) {
        var j1 := j.(queue := j.queue[1..], lastPopped := j.queue[0].frame.sequence, initialized := true);
        PoppedExactly(j1, nowNs);
        var out1 := Popped(j1, nowNs).1;
        forall i | 0 < i < |out1| + 1 ensures j.queue[i].frame == out1[i - 1] && Due(j, i, nowNs) {
          DueOfRest(j, j1, i, nowNs);
        }
        if |out1| < |j1.queue| {
          DueOfRest(j, j1, |out1| + 1, nowNs);
        }
      }
    }
  }

  lemma ReadyIsDue(j: Jitter, nowNs: nat)
    requires j.queue != []
    ensures Ready(j, nowNs) <==> Due(j, 0, nowNs)
  {
  }

  /** What is due does not depend on what has left before, but for the last frame that did. */
  lemma DueOfRest(j: Jitter, j1: Jitter, i: nat, nowNs: nat)
    requires 0 < i < |j.queue| && j1.queue == j.queue[1..] && j1.targetMs == j.targetMs
    requires j1.initialized && j1.lastPopped == j.queue[0].frame.sequence
    ensures Due(j1, i - 1, nowNs) <==> Due(j, i, nowNs)
  {
  }

  /** After a poll at most eight frames stay, and the head has waited less than the target. */
  lemma PoppedDrains(j: Jitter, nowNs: nat)
    ensures var j' := Popped(j, nowNs).0;
      && |j'.queue| <= 8
      && j'.targetMs == j.targetMs
      && (j'.queue != [] ==> Waited(j'.queue[0], nowNs) < j.targetMs * 1_000_000)
  {
    PoppedExactly(j, nowNs);
  }

  // ---------- nothing is lost or invented ----------

  ghost function FramesOf(q: seq<Entry>): (fs: seq<Frame>)
    ensures |fs| == |q|
  {
    seq(|q|, i requires 0 <= i < |q| => q[i].frame)
  }

  ghost function Bag(q: seq<Entry>): (b: multiset<Frame>)
    ensures |b| == |q|
  {
    multiset(FramesOf(q))
  }

  lemma BagConcat(a: seq<Entry>, b: seq<Entry>)
    ensures Bag(a + b) == Bag(a) + Bag(b)
  {
    assert FramesOf(a + b) == FramesOf(a) + FramesOf(b);
  }

  lemma BagOne(e: Entry)
    ensures Bag([e]) == multiset{e.frame}
  {
    assert FramesOf([e]) == [e.frame];
  }

  lemma BagInserted(q: seq<Entry>, e: Entry)
    requires Ordered(q)
    ensures Bag(Inserted(q, e)) == Bag(q) + multiset{e.frame}
  {
    var p := InsertedAt(q, e);
    BagConcat(q[..p] + [e], q[p..]);
    BagConcat(q[..p], [e]);
    BagOne(e);
    assert q == q[..p] + q[p..];
    BagConcat(q[..p], q[p..]);
  }

  lemma BagPopped(j: Jitter, nowNs: nat)
    ensures var (j', out) := Popped(j, nowNs); FramesOf(j.queue) == out + FramesOf(j'.queue)
  {
    PoppedSplits(j, nowNs);
  }

  lemma {:induction false} PoppedKeepsCounts(j: Jitter, nowNs: nat)
    ensures var (j', _) := Popped(j, nowNs); j'.reordered == j.reordered && j'.overflowDropped == j.overflowDropped
    decreases |j.queue|
  {
    if j.queue != [] && Ready(j, nowNs) {
      PoppedKeepsCounts(j.(queue := j.queue[1..], lastPopped := j.queue[0].frame.sequence, initialized := true), nowNs);
    }
  }

  // ---------- every run ----------

  datatype Op = Push(frame: Frame, nowNs: nat) | Pop(nowNs: nat) | SetTarget(ms: nat)

  /** A run's final state and what became of the pushed frames. */
  datatype Outcome = Outcome(
    j: Jitter, pushed: multiset<Frame>, delivered: seq<Frame>, late: multiset<Frame>, overflowed: multiset<Frame>)

  ghost function Next(o: Outcome, op: Op): (o': Outcome) {
    match op
    case Push(frame, now) =>
      var o1 := o.(j := Pushed(o.j, frame, now), pushed := o.pushed + multiset{frame});
      if TooLate(o.j, frame) then o1.(late := o.late + multiset{frame})
      else o1.(overflowed := o.overflowed + Bag(o.j.queue[..Backlog(o.j.queue)]))
    case Pop(now) =>
      var (j', out) := Popped(o.j, now);
      o.(j := j', delivered := o.delivered + out)
    case SetTarget(ms) => o.(j := o.j.(targetMs := ms))
  }

  ghost function Run(targetMs: nat, ops: seq<Op>): (o: Outcome) {
    if ops == [] then Outcome(Fresh(targetMs), multiset{}, [], multiset{}, multiset{})
    else Next(Run(targetMs, ops[..|ops| - 1]), ops[|ops| - 1])
  }

  /** Every pushed frame is queued, delivered, dropped as late or dropped on overflow: exactly one of these. */
  ghost predicate Balanced(o: Outcome) {
    && o.pushed == Bag(o.j.queue) + multiset(o.delivered) + o.late + o.overflowed
    && o.j.reordered == |o.late|
    && o.j.overflowDropped == |o.overflowed|
  }

  /** The buffer is in order and so is what it delivered. */
  ghost predicate InOrder(o: Outcome) {
    && Good(o.j)
    && NonDecreasing(o.delivered)
    && (o.delivered != [] ==> o.j.initialized && o.j.lastPopped == o.delivered[|o.delivered| - 1].sequence)
  }

  lemma Regroup<T>(queue: multiset<T>, kept: multiset<T>, gone: multiset<T>, x: multiset<T>,
                   delivered: multiset<T>, late: multiset<T>, overflowed: multiset<T>)
    requires queue == gone + kept
    ensures queue + delivered + late + overflowed + x == kept + x + delivered + late + (overflowed + gone)
  {
  }

  lemma PushBalances(o: Outcome, frame: Frame, nowNs: nat)
    requires Balanced(o) && Ordered(o.j.queue)
    ensures Balanced(Next(o, Push(frame, nowNs)))
  {
    if !TooLate(o.j, frame) {
      var q, n := o.j.queue, Backlog(o.j.queue);
      assert q == q[..n] + q[n..];
      BagConcat(q[..n], q[n..]);
      BagInserted(q[n..], Entry(frame, nowNs));
      Regroup(Bag(q), Bag(q[n..]), Bag(q[..n]), multiset{frame}, multiset(o.delivered), o.late, o.overflowed);
    }
  }

  lemma NonDecreasingConcat(a: seq<Frame>, b: seq<Frame>)
    requires NonDecreasing(a) && NonDecreasing(b)
    requires a != [] ==> forall f <- b :: a[|a| - 1].sequence <= f.sequence
    ensures NonDecreasing(a + b)
  {
    var all := a + b;
    forall i, k | 0 <= i < k < |all| ensures all[i].sequence <= all[k].sequence {
      if i < |a| <= k {
        assert all[k] in b;
        assert all[i].sequence <= a[|a| - 1].sequence;
      }
    }
  }

  lemma PopBalances(o: Outcome, nowNs: nat)
    requires Balanced(o)
    ensures Balanced(Next(o, Pop(nowNs)))
  {
    BagPopped(o.j, nowNs);
    PoppedKeepsCounts(o.j, nowNs);
    var (j', out) := Popped(o.j, nowNs);
    assert Bag(o.j.queue) == multiset(out) + Bag(j'.queue);
    assert multiset(o.delivered + out) == multiset(o.delivered) + multiset(out);
  }

  lemma PopInOrder(o: Outcome, nowNs: nat)
    requires InOrder(o)
    ensures InOrder(Next(o, Pop(nowNs)))
  {
    PoppedIsGood(o.j, nowNs);
    PoppedSplits(o.j, nowNs);
    var (j', out) := Popped(o.j, nowNs);
    if out == [] {
      assert o.delivered + out == o.delivered;
    } else {
      NonDecreasingConcat(o.delivered, out);
      assert (o.delivered + out)[|o.delivered + out| - 1] == out[|out| - 1];
    }
  }

  lemma NextInOrder(o: Outcome, op: Op)
    requires InOrder(o)
    ensures InOrder(Next(o, op))
  {
    match op
    case Push(frame, now) => PushedIsGood(o.j, frame, now);
    case Pop(now) => PopInOrder(o, now);
    case SetTarget(ms) =>
  }

  /**
   * On every run the buffer is ordered and bounded, frames are delivered in non-decreasing sequence order,
   * and no pushed frame is lost, invented or counted twice.
   */
  lemma {:induction false} JitterRuns(targetMs: nat, ops: seq<Op>)
    ensures InOrder(Run(targetMs, ops)) && Balanced(Run(targetMs, ops))
  {
    if ops != [] {
      JitterRuns(targetMs, ops[..|ops| - 1]);
      var o, op := Run(targetMs, ops[..|ops| - 1]), ops[|ops| - 1];
      NextInOrder(o, op);
      match op
      case Push(frame, now) => PushBalances(o, frame, now);
      case Pop(now) => PopBalances(o, now);
      case SetTarget(ms) =>
    }
  }

  // ---------- which frames are lost, told by what was delivered and what waits ----------

  /** A frame with this or a later sequence number was delivered before. */
  predicate Overtaken(delivered: seq<Frame>, f: Frame) {
    delivered != [] && f.sequence <= delivered[|delivered| - 1].sequence && delivered[|delivered| - 1].sequence > 0
  }

  lemma {:induction false} InitializedByDelivery(targetMs: nat, ops: seq<Op>)
    ensures var o := Run(targetMs, ops); o.j.initialized <==> o.delivered != []
  {
    if ops != [] {
      InitializedByDelivery(targetMs, ops[..|ops| - 1]);
      if ops[|ops| - 1].Pop? {
        PoppedSplits(Run(targetMs, ops[..|ops| - 1]).j, ops[|ops| - 1].nowNs);
      }
    }
  }

  lemma LateIsOvertaken(targetMs: nat, ops: seq<Op>, f: Frame)
    ensures TooLate(Run(targetMs, ops).j, f) <==> Overtaken(Run(targetMs, ops).delivered, f)
  {
    JitterRuns(targetMs, ops);
    InitializedByDelivery(targetMs, ops);
  }

  /** What is queued and what goes when a frame that is not late comes. */
  lemma InsertedBehind(q: seq<Entry>, f: Frame, nowNs: nat)
    requires Ordered(q) && |q| <= 16
    ensures var n, e := Backlog(q), Entry(f, nowNs);
      && e in Inserted(q[n..], e) && Bag(Inserted(q[n..], e)) == Bag(q[n..]) + multiset{f}
      && if |q| < 16 then n == 0 && q[n..] == q && Bag(q[..n]) == multiset{}
         else n == 1 && Bag(q[..n]) == multiset{q[0].frame}
  {
    var n, e := Backlog(q), Entry(f, nowNs);
    BagInserted(q[n..], e);
    var p := InsertedAt(q[n..], e);
    assert (q[n..][..p] + [e] + q[n..][p..])[p] == e;
    if |q| < 16 {
      assert q[..n] == [];
    } else {
      assert q[..n] == [q[0]];
      BagOne(q[0]);
    }
  }

  /**
   * On every run a pushed frame is dropped as late exactly when it was overtaken. Otherwise it is queued, and one frame, the
   * first in the queue, is dropped for it exactly when sixteen are waiting.
   */
  lemma PushDropsExactly(targetMs: nat, ops: seq<Op>, f: Frame, nowNs: nat)
    ensures var o := Run(targetMs, ops);
      var o' := Next(o, Push(f, nowNs));
      if Overtaken(o.delivered, f) then
        o'.j == o.j.(reordered := o.j.reordered + 1) && o'.late == o.late + multiset{f} && o'.overflowed == o.overflowed
      else if |o.j.queue| < 16 then
        && Bag(o'.j.queue) == Bag(o.j.queue) + multiset{f} && Entry(f, nowNs) in o'.j.queue
        && o'.j.reordered == o.j.reordered && o'.j.overflowDropped == o.j.overflowDropped
        && o'.late == o.late && o'.overflowed == o.overflowed
      else
        && Bag(o'.j.queue) == Bag(o.j.queue[1..]) + multiset{f} && Entry(f, nowNs) in o'.j.queue
        && o'.j.reordered == o.j.reordered && o'.j.overflowDropped == o.j.overflowDropped + 1
        && o'.late == o.late && o'.overflowed == o.overflowed + multiset{o.j.queue[0].frame}
  {
    JitterRuns(targetMs, ops);
    LateIsOvertaken(targetMs, ops, f);
    var o := Run(targetMs, ops);
    if !Overtaken(o.delivered, f) {
      InsertedBehind(o.j.queue, f, nowNs);
    }
  }

  /** A poll releases the first frames, neither dropping nor counting any. */
  lemma PopDropsNothing(o: Outcome, nowNs: nat)
    ensures var o' := Next(o, Pop(nowNs));
      && o'.late == o.late && o'.overflowed == o.overflowed && o'.pushed == o.pushed
      && o'.j.reordered == o.j.reordered && o'.j.overflowDropped == o.j.overflowDropped
      && o'.delivered + FramesOf(o'.j.queue) == o.delivered + FramesOf(o.j.queue)
  {
    BagPopped(o.j, nowNs);
    PoppedKeepsCounts(o.j, nowNs);
    ConcatAssociates(o.delivered, Popped(o.j, nowNs).1, FramesOf(Popped(o.j, nowNs).0.queue));
  }

  lemma LateAreSomePushed(o: Outcome, op: Op, f: Frame)
    ensures Next(o, op).late[f] - o.late[f] <= Next(o, op).pushed[f] - o.pushed[f]
  {
  }

  lemma BalancedLate(o: Outcome, f: Frame)
    requires Balanced(o)
    ensures o.late[f] <= o.pushed[f]
  {
  }

  /** A frame that was not overtaken when it was pushed is not dropped as late, however often it is pushed again. */
  lemma {:induction false} OnTime(targetMs: nat, ops: seq<Op>, f: Frame, i: nat)
    requires i < |ops| && ops[i].Push? && ops[i].frame == f && !Overtaken(Run(targetMs, ops[..i]).delivered, f)
    ensures Run(targetMs, ops).late[f] < Run(targetMs, ops).pushed[f]
  {
    var before, op := ops[..|ops| - 1], ops[|ops| - 1];
    if i == |ops| - 1 {
      JitterRuns(targetMs, before);
      BalancedLate(Run(targetMs, before), f);
      PushDropsExactly(targetMs, before, f, op.nowNs);
    } else {
      assert before[..i] == ops[..i];
      OnTime(targetMs, before, f, i);
      LateAreSomePushed(Run(targetMs, before), op, f);
    }
  }

  // ---------- the object ----------

  class JitterBuffer {
    var queue: seq<Entry>
    var targetMs: nat
    var reordered: nat
    var overflowDropped: nat
    var lastPoppedSequence: nat
    var initialized: bool

    ghost function State(): (j: Jitter)
      reads this
    {
      Jitter(queue, targetMs, reordered, overflowDropped, lastPoppedSequence, initialized)
    }

    constructor (initialTargetMs: nat)
      ensures State() == Fresh(initialTargetMs)
    {
      queue, targetMs := [], initialTargetMs;
      reordered, overflowDropped := 0, 0;
      lastPoppedSequence, initialized := 0, false;
    }

    method SetTargetMs(ms: nat)
      modifies this`targetMs
      ensures targetMs == ms
    {
      targetMs := ms;
    }

    method Push(frame: Frame, nowNs: nat)
      modifies this
      ensures State() == Pushed(old(State()), frame, nowNs)
    {
      if initialized && frame.sequence <= lastPoppedSequence && lastPoppedSequence > 0 {
        reordered := reordered + 1;
        return;
      }
      DropBacklog();
      ghost var q := queue;
      var e := Entry(frame, nowNs);
      queue := queue + [e];
      assert queue[..|queue| - 1] == q;
      SiftDown(e);
    }

    /** Extreme backlog: drops the oldest. */
    method DropBacklog()
      modifies this`queue, this`overflowDropped
      ensures queue == old(queue)[Backlog(old(queue))..]
      ensures overflowDropped == old(overflowDropped) + Backlog(old(queue))
    {
      ghost var dropped := 0;
      while |queue| >= CAPACITY
        invariant dropped <= Backlog(old(queue)) && queue == old(queue)[dropped..]
        invariant overflowDropped == old(overflowDropped) + dropped
      {
        overflowDropped := overflowDropped + 1;
        queue := queue[1..];
        dropped := dropped + 1;
      }
    }

    /** Swaps the entry just appended towards the front while its predecessor has a larger sequence. */
    method SiftDown(ghost e: Entry)
      requires queue != [] && queue[|queue| - 1] == e
      modifies this`queue
      ensures queue == Inserted(old(queue[..|queue| - 1]), e)
    {
      ghost var q := queue[..|queue| - 1];
      var i := |queue| - 1;
      assert q[..i] == q && q[i..] == [] && Inserted(q, e) + [] == Inserted(q, e);
      while i > 0
        invariant 0 <= i < |queue| == |q| + 1
        invariant queue == q[..i] + [e] + q[i..]
        invariant Inserted(q[..i], e) + q[i..] == Inserted(q, e)
      {
        Swapped(q, e, i);
        if queue[i].frame.sequence < queue[i - 1].frame.sequence {
          InsertedFurther(q, e, i);
          queue := queue[i := queue[i - 1]][i - 1 := queue[i]];
        } else {
          InsertedHere(q, e, i);
          break;
        }
        i := i - 1;
      }
      if i == 0 {
        assert q[..0] == [] && Inserted([], e) == [e];
      }
    }

    method Pop(nowNs: nat) returns (out: seq<Frame>)
      modifies this
      ensures (State(), out) == Popped(old(State()), nowNs)
    {
      out := [];
      ghost var start := State();
      assert out + Popped(start, nowNs).1 == Popped(start, nowNs).1;
      while queue != []
        invariant Popped(start, nowNs) == (Popped(State(), nowNs).0, out + Popped(State(), nowNs).1)
        decreases |queue|
      {
        var front := queue[0];
        var waited := if nowNs > front.arriveNs then nowNs - front.arriveNs else 0;
        var waitedEnough := waited >= targetMs * NS_PER_MS;
        var overflow := |queue| > HIGH_WATERMARK;
        var gapAhead := initialized && front.frame.sequence > lastPoppedSequence + 1;
        if waitedEnough || overflow || (gapAhead && waited >= targetMs / 2) {
          assert Ready(State(), nowNs);
          ghost var before := State();
          ghost var sofar := out;
          out := out + [front.frame];
          lastPoppedSequence := front.frame.sequence;
          initialized := true;
          queue := queue[1..];
          ConcatAssociates(sofar, [front.frame], Popped(State(), nowNs).1);
        } else {
          break;
        }
      }
      assert Popped(State(), nowNs) == (State(), []);
      assert out + [] == out;
    }
  }
}
