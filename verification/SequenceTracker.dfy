/** Loss, duplicate and reorder accounting by sequence number (networking/UdpProtocol.cpp, lines 64-92). */
module SequenceTracking {
  const WINDOW := 64

  datatype Tracker = Tracker(
    initialized: bool, highest: nat,
    duplicates: nat, lost: nat, late: nat, received: nat,
    seenWindow: seq<nat>, seenMask: seq<bool>)
  {
    ghost predicate Valid() {
      |seenWindow| == WINDOW && |seenMask| == WINDOW
    }

    /** The slot of `sequence` is filled and holds that very sequence. */
    predicate Holds(sequence: nat)
      requires Valid()
    {
      seenMask[sequence % WINDOW] && seenWindow[sequence % WINDOW] == sequence
    }

    function Store(sequence: nat): (t: Tracker)
      requires Valid()
      ensures t.Valid() && t.Holds(sequence)
    {
      this.(seenWindow := seenWindow[sequence % WINDOW := sequence], seenMask := seenMask[sequence % WINDOW := true])
    }
  }

  function Fresh(): (t: Tracker)
    ensures t.Valid()
  {
    Tracker(false, 0, 0, 0, 0, 0, seq(WINDOW, _ => 0), seq(WINDOW, _ => false))
  }

  /** One call of `track`: the new state and the value returned to the caller. */
  function Tracked(t: Tracker, sequence: nat): (r: (Tracker, int))
    requires t.Valid()
    ensures r.0.Valid()
  {
    var t := t.(received := t.received + 1);
    if !t.initialized then
      (t.Store(sequence).(initialized := true, highest := sequence), 0)
    else if sequence > t.highest then
      var gap := sequence - t.highest;
      (t.Store(sequence).(highest := sequence, lost := t.lost + (gap - 1)), gap)
    else if sequence + WINDOW < t.highest then
      (t.(late := t.late + 1), -1)
    else if t.Holds(sequence) then
      (t.(duplicates := t.duplicates + 1), 1)
    else
      (t.Store(sequence).(late := t.late + 1), 0)
  }

  // ---------- every run ----------

  function Run(history: seq<nat>): (t: Tracker)
    ensures t.Valid()
  {
    if history == [] then Fresh()
    else Tracked(Run(history[..|history| - 1]), history[|history| - 1]).0
  }

  ghost function Highest(history: seq<nat>): (m: nat)
    requires history != []
    ensures m in history
    ensures forall x <- history :: x <= m
  {
    var last := history[|history| - 1];
    if |history| == 1 then last
    else
      var m := Highest(history[..|history| - 1]);
      assert history == history[..|history| - 1] + [last];
      if last > m then last else m
  }

  lemma RunAppend(history: seq<nat>, x: nat)
    ensures Run(history + [x]) == Tracked(Run(history), x).0
    ensures history != [] ==> Highest(history + [x]) == if x > Highest(history) then x else Highest(history)
    ensures history == [] ==> Highest(history + [x]) == x
  {
    assert (history + [x])[..|history|] == history;
  }

  /** The counters balance: arrivals and losses together cover the whole range seen, repeats and late arrivals. */
  lemma {:induction false} LossAccounting(history: seq<nat>)
    requires history != []
    ensures var t := Run(history);
      && t.initialized
      && t.received == |history|
      && t.highest == Highest(history)
      && t.received + t.lost == (t.highest - history[0] + 1) + t.duplicates + t.late
  {
    var before, x := history[..|history| - 1], history[|history| - 1];
    assert history == before + [x];
    RunAppend(before, x);
    if before != [] {
      LossAccounting(before);
    }
  }

  /** What the caller learns: more than 1 means frames are missing, one less than the value; -1 means too late to tell. */
  lemma ReturnValueMeans(history: seq<nat>, x: nat)
    ensures var before, after, r := Run(history), Run(history + [x]), Tracked(Run(history), x).1;
      && after.lost - before.lost == (if r > 1 then r - 1 else 0)
      && (r == -1 <==> history != [] && x + 64 < Highest(history))
      && (r == 1 <==> CountedAsDuplicate(history, x) || (history != [] && x == Highest(history) + 1))
  {
    RunAppend(history, x);
    if history != [] {
      LossAccounting(history);
    }
  }

  lemma StoredOrKept(t: Tracker, x: nat, slot: nat)
    requires t.Valid() && slot < WINDOW
    ensures var t' := Tracked(t, x).0;
      || (t'.seenMask[slot] == t.seenMask[slot] && t'.seenWindow[slot] == t.seenWindow[slot])
      || (slot == x % WINDOW && t'.seenMask[slot] && t'.seenWindow[slot] == x)
  {
  }

  /** A filled slot holds a sequence that really arrived, in the slot it belongs to. */
  lemma {:induction false} SlotsComeFromHistory(history: seq<nat>, slot: nat)
    requires slot < WINDOW && Run(history).seenMask[slot]
    ensures Run(history).seenWindow[slot] in history
    ensures Run(history).seenWindow[slot] % WINDOW == slot
  {
    if history != [] {
      var before, x := history[..|history| - 1], history[|history| - 1];
      assert x in history && forall y <- before :: y in history;
      StoredOrKept(Run(before), x, slot);
      if Run(before).seenMask[slot] {
        SlotsComeFromHistory(before, slot);
      }
    }
  }

  /** The next arrival of `x` is counted as a duplicate. */
  ghost predicate CountedAsDuplicate(history: seq<nat>, x: nat) {
    Run(history + [x]).duplicates == Run(history).duplicates + 1
  }

  /** `x` is less than 64 behind the newest sequence. */
  ghost predicate Recent(history: seq<nat>, x: nat) {
    history != [] && x <= Highest(history) < x + 64
  }

  /** Arrival `j` is exactly 64 behind the newest sequence at that time, which is `x`: the two share a slot. */
  ghost predicate Displaces(history: seq<nat>, j: nat, x: nat) {
    0 < j < |history| && history[j] + 64 == x && Highest(history[..j]) == x
  }

  /** `x` arrived at position `i`, and nothing took its slot afterwards. */
  ghost predicate KeptSince(history: seq<nat>, i: nat, x: nat) {
    i < |history| && history[i] == x && forall j :: i < j < |history| ==> !Displaces(history, j, x)
  }

  lemma CountedIffHeld(history: seq<nat>, x: nat)
    ensures CountedAsDuplicate(history, x)
      <==> history != [] && x <= Highest(history) <= x + WINDOW && Run(history).Holds(x)
  {
    RunAppend(history, x);
    if history != [] {
      LossAccounting(history);
    }
  }

  /** The duplicate counter grows only for a sequence that arrived before. */
  lemma DuplicatesAreRepeats(history: seq<nat>, x: nat)
    requires CountedAsDuplicate(history, x)
    ensures x in history
  {
    CountedIffHeld(history, x);
    SlotsComeFromHistory(history, x % WINDOW);
  }

  lemma SameSlotApart(a: nat, b: nat)
    requires a % WINDOW == b % WINDOW && a != b
    ensures a + WINDOW <= b || b + WINDOW <= a
  {
  }

  lemma HeldAfterTracked(t: Tracker, y: nat, x: nat)
    requires t.Valid() && t.initialized && y != x
    requires x <= t.highest < x + WINDOW && y < x + WINDOW
    ensures Tracked(t, y).0.Holds(x) <==> t.Holds(x) && !(y + WINDOW == x && t.highest == x)
  {
    if y % WINDOW == x % WINDOW {
      SameSlotApart(x, y);
      assert y + WINDOW <= x;
      if y + WINDOW < t.highest {
        assert Tracked(t, y).0.seenWindow == t.seenWindow;
      } else {
        assert y + WINDOW == x == t.highest;
        assert !Tracked(t, y).0.Holds(x);
      }
    } else {
      assert Tracked(t, y).0.seenWindow[x % WINDOW] == t.seenWindow[x % WINDOW];
    }
  }

  /** One more arrival `y`: when a recent `x` stays in its slot. */
  lemma HeldAfterArrival(before: seq<nat>, y: nat, x: nat)
    requires before != [] && y != x && Recent(before, x) && Recent(before + [y], x)
    ensures Run(before + [y]).Holds(x)
      <==> Run(before).Holds(x) && !(y + WINDOW == x && Highest(before) == x)
  {
    RunAppend(before, y);
    LossAccounting(before);
    HeldAfterTracked(Run(before), y, x);
  }

  lemma KeptAfterArrival(before: seq<nat>, y: nat, x: nat, i: nat)
    requires y != x && before != []
    ensures KeptSince(before + [y], i, x) <==> KeptSince(before, i, x) && !(y + WINDOW == x && Highest(before) == x)
  {
    var all := before + [y];
    assert all[..|before|] == before;
    forall j | 0 < j < |before| ensures Displaces(all, j, x) <==> Displaces(before, j, x) {
      assert all[..j] == before[..j];
    }
    assert Displaces(all, |before|, x) <==> y + WINDOW == x && Highest(before) == x;
    if KeptSince(all, i, x) {
      assert i < |before|;
      assert !Displaces(all, |before|, x);
      assert forall j :: i < j < |before| ==> !Displaces(all, j, x);
    }
  }

  /** The slot array refines the history: a recent sequence is held exactly when it arrived and was not displaced. */
  lemma {:induction false} HeldIffKept(history: seq<nat>, x: nat)
    requires Recent(history, x)
    ensures Run(history).Holds(x) <==> exists i :: KeptSince(history, i, x)
  {
    var before, y := history[..|history| - 1], history[|history| - 1];
    assert history == before + [y];
    RunAppend(before, y);
    if before != [] {
      LossAccounting(before);
    }
    if y == x {
      assert KeptSince(history, |history| - 1, x);
    } else if Recent(before, x) {
      HeldIffKept(before, x);
      HeldAfterArrival(before, y, x);
      forall i: nat ensures KeptSince(history, i, x) <==> KeptSince(before, i, x) && !(y + WINDOW == x && Highest(before) == x) {
        KeptAfterArrival(before, y, x, i);
      }
    } else {
      assert x !in history;
      if Run(history).Holds(x) {
        SlotsComeFromHistory(history, x % WINDOW);
      }
    }
  }

  /** Exactly which recent sequences are recognised as repeats. */
  lemma RepeatCountedExactly(history: seq<nat>, x: nat)
    requires Recent(history, x)
    ensures CountedAsDuplicate(history, x) <==> exists i :: KeptSince(history, i, x)
  {
    CountedIffHeld(history, x);
    HeldIffKept(history, x);
  }

  /** If no arrival is ever exactly 64 behind the newest, every recent repeat is recognised. */
  lemma EveryRepeatCounted(history: seq<nat>, x: nat)
    requires forall j :: 0 < j < |history| ==> history[j] + 64 != Highest(history[..j])
    requires Recent(history, x)
    ensures CountedAsDuplicate(history, x) <==> x in history
  {
    RepeatCountedExactly(history, x);
    if x in history {
      var i :| 0 <= i < |history| && history[i] == x;
      forall j | i < j < |history| ensures !Displaces(history, j, x) {
        assert history[j] + 64 != Highest(history[..j]);
      }
      assert KeptSince(history, i, x);
    } else {
      assert forall i :: !KeptSince(history, i, x);
    }
  }

  /** The shared slot at work: after 64 and then 0, a second 64 is taken for a reordered first arrival. */
  lemma SharedSlotHidesRepeat()
    ensures Recent([64, 0], 64) && 64 in [64, 0] && !CountedAsDuplicate([64, 0], 64)
  {
    var history: seq<nat> := [64, 0];
    assert history[..1] == [64];
    assert Highest([64]) == 64 && Highest(history) == 64;
    assert Displaces(history, 1, 64);
    assert forall i :: !KeptSince(history, i, 64);
    RepeatCountedExactly(history, 64);
  }

  /** The next sequence in order is answered like a duplicate. */
  lemma NextInOrderAnswersOne()
    ensures Tracked(Run([4]), 5).1 == 1 && Tracked(Run([4]), 4).1 == 1
  {
    assert [4][..0] == [];
  }

  // ---------- the object ----------

  class SequenceTracker {
    var initialized: bool
    var highest: nat
    var duplicates: nat
    var lost: nat
    var late: nat
    var received: nat
    const seenWindow: array<nat>
    const seenMask: array<bool>

    ghost predicate Valid() {
      seenWindow.Length == WINDOW && seenMask.Length == WINDOW
    }

    ghost function State(): (t: Tracker)
      requires Valid()
      reads this, seenWindow, seenMask
      ensures t.Valid()
    {
      Tracker(initialized, highest, duplicates, lost, late, received, seenWindow[..], seenMask[..])
    }

    constructor ()
      ensures Valid() && fresh(seenWindow) && fresh(seenMask)
      ensures State() == Fresh()
    {
      initialized, highest := false, 0;
      duplicates, lost, late, received := 0, 0, 0, 0;
      seenWindow := new nat[WINDOW](_ => 0);
      seenMask := new bool[WINDOW](_ => false);
    }

    method Track(sequence: nat) returns (result: int)
      requires Valid()
      modifies this, seenWindow, seenMask
      ensures (State(), result) == Tracked(old(State()), sequence)
    {
      received := received + 1;
      var slot := sequence % WINDOW;
      if !initialized {
        initialized := true;
        highest := sequence;
        seenWindow[slot] := sequence;
        seenMask[slot] := true;
        return 0;
      }
      if sequence > highest {
        var gap := sequence - highest;
        if gap > 1 {
          lost := lost + (gap - 1);
        }
        highest := sequence;
        seenWindow[slot] := sequence;
        seenMask[slot] := true;
        return gap;
      }
      if sequence + WINDOW < highest {
        late := late + 1;
        return -1;
      }
      if seenMask[slot] && seenWindow[slot] == sequence {
        duplicates := duplicates + 1;
        return 1;
      }
      seenWindow[slot] := sequence;
      seenMask[slot] := true;
      late := late + 1;
      return 0;
    }
  }
}
