/**
 What the jitter buffer counts, why it gives a number up, and what a reset leaves behind, in every run.
 */
module JitterCounts {
  import opened Common
  import opened Jitter
  import opened JitterRuns

  // ----- counters that follow from the callbacks

  function Emits(delivered: seq<Delivery>): nat {
    if delivered == [] then 0
    else Emits(delivered[..|delivered| - 1]) + (if delivered[|delivered| - 1].Emit? then 1 else 0)
  }

  function Losses(delivered: seq<Delivery>): nat {
    if delivered == [] then 0
    else Losses(delivered[..|delivered| - 1]) + (if delivered[|delivered| - 1].Loss? then 1 else 0)
  }

  /** One count per callback of each kind. */
  predicate Tallied(st: State) {
    st.emits == Emits(st.delivered) && st.expiredGaps == Losses(st.delivered) && st.nacksSent == |st.nacks|
  }

  lemma OneMore(delivered: seq<Delivery>, d: Delivery)
    ensures Emits(delivered + [d]) == Emits(delivered) + (if d.Emit? then 1 else 0)
    ensures Losses(delivered + [d]) == Losses(delivered) + (if d.Loss? then 1 else 0)
  {
    assert (delivered + [d])[..|delivered|] == delivered;
  }

  /** Late, duplicate and reordered datagrams are not counted here, and the maximum does not move. */
  predicate Quiet(st: State, after: State) {
    && after.lateDrops == st.lateDrops && after.duplicateDrops == st.duplicateDrops
    && after.reorderEvents == st.reorderEvents && after.maxPending == st.maxPending
  }

  lemma {:induction false} DrainTallies(st: State)
    ensures Quiet(st, Drain(st)) && (Tallied(st) ==> Tallied(Drain(st)))
    decreases FilledSet(st.ring)
  {
    hide Emits, Losses;
    if Held(st, st.next) {
      EmitNextReleases(st);
      assert Idx(st.next) in FilledSet(st.ring);
      var slot := st.ring[Idx(st.next)];
      OneMore(st.delivered, Emit(slot.ext, slot.dg));
      DrainTallies(EmitNext(st));
    }
  }

  lemma GiveUpTallies(st: State)
    ensures Quiet(st, GiveUp(st)) && (Tallied(st) ==> Tallied(GiveUp(st)))
  {
    OneMore(st.delivered, Loss(st.next % TWO_16));
  }

  lemma {:induction false} ForceSkipTallies(st: State, count: nat)
    ensures Quiet(st, ForceSkip(st, count)) && (Tallied(st) ==> Tallied(ForceSkip(st, count)))
    decreases count
  {
    hide Emits, Losses, Tallied;
    if count > 0 {
      GiveUpTallies(st);
      ForceSkipTallies(GiveUp(st), count - 1);
    }
  }

  lemma {:induction false} SweepTallies(c: Config, st: State, nowNs: int)
    ensures Quiet(st, SweepExpired(c, st, nowNs)) && (Tallied(st) ==> Tallied(SweepExpired(c, st, nowNs)))
    decreases st.highest + 1 - st.next
  {
    hide Tallied;
    if SweepFires(c, st, nowNs) {
      GiveUpTallies(st);
      DrainTallies(GiveUp(st));
      DrainAdvances(GiveUp(st));
      SweepTallies(c, Drain(GiveUp(st)), nowNs);
    }
  }

  lemma DetectTallies(c: Config, st: State, nowNs: int)
    ensures Quiet(st, DetectGaps(c, st, nowNs)) && (Tallied(st) ==> Tallied(DetectGaps(c, st, nowNs)))
  {
    hide Groups, ScanSent, ScanRing, Emits, Losses;
  }

  /** The state a datagram that is filed leaves the buffer in, up to the update of the maximum. */
  lemma SettleTallies(c: Config, st: State, nowNs: int)
    ensures var after := Settle(c, st, nowNs);
            && after.lateDrops == st.lateDrops && after.duplicateDrops == st.duplicateDrops
            && after.reorderEvents == st.reorderEvents
            && after.maxPending == (if after.pending > st.maxPending then after.pending else st.maxPending)
            && (Tallied(st) ==> Tallied(after))
  {
    hide Drain, SweepExpired, DetectGaps, Emits, Losses;
    var drained := Drain(st);
    DrainTallies(st);
    DetectTallies(c, drained, nowNs);
    SweepTallies(c, DetectGaps(c, drained, nowNs), nowNs);
  }

  // ----- the other counters, call by call

  /** What a call does to the counts of late, duplicate and reordered datagrams and to the maximum. */
  predicate CountsAsCalled(st: State, after: State, input: Input) {
    var most := if after.pending > st.maxPending then after.pending else st.maxPending;
    match input
    case TickAt(_) =>
      && after.lateDrops == st.lateDrops && after.duplicateDrops == st.duplicateDrops
      && after.reorderEvents == st.reorderEvents && after.maxPending == most
    case Arrive(_, dg, _) =>
      if !WellFormed(dg) then after == st
      else if !st.seenFirst then Quiet(st, after)
      else
        var ext := ToExtSeq(st.highest, SeqOf(dg));
        if ext < st.next then
          // handed over or given up already: a duplicate if it is at most 32 behind, late otherwise
          && after == st.(lateDrops := after.lateDrops, duplicateDrops := after.duplicateDrops)
          && after.lateDrops == st.lateDrops + (if ext + 32 < st.next then 1 else 0)
          && after.duplicateDrops == st.duplicateDrops + (if ext + 32 < st.next then 0 else 1)
        else if Held(MakeRoom(st, ext), ext) then
          && after.lateDrops == st.lateDrops && after.duplicateDrops == st.duplicateDrops + 1
          && after.reorderEvents == st.reorderEvents && after.maxPending == st.maxPending
        else
          && after.lateDrops == st.lateDrops && after.duplicateDrops == st.duplicateDrops
          && after.reorderEvents == st.reorderEvents + (if ext < st.highest then 1 else 0)
          && after.maxPending == most
  }

  lemma StepCounts(c: Config, st: State, input: Input)
    ensures CountsAsCalled(st, Step(c, st, input), input)
    ensures Tallied(st) ==> Tallied(Step(c, st, input))
  {
    hide Settle, SweepExpired, DetectGaps, Emits, Losses, ForceSkip;
    match input
    case TickAt(nowNs) =>
      SweepTallies(c, st, nowNs);
      DetectTallies(c, SweepExpired(c, st, nowNs), nowNs);
    case Arrive(_, dg, clockNs) =>
      if WellFormed(dg) && st.seenFirst {
        var ext, nowNs := ToExtSeq(st.highest, SeqOf(dg)), ReceiveTime(dg, clockNs);
        if ext >= st.next {
          if ext - st.next >= RING_CAP {
            ForceSkipTallies(st, ext - st.next - (RING_CAP - 1));
            ForceSkipMoves(st, ext - st.next - (RING_CAP - 1));
          }
          var room := MakeRoom(st, ext);
          if !Held(room, ext) { SettleTallies(c, Insert(room, ext, dg, nowNs), nowNs); }
        }
      } else if WellFormed(dg) {
        OneMore(st.delivered, Emit(SeqOf(dg), dg));
      }
  }

  /** Every count, in every run: emitted, given up and requested by the callbacks made, the others call by call. */
  lemma {:induction false} CountersExact(c: Config, h: seq<Input>, input: Input)
    ensures Tallied(Run(c, h)) && CountsAsCalled(Run(c, h), Run(c, h + [input]), input)
    decreases |h|
  {
    hide Step, CountsAsCalled, Tallied;
    RunSnoc(c, h, input);
    StepCounts(c, Run(c, h), input);
    if h == [] {
      NothingTallied();
    } else {
      CountersExact(c, h[..|h| - 1], input);
      StepCounts(c, Run(c, h[..|h| - 1]), h[|h| - 1]);
    }
  }

  lemma NothingTallied()
    ensures Tallied(INITIAL)
  {
  }

  // ----- why a number is given up

  /** A datagram behind `n` has waited a dwell. */
  predicate Overdue(c: Config, ring: Ring, n: nat, highest: nat, nowNs: int) {
    exists m :: n < m <= highest && ring[Idx(m)].filled && nowNs - ring[Idx(m)].arrivalNs >= c.dwellUs * 1000
  }

  predicate Within(after: Ring, before: Ring) {
    forall i: nat :: i < RING_CAP && after[i].filled ==> before[i].filled && after[i].arrivalNs == before[i].arrivalNs
  }

  lemma {:induction false} EarliestIsOne(ring: Ring, s: nat, highest: nat, acc: int)
    ensures var e := Earliest(ring, s, highest, acc);
            e == acc || exists m :: s <= m <= highest && ring[Idx(m)].filled && ring[Idx(m)].arrivalNs == e
    decreases highest + 1 - s
  {
    if s <= highest {
      var q := ring[Idx(s)];
      EarliestIsOne(ring, s + 1, highest, if q.filled && (acc == 0 || q.arrivalNs < acc) then q.arrivalNs else acc);
    }
  }

  lemma FiresWhenOverdue(c: Config, st: State, nowNs: int)
    requires SweepFires(c, st, nowNs)
    ensures Overdue(c, st.ring, st.next, st.highest, nowNs)
  {
    EarliestIsOne(st.ring, st.next + 1, st.highest, 0);
  }

  /** From position `from` on every loss reported is that of a number with a datagram behind it overdue. */
  predicate Justified(c: Config, delivered: seq<Delivery>, from: nat, first: nat, ring: Ring, highest: nat, nowNs: int) {
    forall k: nat :: from <= k < |delivered| && delivered[k].Loss? ==> Overdue(c, ring, first + k, highest, nowNs)
  }

  lemma {:induction false} DrainJustified(c: Config, st: State, from: nat, first: nat, ring: Ring, highest: nat, nowNs: int)
    requires Justified(c, st.delivered, from, first, ring, highest, nowNs) && Within(st.ring, ring)
    requires first <= st.next && |st.delivered| == st.next - first
    ensures Justified(c, Drain(st).delivered, from, first, ring, highest, nowNs) && Within(Drain(st).ring, ring)
    ensures |Drain(st).delivered| == Drain(st).next - first && Drain(st).next >= st.next
    decreases FilledSet(st.ring)
  {
    hide Overdue;
    if Held(st, st.next) {
      EmitNextReleases(st);
      assert Idx(st.next) in FilledSet(st.ring);
      DrainJustified(c, EmitNext(st), from, first, ring, highest, nowNs);
    }
  }

  lemma {:induction false} SweepJustified(c: Config, st: State, from: nat, first: nat, ring: Ring, nowNs: int)
    requires Justified(c, st.delivered, from, first, ring, st.highest, nowNs) && Within(st.ring, ring)
    requires first <= st.next && |st.delivered| == st.next - first
    ensures Justified(c, SweepExpired(c, st, nowNs).delivered, from, first, ring, st.highest, nowNs)
    decreases st.highest + 1 - st.next
  {
    hide Overdue, Drain;
    if SweepFires(c, st, nowNs) {
      FiresWhenOverdue(c, st, nowNs);
      OverdueWithin(c, st.ring, ring, st.next, st.highest, nowNs);
      DrainAdvances(GiveUp(st));
      DrainJustified(c, GiveUp(st), from, first, ring, st.highest, nowNs);
      SweepJustified(c, Drain(GiveUp(st)), from, first, ring, nowNs);
    }
  }

  lemma OverdueWithin(c: Config, after: Ring, before: Ring, n: nat, highest: nat, nowNs: int)
    requires Overdue(c, after, n, highest, nowNs) && Within(after, before)
    ensures Overdue(c, before, n, highest, nowNs)
  {
    var m :| n < m <= highest && after[Idx(m)].filled && nowNs - after[Idx(m)].arrivalNs >= c.dwellUs * 1000;
    assert before[Idx(m)].filled;
  }

  lemma {:induction false} ForceSkipLosses(st: State, count: nat)
    ensures |ForceSkip(st, count).delivered| == |st.delivered| + count && st.delivered <= ForceSkip(st, count).delivered
    decreases count
  {
    if count > 0 { ForceSkipLosses(GiveUp(st), count - 1); }
  }

  /** What a call reports lost: up to the number a whole ring behind the one that arrives, and numbers with an overdue datagram
      behind them, among those in the ring once the arrival is filed. */
  predicate LossesDue(c: Config, st: State, after: State, input: Input, first: nat) {
    match input
    case TickAt(nowNs) => Justified(c, after.delivered, |st.delivered|, first, st.ring, st.highest, nowNs)
    case Arrive(_, dg, clockNs) =>
      WellFormed(dg) && st.seenFirst ==>
        var ext, nowNs := ToExtSeq(st.highest, SeqOf(dg)), ReceiveTime(dg, clockNs);
        if ext < st.next then after.delivered == st.delivered
        else
          var room := MakeRoom(st, ext);
          && (room.delivered == st.delivered || first + |room.delivered| + (RING_CAP - 1) == ext)
          && (if Held(room, ext) then after.delivered == room.delivered
              else
                var filed := Insert(room, ext, dg, nowNs);
                Justified(c, after.delivered, |room.delivered|, first, filed.ring, filed.highest, nowNs))
  }

  lemma SettleJustified(c: Config, st: State, first: nat, nowNs: int)
    requires first <= st.next && |st.delivered| == st.next - first
    ensures Justified(c, Settle(c, st, nowNs).delivered, |st.delivered|, first, st.ring, st.highest, nowNs)
  {
    hide Overdue, Drain, SweepExpired, DetectGaps;
    var drained := Drain(st);
    DrainJustified(c, st, |st.delivered|, first, st.ring, st.highest, nowNs);
    DrainAdvances(st);
    var scanned := DetectGaps(c, drained, nowNs);
    DetectSame(c, drained, nowNs);
    SweepJustified(c, scanned, |st.delivered|, first, st.ring, nowNs);
  }

  lemma DetectSame(c: Config, st: State, nowNs: int)
    ensures var after := DetectGaps(c, st, nowNs);
            && after.delivered == st.delivered && after.next == st.next && after.highest == st.highest
            && Within(after.ring, st.ring)
  {
    DetectKeepsSlots(c, st, nowNs);
  }

  lemma StepLossesDue(c: Config, st: State, input: Input, first: nat)
    requires first <= st.next && |st.delivered| == st.next - first
    ensures LossesDue(c, st, Step(c, st, input), input, first)
  {
    hide Settle, SweepExpired, DetectGaps, Overdue, Insert;
    match input
    case TickAt(nowNs) =>
      SweepJustified(c, st, |st.delivered|, first, st.ring, nowNs);
      DetectSame(c, SweepExpired(c, st, nowNs), nowNs);
    case Arrive(_, dg, clockNs) =>
      if WellFormed(dg) && st.seenFirst {
        var ext, nowNs := ToExtSeq(st.highest, SeqOf(dg)), ReceiveTime(dg, clockNs);
        if ext >= st.next {
          if ext - st.next >= RING_CAP {
            ForceSkipLosses(st, ext - st.next - (RING_CAP - 1));
            ForceSkipMoves(st, ext - st.next - (RING_CAP - 1));
          }
          var room := MakeRoom(st, ext);
          if !Held(room, ext) {
            FiledSame(room, ext, dg, nowNs);
            SettleJustified(c, Insert(room, ext, dg, nowNs), first, nowNs);
          }
        }
      }
  }

  lemma FiledSame(st: State, ext: nat, dg: Datagram, nowNs: int)
    requires !Held(st, ext)
    ensures Insert(st, ext, dg, nowNs).next == st.next && Insert(st, ext, dg, nowNs).delivered == st.delivered
  {
  }

  /** No number is given up early, in every run: force-skip passes exactly the numbers that the ring has no
      room for, and the overdue check only numbers with a datagram behind them that has waited a dwell. */
  lemma NothingGivenUpEarly(c: Config, h: seq<Input>, input: Input)
    requires FirstNumber(h).Some?
    ensures LossesDue(c, Run(c, h), Run(c, h + [input]), input, FirstNumber(h).value)
  {
    hide Step, LossesDue;
    RunSnoc(c, h, input);
    RunLedger(c, h);
    StepLossesDue(c, Run(c, h), input, FirstNumber(h).value);
  }

  // ----- a reset

  /** The same buffer, but for counts and callbacks made before: those of `base`. */
  predicate Alike(s: State, t: State, base: State) {
    && s.ring == t.ring && s.seenFirst == t.seenFirst && s.next == t.next && s.highest == t.highest && s.pending == t.pending
    && s.delivered == base.delivered + t.delivered && s.nacks == base.nacks + t.nacks
    && s.emits == base.emits + t.emits && s.lateDrops == base.lateDrops + t.lateDrops
    && s.duplicateDrops == base.duplicateDrops + t.duplicateDrops && s.expiredGaps == base.expiredGaps + t.expiredGaps
    && s.nacksSent == base.nacksSent + t.nacksSent && s.reorderEvents == base.reorderEvents + t.reorderEvents
    && s.maxPending == (if base.maxPending > t.maxPending then base.maxPending else t.maxPending)
  }

  lemma EmitNextAlike(s: State, t: State, base: State)
    requires Alike(s, t, base) && Held(s, s.next)
    ensures Held(t, t.next) && Alike(EmitNext(s), EmitNext(t), base)
  {
    var slot := t.ring[Idx(t.next)];
    var d := Emit(slot.ext, slot.dg);
    assert base.delivered + (t.delivered + [d]) == (base.delivered + t.delivered) + [d];
  }

  lemma GiveUpAlike(s: State, t: State, base: State)
    requires Alike(s, t, base)
    ensures Alike(GiveUp(s), GiveUp(t), base)
  {
    var d := Loss(t.next % TWO_16);
    assert base.delivered + (t.delivered + [d]) == (base.delivered + t.delivered) + [d];
  }

  lemma {:induction false} DrainAlike(s: State, t: State, base: State)
    requires Alike(s, t, base)
    ensures Alike(Drain(s), Drain(t), base)
    decreases FilledSet(s.ring)
  {
    hide EmitNext;
    assert Held(s, s.next) == Held(t, t.next);
    if Held(s, s.next) {
      EmitNextReleases(s);
      assert Idx(s.next) in FilledSet(s.ring);
      EmitNextAlike(s, t, base);
      DrainAlike(EmitNext(s), EmitNext(t), base);
    }
  }

  lemma {:induction false} ForceSkipAlike(s: State, t: State, base: State, count: nat)
    requires Alike(s, t, base)
    ensures Alike(ForceSkip(s, count), ForceSkip(t, count), base)
    decreases count
  {
    hide Alike, GiveUp;
    if count > 0 {
      GiveUpAlike(s, t, base);
      ForceSkipAlike(GiveUp(s), GiveUp(t), base, count - 1);
    }
  }

  lemma SameSweep(c: Config, s: State, t: State, base: State, nowNs: int)
    requires Alike(s, t, base)
    ensures SweepFires(c, s, nowNs) == SweepFires(c, t, nowNs) && s.next == t.next && s.highest == t.highest
  {
  }

  lemma {:induction false} SweepAlike(c: Config, s: State, t: State, base: State, nowNs: int)
    requires Alike(s, t, base)
    ensures Alike(SweepExpired(c, s, nowNs), SweepExpired(c, t, nowNs), base)
    decreases s.highest + 1 - s.next
  {
    hide Alike, Drain, GiveUp, SweepFires;
    SameSweep(c, s, t, base, nowNs);
    if SweepFires(c, s, nowNs) {
      GiveUpAlike(s, t, base);
      DrainAlike(GiveUp(s), GiveUp(t), base);
      SweepShrinks(c, s, nowNs);
      SweepAlike(c, Drain(GiveUp(s)), Drain(GiveUp(t)), base, nowNs);
    }
  }

  lemma SweepShrinks(c: Config, s: State, nowNs: int)
    requires SweepFires(c, s, nowNs)
    ensures 0 <= s.highest + 1 - Drain(GiveUp(s)).next < s.highest + 1 - s.next || Drain(GiveUp(s)).next > s.highest + 1
    ensures s.next < s.highest + 1 && Drain(GiveUp(s)).highest == s.highest
  {
    DrainAdvances(GiveUp(s));
  }

  lemma DetectAlike(c: Config, s: State, t: State, base: State, nowNs: int)
    requires Alike(s, t, base)
    ensures Alike(DetectGaps(c, s, nowNs), DetectGaps(c, t, nowNs), base)
  {
    hide Groups, ScanSent, ScanRing;
    var sent := ScanSent(c, t.ring, Groups(t.ring, t.next, t.highest), t.highest, nowNs);
    assert base.nacks + (t.nacks + sent) == (base.nacks + t.nacks) + sent;
  }

  lemma UpdateAlike(s: State, t: State, base: State)
    requires Alike(s, t, base)
    ensures Alike(UpdatePending(s), UpdatePending(t), base)
  {
  }

  lemma SettleAlike(c: Config, s: State, t: State, base: State, nowNs: int)
    requires Alike(s, t, base)
    ensures Alike(Settle(c, s, nowNs), Settle(c, t, nowNs), base)
  {
    hide Alike, Drain, DetectGaps, SweepExpired, UpdatePending;
    DrainAlike(s, t, base);
    DetectAlike(c, Drain(s), Drain(t), base, nowNs);
    SweepAlike(c, DetectGaps(c, Drain(s), nowNs), DetectGaps(c, Drain(t), nowNs), base, nowNs);
    UpdateAlike(SweepExpired(c, DetectGaps(c, Drain(s), nowNs), nowNs),
                SweepExpired(c, DetectGaps(c, Drain(t), nowNs), nowNs), base);
  }

  lemma InsertAlike(s: State, t: State, base: State, ext: nat, dg: Datagram, nowNs: int)
    requires Alike(s, t, base) && !Held(s, ext)
    ensures !Held(t, ext) && Alike(Insert(s, ext, dg, nowNs), Insert(t, ext, dg, nowNs), base)
  {
  }

  lemma StepAlike(c: Config, s: State, t: State, base: State, input: Input)
    requires Alike(s, t, base)
    ensures Alike(Step(c, s, input), Step(c, t, input), base)
  {
    hide Settle, SweepExpired, DetectGaps, ForceSkip, Insert, UpdatePending;
    match input
    case TickAt(nowNs) =>
      SweepAlike(c, s, t, base, nowNs);
      DetectAlike(c, SweepExpired(c, s, nowNs), SweepExpired(c, t, nowNs), base, nowNs);
      UpdateAlike(DetectGaps(c, SweepExpired(c, s, nowNs), nowNs), DetectGaps(c, SweepExpired(c, t, nowNs), nowNs), base);
    case Arrive(_, dg, clockNs) =>
      if WellFormed(dg) {
        if s.seenFirst {
          AcceptAlike(c, s, t, base, ToExtSeq(s.highest, SeqOf(dg)), dg, ReceiveTime(dg, clockNs));
        } else {
          FirstAlike(s, t, base, dg);
        }
      }
  }

  lemma FirstAlike(s: State, t: State, base: State, dg: Datagram)
    requires Alike(s, t, base) && WellFormed(dg)
    ensures Alike(Bootstrap(s, dg), Bootstrap(t, dg), base)
  {
    var d := Emit(SeqOf(dg), dg);
    assert base.delivered + (t.delivered + [d]) == (base.delivered + t.delivered) + [d];
  }

  lemma AcceptAlike(c: Config, s: State, t: State, base: State, ext: nat, dg: Datagram, nowNs: int)
    requires Alike(s, t, base)
    ensures ext < s.next ==> ext < t.next && Alike(DropOld(s, ext), DropOld(t, ext), base)
    ensures ext >= s.next ==> ext >= t.next && Alike(Accept(c, s, ext, dg, nowNs), Accept(c, t, ext, dg, nowNs), base)
  {
    hide Settle, ForceSkip, Insert;
    if ext >= s.next {
      if ext - s.next >= RING_CAP { ForceSkipAlike(s, t, base, ext - s.next - (RING_CAP - 1)); }
      var s1, t1 := MakeRoom(s, ext), MakeRoom(t, ext);
      if !Held(s1, ext) {
        InsertAlike(s1, t1, base, ext, dg, nowNs);
        SettleAlike(c, Insert(s1, ext, dg, nowNs), Insert(t1, ext, dg, nowNs), base, nowNs);
      }
    }
  }

  /** A run from a given state. */
  function RunFrom(c: Config, st: State, h: seq<Input>): State {
    if h == [] then st else Step(c, RunFrom(c, st, h[..|h| - 1]), h[|h| - 1])
  }

  lemma {:induction false} RunFromAlike(c: Config, st: State, base: State, h: seq<Input>)
    requires Alike(st, INITIAL, base)
    ensures Alike(RunFrom(c, st, h), Run(c, h), base)
  {
    hide Step, Alike;
    if h != [] {
      RunFromAlike(c, st, base, h[..|h| - 1]);
      StepAlike(c, RunFrom(c, st, h[..|h| - 1]), Run(c, h[..|h| - 1]), base, h[|h| - 1]);
    }
  }

  /** After a reset, in every state, the buffer goes on as a new one, but for the counts and callbacks made
      before; so all theorems on runs speak of the next stream. */
  lemma ResetStartsOver(c: Config, st: State, h: seq<Input>)
    requires st.maxPending >= 0
    ensures Alike(RunFrom(c, Reset(st), h), Run(c, h), st)
  {
    assert st.delivered + [] == st.delivered && st.nacks + [] == st.nacks;
    RunFromAlike(c, Reset(st), st, h);
  }
}
