/**
 What the jitter buffer delivers over a whole run: every consecutive sequence number exactly
 once, in ascending order, with the first datagram received for it or a loss report.
 */
module JitterTrace {
  import opened Arithmetic
  import opened Common
  import opened Jitter
  import opened JitterRuns

  // ----- reference: defined on the inputs alone

  /** For every number received, the first datagram received for it. */
  function Firsts(h: seq<Input>): map<nat, Datagram> {
    if h == [] then map[]
    else
      var before := Firsts(h[..|h| - 1]);
      var last := h[|h| - 1];
      if last.Arrive? && WellFormed(last.dg) && last.n !in before then before[last.n := last.dg] else before
  }

  /** One event per number from `first` on: the first datagram received for it, or its loss report. */
  predicate Refines(delivered: seq<Delivery>, first: nat, next: nat, firsts: map<nat, Datagram>) {
    && first <= next
    && |delivered| == next - first
    && forall k: nat :: k < |delivered| ==>
         match delivered[k]
         case Emit(e, dg) => e == first + k && e in firsts && firsts[e] == dg
         case Loss(seq16) => seq16 == (first + k) % TWO_16
  }

  // ----- the window invariant

  /** Every filled slot in the window holds the first datagram received for its number, and nothing
      received for a number still to come is missing from the ring. */
  predicate Core(st: State, first: nat, firsts: map<nat, Datagram>) {
    && st.highest < st.next + RING_CAP
    && (forall n :: st.next <= n < st.next + RING_CAP && Held(st, n) ==>
          && n <= st.highest && st.ring[Idx(n)].ext == n
          && n in firsts && firsts[n] == st.ring[Idx(n)].dg)
    && (forall n :: n in firsts ==> n <= st.highest && (n >= st.next ==> Held(st, n)))
    && Refines(st.delivered, first, st.next, firsts)
  }

  /** What holds between calls. */
  predicate Settled(st: State, first: nat, firsts: map<nat, Datagram>) {
    Core(st, first, firsts) && st.next <= st.highest + 1 && !Held(st, st.next)
  }

  lemma EmitNextKeeps(st: State, first: nat, firsts: map<nat, Datagram>)
    requires Core(st, first, firsts) && Held(st, st.next)
    ensures Core(EmitNext(st), first, firsts)
    ensures st.next <= st.highest
  {
    hide Refines;
    var after := EmitNext(st);
    RefinesMore(st, after, first, firsts);
    forall n | after.next <= n < after.next + RING_CAP
      ensures Held(after, n) == (n < st.next + RING_CAP && Held(st, n))
      ensures Held(after, n) ==> after.ring[Idx(n)] == st.ring[Idx(n)]
    {
      if n < st.next + RING_CAP { OtherSlot(st.next, n); } else { assert Idx(n) == Idx(st.next); }
    }
  }

  /** The callback made for `next` carries the first datagram received for it. */
  lemma RefinesMore(st: State, after: State, first: nat, firsts: map<nat, Datagram>)
    requires Held(st, st.next) && after == EmitNext(st) && Refines(st.delivered, first, st.next, firsts)
    requires st.ring[Idx(st.next)].ext == st.next && st.next in firsts && firsts[st.next] == st.ring[Idx(st.next)].dg
    ensures Refines(after.delivered, first, after.next, firsts)
  {
  }

  /** The number of the window that has slot `i`. */
  lemma SlotNumber(next: nat, i: nat)
    requires i < RING_CAP
    ensures var n := next + (i - next) % RING_CAP;
            next <= n < next + RING_CAP && Idx(n) == i
  {
    var q, r := (i - next) / RING_CAP, (i - next) % RING_CAP;
    assert next + r == i + (-q) * RING_CAP;
    DivUnique(next + r, RING_CAP, -q, i);
  }

  /** The number of the window that shares the slot of `ext`. */
  lemma WindowNumber(next: nat, ext: nat)
    requires next <= ext
    ensures var n := next + (ext - next) % RING_CAP;
            && next <= n < next + RING_CAP && Idx(n) == Idx(ext)
            && (ext >= next + RING_CAP ==> n + RING_CAP <= ext) && (ext < next + RING_CAP ==> n == ext)
  {
    var q, r := (ext - next) / RING_CAP, (ext - next) % RING_CAP;
    assert ext == next + r + q * RING_CAP;
    DivUnique(ext, RING_CAP, (next + r) / RING_CAP + q, (next + r) % RING_CAP);
  }

  lemma {:induction false} DrainKeeps(st: State, first: nat, firsts: map<nat, Datagram>)
    requires Core(st, first, firsts) && st.next <= st.highest + 1
    ensures Settled(Drain(st), first, firsts)
    decreases FilledSet(st.ring)
  {
    if Held(st, st.next) {
      EmitNextReleases(st);
      assert Idx(st.next) in FilledSet(st.ring);
      EmitNextKeeps(st, first, firsts);
      DrainKeeps(EmitNext(st), first, firsts);
    }
  }

  lemma GiveUpKeeps(st: State, first: nat, firsts: map<nat, Datagram>)
    requires Core(st, first, firsts) && !Held(st, st.next)
    ensures Core(GiveUp(st), first, firsts)
  {
    var after := GiveUp(st);
    assert forall n :: Held(after, n) == Held(st, n);
    assert Idx(st.next + RING_CAP) == Idx(st.next);
  }

  lemma {:induction false} ForceSkipKeeps(st: State, count: nat, first: nat, firsts: map<nat, Datagram>)
    requires Core(st, first, firsts)
    requires forall n :: st.next <= n < st.next + count && n <= st.highest ==> !Held(st, n)
    ensures Core(ForceSkip(st, count), first, firsts)
    ensures ForceSkip(st, count).next == st.next + count
    ensures ForceSkip(st, count).highest == st.highest && ForceSkip(st, count).ring == st.ring
    decreases count
  {
    if count > 0 {
      GiveUpKeeps(st, first, firsts);
      var after := GiveUp(st);
      assert forall n :: Held(after, n) == Held(st, n);
      ForceSkipKeeps(after, count - 1, first, firsts);
    }
  }

  lemma EarliestFound(ring: Ring, s: nat, highest: nat, acc: int)
    requires Earliest(ring, s, highest, acc) != 0
    ensures acc != 0 || exists n :: s <= n <= highest && ring[Idx(n)].filled
    decreases highest + 1 - s
  {
    if s <= highest {
      var q := ring[Idx(s)];
      var acc' := if q.filled && (acc == 0 || q.arrivalNs < acc) then q.arrivalNs else acc;
      EarliestFound(ring, s + 1, highest, acc');
    }
  }

  lemma {:induction false} SweepKeeps(c: Config, st: State, nowNs: int, first: nat, firsts: map<nat, Datagram>)
    requires Settled(st, first, firsts)
    ensures Settled(SweepExpired(c, st, nowNs), first, firsts)
    decreases st.highest + 1 - st.next
  {
    if SweepFires(c, st, nowNs) {
      GiveUpKeeps(st, first, firsts);
      DrainKeeps(GiveUp(st), first, firsts);
      DrainAdvances(GiveUp(st));
      SweepKeeps(c, Drain(GiveUp(st)), nowNs, first, firsts);
    }
  }

  lemma DetectKeeps(c: Config, st: State, nowNs: int, first: nat, firsts: map<nat, Datagram>)
    requires Settled(st, first, firsts)
    ensures Settled(DetectGaps(c, st, nowNs), first, firsts)
  {
    DetectKeepsSlots(c, st, nowNs);
  }

  /** A number still to come adds nothing to what was delivered. */
  lemma RefinesGrow(delivered: seq<Delivery>, first: nat, next: nat, firsts: map<nat, Datagram>, ext: nat, dg: Datagram)
    requires Refines(delivered, first, next, firsts) && ext !in firsts
    ensures Refines(delivered, first, next, firsts[ext := dg])
  {
  }

  lemma InsertSlots(st: State, ext: nat, dg: Datagram, nowNs: int, n: nat)
    requires st.next <= n < st.next + RING_CAP && st.next <= ext < st.next + RING_CAP && n != ext && !Held(st, ext)
    ensures var after := Insert(st, ext, dg, nowNs);
            Held(after, n) == Held(st, n) && after.ring[Idx(n)] == st.ring[Idx(n)]
  {
    if n < ext { OtherSlot(n, ext); } else { OtherSlot(ext, n); }
  }

  lemma InsertKeeps(st: State, ext: nat, dg: Datagram, nowNs: int, first: nat, firsts: map<nat, Datagram>)
    requires Core(st, first, firsts)
    requires st.next <= ext < st.next + RING_CAP && !Held(st, ext)
    ensures ext !in firsts
    ensures Core(Insert(st, ext, dg, nowNs), first, firsts[ext := dg])
    ensures Insert(st, ext, dg, nowNs).next <= Insert(st, ext, dg, nowNs).highest
  {
    hide Refines, Idx;
    var after := Insert(st, ext, dg, nowNs);
    RefinesGrow(st.delivered, first, st.next, firsts, ext, dg);
    forall n | st.next <= n < st.next + RING_CAP && n != ext
      ensures Held(after, n) == Held(st, n) && after.ring[Idx(n)] == st.ring[Idx(n)]
    {
      InsertSlots(st, ext, dg, nowNs, n);
    }
  }

  lemma SettleKeeps(c: Config, st: State, nowNs: int, first: nat, firsts: map<nat, Datagram>)
    requires Core(st, first, firsts) && st.next <= st.highest + 1
    ensures Settled(Settle(c, st, nowNs), first, firsts)
  {
    var drained := Drain(st);
    DrainKeeps(st, first, firsts);
    DetectKeeps(c, drained, nowNs, first, firsts);
    SweepKeeps(c, DetectGaps(c, drained, nowNs), nowNs, first, firsts);
  }

  /** A clean skip leaves room for `ext`; a slot that is still filled then holds `ext` itself. */
  lemma MakeRoomKeeps(st: State, ext: nat, first: nat, firsts: map<nat, Datagram>)
    requires Settled(st, first, firsts) && ext >= st.next && CleanSkip(st, ext)
    ensures var room := MakeRoom(st, ext);
            && Core(room, first, firsts)
            && room.next <= ext < room.next + RING_CAP && room.ring == st.ring
            && (Held(room, ext) ==> room == st && ext in firsts)
  {
    hide Refines, Idx;
    var n := st.next + (ext - st.next) % RING_CAP;
    WindowNumber(st.next, ext);
    assert Held(st, ext) == Held(st, n);
    if ext - st.next >= RING_CAP {
      ForceSkipKeeps(st, ext - st.next - (RING_CAP - 1), first, firsts);
      assert !Held(st, n);
    }
  }

  lemma AcceptKeeps(c: Config, st: State, ext: nat, dg: Datagram, nowNs: int, first: nat, firsts: map<nat, Datagram>)
    requires Settled(st, first, firsts) && ext >= st.next && CleanSkip(st, ext)
    ensures Settled(Accept(c, st, ext, dg, nowNs), first, if ext in firsts then firsts else firsts[ext := dg])
  {
    var room := MakeRoom(st, ext);
    MakeRoomKeeps(st, ext, first, firsts);
    if Held(room, ext) {
      var after := Accept(c, st, ext, dg, nowNs);
      assert after == st.(duplicateDrops := st.duplicateDrops + 1);
      assert forall m :: Held(after, m) == Held(st, m);
    } else {
      InsertKeeps(room, ext, dg, nowNs, first, firsts);
      SettleKeeps(c, Insert(room, ext, dg, nowNs), nowNs, first, firsts[ext := dg]);
    }
  }

  lemma LateKeeps(st: State, st': State, n: nat, dg: Datagram, first: nat, firsts: map<nat, Datagram>)
    requires Settled(st, first, firsts) && n < st.next
    requires st'.ring == st.ring && st'.next == st.next && st'.highest == st.highest && st'.delivered == st.delivered
    ensures Settled(st', first, if n in firsts then firsts else firsts[n := dg])
  {
    assert forall m :: Held(st', m) == Held(st, m);
  }

  /** The history after one more input. */
  function Extend(firsts: map<nat, Datagram>, input: Input): map<nat, Datagram> {
    if input.Arrive? && WellFormed(input.dg) && input.n !in firsts then firsts[input.n := input.dg] else firsts
  }

  lemma {:induction false} StepKeeps(c: Config, st: State, input: Input, first: nat, firsts: map<nat, Datagram>)
    requires st.seenFirst && Settled(st, first, firsts)
    requires Genuine(st, input) && CleanStep(st, input)
    ensures Settled(Step(c, st, input), first, Extend(firsts, input))
  {
    hide Refines, Accept, DetectGaps;
    match input
    case TickAt(nowNs) =>
      SweepKeeps(c, st, nowNs, first, firsts);
      DetectKeeps(c, SweepExpired(c, st, nowNs), nowNs, first, firsts);
    case Arrive(n, dg, clockNs) =>
      if WellFormed(dg) {
        ToExtSeqRecovers(st.highest, n);
        if n < st.next {
          LateKeeps(st, DropOld(st, n), n, dg, first, firsts);
        } else {
          AcceptKeeps(c, st, n, dg, ReceiveTime(dg, clockNs), first, firsts);
        }
      }
  }

  lemma NothingHeld(n: nat)
    ensures !Held(INITIAL, n)
  {
  }

  lemma BootstrapSettles(c: Config, input: Input)
    requires input.Arrive? && WellFormed(input.dg) && Genuine(INITIAL, input)
    ensures Settled(Step(c, INITIAL, input), SeqOf(input.dg), map[input.n := input.dg])
  {
    hide Held;
    var st := Bootstrap(INITIAL, input.dg);
    assert Step(c, INITIAL, input) == st;
    forall n
      ensures !Held(st, n)
    {
      NothingHeld(n);
      SameRing(INITIAL, st, n);
    }
  }

  lemma SameRing(a: State, b: State, n: nat)
    requires a.ring == b.ring
    ensures Held(a, n) == Held(b, n)
  {
  }

  lemma {:induction false} RunSettled(c: Config, h: seq<Input>)
    requires GenuineRun(c, h) && CleanRun(c, h)
    ensures var st := Run(c, h);
            && (FirstNumber(h).Some? ==> Settled(st, FirstNumber(h).value, Firsts(h)))
            && (FirstNumber(h).None? ==> Firsts(h) == map[])
  {
    hide Step;
    if h != [] {
      var before, last := h[..|h| - 1], h[|h| - 1];
      var st := Run(c, before);
      RunSettled(c, before);
      RunLedger(c, before);
      if FirstNumber(before).Some? {
        StepKeeps(c, st, last, FirstNumber(before).value, Firsts(before));
      } else if last.Arrive? && WellFormed(last.dg) {
        BootstrapSettles(c, last);
      } else {
        IdleStep(c, last);
      }
    }
  }

  // ----- what is reported lost, when it is reported

  /** From position `from` on, only numbers never received so far are reported lost. */
  predicate TrueReports(delivered: seq<Delivery>, from: nat, first: nat, firsts: map<nat, Datagram>) {
    forall k: nat :: from <= k < |delivered| && delivered[k].Loss? ==> first + k !in firsts
  }

  lemma {:induction false} DrainReports(st: State, from: nat, first: nat, firsts: map<nat, Datagram>)
    requires TrueReports(st.delivered, from, first, firsts)
    ensures TrueReports(Drain(st).delivered, from, first, firsts)
    decreases FilledSet(st.ring)
  {
    if Held(st, st.next) {
      EmitNextReleases(st);
      assert Idx(st.next) in FilledSet(st.ring);
      DrainReports(EmitNext(st), from, first, firsts);
    }
  }

  lemma {:induction false} ForceSkipReports(st: State, count: nat, from: nat, first: nat, firsts: map<nat, Datagram>)
    requires TrueReports(st.delivered, from, first, firsts) && |st.delivered| == st.next - first
    requires forall n :: st.next <= n < st.next + count ==> n !in firsts
    ensures TrueReports(ForceSkip(st, count).delivered, from, first, firsts)
    decreases count
  {
    if count > 0 { ForceSkipReports(GiveUp(st), count - 1, from, first, firsts); }
  }

  lemma {:induction false} SweepReports(c: Config, st: State, nowNs: int, from: nat, first: nat, firsts: map<nat, Datagram>)
    requires Settled(st, first, firsts) && TrueReports(st.delivered, from, first, firsts)
    ensures TrueReports(SweepExpired(c, st, nowNs).delivered, from, first, firsts)
    decreases st.highest + 1 - st.next
  {
    hide Held;
    if SweepFires(c, st, nowNs) {
      var after := GiveUp(st);
      GiveUpKeeps(st, first, firsts);
      DrainKeeps(after, first, firsts);
      DrainReports(after, from, first, firsts);
      DrainAdvances(after);
      SweepReports(c, Drain(after), nowNs, from, first, firsts);
    }
  }

  lemma SettleReports(c: Config, st: State, nowNs: int, from: nat, first: nat, firsts: map<nat, Datagram>)
    requires Core(st, first, firsts) && st.next <= st.highest + 1 && TrueReports(st.delivered, from, first, firsts)
    ensures TrueReports(Settle(c, st, nowNs).delivered, from, first, firsts)
  {
    hide Core, TrueReports;
    var drained := Drain(st);
    DrainKeeps(st, first, firsts);
    DrainReports(st, from, first, firsts);
    DetectKeeps(c, drained, nowNs, first, firsts);
    SweepReports(c, DetectGaps(c, drained, nowNs), nowNs, from, first, firsts);
  }

  lemma AcceptReports(c: Config, st: State, ext: nat, dg: Datagram, nowNs: int, first: nat, firsts: map<nat, Datagram>)
    requires Settled(st, first, firsts) && ext >= st.next && CleanSkip(st, ext)
    ensures TrueReports(Accept(c, st, ext, dg, nowNs).delivered, |st.delivered|, first,
                        if ext in firsts then firsts else firsts[ext := dg])
  {
    hide Settle, Refines;
    var room, from := MakeRoom(st, ext), |st.delivered|;
    var firsts' := if ext in firsts then firsts else firsts[ext := dg];
    MakeRoomKeeps(st, ext, first, firsts);
    SettledLength(st, first, firsts);
    if ext - st.next >= RING_CAP { ForceSkipReports(st, ext - st.next - (RING_CAP - 1), from, first, firsts'); }
    if !Held(room, ext) {
      InsertKeeps(room, ext, dg, nowNs, first, firsts);
      SettleReports(c, Insert(room, ext, dg, nowNs), nowNs, from, first, firsts');
    }
  }

  lemma SettledLength(st: State, first: nat, firsts: map<nat, Datagram>)
    requires Settled(st, first, firsts)
    ensures first <= st.next && |st.delivered| == st.next - first
  {
  }

  lemma StepReports(c: Config, st: State, input: Input, first: nat, firsts: map<nat, Datagram>)
    requires st.seenFirst && Settled(st, first, firsts)
    requires Genuine(st, input) && CleanStep(st, input)
    ensures TrueReports(Step(c, st, input).delivered, |st.delivered|, first, Extend(firsts, input))
  {
    hide Core, Accept;
    match input
    case TickAt(nowNs) =>
      SweepReports(c, st, nowNs, |st.delivered|, first, firsts);
    case Arrive(n, dg, clockNs) =>
      if WellFormed(dg) {
        ToExtSeqRecovers(st.highest, n);
        if n >= st.next { AcceptReports(c, st, n, dg, ReceiveTime(dg, clockNs), first, firsts); }
      }
  }

  /** From position `from` on, exactly the numbers never received so far are reported lost. */
  predicate ExactReports(delivered: seq<Delivery>, from: nat, first: nat, firsts: map<nat, Datagram>) {
    forall k: nat :: from <= k < |delivered| ==> (delivered[k].Loss? <==> first + k !in firsts)
  }

  lemma ReportsExact(st: State, from: nat, first: nat, firsts: map<nat, Datagram>)
    requires Settled(st, first, firsts) && TrueReports(st.delivered, from, first, firsts)
    ensures ExactReports(st.delivered, from, first, firsts)
  {
  }

  /** What each call of the run reports: a loss if and only if the number had not been received by then. */
  predicate TruthfulRun(c: Config, h: seq<Input>) {
    h == [] ||
    (var before := h[..|h| - 1];
     && TruthfulRun(c, before)
     && (FirstNumber(h).Some? ==>
           ExactReports(Run(c, h).delivered, |Run(c, before).delivered|, FirstNumber(h).value, Firsts(h))))
  }

  lemma {:induction false} CleanIsTruthful(c: Config, h: seq<Input>)
    requires GenuineRun(c, h) && CleanRun(c, h)
    ensures TruthfulRun(c, h)
  {
    hide Step, TrueReports, ExactReports, Settled;
    if h != [] {
      var before, last := h[..|h| - 1], h[|h| - 1];
      CleanIsTruthful(c, before);
      RunSettled(c, before);
      RunSettled(c, h);
      RunLedger(c, before);
      if FirstNumber(before).Some? {
        StepReports(c, Run(c, before), last, FirstNumber(before).value, Firsts(before));
        ReportsExact(Run(c, h), |Run(c, before).delivered|, FirstNumber(h).value, Firsts(h));
      } else if last.Arrive? && WellFormed(last.dg) {
        BootstrapReports(c, last, Firsts(h));
        ReportsExact(Run(c, h), 0, FirstNumber(h).value, Firsts(h));
      }
    }
  }

  lemma BootstrapReports(c: Config, input: Input, firsts: map<nat, Datagram>)
    requires input.Arrive? && WellFormed(input.dg)
    ensures TrueReports(Step(c, INITIAL, input).delivered, 0, SeqOf(input.dg), firsts)
  {
    assert Step(c, INITIAL, input) == Bootstrap(INITIAL, input.dg);
  }

  /**
   Main result.  For every interleaving of arrivals and ticks in which no waiting number is stepped
   over, the emit and loss callbacks are one per consecutive number from the first datagram's on, each
   emit carries the first datagram received for that number, and a call reports a number lost if and only
   if it had not been received by then.
   */
  lemma {:induction false} TraceRefinement(c: Config, h: seq<Input>)
    requires GenuineRun(c, h) && CleanRun(c, h) && FirstNumber(h).Some?
    ensures var st := Run(c, h);
            Refines(st.delivered, FirstNumber(h).value, st.next, Firsts(h))
    ensures var st := Run(c, h);
            forall n :: n in Firsts(h) && n >= st.next ==> Held(st, n) && st.ring[Idx(n)].dg == Firsts(h)[n]
    ensures TruthfulRun(c, h)
  {
    CleanIsTruthful(c, h);
    RunSettled(c, h);
  }
}
