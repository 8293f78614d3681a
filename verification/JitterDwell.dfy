/** How long a datagram can be kept waiting, and when nothing is lost. */
module JitterDwell {
  import opened Common
  import opened Jitter
  import opened JitterRuns
  import opened JitterTrace
  import opened JitterOrder

  lemma {:induction false} EarliestIsLeast(ring: Ring, s: nat, highest: nat, acc: int)
    requires acc >= 0
    requires forall i: nat :: i < RING_CAP && ring[i].filled ==> ring[i].arrivalNs > 0
    ensures var e := Earliest(ring, s, highest, acc);
            && e >= 0
            && (acc != 0 ==> 0 < e <= acc)
            && (forall n :: s <= n <= highest && ring[Idx(n)].filled ==> 0 < e <= ring[Idx(n)].arrivalNs)
            && (e == 0 || e == acc || exists n :: s <= n <= highest && ring[Idx(n)].filled && e == ring[Idx(n)].arrivalNs)
    decreases highest + 1 - s
  {
    if s <= highest {
      var q := ring[Idx(s)];
      var acc' := if q.filled && (acc == 0 || q.arrivalNs < acc) then q.arrivalNs else acc;
      EarliestIsLeast(ring, s + 1, highest, acc');
    }
  }

  /** Every held datagram arrived less than one dwell before `nowNs`. */
  predicate Fresh(c: Config, st: State, nowNs: int) {
    forall i: nat :: i < RING_CAP && st.ring[i].filled ==> nowNs - st.ring[i].arrivalNs < c.dwellUs * 1000
  }

  predicate Stamped(st: State) {
    forall i: nat :: i < RING_CAP && st.ring[i].filled ==> st.ring[i].arrivalNs > 0
  }

  lemma {:induction false} DrainKeepsStamps(st: State)
    requires Stamped(st)
    ensures Stamped(Drain(st))
    decreases FilledSet(st.ring)
  {
    if Held(st, st.next) {
      EmitNextReleases(st);
      assert Idx(st.next) in FilledSet(st.ring);
      DrainKeepsStamps(EmitNext(st));
    }
  }

  lemma QuietSweepIsFresh(c: Config, st: State, nowNs: int, first: nat, firsts: map<nat, Datagram>)
    requires Settled(st, first, firsts) && Stamped(st) && !SweepFires(c, st, nowNs)
    ensures Fresh(c, st, nowNs)
  {
    hide Idx, Refines;
    EarliestIsLeast(st.ring, st.next + 1, st.highest, 0);
    forall i: nat | i < RING_CAP && st.ring[i].filled
      ensures nowNs - st.ring[i].arrivalNs < c.dwellUs * 1000
    {
      var n := st.next + (i - st.next) % RING_CAP;
      SlotNumber(st.next, i);
      assert Held(st, n);
    }
  }

  lemma {:induction false} SweepFreshens(c: Config, st: State, nowNs: int, first: nat, firsts: map<nat, Datagram>)
    requires Settled(st, first, firsts) && Stamped(st)
    ensures Fresh(c, SweepExpired(c, st, nowNs), nowNs) && Stamped(SweepExpired(c, st, nowNs))
    decreases st.highest + 1 - st.next
  {
    if SweepFires(c, st, nowNs) {
      GiveUpKeeps(st, first, firsts);
      DrainKeeps(GiveUp(st), first, firsts);
      DrainKeepsStamps(GiveUp(st));
      DrainAdvances(GiveUp(st));
      SweepFreshens(c, Drain(GiveUp(st)), nowNs, first, firsts);
    } else {
      QuietSweepIsFresh(c, st, nowNs, first, firsts);
    }
  }

  lemma ScanKeepsStamps(c: Config, st: State, nowNs: int, atNs: int)
    ensures Stamped(st) ==> Stamped(DetectGaps(c, st, atNs))
    ensures Fresh(c, st, nowNs) ==> Fresh(c, DetectGaps(c, st, atNs), nowNs)
  {
    DetectKeepsSlots(c, st, atNs);
  }

  lemma SettleFreshens(c: Config, st: State, nowNs: int, first: nat, firsts: map<nat, Datagram>)
    requires Core(st, first, firsts) && st.next <= st.highest + 1 && Stamped(st)
    ensures Fresh(c, Settle(c, st, nowNs), nowNs) && Stamped(Settle(c, st, nowNs))
  {
    var drained := Drain(st);
    DrainKeeps(st, first, firsts);
    DrainKeepsStamps(st);
    ScanKeepsStamps(c, drained, nowNs, nowNs);
    DetectKeeps(c, drained, nowNs, first, firsts);
    SweepFreshens(c, DetectGaps(c, drained, nowNs), nowNs, first, firsts);
  }

  /** The call runs the overdue check: a tick, or a datagram that is filed. */
  predicate ReachesSweep(st: State, input: Input) {
    match input
    case TickAt(_) => true
    case Arrive(n, dg, _) => WellFormed(dg) && st.seenFirst && n >= st.next && !Held(MakeRoom(st, n), n)
  }

  /** The time the call is made at. */
  function CallTime(input: Input): int {
    match input
    case TickAt(nowNs) => nowNs
    case Arrive(_, dg, clockNs) => ReceiveTime(dg, clockNs)
  }

  lemma StepFreshens(c: Config, st: State, input: Input, first: nat, firsts: map<nat, Datagram>)
    requires st.seenFirst && Settled(st, first, firsts) && Stamped(st)
    requires Genuine(st, input) && CleanStep(st, input)
    requires input.Arrive? ==> CallTime(input) > 0
    ensures Stamped(Step(c, st, input))
    ensures ReachesSweep(st, input) ==> Fresh(c, Step(c, st, input), CallTime(input))
  {
    hide Settle;
    match input
    case TickAt(nowNs) =>
      SweepFreshens(c, st, nowNs, first, firsts);
      ScanKeepsStamps(c, SweepExpired(c, st, nowNs), nowNs, nowNs);
    case Arrive(n, dg, clockNs) =>
      if WellFormed(dg) {
        ToExtSeqRecovers(st.highest, n);
        if n >= st.next {
          var room, nowNs := MakeRoom(st, n), ReceiveTime(dg, clockNs);
          MakeRoomKeeps(st, n, first, firsts);
          if !Held(room, n) {
            InsertKeeps(room, n, dg, nowNs, first, firsts);
            SettleFreshens(c, Insert(room, n, dg, nowNs), nowNs, first, firsts[n := dg]);
          }
        }
      }
  }

  predicate PositiveTimes(h: seq<Input>) {
    forall k: nat :: k < |h| && h[k].Arrive? ==> CallTime(h[k]) > 0
  }

  lemma {:induction false} RunStamped(c: Config, h: seq<Input>)
    requires GenuineRun(c, h) && CleanRun(c, h) && PositiveTimes(h)
    ensures Stamped(Run(c, h))
  {
    if h != [] {
      var before, last := h[..|h| - 1], h[|h| - 1];
      RunStamped(c, before);
      RunLedger(c, before);
      if FirstNumber(before).Some? {
        RunSettled(c, before);
        StepFreshens(c, Run(c, before), last, FirstNumber(before).value, Firsts(before));
      } else if !(last.Arrive? && WellFormed(last.dg)) {
        IdleStep(c, last);
      }
    }
  }

  /**
   Bounded head-of-line wait: after any call that runs the overdue check, every datagram still held
   arrived less than one dwell before that call.
   */
  lemma BoundedWait(c: Config, h: seq<Input>)
    requires GenuineRun(c, h) && CleanRun(c, h) && PositiveTimes(h)
    requires h != [] && ReachesSweep(Run(c, h[..|h| - 1]), h[|h| - 1])
    ensures Fresh(c, Run(c, h), CallTime(h[|h| - 1]))
  {
    var before, last := h[..|h| - 1], h[|h| - 1];
    RunStamped(c, before);
    RunLedger(c, before);
    if FirstNumber(before).Some? {
      RunSettled(c, before);
      StepFreshens(c, Run(c, before), last, FirstNumber(before).value, Firsts(before));
    } else {
      IdleStep(c, last);
    }
  }

  // ----- when nothing is lost

  /** When the first datagram of each number was received. */
  function Times(h: seq<Input>): map<nat, int> {
    if h == [] then map[] else ExtendTimes(Times(h[..|h| - 1]), h[|h| - 1])
  }

  function ExtendTimes(times: map<nat, int>, input: Input): map<nat, int> {
    if input.Arrive? && WellFormed(input.dg) && input.n !in times then times[input.n := CallTime(input)] else times
  }

  /** Everything that lies a whole ring or more before `n` has been received. */
  predicate InReach(firsts: map<nat, Datagram>, first: nat, n: nat) {
    forall m :: first <= m && m + RING_CAP <= n ==> m in firsts
  }

  /** Something before `n` is still missing. */
  predicate Blocked(firsts: map<nat, Datagram>, first: nat, n: nat) {
    exists m :: first <= m < n && m !in firsts
  }

  /** Nothing that waits for a missing number has waited a dwell. */
  predicate NothingOverdue(c: Config, firsts: map<nat, Datagram>, times: map<nat, int>, first: nat, nowNs: int) {
    forall n :: n in times && Blocked(firsts, first, n) ==> nowNs - times[n] < c.dwellUs * 1000
  }

  /** The call checks for what is overdue: a tick, or the arrival of a number for the first time. */
  predicate Checks(firsts: map<nat, Datagram>, first: nat, input: Input) {
    input.TickAt? || (WellFormed(input.dg) && first <= input.n && input.n !in firsts)
  }

  /** An arrival comes in time for the ring, and when the call checks, nothing is overdue. */
  predicate Punctual(c: Config, firsts: map<nat, Datagram>, times: map<nat, int>, first: nat, input: Input) {
    && (input.Arrive? && WellFormed(input.dg) ==> InReach(firsts, first, input.n))
    && (Checks(firsts, first, input) ==>
          NothingOverdue(c, Extend(firsts, input), ExtendTimes(times, input), first, CallTime(input)))
  }

  /** The inputs alone decide: every call of the run is punctual. */
  predicate PunctualRun(c: Config, h: seq<Input>) {
    h == [] ||
    (var before := h[..|h| - 1];
     && PunctualRun(c, before)
     && (FirstNumber(before).Some? ==> Punctual(c, Firsts(before), Times(before), FirstNumber(before).value, h[|h| - 1])))
  }

  predicate Lossless(st: State) { forall k: nat :: k < |st.delivered| ==> st.delivered[k].Emit? }

  /** Every slot remembers when its number was first received. */
  predicate Timed(st: State, times: map<nat, int>) {
    forall i: nat :: i < RING_CAP && st.ring[i].filled ==>
      st.ring[i].arrivalNs > 0 && st.ring[i].ext in times && times[st.ring[i].ext] == st.ring[i].arrivalNs
  }

  lemma LosslessReceived(st: State, first: nat, firsts: map<nat, Datagram>)
    requires Refines(st.delivered, first, st.next, firsts) && Lossless(st)
    ensures forall m :: first <= m < st.next ==> m in firsts
  {
    forall m | first <= m < st.next
      ensures m in firsts
    {
      assert st.delivered[m - first].Emit?;
    }
  }

  lemma LostStays(st: State, after: State)
    requires st.delivered <= after.delivered && Lossless(after)
    ensures Lossless(st)
  {
    assert forall k: nat :: k < |st.delivered| ==> st.delivered[k] == after.delivered[k];
  }

  /** The overdue check reports a loss if and only if something is overdue. */
  lemma SweepLosslessIff(c: Config, st: State, nowNs: int, first: nat, firsts: map<nat, Datagram>, times: map<nat, int>)
    requires Settled(st, first, firsts) && Lossless(st) && Timed(st, times) && times.Keys == firsts.Keys
    ensures Lossless(SweepExpired(c, st, nowNs)) <==> NothingOverdue(c, firsts, times, first, nowNs)
    ensures Lossless(SweepExpired(c, st, nowNs)) ==> SweepExpired(c, st, nowNs) == st
  {
    EarliestIsLeast(st.ring, st.next + 1, st.highest, 0);
    LosslessReceived(st, first, firsts);
    if SweepFires(c, st, nowNs) {
      FiresIsOverdue(c, st, nowNs, first, firsts, times);
      FiresIsLoss(c, st, nowNs);
    } else {
      forall n | n in times && Blocked(firsts, first, n)
        ensures nowNs - times[n] < c.dwellUs * 1000
      {
        assert Held(st, n) && n > st.next;
      }
    }
  }

  lemma FiresIsLoss(c: Config, st: State, nowNs: int)
    requires SweepFires(c, st, nowNs)
    ensures !Lossless(SweepExpired(c, st, nowNs))
  {
    var after := GiveUp(st);
    DrainGrows(after);
    DrainAdvances(after);
    SweepGrows(c, Drain(after), nowNs);
    assert after.delivered[|st.delivered|].Loss?;
    if Lossless(SweepExpired(c, st, nowNs)) { LostStays(after, SweepExpired(c, st, nowNs)); }
  }

  lemma FiresIsOverdue(c: Config, st: State, nowNs: int, first: nat, firsts: map<nat, Datagram>, times: map<nat, int>)
    requires Settled(st, first, firsts) && Timed(st, times) && times.Keys == firsts.Keys && SweepFires(c, st, nowNs)
    ensures !NothingOverdue(c, firsts, times, first, nowNs)
  {
    EarliestIsLeast(st.ring, st.next + 1, st.highest, 0);
    var e := Earliest(st.ring, st.next + 1, st.highest, 0);
    var n :| st.next + 1 <= n <= st.highest && st.ring[Idx(n)].filled && e == st.ring[Idx(n)].arrivalNs;
    assert Held(st, n) && !Held(st, st.next);
    assert n in times && st.next !in firsts;
  }

  lemma {:induction false} DrainTimed(st: State, times: map<nat, int>)
    requires Timed(st, times)
    ensures Timed(Drain(st), times) && (Lossless(st) ==> Lossless(Drain(st)))
    decreases FilledSet(st.ring)
  {
    if Held(st, st.next) {
      EmitNextReleases(st);
      assert Idx(st.next) in FilledSet(st.ring);
      DrainTimed(EmitNext(st), times);
    }
  }

  lemma DetectTimed(c: Config, st: State, nowNs: int, times: map<nat, int>)
    requires Timed(st, times)
    ensures Timed(DetectGaps(c, st, nowNs), times) && DetectGaps(c, st, nowNs).delivered == st.delivered
  {
    DetectKeepsSlots(c, st, nowNs);
  }

  lemma SettleLosslessIff(c: Config, st: State, nowNs: int, first: nat, firsts: map<nat, Datagram>, times: map<nat, int>)
    requires Core(st, first, firsts) && st.next <= st.highest + 1 && Lossless(st) && Timed(st, times)
    requires times.Keys == firsts.Keys
    ensures Lossless(Settle(c, st, nowNs)) <==> NothingOverdue(c, firsts, times, first, nowNs)
    ensures Lossless(Settle(c, st, nowNs)) ==> Timed(Settle(c, st, nowNs), times)
  {
    hide Core, Refines, NothingOverdue, SweepFires;
    var drained := Drain(st);
    var scanned := DetectGaps(c, drained, nowNs);
    DrainKeeps(st, first, firsts);
    DrainTimed(st, times);
    DetectKeeps(c, drained, nowNs, first, firsts);
    DetectTimed(c, drained, nowNs, times);
    SweepLosslessIff(c, scanned, nowNs, first, firsts, times);
  }

  /** An arrival a whole ring beyond `next` costs what is skipped. */
  lemma SkipLoses(c: Config, st: State, ext: nat, dg: Datagram, nowNs: int)
    requires ext >= st.next + RING_CAP
    ensures !Lossless(Accept(c, st, ext, dg, nowNs))
  {
    hide Accept;
    ForceSkipReportsLosses(st, ext - st.next - (RING_CAP - 1));
    AcceptGrows(c, st, ext, dg, nowNs);
    assert MakeRoom(st, ext).delivered[|st.delivered|].Loss?;
    if Lossless(Accept(c, st, ext, dg, nowNs)) { LostStays(MakeRoom(st, ext), Accept(c, st, ext, dg, nowNs)); }
  }

  lemma InsertTimed(st: State, n: nat, dg: Datagram, nowNs: int, times: map<nat, int>)
    requires Timed(st, times) && n !in times && nowNs > 0 && !Held(st, n)
    ensures Timed(Insert(st, n, dg, nowNs), times[n := nowNs])
  {
  }

  lemma AcceptLosslessIff(c: Config, st: State, input: Input, first: nat, firsts: map<nat, Datagram>, times: map<nat, int>)
    requires Settled(st, first, firsts) && Lossless(st) && Timed(st, times) && times.Keys == firsts.Keys
    requires input.Arrive? && WellFormed(input.dg) && input.n >= st.next && CallTime(input) > 0
    ensures var after := Accept(c, st, input.n, input.dg, CallTime(input));
            && (Lossless(after) <==> Punctual(c, firsts, times, first, input))
            && (Lossless(after) ==> Timed(after, ExtendTimes(times, input)))
    ensures Punctual(c, firsts, times, first, input) ==> CleanSkip(st, input.n)
  {
    hide Settle, NothingOverdue, Refines;
    var n, nowNs := input.n, CallTime(input);
    LosslessReceived(st, first, firsts);
    SettledLength(st, first, firsts);
    if n >= st.next + RING_CAP {
      SkipLoses(c, st, n, input.dg, nowNs);
      assert st.next !in firsts;
    } else if !Held(st, n) {
      InsertKeeps(st, n, input.dg, nowNs, first, firsts);
      InsertTimed(st, n, input.dg, nowNs, times);
      SettleLosslessIff(c, Insert(st, n, input.dg, nowNs), nowNs, first, firsts[n := input.dg], times[n := nowNs]);
    }
  }

  lemma TickLosslessIff(c: Config, st: State, nowNs: int, first: nat, firsts: map<nat, Datagram>, times: map<nat, int>)
    requires Settled(st, first, firsts) && Lossless(st) && Timed(st, times) && times.Keys == firsts.Keys
    ensures Lossless(Tick(c, st, nowNs)) <==> NothingOverdue(c, firsts, times, first, nowNs)
    ensures Lossless(Tick(c, st, nowNs)) ==> Timed(Tick(c, st, nowNs), times)
  {
    hide Settled, NothingOverdue, SweepExpired;
    SweepLosslessIff(c, st, nowNs, first, firsts, times);
    if Timed(SweepExpired(c, st, nowNs), times) { DetectTimed(c, SweepExpired(c, st, nowNs), nowNs, times); }
  }

  lemma StepLosslessIff(c: Config, st: State, input: Input, first: nat, firsts: map<nat, Datagram>, times: map<nat, int>)
    requires st.seenFirst && Settled(st, first, firsts) && Lossless(st) && Timed(st, times) && times.Keys == firsts.Keys
    requires Genuine(st, input) && (input.Arrive? ==> CallTime(input) > 0)
    ensures Lossless(Step(c, st, input)) <==> Punctual(c, firsts, times, first, input)
    ensures Lossless(Step(c, st, input)) ==> Timed(Step(c, st, input), ExtendTimes(times, input)) && CleanStep(st, input)
  {
    hide Settled, Accept, Tick, NothingOverdue, Refines;
    match input
    case TickAt(nowNs) => TickLosslessIff(c, st, nowNs, first, firsts, times);
    case Arrive(n, dg, clockNs) =>
      if WellFormed(dg) {
        ToExtSeqRecovers(st.highest, n);
        if n >= st.next {
          AcceptLosslessIff(c, st, input, first, firsts, times);
        } else {
          LatePunctual(c, st, input, first, firsts, times);
        }
      }
  }

  lemma LatePunctual(c: Config, st: State, input: Input, first: nat, firsts: map<nat, Datagram>, times: map<nat, int>)
    requires Settled(st, first, firsts) && Lossless(st) && times.Keys == firsts.Keys
    requires input.Arrive? && WellFormed(input.dg) && input.n < st.next && (Timed(st, times))
    ensures Punctual(c, firsts, times, first, input) && Timed(st, ExtendTimes(times, input)) && CleanSkip(st, input.n)
  {
    LosslessReceived(st, first, firsts);
    if input.n < first { assert input.n !in times ==> forall i: nat :: i < RING_CAP && st.ring[i].filled ==> st.ring[i].ext != input.n; }
  }

  lemma {:induction false} SameKeys(h: seq<Input>)
    ensures Times(h).Keys == Firsts(h).Keys
  {
    if h != [] { SameKeys(h[..|h| - 1]); }
  }

  lemma StepGrows(c: Config, st: State, input: Input)
    requires st.seenFirst
    ensures st.delivered <= Step(c, st, input).delivered
  {
    hide Accept;
    match input
    case TickAt(nowNs) => SweepGrows(c, st, nowNs);
    case Arrive(_, dg, clockNs) =>
      if WellFormed(dg) {
        var ext := ToExtSeq(st.highest, SeqOf(dg));
        if ext >= st.next {
          ForceSkipReportsLosses(st, if ext - st.next >= RING_CAP then ext - st.next - (RING_CAP - 1) else 0);
          AcceptGrows(c, st, ext, dg, ReceiveTime(dg, clockNs));
        }
      }
  }

  /** The induction behind NoLossIff. */
  lemma {:induction false} RunLosslessIff(c: Config, h: seq<Input>)
    requires GenuineRun(c, h) && PositiveTimes(h)
    ensures Lossless(Run(c, h)) <==> PunctualRun(c, h)
    ensures PunctualRun(c, h) ==> CleanRun(c, h) && Timed(Run(c, h), Times(h))
  {
    hide Step, Lossless, Timed, Punctual, CleanStep;
    if h == [] {
      NothingYet();
    } else {
      var before, last := h[..|h| - 1], h[|h| - 1];
      var st := Run(c, before);
      RunLosslessIff(c, before);
      RunLedger(c, before);
      if FirstNumber(before).Some? {
        StepGrows(c, st, last);
        if PunctualRun(c, before) {
          RunSettled(c, before);
          SameKeys(before);
          StepLosslessIff(c, st, last, FirstNumber(before).value, Firsts(before), Times(before));
        } else if Lossless(Step(c, st, last)) {
          LostStays(st, Step(c, st, last));
        }
      } else {
        NothingYet();
        FirstStepLossless(c, last, Times(h));
      }
    }
  }

  lemma NothingYet()
    ensures Lossless(INITIAL) && Timed(INITIAL, map[])
  {
  }

  lemma FirstStepLossless(c: Config, input: Input, times: map<nat, int>)
    ensures Lossless(Step(c, INITIAL, input)) && Timed(Step(c, INITIAL, input), times) && CleanStep(INITIAL, input)
  {
    if input.Arrive? && WellFormed(input.dg) {
      assert Step(c, INITIAL, input) == Bootstrap(INITIAL, input.dg);
    } else {
      IdleStep(c, input);
    }
  }

  /**
   Exactly when nothing is lost, for runs of any length with ticks anywhere: if and only if every arrival
   comes before the ring would have to step over something missing, and at every check nothing that waits
   behind a missing number has waited a dwell.  The condition is on the inputs alone.
   */
  lemma NoLossIff(c: Config, h: seq<Input>)
    requires GenuineRun(c, h) && PositiveTimes(h)
    ensures Lossless(Run(c, h)) <==> PunctualRun(c, h)
  {
    RunLosslessIff(c, h);
  }

  /** The log is one emit per number from `first` on, in order, each with the first datagram received. */
  predicate Sorted(log: seq<Delivery>, first: nat, firsts: map<nat, Datagram>) {
    forall k: nat :: k < |log| ==>
      log[k].Emit? && log[k].ext == first + k && log[k].ext in firsts && log[k].dg == firsts[log[k].ext]
  }

  /** Such a run comes out complete and sorted: everything received has been handed over up to the first
      number missing. */
  lemma StreamComesOutSorted(c: Config, h: seq<Input>)
    requires GenuineRun(c, h) && PositiveTimes(h) && PunctualRun(c, h) && FirstNumber(h).Some?
    ensures Sorted(Run(c, h).delivered, FirstNumber(h).value, Firsts(h))
    ensures FirstNumber(h).value + |Run(c, h).delivered| !in Firsts(h)
  {
    hide Lossless, Settled, PunctualRun, CleanRun, GenuineRun, Run, Sorted;
    RunLosslessIff(c, h);
    RunSettled(c, h);
    SortedLog(Run(c, h), FirstNumber(h).value, Firsts(h));
  }

  lemma SortedLog(st: State, first: nat, firsts: map<nat, Datagram>)
    requires Settled(st, first, firsts) && Lossless(st)
    ensures Sorted(st.delivered, first, firsts) && first + |st.delivered| !in firsts
  {
    assert st.next !in firsts;
  }

  // ----- a block of datagrams inside the ring and the dwell

  /** Arrivals only, in any order and with any repetition, of the numbers first..first+count-1, the
      first of them first, all within one dwell. */
  predicate Block(c: Config, h: seq<Input>, first: nat, count: nat, t0: int) {
    && count <= RING_CAP && first < TWO_16 && t0 > 0
    && (forall k: nat :: k < |h| ==>
          && h[k].Arrive? && WellFormed(h[k].dg) && first <= h[k].n < first + count
          && SeqOf(h[k].dg) == h[k].n % TWO_16
          && t0 <= CallTime(h[k]) < t0 + c.dwellUs * 1000)
    && (h != [] ==> h[0].n == first)
  }

  lemma {:induction false} SweepHighest(c: Config, st: State, nowNs: int)
    ensures SweepExpired(c, st, nowNs).highest == st.highest
    decreases st.highest + 1 - st.next
  {
    if SweepFires(c, st, nowNs) {
      DrainAdvances(GiveUp(st));
      SweepHighest(c, Drain(GiveUp(st)), nowNs);
    }
  }

  lemma ArriveHighest(c: Config, st: State, input: Input)
    requires input.Arrive? && WellFormed(input.dg) && st.seenFirst && Genuine(st, input)
    ensures Step(c, st, input).highest == st.highest || Step(c, st, input).highest == input.n
  {
    hide Drain, SweepExpired, DetectGaps;
    var n, nowNs := input.n, ReceiveTime(input.dg, input.clockNs);
    ToExtSeqRecovers(st.highest, n);
    if n >= st.next {
      var room := MakeRoom(st, n);
      if n - st.next >= RING_CAP { ForceSkipMoves(st, n - st.next - (RING_CAP - 1)); }
      if !Held(room, n) {
        var filed := Insert(room, n, input.dg, nowNs);
        DrainAdvances(filed);
        DetectHighest(c, Drain(filed), nowNs);
        SweepHighest(c, DetectGaps(c, Drain(filed), nowNs), nowNs);
      }
    }
  }

  lemma DetectHighest(c: Config, st: State, nowNs: int)
    ensures DetectGaps(c, st, nowNs).highest == st.highest
  {
  }

  /** What the history of a block looks like: only its numbers, received within one dwell. */
  predicate BlockHistory(c: Config, times: map<nat, int>, first: nat, count: nat, t0: int) {
    forall n :: n in times ==> first <= n < first + count && t0 <= times[n] < t0 + c.dwellUs * 1000
  }

  lemma BlockPunctual(c: Config, firsts: map<nat, Datagram>, times: map<nat, int>, first: nat, count: nat, t0: int, input: Input)
    requires BlockHistory(c, times, first, count, t0) && count <= RING_CAP
    requires input.Arrive? && WellFormed(input.dg) && first <= input.n < first + count
    requires t0 <= CallTime(input) < t0 + c.dwellUs * 1000
    ensures Punctual(c, firsts, times, first, input) && BlockHistory(c, ExtendTimes(times, input), first, count, t0)
  {
  }

  lemma {:induction false} BlockRun(c: Config, h: seq<Input>, first: nat, count: nat, t0: int)
    requires Block(c, h, first, count, t0)
    ensures GenuineRun(c, h) && PunctualRun(c, h) && BlockHistory(c, Times(h), first, count, t0)
    ensures h != [] ==> FirstNumber(h) == Some(first) && first <= Run(c, h).highest < first + count
  {
    hide Punctual, BlockHistory, Step, Genuine, Block, WellFormed, SeqOf;
    if h == [] {
      NoHistory(c, first, count, t0);
    } else {
      var before, last := h[..|h| - 1], h[|h| - 1];
      BlockPrefix(c, h, first, count, t0);
      BlockRun(c, before, first, count, t0);
      RunLedger(c, before);
      BlockPunctual(c, Firsts(before), Times(before), first, count, t0, last);
      BlockGenuine(Run(c, before), last, first, count);
      if before != [] { ArriveHighest(c, Run(c, before), last); } else { FirstHighest(c, last); }
    }
  }

  lemma BlockPrefix(c: Config, h: seq<Input>, first: nat, count: nat, t0: int)
    requires Block(c, h, first, count, t0) && h != []
    ensures Block(c, h[..|h| - 1], first, count, t0)
    ensures var last := h[|h| - 1];
            && last.Arrive? && WellFormed(last.dg) && first <= last.n < first + count <= first + RING_CAP
            && SeqOf(last.dg) == last.n % TWO_16 && t0 <= CallTime(last) < t0 + c.dwellUs * 1000
            && first < TWO_16 && (|h| == 1 ==> last.n == first && SeqOf(last.dg) == first)
  {
    var before := h[..|h| - 1];
    assert forall k: nat :: k < |before| ==> before[k] == h[k];
  }

  lemma BlockGenuine(st: State, input: Input, first: nat, count: nat)
    requires input.Arrive? && WellFormed(input.dg) && first <= input.n < first + count <= first + RING_CAP && first < TWO_16
    requires SeqOf(input.dg) == input.n % TWO_16
    requires if st.seenFirst then first <= st.highest < first + count else input.n == first
    ensures Genuine(st, input)
  {
  }

  lemma FirstHighest(c: Config, input: Input)
    requires input.Arrive? && WellFormed(input.dg)
    ensures Step(c, INITIAL, input).highest == SeqOf(input.dg)
  {
    assert Step(c, INITIAL, input) == Bootstrap(INITIAL, input.dg);
  }

  lemma NoHistory(c: Config, first: nat, count: nat, t0: int)
    ensures BlockHistory(c, map[], first, count, t0)
  {
  }

  /** Such a block comes out complete and sorted, with no loss report, whatever its order of arrival. */
  lemma BlockComesOutSorted(c: Config, h: seq<Input>, first: nat, count: nat, t0: int)
    requires Block(c, h, first, count, t0) && h != []
    requires forall n :: first <= n < first + count ==> n in Firsts(h)
    ensures Run(c, h).delivered == seq(count, k requires 0 <= k < count => Emit(first + k, Firsts(h)[first + k]))
  {
    hide PunctualRun, GenuineRun, Run, BlockHistory;
    BlockRun(c, h, first, count, t0);
    SameKeys(h);
    StreamComesOutSorted(c, h);
    AllEmitted(c, Run(c, h).delivered, first, count, t0, Firsts(h), Times(h));
  }

  lemma AllEmitted(c: Config, log: seq<Delivery>, first: nat, count: nat, t0: int, firsts: map<nat, Datagram>, times: map<nat, int>)
    requires Sorted(log, first, firsts) && first + |log| !in firsts
    requires BlockHistory(c, times, first, count, t0) && times.Keys == firsts.Keys
    requires forall n :: first <= n < first + count ==> n in firsts
    ensures log == seq(count, k requires 0 <= k < count => Emit(first + k, firsts[first + k]))
  {
    NotTooLong(c, log, first, count, t0, firsts, times);
  }

  lemma NotTooLong(c: Config, log: seq<Delivery>, first: nat, count: nat, t0: int, firsts: map<nat, Datagram>, times: map<nat, int>)
    requires Sorted(log, first, firsts) && BlockHistory(c, times, first, count, t0) && times.Keys == firsts.Keys
    ensures |log| <= count
  {
    hide Sorted;
    if |log| > count { EntryReceived(log, first, firsts, count); }
  }

  lemma EntryReceived(log: seq<Delivery>, first: nat, firsts: map<nat, Datagram>, k: nat)
    requires Sorted(log, first, firsts) && k < |log|
    ensures first + k in firsts
  {
    assert log[k].ext == first + k;
  }
}
