/**
 What force-skip does to delivery.  It steps over numbers without releasing their slots: a waiting number
 stepped over is reported lost although it was received, and its datagram is handed over at the position
 of a later number if a drain ever comes around to its slot.
 */
module JitterOrder {
  import opened Arithmetic
  import opened Common
  import opened Jitter
  import opened JitterRuns
  import opened JitterTrace

  // ----- the log only grows

  lemma {:induction false} DrainGrows(st: State)
    ensures st.delivered <= Drain(st).delivered
    decreases FilledSet(st.ring)
  {
    if Held(st, st.next) {
      EmitNextReleases(st);
      assert Idx(st.next) in FilledSet(st.ring);
      DrainGrows(EmitNext(st));
    }
  }

  lemma {:induction false} SweepGrows(c: Config, st: State, nowNs: int)
    ensures st.delivered <= SweepExpired(c, st, nowNs).delivered
    decreases st.highest + 1 - st.next
  {
    if SweepFires(c, st, nowNs) {
      DrainGrows(GiveUp(st));
      DrainAdvances(GiveUp(st));
      SweepGrows(c, Drain(GiveUp(st)), nowNs);
    }
  }

  lemma SettleGrows(c: Config, st: State, nowNs: int)
    ensures st.delivered <= Settle(c, st, nowNs).delivered
  {
    DrainGrows(st);
    SweepGrows(c, DetectGaps(c, Drain(st), nowNs), nowNs);
  }

  lemma {:induction false} ForceSkipReportsLosses(st: State, count: nat)
    ensures var after := ForceSkip(st, count);
            && after.ring == st.ring && after.next == st.next + count
            && st.delivered <= after.delivered && |after.delivered| == |st.delivered| + count
            && (forall k: nat :: |st.delivered| <= k < |after.delivered| ==> after.delivered[k].Loss?)
    decreases count
  {
    if count > 0 { ForceSkipReportsLosses(GiveUp(st), count - 1); }
  }

  lemma AcceptGrows(c: Config, st: State, ext: nat, dg: Datagram, nowNs: int)
    requires ext >= st.next
    ensures MakeRoom(st, ext).delivered <= Accept(c, st, ext, dg, nowNs).delivered
  {
    hide Settle;
    var room := MakeRoom(st, ext);
    if !Held(room, ext) { SettleGrows(c, Insert(room, ext, dg, nowNs), nowNs); }
  }

  // ----- reports

  /** Stepping over a waiting number reports it lost although it was received. */
  lemma UncleanStepReports(c: Config, st: State, input: Input, first: nat, firsts: map<nat, Datagram>)
    requires st.seenFirst && Settled(st, first, firsts)
    requires Genuine(st, input) && !CleanStep(st, input)
    ensures !ExactReports(Step(c, st, input).delivered, |st.delivered|, first, Extend(firsts, input))
  {
    hide Settle, Refines;
    var ext := input.n;
    ToExtSeqRecovers(st.highest, ext);
    var n :| st.next <= n <= st.highest && n + (RING_CAP - 1) < ext && Held(st, n);
    SettledLength(st, first, firsts);
    ForceSkipReportsLosses(st, ext - st.next - (RING_CAP - 1));
    AcceptGrows(c, st, ext, input.dg, ReceiveTime(input.dg, input.clockNs));
    var after := Step(c, st, input);
    assert after.delivered[n - first] == MakeRoom(st, ext).delivered[n - first];
    assert after.delivered[n - first].Loss? && first + (n - first) in firsts;
  }

  /** The buffer reports lost exactly what had not been received, in every call of a run, if and only if no
      force-skip of the run stepped over a waiting number. */
  lemma {:induction false} TruthfulIffClean(c: Config, h: seq<Input>)
    requires GenuineRun(c, h)
    ensures TruthfulRun(c, h) <==> CleanRun(c, h)
  {
    hide Step, ExactReports, CleanStep;
    if CleanRun(c, h) {
      CleanIsTruthful(c, h);
    } else {
      var before, last := h[..|h| - 1], h[|h| - 1];
      TruthfulIffClean(c, before);
      if CleanRun(c, before) {
        RunSettled(c, before);
        RunLedger(c, before);
        UncleanHasFirst(c, before, last);
        UncleanStepReports(c, Run(c, before), last, FirstNumber(before).value, Firsts(before));
      }
    }
  }

  lemma UncleanHasFirst(c: Config, before: seq<Input>, last: Input)
    requires !CleanStep(Run(c, before), last)
    ensures FirstNumber(before).Some? && Run(c, before).seenFirst
  {
    RunLedger(c, before);
  }

  // ----- positions

  /** Every datagram was handed over at the position of its own number. */
  predicate InPlace(delivered: seq<Delivery>, first: nat) {
    forall k: nat :: k < |delivered| && delivered[k].Emit? ==> delivered[k].ext == first + k
  }

  /** All slots from `next` to that of `t` are filled, and the last one still holds an older number. */
  predicate ReachedAt(st: State, t: nat) {
    && Held(st, t) && st.ring[Idx(t)].ext != t
    && forall m :: st.next <= m < t ==> Held(st, m)
  }

  /** A drain comes around to a slot that was stepped over while it was filled. */
  predicate DrainReaches(st: State) {
    exists t :: st.next <= t < st.next + RING_CAP && ReachedAt(st, t)
  }

  predicate SweepReaches(c: Config, st: State, nowNs: int)
    decreases st.highest + 1 - st.next
  {
    SweepFires(c, st, nowNs) &&
    (DrainReaches(GiveUp(st)) || (DrainAdvances(GiveUp(st)); SweepReaches(c, Drain(GiveUp(st)), nowNs)))
  }

  predicate SettleReaches(c: Config, st: State, nowNs: int) {
    DrainReaches(st) || SweepReaches(c, DetectGaps(c, Drain(st), nowNs), nowNs)
  }

  /** Some drain of the call does so. */
  predicate StepReaches(c: Config, st: State, input: Input) {
    match input
    case TickAt(nowNs) => SweepReaches(c, st, nowNs)
    case Arrive(_, dg, clockNs) =>
      && WellFormed(dg) && st.seenFirst
      && var ext := ToExtSeq(st.highest, SeqOf(dg));
         && ext >= st.next && !Held(MakeRoom(st, ext), ext)
         && SettleReaches(c, Insert(MakeRoom(st, ext), ext, dg, ReceiveTime(dg, clockNs)), ReceiveTime(dg, clockNs))
  }

  predicate ReachedRun(c: Config, h: seq<Input>) {
    h != [] && (ReachedRun(c, h[..|h| - 1]) || StepReaches(c, Run(c, h[..|h| - 1]), h[|h| - 1]))
  }

  /** Every slot holds a number that belongs there, of the window or older. */
  predicate RingIndexed(st: State) {
    forall i: nat :: i < RING_CAP && st.ring[i].filled ==> Idx(st.ring[i].ext) == i && st.ring[i].ext < st.next + RING_CAP
  }

  /** A datagram out of place comes whole cycles of the ring too late. */
  predicate CyclesLate(delivered: seq<Delivery>, first: nat) {
    forall k: nat :: k < |delivered| && delivered[k].Emit? ==>
      delivered[k].ext == first + k ||
      (delivered[k].ext + RING_CAP <= first + k && (first + k - delivered[k].ext) % RING_CAP == 0)
  }

  predicate Placed(st: State, first: nat) {
    first <= st.next && |st.delivered| == st.next - first && RingIndexed(st) && CyclesLate(st.delivered, first)
  }

  lemma SameResidue(a: nat, b: nat)
    requires Idx(a) == Idx(b) && b <= a
    ensures (a - b) % RING_CAP == 0 && (a == b || b + RING_CAP <= a)
  {
  }

  lemma EmitNextPlaced(st: State, first: nat)
    requires Placed(st, first) && Held(st, st.next)
    ensures Placed(EmitNext(st), first)
    ensures InPlace(EmitNext(st).delivered, first) <==>
            InPlace(st.delivered, first) && st.ring[Idx(st.next)].ext == st.next
  {
    var after, ext := EmitNext(st), st.ring[Idx(st.next)].ext;
    if ext <= st.next { SameResidue(st.next, ext); } else { SameResidue(ext, st.next); }
    assert after.delivered[|st.delivered|].ext == ext;
    assert forall k: nat :: k < |st.delivered| ==> after.delivered[k] == st.delivered[k];
  }

  /** Handing over the next datagram changes no slot of the window but its own. */
  lemma EmitNextSlots(st: State, n: nat)
    requires Held(st, st.next) && st.next < n < st.next + RING_CAP
    ensures Held(EmitNext(st), n) == Held(st, n) && EmitNext(st).ring[Idx(n)] == st.ring[Idx(n)]
  {
    OtherSlot(st.next, n);
  }

  lemma NextCycle(n: nat)
    ensures Idx(n + RING_CAP) == Idx(n)
  {
  }

  lemma ReachedBehind(st: State, t: nat)
    requires Held(st, st.next) && st.next < t < st.next + RING_CAP
    ensures ReachedAt(st, t) <==> ReachedAt(EmitNext(st), t)
  {
    hide Held, Idx, EmitNext;
    var after := EmitNext(st);
    EmitNextMoves(st);
    forall n | st.next < n < st.next + RING_CAP
      ensures Held(after, n) == Held(st, n) && after.ring[Idx(n)] == st.ring[Idx(n)]
    {
      EmitNextSlots(st, n);
    }
  }

  lemma EmitNextMoves(st: State)
    requires Held(st, st.next)
    ensures EmitNext(st).next == st.next + 1 && !Held(EmitNext(st), st.next)
  {
  }

  /** The slot just emptied is not reached again. */
  lemma NotReachedAgain(st: State)
    requires Held(st, st.next)
    ensures !ReachedAt(EmitNext(st), st.next + RING_CAP)
  {
    EmitNextMoves(st);
    NextCycle(st.next);
  }

  /** Reaching an old slot: at once, or after handing over the next datagram. */
  lemma ReachesNext(st: State)
    requires Held(st, st.next)
    ensures DrainReaches(st) <==> st.ring[Idx(st.next)].ext != st.next || DrainReaches(EmitNext(st))
  {
    hide Held, Idx, EmitNext, ReachedAt;
    var after := EmitNext(st);
    EmitNextMoves(st);
    ReachedAtOnce(st);
    NotReachedAgain(st);
    if DrainReaches(st) {
      var t :| st.next <= t < st.next + RING_CAP && ReachedAt(st, t);
      if t > st.next { ReachedBehind(st, t); }
    }
    if DrainReaches(after) {
      var t :| after.next <= t < after.next + RING_CAP && ReachedAt(after, t);
      ReachedBehind(st, t);
    }
  }

  lemma ReachedAtOnce(st: State)
    requires Held(st, st.next)
    ensures ReachedAt(st, st.next) <==> st.ring[Idx(st.next)].ext != st.next
  {
  }

  lemma {:induction false} DrainPlaced(st: State, first: nat)
    requires Placed(st, first)
    ensures Placed(Drain(st), first)
    ensures InPlace(Drain(st).delivered, first) <==> InPlace(st.delivered, first) && !DrainReaches(st)
    decreases FilledSet(st.ring)
  {
    hide Placed, InPlace, DrainReaches;
    if Held(st, st.next) {
      EmitNextReleases(st);
      assert Idx(st.next) in FilledSet(st.ring);
      EmitNextPlaced(st, first);
      ReachesNext(st);
      DrainPlaced(EmitNext(st), first);
    } else {
      NothingReached(st);
    }
  }

  lemma NothingReached(st: State)
    requires !Held(st, st.next)
    ensures !DrainReaches(st)
  {
  }

  lemma GiveUpPlaced(st: State, first: nat)
    requires Placed(st, first)
    ensures Placed(GiveUp(st), first) && (InPlace(GiveUp(st).delivered, first) <==> InPlace(st.delivered, first))
  {
    var after := GiveUp(st);
    assert forall k: nat :: k < |st.delivered| ==> after.delivered[k] == st.delivered[k];
  }

  lemma {:induction false} ForceSkipPlaced(st: State, count: nat, first: nat)
    requires Placed(st, first)
    ensures Placed(ForceSkip(st, count), first)
    ensures InPlace(ForceSkip(st, count).delivered, first) <==> InPlace(st.delivered, first)
    decreases count
  {
    hide Placed, InPlace;
    if count > 0 {
      GiveUpPlaced(st, first);
      ForceSkipPlaced(GiveUp(st), count - 1, first);
    }
  }

  lemma {:induction false} SweepPlaced(c: Config, st: State, nowNs: int, first: nat)
    requires Placed(st, first)
    ensures Placed(SweepExpired(c, st, nowNs), first)
    ensures InPlace(SweepExpired(c, st, nowNs).delivered, first) <==>
            InPlace(st.delivered, first) && !SweepReaches(c, st, nowNs)
    decreases st.highest + 1 - st.next
  {
    hide Placed, InPlace, DrainReaches;
    if SweepFires(c, st, nowNs) {
      GiveUpPlaced(st, first);
      DrainPlaced(GiveUp(st), first);
      DrainAdvances(GiveUp(st));
      SweepPlaced(c, Drain(GiveUp(st)), nowNs, first);
    }
  }

  lemma DetectPlaced(c: Config, st: State, nowNs: int, first: nat)
    requires Placed(st, first)
    ensures Placed(DetectGaps(c, st, nowNs), first) && DetectGaps(c, st, nowNs).delivered == st.delivered
  {
    DetectKeepsSlots(c, st, nowNs);
  }

  lemma SettlePlaced(c: Config, st: State, nowNs: int, first: nat)
    requires Placed(st, first)
    ensures Placed(Settle(c, st, nowNs), first)
    ensures InPlace(Settle(c, st, nowNs).delivered, first) <==>
            InPlace(st.delivered, first) && !SettleReaches(c, st, nowNs)
  {
    hide InPlace, DrainReaches;
    var drained := Drain(st);
    DrainPlaced(st, first);
    DetectPlaced(c, drained, nowNs, first);
    SweepPlaced(c, DetectGaps(c, drained, nowNs), nowNs, first);
  }

  lemma InsertPlaced(st: State, ext: nat, dg: Datagram, nowNs: int, first: nat)
    requires Placed(st, first) && !Held(st, ext) && ext < st.next + RING_CAP
    ensures Placed(Insert(st, ext, dg, nowNs), first) && Insert(st, ext, dg, nowNs).delivered == st.delivered
  {
  }

  lemma StepPlaced(c: Config, st: State, input: Input, first: nat)
    requires st.seenFirst && Placed(st, first)
    ensures Placed(Step(c, st, input), first)
    ensures InPlace(Step(c, st, input).delivered, first) <==> InPlace(st.delivered, first) && !StepReaches(c, st, input)
  {
    hide InPlace, Settle, SettleReaches, SweepReaches, Insert;
    match input
    case TickAt(nowNs) =>
      SweepPlaced(c, st, nowNs, first);
      DetectPlaced(c, SweepExpired(c, st, nowNs), nowNs, first);
    case Arrive(_, dg, clockNs) =>
      if WellFormed(dg) {
        var ext, nowNs := ToExtSeq(st.highest, SeqOf(dg)), ReceiveTime(dg, clockNs);
        if ext >= st.next {
          var room := MakeRoom(st, ext);
          if ext - st.next >= RING_CAP {
            ForceSkipPlaced(st, ext - st.next - (RING_CAP - 1), first);
            ForceSkipReportsLosses(st, ext - st.next - (RING_CAP - 1));
          }
          if !Held(room, ext) {
            InsertPlaced(room, ext, dg, nowNs, first);
            SettlePlaced(c, Insert(room, ext, dg, nowNs), nowNs, first);
          }
        }
      }
  }

  lemma BootstrapPlaced(c: Config, input: Input)
    requires input.Arrive? && WellFormed(input.dg)
    ensures var st := Step(c, INITIAL, input);
            Placed(st, SeqOf(input.dg)) && InPlace(st.delivered, SeqOf(input.dg)) && !StepReaches(c, INITIAL, input)
  {
    var st := Bootstrap(INITIAL, input.dg);
    assert Step(c, INITIAL, input) == st;
    assert forall i: nat :: i < RING_CAP ==> st.ring[i] == EMPTY_SLOT;
  }

  lemma IdleReachesNothing(c: Config, input: Input)
    requires !(input.Arrive? && WellFormed(input.dg))
    ensures !StepReaches(c, INITIAL, input)
  {
    assert INITIAL.ring[Idx(1)] == EMPTY_SLOT;
  }

  lemma {:induction false} RunPlaced(c: Config, h: seq<Input>)
    ensures FirstNumber(h).None? ==> !ReachedRun(c, h)
    ensures FirstNumber(h).Some? ==>
      && Placed(Run(c, h), FirstNumber(h).value)
      && (InPlace(Run(c, h).delivered, FirstNumber(h).value) <==> !ReachedRun(c, h))
  {
    hide Step, Placed, InPlace, StepReaches;
    if h != [] {
      var before, last := h[..|h| - 1], h[|h| - 1];
      RunPlaced(c, before);
      RunLedger(c, before);
      if FirstNumber(before).Some? {
        StepPlaced(c, Run(c, before), last, FirstNumber(before).value);
      } else if last.Arrive? && WellFormed(last.dg) {
        BootstrapPlaced(c, last);
      } else {
        IdleReachesNothing(c, last);
      }
    }
  }

  /**
   Exactly when delivery goes wrong, for every run (see EXT_LIMIT for 32 bits): some datagram is handed over at a position
   other than its own if and only if some drain comes around to a slot that was stepped over while it was
   filled; and then it comes whole cycles of the ring too late.
   */
  lemma MisplacedIffReached(c: Config, h: seq<Input>)
    requires FirstNumber(h).Some?
    ensures !InPlace(Run(c, h).delivered, FirstNumber(h).value) <==> ReachedRun(c, h)
    ensures CyclesLate(Run(c, h).delivered, FirstNumber(h).value)
  {
    RunPlaced(c, h);
  }

  /** A run in which force-skip steps over no waiting number is in place. */
  lemma CleanIsInPlace(c: Config, h: seq<Input>)
    requires GenuineRun(c, h) && CleanRun(c, h) && FirstNumber(h).Some?
    ensures InPlace(Run(c, h).delivered, FirstNumber(h).value)
  {
    RunSettled(c, h);
  }

  // ----- a datagram that is lost

  /** The slots only lose datagrams, and none is counted as a duplicate. */
  predicate OnlyLeaves(st: State, after: State) {
    && after.duplicateDrops == st.duplicateDrops
    && forall i: nat :: i < RING_CAP && after.ring[i].filled ==>
         st.ring[i].filled && after.ring[i].ext == st.ring[i].ext
  }

  lemma {:induction false} DrainLeaves(st: State)
    ensures OnlyLeaves(st, Drain(st))
    decreases FilledSet(st.ring)
  {
    if Held(st, st.next) {
      EmitNextReleases(st);
      assert Idx(st.next) in FilledSet(st.ring);
      DrainLeaves(EmitNext(st));
    }
  }

  lemma {:induction false} SweepLeaves(c: Config, st: State, nowNs: int)
    ensures OnlyLeaves(st, SweepExpired(c, st, nowNs))
    decreases st.highest + 1 - st.next
  {
    if SweepFires(c, st, nowNs) {
      DrainLeaves(GiveUp(st));
      DrainAdvances(GiveUp(st));
      SweepLeaves(c, Drain(GiveUp(st)), nowNs);
    }
  }

  lemma DetectLeaves(c: Config, st: State, nowNs: int)
    ensures OnlyLeaves(st, DetectGaps(c, st, nowNs))
  {
    DetectKeepsSlots(c, st, nowNs);
  }

  lemma SettleLeaves(c: Config, st: State, nowNs: int)
    ensures OnlyLeaves(st, Settle(c, st, nowNs))
  {
    hide Drain, SweepExpired, DetectGaps;
    var drained := Drain(st);
    DrainLeaves(st);
    DetectLeaves(c, drained, nowNs);
    SweepLeaves(c, DetectGaps(c, drained, nowNs), nowNs);
  }

  lemma {:induction false} ForceSkipCounts(st: State, count: nat)
    ensures ForceSkip(st, count).duplicateDrops == st.duplicateDrops
    decreases count
  {
    if count > 0 { ForceSkipCounts(GiveUp(st), count - 1); }
  }

  lemma MakeRoomLeaves(st: State, ext: nat)
    requires ext >= st.next
    ensures MakeRoom(st, ext).ring == st.ring && MakeRoom(st, ext).duplicateDrops == st.duplicateDrops
    ensures var delivered := MakeRoom(st, ext).delivered;
            forall k: nat :: |st.delivered| <= k < |delivered| ==> delivered[k].Loss?
  {
    if ext - st.next >= RING_CAP {
      ForceSkipCounts(st, ext - st.next - (RING_CAP - 1));
      ForceSkipReportsLosses(st, ext - st.next - (RING_CAP - 1));
    }
  }

  /** Every datagram in the ring is one of those received. */
  predicate RingReceived(st: State, firsts: map<nat, Datagram>) {
    forall i: nat :: i < RING_CAP && st.ring[i].filled ==> st.ring[i].ext in firsts
  }

  lemma AcceptReceived(c: Config, st: State, ext: nat, dg: Datagram, nowNs: int, firsts: map<nat, Datagram>)
    requires RingReceived(st, firsts) && ext >= st.next
    ensures RingReceived(Accept(c, st, ext, dg, nowNs), if ext in firsts then firsts else firsts[ext := dg])
  {
    hide Settle, MakeRoom;
    var room := MakeRoom(st, ext);
    MakeRoomLeaves(st, ext);
    if !Held(room, ext) { SettleLeaves(c, Insert(room, ext, dg, nowNs), nowNs); }
  }

  lemma StepReceived(c: Config, st: State, input: Input, firsts: map<nat, Datagram>)
    requires st.seenFirst && RingReceived(st, firsts) && Genuine(st, input)
    ensures RingReceived(Step(c, st, input), Extend(firsts, input))
  {
    hide Accept, SweepExpired, DetectGaps;
    match input
    case TickAt(nowNs) =>
      SweepLeaves(c, st, nowNs);
      DetectLeaves(c, SweepExpired(c, st, nowNs), nowNs);
    case Arrive(n, dg, clockNs) =>
      if WellFormed(dg) {
        ToExtSeqRecovers(st.highest, n);
        if n >= st.next { AcceptReceived(c, st, n, dg, ReceiveTime(dg, clockNs), firsts); }
      }
  }

  lemma {:induction false} RunReceived(c: Config, h: seq<Input>)
    requires GenuineRun(c, h)
    ensures RingReceived(Run(c, h), Firsts(h))
  {
    hide Step;
    if h != [] {
      var before, last := h[..|h| - 1], h[|h| - 1];
      RunReceived(c, before);
      RunLedger(c, before);
      if FirstNumber(before).Some? {
        StepReceived(c, Run(c, before), last, Firsts(before));
      } else {
        EmptyReceived(c, last, Firsts(h));
      }
    }
  }

  /** Nothing is put into the ring before or with the first datagram. */
  lemma EmptyReceived(c: Config, input: Input, firsts: map<nat, Datagram>)
    ensures RingReceived(Step(c, INITIAL, input), firsts)
  {
    if input.Arrive? && WellFormed(input.dg) {
      assert Step(c, INITIAL, input) == Bootstrap(INITIAL, input.dg);
    } else {
      IdleStep(c, input);
    }
  }

  /** Number `q` is still in its slot, whether it was passed or not. */
  predicate Waits(st: State, q: nat) { Held(st, q) && st.ring[Idx(q)].ext == q }

  /** A number received before, whole cycles of the ring older than `ext`, is still in the slot they share. */
  predicate OlderInTheWay(st: State, ext: nat, firsts: map<nat, Datagram>) {
    exists q :: q in firsts && q + RING_CAP <= ext && (ext - q) % RING_CAP == 0 && Waits(st, q)
  }

  lemma SameSlot(q: nat, ext: nat)
    requires q <= ext && (ext - q) % RING_CAP == 0
    ensures Idx(q) == Idx(ext)
  {
  }

  /** A number never received finds its slot taken exactly if an older one is in the way. */
  lemma TakenIff(st: State, ext: nat, firsts: map<nat, Datagram>)
    requires RingReceived(st, firsts) && RingIndexed(st) && ext >= st.next && ext !in firsts
    ensures Held(MakeRoom(st, ext), ext) <==> OlderInTheWay(st, ext, firsts)
  {
    hide MakeRoom, Idx;
    MakeRoomLeaves(st, ext);
    if Held(st, ext) {
      var q := st.ring[Idx(ext)].ext;
      if q <= ext { SameResidue(ext, q); } else { SameResidue(q, ext); }
      assert Waits(st, q);
    }
    if OlderInTheWay(st, ext, firsts) {
      var q :| q in firsts && q + RING_CAP <= ext && (ext - q) % RING_CAP == 0 && Waits(st, q);
      SameSlot(q, ext);
    }
  }

  /** A number never received: refused as a duplicate, and lost, or taken in. */
  lemma AcceptNew(c: Config, st: State, ext: nat, dg: Datagram, nowNs: int, firsts: map<nat, Datagram>)
    requires RingReceived(st, firsts) && RingIndexed(st) && ext >= st.next && ext !in firsts
    ensures var after := Accept(c, st, ext, dg, nowNs);
            if OlderInTheWay(st, ext, firsts) then
              && after.duplicateDrops == st.duplicateDrops + 1 && after.ring == st.ring
              && (forall k: nat :: |st.delivered| <= k < |after.delivered| ==> after.delivered[k].Loss?)
            else after.duplicateDrops == st.duplicateDrops
  {
    hide Settle, MakeRoom, OlderInTheWay;
    var room := MakeRoom(st, ext);
    TakenIff(st, ext, firsts);
    MakeRoomLeaves(st, ext);
    if !Held(room, ext) { SettleLeaves(c, Insert(room, ext, dg, nowNs), nowNs); }
  }

  /**
   The comment takes a filled slot for a retransmission.  Exactly when it is not, for every genuine run,
   clean or not: a datagram never received before is counted as a duplicate and lost if and only if a
   number received earlier, whole cycles of the ring older, is still in its slot.
   */
  lemma NewRefusedIff(c: Config, h: seq<Input>, last: Input)
    requires GenuineRun(c, h) && FirstNumber(h).Some? && Genuine(Run(c, h), last)
    requires last.Arrive? && WellFormed(last.dg) && last.n >= Run(c, h).next && last.n !in Firsts(h)
    ensures var st, after := Run(c, h), Run(c, h + [last]);
            if OlderInTheWay(st, last.n, Firsts(h)) then
              && after.duplicateDrops == st.duplicateDrops + 1 && after.ring == st.ring
              && (forall k: nat :: |st.delivered| <= k < |after.delivered| ==> after.delivered[k].Loss?)
            else after.duplicateDrops == st.duplicateDrops
  {
    hide Accept, OlderInTheWay, RingReceived, RingIndexed, Run, GenuineRun;
    var st := Run(c, h);
    RunSnoc(c, h, last);
    RunLedger(c, h);
    RunReceived(c, h);
    RunIndexed(c, h);
    ToExtSeqRecovers(st.highest, last.n);
    AcceptNew(c, st, last.n, last.dg, ReceiveTime(last.dg, last.clockNs), Firsts(h));
  }

  lemma RunIndexed(c: Config, h: seq<Input>)
    requires FirstNumber(h).Some?
    ensures RingIndexed(Run(c, h))
  {
    RunPlaced(c, h);
  }

  lemma SettledIndexed(st: State, first: nat, firsts: map<nat, Datagram>)
    requires Settled(st, first, firsts)
    ensures RingReceived(st, firsts) && RingIndexed(st)
  {
    hide Refines, Idx;
    forall i: nat | i < RING_CAP && st.ring[i].filled
      ensures st.ring[i].ext in firsts && Idx(st.ring[i].ext) == i && st.ring[i].ext < st.next + RING_CAP
    {
      SlotNumber(st.next, i);
      assert Held(st, st.next + (i - st.next) % RING_CAP);
    }
  }

  /** As long as no waiting number was stepped over, a number in the way is one still to be handed over. */
  lemma OlderWaits(st: State, ext: nat, first: nat, firsts: map<nat, Datagram>)
    requires Settled(st, first, firsts)
    ensures OlderInTheWay(st, ext, firsts) <==>
            exists q :: q in firsts && st.next <= q && q + RING_CAP <= ext && (ext - q) % RING_CAP == 0
  {
    hide Refines, Waits;
    forall q | q in firsts
      ensures Waits(st, q) <==> q >= st.next
    {
      WaitsIff(st, first, firsts, q);
    }
  }

  lemma WaitsIff(st: State, first: nat, firsts: map<nat, Datagram>, q: nat)
    requires Settled(st, first, firsts) && q in firsts
    ensures Waits(st, q) <==> q >= st.next
  {
    hide Refines, Idx;
    if Waits(st, q) {
      SlotNumber(st.next, Idx(q));
      assert Held(st, st.next + (Idx(q) - st.next) % RING_CAP);
    }
  }

  /**
   If number `ext` is 256 ahead of a waiting number, that number is stepped over, its slot stays
   filled, and the datagram of `ext`, never received before, is dropped as a duplicate.
   */
  lemma AliasedDatagramLost(c: Config, st: State, ext: nat, dg: Datagram, nowNs: int, first: nat,
                            firsts: map<nat, Datagram>)
    requires Settled(st, first, firsts)
    requires st.next + RING_CAP <= ext && Held(st, ext - RING_CAP)
    ensures ext !in firsts
    ensures var after := Accept(c, st, ext, dg, nowNs);
            && after.ring == st.ring && after.duplicateDrops == st.duplicateDrops + 1
            && (forall k: nat :: |st.delivered| <= k < |after.delivered| ==> after.delivered[k].Loss?)
  {
    hide Settle, Refines, Idx, MakeRoom, OlderInTheWay;
    NextCycle(ext - RING_CAP);
    MakeRoomLeaves(st, ext);
    SettledIndexed(st, first, firsts);
    TakenIff(st, ext, firsts);
    AcceptNew(c, st, ext, dg, nowNs, firsts);
  }

  // ----- runs that go wrong

  predicate Numbered(d: nat -> Datagram) {
    forall n: nat :: n < 300 ==> WellFormed(d(n)) && SeqOf(d(n)) == n
  }

  /** Numbers 0, 2 and 258 arrive, then 3, 4, ... up to `n - 1`. */
  function Arrivals(d: nat -> Datagram, n: nat): seq<Input> {
    if n <= 3 then [Arrive(0, d(0), 0), Arrive(2, d(2), 0), Arrive(258, d(258), 0)]
    else Arrivals(d, n - 1) + [Arrive(n - 1, d(n - 1), 0)]
  }

  /** Everything below `n` has been passed, and only slot 2 is filled: it still holds datagram 2. */
  predicate TwoStranded(st: State, n: nat, dg: Datagram) {
    && st.seenFirst && st.next == n == |st.delivered| && st.highest == n - 1
    && (forall i: nat :: i < RING_CAP ==> (st.ring[i].filled <==> i == 2))
    && st.ring[2].ext == 2 && st.ring[2].dg == dg
  }

  /** A datagram filed behind a gap waits there. */
  lemma GapHeld(c: Config, st: State, ext: nat, dg: Datagram, nowNs: int)
    requires c.dwellUs > 0
    requires st.next < ext < st.next + RING_CAP && ext == st.highest + 2 == st.next + 1
    requires !Held(st, st.next) && !Held(st, ext)
    ensures var after, filed := Accept(c, st, ext, dg, nowNs), Insert(st, ext, dg, nowNs);
            && after.next == st.next && after.highest == ext && after.seenFirst == st.seenFirst
            && after.delivered == st.delivered && SameButNacked(after.ring, filed.ring)
  {
    var filed := Insert(st, ext, dg, nowNs);
    assert Drain(filed) == filed;
    DetectKeepsSlots(c, filed, nowNs);
    ScanRingKeepsSlots(c, filed.ring, Groups(filed.ring, filed.next, filed.highest), nowNs);
    var scanned := DetectGaps(c, filed, nowNs);
    assert Held(scanned, ext);
    assert Earliest(scanned.ring, ext, ext, 0) == Earliest(scanned.ring, ext + 1, ext, nowNs);
    assert !SweepFires(c, scanned, nowNs);
  }

  lemma TwoArrives(c: Config, d0: Datagram, d2: Datagram)
    requires WellFormed(d0) && SeqOf(d0) == 0 && WellFormed(d2) && SeqOf(d2) == 2 && c.dwellUs > 0
    ensures Step(c, INITIAL, Arrive(0, d0, 0)) == Bootstrap(INITIAL, d0)
    ensures var st := Step(c, Bootstrap(INITIAL, d0), Arrive(2, d2, 0));
            && st.seenFirst && st.next == 1 == |st.delivered| && st.highest == 2
            && (forall i: nat :: i < RING_CAP ==> (st.ring[i].filled <==> i == 2))
            && st.ring[2].ext == 2 && st.ring[2].dg == d2
  {
    hide Settle;
    GapHeld(c, Bootstrap(INITIAL, d0), 2, d2, ReceiveTime(d2, 0));
  }

  /** Number 258 steps over 1 and 2 and is itself dropped. */
  lemma TwoIsStranded(c: Config, st: State, d2: Datagram, d258: Datagram)
    requires WellFormed(d258) && SeqOf(d258) == 258
    requires st.seenFirst && st.next == 1 == |st.delivered| && st.highest == 2
    requires (forall i: nat :: i < RING_CAP ==> (st.ring[i].filled <==> i == 2)) && st.ring[2].ext == 2 && st.ring[2].dg == d2
    ensures TwoStranded(Step(c, st, Arrive(258, d258, 0)), 3, d2)
  {
    hide Settle;
    ForceSkipReportsLosses(st, 2);
    ForceSkipMoves(st, 2);
  }

  /** With nothing behind `next` to wait for, filing ends with the drain. */
  lemma SettledAtOnce(c: Config, st: State, nowNs: int)
    requires Drain(st).next > st.highest
    ensures var after := Settle(c, st, nowNs);
            && after.ring == Drain(st).ring && after.next == Drain(st).next && after.highest == st.highest
            && after.seenFirst == st.seenFirst && after.delivered == Drain(st).delivered
  {
    DrainAdvances(st);
  }

  /** Handing over number `n` empties its slot; then the slot of `n + 1` decides. */
  lemma DrainOne(st: State, n: nat, d2: Datagram, dg: Datagram, nowNs: int)
    requires TwoStranded(st, n, d2) && 3 <= n <= 257
    ensures var filed := Insert(st, n, dg, nowNs);
            && Held(filed, n) && EmitNext(filed).ring == st.ring[Idx(n) := EMPTY_SLOT]
            && Drain(filed) == Drain(EmitNext(filed))
            && EmitNext(filed).delivered == st.delivered + [Emit(n, dg)]
  {
    hide Drain;
    var filed := Insert(st, n, dg, nowNs);
    DrainStep(filed);
  }

  lemma DrainStep(st: State)
    requires Held(st, st.next)
    ensures Drain(st) == Drain(EmitNext(st))
  {
  }

  lemma DrainStops(st: State)
    requires !Held(st, st.next)
    ensures Drain(st) == st
  {
  }

  lemma NextIsFree(st: State, n: nat, d2: Datagram)
    requires TwoStranded(st, n, d2) && 3 <= n <= 257
    ensures !Held(st, n)
  {
    if n < 256 { assert Idx(n) == n; } else { assert Idx(n) == n - 256; }
  }

  lemma StrandedNext(st: State, n: nat, dg: Datagram)
    requires TwoStranded(st, n, dg) && n >= 3
    ensures st.seenFirst && st.next == n && st.highest == n - 1
  {
  }

  lemma OnRtpFiles(c: Config, st: State, n: nat, d2: Datagram, dg: Datagram)
    requires TwoStranded(st, n, d2) && 3 <= n <= 257 && WellFormed(dg) && SeqOf(dg) == n
    ensures Step(c, st, Arrive(n, dg, 0)) == Settle(c, Insert(st, n, dg, ReceiveTime(dg, 0)), ReceiveTime(dg, 0))
  {
    hide Settle, Insert, Held, TwoStranded, ToExtSeq, SeqOf;
    StrandedNext(st, n, d2);
    NextIsFree(st, n, d2);
    ToExtSeqRecovers(st.highest, n);
    assert MakeRoom(st, n) == st;
  }

  /** The next number is handed over at once. */
  lemma NextArrives(c: Config, st: State, n: nat, d2: Datagram, dg: Datagram)
    requires TwoStranded(st, n, d2) && 3 <= n < 257 && WellFormed(dg) && SeqOf(dg) == n
    ensures TwoStranded(Step(c, st, Arrive(n, dg, 0)), n + 1, d2)
  {
    hide Settle, Drain;
    var nowNs := ReceiveTime(dg, 0);
    var filed := Insert(st, n, dg, nowNs);
    OnRtpFiles(c, st, n, d2, dg);
    DrainOne(st, n, d2, dg, nowNs);
    assert Idx(n + 1) != 2;
    DrainStops(EmitNext(filed));
    SettledAtOnce(c, filed, nowNs);
  }

  /** After number 257 the drain comes around to slot 2 and hands over datagram 2. */
  lemma LastArrives(c: Config, st: State, d2: Datagram, dg: Datagram)
    requires TwoStranded(st, 257, d2) && WellFormed(dg) && SeqOf(dg) == 257
    ensures var log := Step(c, st, Arrive(257, dg, 0)).delivered;
            |log| == 259 && log[258] == Emit(2, d2)
  {
    hide Settle, Drain;
    var nowNs := ReceiveTime(dg, 0);
    var filed := Insert(st, 257, dg, nowNs);
    OnRtpFiles(c, st, 257, d2, dg);
    DrainOne(st, 257, d2, dg, nowNs);
    DrainStep(EmitNext(filed));
    DrainStops(EmitNext(EmitNext(filed)));
    SettledAtOnce(c, filed, nowNs);
  }

  lemma FirstSnoc(h: seq<Input>, last: Input)
    requires FirstNumber(h).Some?
    ensures FirstNumber(h + [last]) == FirstNumber(h)
  {
    assert (h + [last])[..|h|] == h;
  }

  lemma ArrivalsThree(d: nat -> Datagram)
    ensures Arrivals(d, 3) == (([] + [Arrive(0, d(0), 0)]) + [Arrive(2, d(2), 0)]) + [Arrive(258, d(258), 0)]
  {
  }

  lemma ArrivalsSnoc(d: nat -> Datagram, n: nat)
    requires n >= 3
    ensures Arrivals(d, n + 1) == Arrivals(d, n) + [Arrive(n, d(n), 0)]
  {
  }

  lemma FirstThree(c: Config, d: nat -> Datagram)
    requires Numbered(d) && c.dwellUs > 0
    ensures var h := Arrivals(d, 3);
            && GenuineRun(c, h) && FirstNumber(h) == Some(0) && TwoStranded(Run(c, h), 3, d(2)) && !CleanRun(c, h)
  {
    hide Step, TwoStranded, Arrivals;
    var a, b, e := Arrive(0, d(0), 0), Arrive(2, d(2), 0), Arrive(258, d(258), 0);
    ArrivalsThree(d);
    RunSnoc(c, [], a);
    RunSnoc(c, [] + [a], b);
    RunSnoc(c, ([] + [a]) + [b], e);
    FirstSnoc([] + [a], b);
    FirstSnoc(([] + [a]) + [b], e);
    TwoArrives(c, d(0), d(2));
    var st := Run(c, ([] + [a]) + [b]);
    TwoIsStranded(c, st, d(2), d(258));
    assert Held(st, 2) && st.next <= 2 <= st.highest;
  }

  lemma {:induction false} ArrivalsRun(c: Config, d: nat -> Datagram, n: nat)
    requires Numbered(d) && c.dwellUs > 0 && 3 <= n <= 257
    ensures var h := Arrivals(d, n);
            && GenuineRun(c, h) && FirstNumber(h) == Some(0) && TwoStranded(Run(c, h), n, d(2))
  {
    hide Step, TwoStranded, Arrivals, Run, GenuineRun, FirstNumber, CleanRun;
    if n == 3 {
      FirstThree(c, d);
    } else {
      var h, last := Arrivals(d, n - 1), Arrive(n - 1, d(n - 1), 0);
      ArrivalsRun(c, d, n - 1);
      ArrivalsSnoc(d, n - 1);
      StrandedNext(Run(c, h), n - 1, d(2));
      RunSnoc(c, h, last);
      FirstSnoc(h, last);
      NextArrives(c, Run(c, h), n - 1, d(2), d(n - 1));
    }
  }

  /** A datagram really is handed over out of place: 0, 2, 258, 3, 4, ..., 257 hands over 2 as number 258. */
  lemma MisplacedRunExists(c: Config, d: nat -> Datagram)
    requires Numbered(d) && c.dwellUs > 0
    ensures var h := Arrivals(d, 258);
            var log := Run(c, h).delivered;
            && GenuineRun(c, h) && FirstNumber(h) == Some(0)
            && |log| == 259 && log[258] == Emit(2, d(2)) && !InPlace(log, 0)
  {
    hide Step, TwoStranded, Arrivals, Run, GenuineRun, FirstNumber, CleanRun;
    var h, last := Arrivals(d, 257), Arrive(257, d(257), 0);
    ArrivalsRun(c, d, 257);
    ArrivalsSnoc(d, 257);
    StrandedNext(Run(c, h), 257, d(2));
    RunSnoc(c, h, last);
    FirstSnoc(h, last);
    LastArrives(c, Run(c, h), d(2), d(257));
  }

  /** Already the first three arrivals have a number reported lost that is waiting in the ring. */
  lemma UncleanRunExists(c: Config, d: nat -> Datagram)
    requires Numbered(d) && c.dwellUs > 0
    ensures var h := Arrivals(d, 3);
            GenuineRun(c, h) && !CleanRun(c, h) && !TruthfulRun(c, h)
  {
    FirstThree(c, d);
    TruthfulIffClean(c, Arrivals(d, 3));
  }

  lemma WrapsHigh(highest: nat, seq16: nat)
    requires highest < TWO_16 && seq16 < TWO_16 && highest + Delta16(seq16, highest) < 0
    ensures TWO_32 - TWO_16 < ToExtSeq(highest, seq16) < TWO_32
  {
    assert highest % TWO_16 == highest;
  }

  lemma RoomCosts(st: State, ext: nat)
    requires ext >= st.next + RING_CAP
    ensures var room := MakeRoom(st, ext);
            && |room.delivered| == |st.delivered| + (ext - st.next) - (RING_CAP - 1)
            && forall k: nat :: |st.delivered| <= k < |room.delivered| ==> room.delivered[k].Loss?
  {
    ForceSkipReportsLosses(st, ext - st.next - (RING_CAP - 1));
  }

  /**
   A datagram older than extended number 0, right after the first one, wraps to a number near 2^32, and
   force-skip reports about 2^32 numbers lost to make room for it.
   */
  lemma OldAfterFirstFloods(d: Datagram, late: Datagram)
    requires WellFormed(d) && WellFormed(late)
    requires SeqOf(d) + Delta16(SeqOf(late), SeqOf(d)) < 0
    ensures var st := Bootstrap(INITIAL, d);
            var ext := ToExtSeq(st.highest, SeqOf(late));
            && ext > TWO_32 - TWO_16 && ext >= st.next
            && |MakeRoom(st, ext).delivered| == ext - SeqOf(d) - (RING_CAP - 1)
            && forall k: nat :: 1 <= k < |MakeRoom(st, ext).delivered| ==> MakeRoom(st, ext).delivered[k].Loss?
  {
    hide ToExtSeq, Delta16, MakeRoom, ForceSkip, SeqOf;
    var st := Bootstrap(INITIAL, d);
    WrapsHigh(SeqOf(d), SeqOf(late));
    RoomCosts(st, ToExtSeq(st.highest, SeqOf(late)));
  }
}
