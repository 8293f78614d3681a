/** Runs of the jitter buffer, and what every run keeps whatever its inputs are. */
module JitterRuns {
  import opened Common
  import opened Jitter

  // ----- extended numbers

  /** A true number within half a 16-bit cycle of the highest one seen is recovered exactly. */
  lemma ToExtSeqRecovers(highest: nat, n: nat)
    requires -32768 <= n - highest <= 32767
    requires n < TWO_32
    ensures ToExtSeq(highest, n % TWO_16) == n
  {
    var d := Delta16(n % TWO_16, highest % TWO_16);
    assert (highest + d - n) % TWO_16 == 0 by {
      assert highest % TWO_16 + d - n % TWO_16 == highest + d - n - TWO_16 * (highest / TWO_16) + TWO_16 * (n / TWO_16);
    }
    assert d == n - highest;
  }

  /** The cast to 32 bits is harmless exactly when the signed sum does not leave the 32-bit range. */
  lemma ToExtSeqWraps(highest: nat, seq16: nat)
    requires highest < TWO_32 && seq16 < TWO_16
    ensures var d := Delta16(seq16, highest % TWO_16);
            && (ToExtSeq(highest, seq16) == highest + d <==> 0 <= highest + d < TWO_32)
            && (highest + d < 0 ==> ToExtSeq(highest, seq16) > TWO_32 - TWO_16)
  {
  }

  /** The number is that of the fixed RTP header (section 5.1 of RFC 3550): 16 bits, big-endian, behind the
      first two bytes; anything shorter than the header is ignored. */
  lemma SeqOfHeader(dg: Datagram, flags: seq<byte>, n: nat, rest: seq<byte>)
    requires |flags| == 2 && n < TWO_16 && dg.bytes == flags + [n / 256, n % 256] + rest
    ensures WellFormed(dg) <==> |rest| >= 8
    ensures WellFormed(dg) ==> SeqOf(dg) == n
  {
    assert dg.bytes[2] == n / 256 && dg.bytes[3] == n % 256;
  }

  // ----- inputs and runs

  /** Calls of the public interface.  `n` is the sender's own (unwrapped) number for the datagram. */
  datatype Input = Arrive(n: nat, dg: Datagram, clockNs: int) | TickAt(nowNs: int)

  function Step(c: Config, st: State, input: Input): State {
    match input
    case Arrive(_, dg, clockNs) => OnRtp(c, st, dg, clockNs)
    case TickAt(nowNs) => Tick(c, st, nowNs)
  }

  function Run(c: Config, h: seq<Input>): State {
    if h == [] then INITIAL else Step(c, Run(c, h[..|h| - 1]), h[|h| - 1])
  }

  /** The datagram carries the low 16 bits of its number, which is near the highest number seen. */
  predicate Genuine(st: State, input: Input) {
    input.Arrive? && WellFormed(input.dg) ==>
      && SeqOf(input.dg) == input.n % TWO_16
      && input.n < TWO_32
      && (if st.seenFirst then -32768 <= input.n - st.highest <= 32767 else input.n < TWO_16)
  }

  predicate GenuineRun(c: Config, h: seq<Input>) {
    h == [] || (GenuineRun(c, h[..|h| - 1]) && Genuine(Run(c, h[..|h| - 1]), h[|h| - 1]))
  }

  /** No number that `ext` would force the buffer to step over is waiting in the ring. */
  predicate CleanSkip(st: State, ext: nat) {
    forall n :: st.next <= n <= st.highest && n + (RING_CAP - 1) < ext ==> !Held(st, n)
  }

  predicate CleanStep(st: State, input: Input) {
    input.Arrive? && WellFormed(input.dg) && st.seenFirst ==> CleanSkip(st, input.n)
  }

  predicate CleanRun(c: Config, h: seq<Input>) {
    h == [] || (CleanRun(c, h[..|h| - 1]) && CleanStep(Run(c, h[..|h| - 1]), h[|h| - 1]))
  }

  /** Two numbers of one window have different slots. */
  lemma OtherSlot(a: nat, b: nat)
    requires a < b < a + RING_CAP
    ensures Idx(a) != Idx(b)
  {
  }

  /** The scan changes nothing in the ring but the NACK bookkeeping. */
  predicate SameButNacked(a: Ring, b: Ring) {
    forall i: nat :: i < RING_CAP ==>
      && a[i].filled == b[i].filled && a[i].ext == b[i].ext
      && a[i].dg == b[i].dg && a[i].arrivalNs == b[i].arrivalNs
  }

  lemma {:induction false} ScanRingKeepsSlots(c: Config, ring: Ring, gs: seq<nat>, nowNs: int)
    ensures SameButNacked(ScanRing(c, ring, gs, nowNs), ring)
    decreases |gs|
  {
    if gs != [] { ScanRingKeepsSlots(c, MarkNacked(c, ring, gs[0], nowNs), gs[1..], nowNs); }
  }

  lemma DetectKeepsSlots(c: Config, st: State, nowNs: int)
    ensures SameButNacked(DetectGaps(c, st, nowNs).ring, st.ring)
    ensures FilledSet(DetectGaps(c, st, nowNs).ring) == FilledSet(st.ring)
    ensures forall n :: Held(DetectGaps(c, st, nowNs), n) == Held(st, n)
  {
    ScanRingKeepsSlots(c, st.ring, Groups(st.ring, st.next, st.highest), nowNs);
  }

  // ----- accounting

  /** `received` well-formed datagrams since the first one, which carried number `first`. */
  predicate Ledger(st: State, first: nat, received: nat) {
    && st.seenFirst
    && first <= st.next
    && |st.delivered| == st.next - first == st.emits + st.expiredGaps
    && st.emits + st.lateDrops + st.duplicateDrops + st.pending == received
    && st.pending == |FilledSet(st.ring)|
  }

  lemma {:induction false} DrainLedger(st: State, first: nat, received: nat)
    requires Ledger(st, first, received)
    ensures Ledger(Drain(st), first, received)
    decreases FilledSet(st.ring)
  {
    if Held(st, st.next) {
      EmitNextReleases(st);
      assert Idx(st.next) in FilledSet(st.ring);
      DrainLedger(EmitNext(st), first, received);
    }
  }

  lemma {:induction false} ForceSkipLedger(st: State, count: nat, first: nat, received: nat)
    requires Ledger(st, first, received)
    ensures Ledger(ForceSkip(st, count), first, received)
    ensures ForceSkip(st, count).ring == st.ring && ForceSkip(st, count).next == st.next + count
    decreases count
  {
    if count > 0 { ForceSkipLedger(GiveUp(st), count - 1, first, received); }
  }

  lemma {:induction false} SweepLedger(c: Config, st: State, nowNs: int, first: nat, received: nat)
    requires Ledger(st, first, received)
    ensures Ledger(SweepExpired(c, st, nowNs), first, received)
    decreases st.highest + 1 - st.next
  {
    if SweepFires(c, st, nowNs) {
      DrainLedger(GiveUp(st), first, received);
      DrainAdvances(GiveUp(st));
      SweepLedger(c, Drain(GiveUp(st)), nowNs, first, received);
    }
  }

  lemma DetectLedger(c: Config, st: State, nowNs: int, first: nat, received: nat)
    requires Ledger(st, first, received)
    ensures Ledger(DetectGaps(c, st, nowNs), first, received)
  {
    DetectKeepsSlots(c, st, nowNs);
  }

  lemma InsertLedger(st: State, ext: nat, dg: Datagram, nowNs: int, first: nat, received: nat)
    requires Ledger(st, first, received) && !Held(st, ext)
    ensures Ledger(Insert(st, ext, dg, nowNs), first, received + 1)
  {
    assert FilledSet(Insert(st, ext, dg, nowNs).ring) == FilledSet(st.ring) + {Idx(ext)};
  }

  /** How many datagrams an input contributes. */
  function Counts(input: Input): nat { if input.Arrive? && WellFormed(input.dg) then 1 else 0 }

  lemma SettleLedger(c: Config, st: State, nowNs: int, first: nat, received: nat)
    requires Ledger(st, first, received)
    ensures Ledger(Settle(c, st, nowNs), first, received)
  {
    var drained := Drain(st);
    DrainLedger(st, first, received);
    DetectLedger(c, drained, nowNs, first, received);
    SweepLedger(c, DetectGaps(c, drained, nowNs), nowNs, first, received);
  }

  lemma AcceptLedger(c: Config, st: State, ext: nat, dg: Datagram, nowNs: int, first: nat, received: nat)
    requires Ledger(st, first, received) && ext >= st.next
    ensures Ledger(Accept(c, st, ext, dg, nowNs), first, received + 1)
  {
    if ext - st.next >= RING_CAP {
      ForceSkipLedger(st, ext - st.next - (RING_CAP - 1), first, received);
    }
    var room := MakeRoom(st, ext);
    if !Held(room, ext) {
      InsertLedger(room, ext, dg, nowNs, first, received);
      SettleLedger(c, Insert(room, ext, dg, nowNs), nowNs, first, received + 1);
    }
  }

  lemma {:induction false} StepLedger(c: Config, st: State, input: Input, first: nat, received: nat)
    requires Ledger(st, first, received)
    ensures Ledger(Step(c, st, input), first, received + Counts(input))
  {
    hide Accept, SweepExpired, DetectGaps;
    match input
    case TickAt(nowNs) =>
      var swept := SweepExpired(c, st, nowNs);
      SweepLedger(c, st, nowNs, first, received);
      DetectLedger(c, swept, nowNs, first, received);
    case Arrive(_, dg, clockNs) =>
      if WellFormed(dg) {
        var ext := ToExtSeq(st.highest, SeqOf(dg));
        if ext >= st.next {
          AcceptLedger(c, st, ext, dg, ReceiveTime(dg, clockNs), first, received);
        }
      }
  }

  function Received(h: seq<Input>): nat {
    if h == [] then 0 else Received(h[..|h| - 1]) + Counts(h[|h| - 1])
  }

  /** The extended number of the first well-formed datagram: its 16-bit number. */
  function FirstNumber(h: seq<Input>): Option<nat> {
    if h == [] then None
    else
      var before := FirstNumber(h[..|h| - 1]);
      var last := h[|h| - 1];
      if before.None? && last.Arrive? && WellFormed(last.dg) then Some(SeqOf(last.dg)) else before
  }

  /** Before the first datagram a tick finds nothing to do. */
  lemma IdleStep(c: Config, input: Input)
    requires !(input.Arrive? && WellFormed(input.dg))
    ensures Step(c, INITIAL, input) == INITIAL
  {
  }

  /**
   Conservation, for every run whatsoever (force-skips included; see EXT_LIMIT for 32 bits): every datagram
   received was emitted, dropped or is pending; every number passed was emitted or given up; the pending
   count is the number of filled slots.
   */
  lemma {:induction false} RunLedger(c: Config, h: seq<Input>)
    ensures var st := Run(c, h);
            && (FirstNumber(h).None? ==> st == INITIAL && Received(h) == 0)
            && (FirstNumber(h).Some? ==> Ledger(st, FirstNumber(h).value, Received(h)))
  {
    if h != [] {
      var before, last := h[..|h| - 1], h[|h| - 1];
      RunLedger(c, before);
      if FirstNumber(before).Some? {
        StepLedger(c, Run(c, before), last, FirstNumber(before).value, Received(before));
      } else if last.Arrive? && WellFormed(last.dg) {
        assert FilledSet(EmptyRing()) == {};
      } else {
        IdleStep(c, last);
      }
    }
  }

  // ----- 32-bit range

  /** With extended numbers up to this one none of the source's 32-bit numbers wraps: the next one expected
      stays at most a ring and one ahead. */
  const EXT_LIMIT: nat := TWO_32 - (RING_CAP + 2)

  /** The counters have this much headroom: at most the ring can still be drained past `limit`. */
  predicate Below(st: State, limit: nat) {
    st.highest <= limit && st.next + |FilledSet(st.ring)| <= limit + 1 + RING_CAP
  }

  function FirstNumbers(k: nat): (s: set<nat>)
    ensures |s| == k && forall i: nat :: i in s <==> i < k
  {
    if k == 0 then {} else FirstNumbers(k - 1) + {k - 1}
  }

  lemma FilledSetBound(ring: Ring)
    ensures |FilledSet(ring)| <= RING_CAP
  {
    SubsetSize(FilledSet(ring), FirstNumbers(RING_CAP));
  }

  lemma {:induction false} DrainBelow(st: State, limit: nat)
    requires Below(st, limit)
    ensures Below(Drain(st), limit)
    decreases FilledSet(st.ring)
  {
    if Held(st, st.next) {
      EmitNextReleases(st);
      assert Idx(st.next) in FilledSet(st.ring);
      DrainBelow(EmitNext(st), limit);
    }
  }

  lemma {:induction false} SweepBelow(c: Config, st: State, nowNs: int, limit: nat)
    requires Below(st, limit)
    ensures Below(SweepExpired(c, st, nowNs), limit)
    decreases st.highest + 1 - st.next
  {
    if SweepFires(c, st, nowNs) {
      FilledSetBound(st.ring);
      DrainBelow(GiveUp(st), limit);
      DrainAdvances(GiveUp(st));
      SweepBelow(c, Drain(GiveUp(st)), nowNs, limit);
    }
  }

  lemma SettleBelow(c: Config, st: State, nowNs: int, limit: nat)
    requires Below(st, limit)
    ensures Below(Settle(c, st, nowNs), limit)
  {
    DrainBelow(st, limit);
    DetectKeepsSlots(c, Drain(st), nowNs);
    SweepBelow(c, DetectGaps(c, Drain(st), nowNs), nowNs, limit);
  }

  lemma InsertBelow(st: State, ext: nat, dg: Datagram, nowNs: int, limit: nat)
    requires Below(st, limit) && st.next <= ext <= limit && !Held(st, ext)
    ensures Below(Insert(st, ext, dg, nowNs), limit)
  {
    var filed := Insert(st, ext, dg, nowNs);
    FilledSetBound(filed.ring);
  }

  lemma {:induction false} AcceptBelow(c: Config, st: State, ext: nat, dg: Datagram, nowNs: int, limit: nat)
    requires Below(st, limit) && st.next <= ext <= limit
    ensures Below(Accept(c, st, ext, dg, nowNs), limit)
  {
    hide Settle, Insert;
    var room := MakeRoom(st, ext);
    if ext - st.next >= RING_CAP {
      ForceSkipMoves(st, ext - st.next - (RING_CAP - 1));
      FilledSetBound(st.ring);
    }
    if !Held(room, ext) {
      InsertBelow(room, ext, dg, nowNs, limit);
      SettleBelow(c, Insert(room, ext, dg, nowNs), nowNs, limit);
    }
  }

  lemma {:induction false} ForceSkipMoves(st: State, count: nat)
    ensures var after := ForceSkip(st, count);
            && after.next == st.next + count && after.ring == st.ring && after.highest == st.highest
            && after.seenFirst == st.seenFirst
    decreases count
  {
    if count > 0 { ForceSkipMoves(GiveUp(st), count - 1); }
  }

  /** If every extended number is within the limit, the counters never pass it by more than the ring. */
  lemma StepBelow(c: Config, st: State, input: Input, limit: nat)
    requires Below(st, limit) && limit >= TWO_16
    requires input.Arrive? && WellFormed(input.dg) && st.seenFirst ==> ToExtSeq(st.highest, SeqOf(input.dg)) <= limit
    requires !st.seenFirst ==> st.ring == EmptyRing()
    ensures Below(Step(c, st, input), limit)
  {
    hide Settle, Accept;
    match input
    case TickAt(nowNs) =>
      SweepBelow(c, st, nowNs, limit);
      DetectKeepsSlots(c, SweepExpired(c, st, nowNs), nowNs);
    case Arrive(_, dg, clockNs) =>
      if WellFormed(dg) && st.seenFirst {
        var ext := ToExtSeq(st.highest, SeqOf(dg));
        if ext >= st.next { AcceptBelow(c, st, ext, dg, ReceiveTime(dg, clockNs), limit); }
      } else {
        assert FilledSet(EmptyRing()) == {};
      }
  }

  lemma {:induction false} SweepSees(c: Config, st: State, nowNs: int)
    ensures SweepExpired(c, st, nowNs).seenFirst == st.seenFirst && SweepExpired(c, st, nowNs).highest == st.highest
    decreases st.highest + 1 - st.next
  {
    if SweepFires(c, st, nowNs) {
      DrainAdvances(GiveUp(st));
      SweepSees(c, Drain(GiveUp(st)), nowNs);
    }
  }

  lemma SettleSees(c: Config, st: State, nowNs: int)
    ensures Settle(c, st, nowNs).seenFirst == st.seenFirst
  {
    DrainAdvances(st);
    SweepSees(c, DetectGaps(c, Drain(st), nowNs), nowNs);
  }

  lemma AcceptSees(c: Config, st: State, ext: nat, dg: Datagram, nowNs: int)
    requires ext >= st.next
    ensures Accept(c, st, ext, dg, nowNs).seenFirst == st.seenFirst
  {
    hide Settle;
    var room := MakeRoom(st, ext);
    if ext - st.next >= RING_CAP { ForceSkipMoves(st, ext - st.next - (RING_CAP - 1)); }
    if !Held(room, ext) { SettleSees(c, Insert(room, ext, dg, nowNs), nowNs); }
  }

  /** Only the first datagram, and reset(), change whether one was seen. */
  lemma StepSees(c: Config, st: State, input: Input)
    ensures Step(c, st, input).seenFirst == (st.seenFirst || Counts(input) == 1)
  {
    hide Accept;
    match input
    case TickAt(nowNs) => SweepSees(c, st, nowNs);
    case Arrive(_, dg, clockNs) =>
      if WellFormed(dg) && st.seenFirst {
        var ext := ToExtSeq(st.highest, SeqOf(dg));
        if ext >= st.next { AcceptSees(c, st, ext, dg, ReceiveTime(dg, clockNs)); }
      }
  }

  /** A run, one input later. */
  lemma RunSnoc(c: Config, h: seq<Input>, last: Input)
    ensures Run(c, h + [last]) == Step(c, Run(c, h), last)
    ensures GenuineRun(c, h + [last]) <==> GenuineRun(c, h) && Genuine(Run(c, h), last)
    ensures CleanRun(c, h + [last]) <==> CleanRun(c, h) && CleanStep(Run(c, h), last)
  {
    assert (h + [last])[..|h|] == h;
  }
}
