/** The video jitter buffer as the source writes it: a ring array and counters updated in place. */
module JitterBuffer {
  import opened Common
  import opened Jitter
  import opened JitterRuns
  import opened JitterNack
  import opened JitterWrap

  /** Rings that agree on what is filled have the same missing numbers and groups. */
  predicate SameFilled(a: Ring, b: Ring) {
    forall i: nat :: i < RING_CAP ==> a[i].filled == b[i].filled
  }

  lemma {:induction false} FirstMissingAgrees(a: Ring, b: Ring, s: nat, highest: nat)
    requires SameFilled(a, b)
    ensures FirstMissing(a, s, highest) == FirstMissing(b, s, highest)
    decreases highest + 1 - s
  {
    if s <= highest && a[Idx(s)].filled { FirstMissingAgrees(a, b, s + 1, highest); }
  }

  lemma {:induction false} GroupsAgree(a: Ring, b: Ring, s: nat, highest: nat)
    requires SameFilled(a, b)
    ensures Groups(a, s, highest) == Groups(b, s, highest)
    decreases highest + 1 - s
  {
    hide SameFilled, FirstMissing;
    FirstMissingAgrees(a, b, s, highest);
    var pid := FirstMissing(a, s, highest);
    if pid <= highest { GroupsAgree(a, b, pid + 17, highest); }
  }

  /** The bits of the mask from bit `i` on, in their places. */
  function BlpPart(ring: Ring, pid: nat, highest: nat, i: nat): nat { Pow2(i) * BlpFrom(ring, pid, highest, i) }

  lemma BlpStep(ring: Ring, pid: nat, highest: nat, i: nat)
    requires i < 16 && pid + 1 + i <= highest
    ensures BlpPart(ring, pid, highest, i)
         == (if ring[Idx(pid + 1 + i)].filled then 0 else Pow2(i)) + BlpPart(ring, pid, highest, i + 1)
  {
    BitWeight(Pow2(i), if ring[Idx(pid + 1 + i)].filled then 0 else 1, BlpFrom(ring, pid, highest, i + 1));
  }

  lemma BitWeight(weight: nat, bit: nat, rest: nat)
    requires bit <= 1
    ensures weight * (bit + 2 * rest) == (if bit == 1 then weight else 0) + (2 * weight) * rest
  {
    assert weight * (bit + 2 * rest) == weight * bit + (2 * weight) * rest;
  }

  lemma BlpStart(ring: Ring, pid: nat, highest: nat)
    ensures BlpPart(ring, pid, highest, 0) == BlpFrom(ring, pid, highest, 0)
  {
  }

  lemma BlpEnd(ring: Ring, pid: nat, highest: nat, i: nat)
    requires i >= 16 || pid + 1 + i > highest
    ensures BlpPart(ring, pid, highest, i) == 0
  {
  }

  /** With nothing received yet, a tick leaves the ring and the counters alone. */
  lemma IdleTick(c: Config, st: State, nowNs: int)
    requires st.ring == EmptyRing() && st.next == st.highest == 0
    ensures var after := Tick(c, st, nowNs);
            after.ring == EmptyRing() && after.next == after.highest == 0 && after.seenFirst == st.seenFirst
  {
  }

  class JitterBufferVideo {
    var dwellUs: int
    var nackIntervalUs: int
    var seenFirst: bool
    var nextExpected: nat
    var highestSeen: nat
    var ring: array<Slot>
    var emits: nat
    var lateDrops: nat
    var duplicateDrops: nat
    var expiredGaps: nat
    var nacksSent: nat
    var reorderEvents: nat
    var pendingCount: int
    var maxPendingSeen: int
    /** The callbacks made so far. */
    var delivered: seq<Delivery>
    var nacks: seq<Nack>

    ghost predicate Shaped()
      reads this
    {
      ring.Length == RING_CAP
    }

    /** What holds between calls: the 32-bit counters have headroom, and before the first datagram the ring is empty. */
    ghost predicate Valid()
      reads this, ring
    {
      Shaped() && Below(Abs(), EXT_LIMIT) && (!seenFirst ==> Abs().ring == EmptyRing() && nextExpected == highestSeen == 0)
    }

    ghost function Abs(): (st: State)
      reads this, ring
      requires Shaped()
    {
      State(ring[..], seenFirst, nextExpected, highestSeen, emits, lateDrops, duplicateDrops, expiredGaps,
            nacksSent, reorderEvents, pendingCount, maxPendingSeen, delivered, nacks)
    }

    ghost function Cfg(): Config
      reads this
    {
      Config(dwellUs, nackIntervalUs)
    }

    constructor ()
      ensures Valid() && fresh(ring) && Abs() == INITIAL && Cfg() == Config(30000, 50000)
    {
      dwellUs, nackIntervalUs := 30000, 50000;
      seenFirst, nextExpected, highestSeen := false, 0, 0;
      emits, lateDrops, duplicateDrops, expiredGaps, nacksSent, reorderEvents := 0, 0, 0, 0, 0, 0;
      pendingCount, maxPendingSeen := 0, 0;
      delivered, nacks := [], [];
      ring := new Slot[RING_CAP](_ => EMPTY_SLOT);
      new;
      assert ring[..] == EmptyRing();
      assert FilledSet(EmptyRing()) == {};
    }

    method Configure(newDwellUs: int, newNackIntervalUs: int)
      requires Valid()
      modifies this`dwellUs, this`nackIntervalUs
      ensures Valid() && Abs() == old(Abs())
      ensures Cfg() == Config(if newDwellUs > 0 then newDwellUs else old(dwellUs),
                              if newNackIntervalUs > 0 then newNackIntervalUs else old(nackIntervalUs))
    {
      if newDwellUs > 0 { dwellUs := newDwellUs; }
      if newNackIntervalUs > 0 { nackIntervalUs := newNackIntervalUs; }
    }

    method Drain()
      requires Shaped()
      modifies this, ring
      ensures Shaped() && ring == old(ring) && Cfg() == old(Cfg())
      ensures Abs() == Jitter.Drain(old(Abs()))
    {
      while true
        invariant Shaped() && ring == old(ring) && Cfg() == old(Cfg())
        invariant Jitter.Drain(Abs()) == Jitter.Drain(old(Abs()))
        decreases FilledSet(ring[..])
      {
        var i := nextExpected % RING_CAP;
        if !ring[i].filled { break; }
        ghost var before := Abs();
        delivered := delivered + [Emit(ring[i].ext, ring[i].dg)];
        emits := emits + 1;
        ring[i] := EMPTY_SLOT;
        pendingCount := pendingCount - 1;
        nextExpected := nextExpected + 1;
        assert Abs() == EmitNext(before);
        EmitNextReleases(before);
        assert i in FilledSet(before.ring);
      }
    }

    /** The earliest arrival among the filled slots behind the missing one; 0 if there is none. */
    method EarliestPending() returns (earliest: int)
      requires Shaped()
      ensures earliest == Earliest(ring[..], nextExpected + 1, highestSeen, 0)
    {
      earliest := 0;
      var s := nextExpected + 1;
      while s <= highestSeen
        invariant Earliest(ring[..], s, highestSeen, earliest) == Earliest(ring[..], nextExpected + 1, highestSeen, 0)
        decreases highestSeen + 1 - s
      {
        var i := s % RING_CAP;
        if ring[i].filled {
          if earliest == 0 || ring[i].arrivalNs < earliest { earliest := ring[i].arrivalNs; }
        }
        s := s + 1;
      }
    }

    method SweepExpired(nowNs: int)
      requires Shaped()
      modifies this, ring
      ensures Shaped() && ring == old(ring) && Cfg() == old(Cfg())
      ensures Abs() == Jitter.SweepExpired(Cfg(), old(Abs()), nowNs)
    {
      hide Jitter.Drain, Earliest, FilledSet;
      while nextExpected < highestSeen + 1
        invariant Shaped() && ring == old(ring) && Cfg() == old(Cfg())
        invariant Jitter.SweepExpired(Cfg(), Abs(), nowNs) == Jitter.SweepExpired(Cfg(), old(Abs()), nowNs)
        decreases highestSeen + 1 - nextExpected
      {
        if ring[nextExpected % RING_CAP].filled { break; }
        var earliest := EarliestPending();
        if earliest == 0 { break; }
        if nowNs - earliest < dwellUs * 1000 { break; }
        ghost var before := Abs();
        assert SweepFires(Cfg(), before, nowNs);
        expiredGaps := expiredGaps + 1;
        delivered := delivered + [Loss(nextExpected % TWO_16)];
        nextExpected := nextExpected + 1;
        assert Abs() == GiveUp(before);
        DrainAdvances(GiveUp(before));
        Drain();
      }
      assert !SweepFires(Cfg(), Abs(), nowNs);
    }

    /** The bitmap of the missing numbers among the 16 after `pid`. */
    method CollectBlp(pid: nat) returns (blp: nat)
      requires Shaped() && pid + 17 < TWO_32
      ensures blp == BlpFrom(ring[..], pid, highestSeen, 0)
    {
      hide Pow2, BlpPart, BlpFrom;
      BlpStart(ring[..], pid, highestSeen);
      blp := 0;
      var i := 0;
      while i < 16 && (pid + 1 + i) % TWO_32 <= highestSeen
        invariant 0 <= i <= 16 && (pid + 1 + i) % TWO_32 == pid + 1 + i
        invariant blp + BlpPart(ring[..], pid, highestSeen, i) == BlpFrom(ring[..], pid, highestSeen, 0)
      {
        BlpStep(ring[..], pid, highestSeen, i);
        var k := (pid + 1 + i) % TWO_32;
        if !ring[k % RING_CAP].filled { blp := blp + Pow2(i); }
        i := i + 1;
      }
      BlpEnd(ring[..], pid, highestSeen, i);
    }

    /** The first missing number from `from` on. */
    method SkipFilled(from: nat) returns (s: nat)
      requires Shaped() && from <= highestSeen + 1 < TWO_32
      ensures s == FirstMissing(ring[..], from, highestSeen) <= highestSeen + 1
    {
      s := from;
      while s <= highestSeen && ring[s % RING_CAP].filled
        invariant from <= s <= highestSeen + 1
        invariant FirstMissing(ring[..], s, highestSeen) == FirstMissing(ring[..], from, highestSeen)
        decreases highestSeen + 1 - s
      {
        s := (s + 1) % TWO_32;
      }
    }

    /** Request the group at `pid`, unless that was done too recently. */
    method RequestGroup(pid: nat, nowNs: int)
      requires Shaped() && pid + 17 < TWO_32
      modifies this`nacks, this`nacksSent, ring
      ensures ring[..] == MarkNacked(Cfg(), old(ring[..]), pid, nowNs)
      ensures nacks == old(nacks) + DueNack(Cfg(), old(ring[..]), pid, highestSeen, nowNs)
      ensures nacksSent - |nacks| == old(nacksSent - |nacks|)
    {
      hide BlpFrom;
      var blp := CollectBlp(pid);
      var i := pid % RING_CAP;
      if !ring[i].nacked || nowNs - ring[i].firstNackNs >= nackIntervalUs * 1000 {
        ring[i] := ring[i].(nacked := true, firstNackNs := nowNs);
        nacks := nacks + [Nack(pid % TWO_16, blp, pid, nowNs)];
        nacksSent := nacksSent + 1;
      }
    }

    /** The scan, with its 32-bit loop variable; ScanIsGroupsIff says that without the last condition it
        would start over. */
    method DetectGapsAndNack(nowNs: int)
      requires Shaped() && (nextExpected < highestSeen ==> Fits(ring[..], nextExpected, highestSeen))
      modifies this, ring
      ensures Shaped() && ring == old(ring) && Cfg() == old(Cfg())
      ensures Abs() == DetectGaps(Cfg(), old(Abs()), nowNs)
    {
      hide Groups, ScanRing, ScanSent, MarkNacked, DueNack, FirstMissing, Fits, Missing;
      if nextExpected >= highestSeen { return; }
      ghost var c := Cfg();
      ghost var start := Abs();
      ghost var all := Groups(ring[..], nextExpected, highestSeen);
      var s := nextExpected;
      while s <= highestSeen
        invariant Shaped() && ring == old(ring) && Cfg() == c
        invariant Abs() == start.(ring := ring[..], nacks := nacks, nacksSent := nacksSent)
        invariant Fits(ring[..], s, highestSeen)
        invariant var rest := Groups(ring[..], s, highestSeen);
                  && ScanRing(c, ring[..], rest, nowNs) == ScanRing(c, start.ring, all, nowNs)
                  && nacks + ScanSent(c, ring[..], rest, highestSeen, nowNs)
                     == start.nacks + ScanSent(c, start.ring, all, highestSeen, nowNs)
        invariant nacksSent - |nacks| == start.nacksSent - |start.nacks|
        decreases highestSeen + 1 - s
      {
        ghost var from := s;
        ghost var before, sentBefore := ring[..], nacks;
        FitsNext(c, before, from, highestSeen, nowNs);
        s := SkipFilled(s);
        if s > highestSeen {
          ScanEnds(c, ring[..], from, highestSeen, nowNs);
          break;
        }
        var pid := s;
        RequestGroup(pid, nowNs);
        s := (pid + 17) % TWO_32;
        ScanAdvances(c, before, from, pid, sentBefore, highestSeen, nowNs);
      }
      ScanEnds(c, ring[..], s, highestSeen, nowNs);
    }

    /** The next group lies inside the 32-bit range, and so does the rest of the scan. */
    static lemma FitsNext(c: Config, ring: Ring, s: nat, highest: nat, nowNs: int)
      requires Fits(ring, s, highest)
      ensures highest + 1 < TWO_32
      ensures var pid := FirstMissing(ring, s, highest);
              pid <= highest ==> pid + 17 < TWO_32 && Fits(MarkNacked(c, ring, pid, nowNs), pid + 17, highest)
    {
      hide Groups;
      var pid := FirstMissing(ring, s, highest);
      if pid <= highest {
        FirstGroup(ring, s, highest);
        var gs, rest := Groups(ring, s, highest), Groups(ring, pid + 17, highest);
        assert gs[0] == pid;
        assert forall i :: 0 <= i < |rest| ==> gs[i + 1] == rest[i];
        GroupsAgree(MarkNacked(c, ring, pid, nowNs), ring, pid + 17, highest);
      }
    }

    static lemma FirstGroup(ring: Ring, s: nat, highest: nat)
      requires FirstMissing(ring, s, highest) <= highest
      ensures var pid := FirstMissing(ring, s, highest);
              Groups(ring, s, highest) == [pid] + Groups(ring, pid + 17, highest)
    {
    }

    /** Nothing is missing any more: the scan is over. */
    static lemma ScanEnds(c: Config, ring: Ring, s: nat, highest: nat, nowNs: int)
      requires FirstMissing(ring, s, highest) > highest
      ensures Groups(ring, s, highest) == []
      ensures ScanRing(c, ring, [], nowNs) == ring && ScanSent(c, ring, [], highest, nowNs) == []
    {
    }

    /** One round of the scan loop: the group at `pid` is handled, the rest of the groups remain. */
    static lemma {:induction false} ScanAdvances(c: Config, ring: Ring, s: nat, pid: nat,
            sent: seq<Nack>, highest: nat, nowNs: int)
      requires pid == FirstMissing(ring, s, highest) <= highest
      ensures var after := MarkNacked(c, ring, pid, nowNs);
              var rest := Groups(after, pid + 17, highest);
              && ScanRing(c, ring, Groups(ring, s, highest), nowNs) == ScanRing(c, after, rest, nowNs)
              && sent + ScanSent(c, ring, Groups(ring, s, highest), highest, nowNs)
                 == (sent + DueNack(c, ring, pid, highest, nowNs)) + ScanSent(c, after, rest, highest, nowNs)
    {
      var after := MarkNacked(c, ring, pid, nowNs);
      GroupsAgree(after, ring, pid + 17, highest);
      var rest := Groups(ring, pid + 17, highest);
      var gs := Groups(ring, s, highest);
      assert gs == [pid] + rest && gs[1..] == rest;
    }

    method UpdatePending()
      requires Shaped()
      modifies this`maxPendingSeen
      ensures Abs() == Jitter.UpdatePending(old(Abs()))
    {
      if pendingCount > maxPendingSeen { maxPendingSeen := pendingCount; }
    }

    /** What the source's 32-bit arithmetic demands of a datagram: its extended number, cast to 32 bits,
        stays a ring below the end of the range. */
    ghost predicate InRange(dg: Datagram)
      reads this
    {
      WellFormed(dg) && seenFirst ==> ToExtSeq(highestSeen, SeqOf(dg)) <= EXT_LIMIT
    }

    static lemma BelowLimit(st: State, limit: nat)
      requires Below(st, limit)
      ensures st.highest <= limit
    {
    }

    /** Report `count` numbers lost and step over them. */
    method ForceSkipAhead(count: nat)
      requires Shaped()
      modifies this
      ensures Shaped() && ring == old(ring) && Cfg() == old(Cfg()) && highestSeen == old(highestSeen)
      ensures Abs() == ForceSkip(old(Abs()), count)
    {
      var i := 0;
      while i < count
        invariant 0 <= i <= count
        invariant Shaped() && ring == old(ring) && Cfg() == old(Cfg()) && highestSeen == old(highestSeen)
        invariant ForceSkip(Abs(), count - i) == ForceSkip(old(Abs()), count)
      {
        ghost var before := Abs();
        expiredGaps := expiredGaps + 1;
        delivered := delivered + [Loss(nextExpected % TWO_16)];
        nextExpected := nextExpected + 1;
        assert Abs() == GiveUp(before);
        i := i + 1;
      }
    }

    /** Put a datagram into its slot, which is free. */
    method FileDatagram(ext: nat, dg: Datagram, nowNs: int)
      requires Shaped() && !ring[ext % RING_CAP].filled
      modifies this, ring
      ensures Shaped() && ring == old(ring) && Cfg() == old(Cfg())
      ensures Abs() == Insert(old(Abs()), ext, dg, nowNs)
      ensures highestSeen == if ext < old(highestSeen) then old(highestSeen) else ext
    {
      ring[ext % RING_CAP] := Slot(true, false, nowNs, 0, ext, dg);
      pendingCount := pendingCount + 1;
      if ext < highestSeen {
        reorderEvents := reorderEvents + 1;
      } else {
        highestSeen := ext;
      }
    }

    /** A datagram that is not too old. */
    method AcceptDatagram(ext: nat, dg: Datagram, nowNs: int)
      requires Shaped() && nextExpected <= ext <= EXT_LIMIT && highestSeen <= EXT_LIMIT
      modifies this, ring
      ensures Shaped() && ring == old(ring) && Cfg() == old(Cfg())
      ensures Abs() == Accept(Cfg(), old(Abs()), ext, dg, nowNs)
    {
      hide Insert, Jitter.Drain, Jitter.SweepExpired, DetectGaps, Jitter.UpdatePending, ForceSkip;
      var ahead := ext - nextExpected;
      if ahead >= RING_CAP {
        ForceSkipAhead(ahead - (RING_CAP - 1));
      }
      if ring[ext % RING_CAP].filled {
        duplicateDrops := duplicateDrops + 1;
        return;
      }
      FileDatagram(ext, dg, nowNs);
      DrainAdvances(Abs());
      Drain();
      FitsBelow(ring[..], nextExpected, highestSeen);
      DetectGapsAndNack(nowNs);
      SweepExpired(nowNs);
      UpdatePending();
    }

    /** The first datagram is handed over at once, and its number is where the buffer starts. */
    method TakeFirst(seq16: nat, dg: Datagram)
      requires Shaped() && !seenFirst && WellFormed(dg) && seq16 == SeqOf(dg)
      modifies this
      ensures Shaped() && ring == old(ring) && Cfg() == old(Cfg())
      ensures Abs() == Bootstrap(old(Abs()), dg)
    {
      seenFirst := true;
      nextExpected := seq16;
      highestSeen := seq16;
      delivered := delivered + [Emit(seq16, dg)];
      emits := emits + 1;
      nextExpected := nextExpected + 1;
    }

    /** A datagram that is too old. */
    method DropOldDatagram(ext: nat)
      requires Shaped() && ext < nextExpected
      modifies this`duplicateDrops, this`lateDrops
      ensures Abs() == DropOld(old(Abs()), ext)
    {
      if nextExpected - ext <= 32 {
        duplicateDrops := duplicateDrops + 1;
      } else {
        lateDrops := lateDrops + 1;
      }
    }

    method OnRtp(dg: Datagram, clockNs: int)
      requires Valid() && InRange(dg)
      modifies this, ring
      ensures Valid() && ring == old(ring) && Cfg() == old(Cfg())
      ensures Abs() == Jitter.OnRtp(Cfg(), old(Abs()), dg, clockNs)
    {
      BelowLimit(Abs(), EXT_LIMIT);
      hide Below, Accept, Bootstrap, DropOld, ToExtSeq;
      StepBelow(Cfg(), Abs(), Arrive(0, dg, clockNs), EXT_LIMIT);
      StepSees(Cfg(), Abs(), Arrive(0, dg, clockNs));
      if |dg.bytes| < 12 { return; }
      var seq16 := U16(dg.bytes[2], dg.bytes[3]);
      var nowNs := if dg.arrivalNs != 0 then dg.arrivalNs else clockNs;
      if !seenFirst {
        TakeFirst(seq16, dg);
        return;
      }
      var ext := ToExtSeq(highestSeen, seq16);
      if ext < nextExpected {
        DropOldDatagram(ext);
        return;
      }
      AcceptDatagram(ext, dg, nowNs);
    }

    method Tick(nowNs: int)
      requires Valid()
      modifies this, ring
      ensures Valid() && ring == old(ring) && Cfg() == old(Cfg())
      ensures Abs() == Jitter.Tick(Cfg(), old(Abs()), nowNs)
    {
      hide Below, Jitter.Drain, Jitter.SweepExpired, DetectGaps;
      BelowLimit(Abs(), EXT_LIMIT);
      StepBelow(Cfg(), Abs(), TickAt(nowNs), EXT_LIMIT);
      if !seenFirst { IdleTick(Cfg(), Abs(), nowNs); }
      StepSees(Cfg(), Abs(), TickAt(nowNs));
      SweepSees(Cfg(), Abs(), nowNs);
      SweepExpired(nowNs);
      FitsBelow(ring[..], nextExpected, highestSeen);
      DetectGapsAndNack(nowNs);
      UpdatePending();
    }

    method Reset()
      requires Valid()
      modifies this, ring
      ensures Valid() && ring == old(ring) && Cfg() == old(Cfg())
      ensures Abs() == Jitter.Reset(old(Abs()))
    {
      for k := 0 to ring.Length
        invariant Shaped() && ring == old(ring)
        invariant forall j :: 0 <= j < k ==> ring[j] == EMPTY_SLOT
        invariant Cfg() == old(Cfg()) && Abs() == old(Abs()).(ring := ring[..])
      {
        ring[k] := EMPTY_SLOT;
      }
      assert ring[..] == EmptyRing();
      seenFirst := false;
      nextExpected := 0;
      highestSeen := 0;
      pendingCount := 0;
      assert FilledSet(EmptyRing()) == {};
    }
  }
}
