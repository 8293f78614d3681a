/**
 The NACK scan in the source's 32-bit arithmetic: when it makes the requests of Groups and ends, and the
 inputs after which it never ends.
 */
module JitterWrap {
  import opened Arithmetic
  import opened Common
  import opened Jitter
  import opened JitterRuns
  import opened JitterTrace
  import opened JitterNack
  import opened JitterOrder

  /** The loop variable after a number that is there, or after the group of a missing one. */
  function Advance(ring: Ring, s: nat): (after: nat)
    ensures s < after <= s + 17
  {
    s + (if Missing(ring, s) then 17 else 1)
  }

  /** The loop variable after `k` steps, in 32 bits.  Requests do not change which slots are filled. */
  function ScanAt(ring: Ring, s: nat, k: nat): nat
    decreases k
  {
    if k == 0 then s else ScanAt(ring, Advance(ring, s) % TWO_32, k - 1)
  }

  /** The pids met on the way. */
  function Pids(ring: Ring, s: nat, k: nat): seq<nat>
    decreases k
  {
    if k == 0 then [] else (if Missing(ring, s) then [s] else []) + Pids(ring, Advance(ring, s) % TWO_32, k - 1)
  }

  /** The scan is left after some number of steps. */
  ghost predicate Ends(ring: Ring, s: nat, highest: nat) { exists k: nat :: ScanAt(ring, s, k) > highest }

  /** No group ends beyond the 32-bit range, and neither does the range scanned. */
  predicate Fits(ring: Ring, s: nat, highest: nat) {
    highest < TWO_32 - 1 && forall i :: 0 <= i < |Groups(ring, s, highest)| ==> Groups(ring, s, highest)[i] + 17 < TWO_32
  }

  /** How many steps the scan takes to pass `highest`, and where it is then, if numbers do not wrap. */
  function Steps(ring: Ring, s: nat, highest: nat): nat
    decreases highest + 1 - s
  {
    if s > highest then 0 else 1 + Steps(ring, Advance(ring, s), highest)
  }

  function Exit(ring: Ring, s: nat, highest: nat): nat
    decreases highest + 1 - s
  {
    if s > highest then s else Exit(ring, Advance(ring, s), highest)
  }

  lemma GroupsStep(ring: Ring, s: nat, highest: nat)
    ensures Groups(ring, s, highest) ==
            if s > highest then []
            else (if Missing(ring, s) then [s] else []) + Groups(ring, Advance(ring, s), highest)
  {
  }

  lemma {:induction false} ExitBounds(ring: Ring, s: nat, highest: nat)
    requires s <= highest + 17
    ensures highest < Exit(ring, s, highest) <= highest + 17
    decreases highest + 1 - s
  {
    hide Missing;
    if s <= highest { ExitBounds(ring, Advance(ring, s), highest); }
  }

  lemma {:induction false} ExitFits(ring: Ring, s: nat, highest: nat)
    requires s <= highest + 1 && highest < TWO_32
    ensures Exit(ring, s, highest) < TWO_32 <==> Fits(ring, s, highest)
    decreases highest + 1 - s
  {
    hide Missing, Groups, Advance;
    GroupsStep(ring, s, highest);
    if s <= highest {
      var next := Advance(ring, s);
      AdvanceIs(ring, s);
      if next <= highest + 1 {
        ExitFits(ring, next, highest);
        FitsStep(ring, s, highest);
      } else {
        GroupsStep(ring, next, highest);
        assert Groups(ring, s, highest)[0] == s;
      }
    }
  }

  lemma AdvanceIs(ring: Ring, s: nat)
    ensures Advance(ring, s) == if Missing(ring, s) then s + 17 else s + 1
  {
  }

  lemma FitsStep(ring: Ring, s: nat, highest: nat)
    requires s <= highest < TWO_32
    ensures Fits(ring, s, highest) <==>
            (Missing(ring, s) ==> s + 17 < TWO_32) && Fits(ring, Advance(ring, s), highest)
  {
    hide Missing, Groups, Advance;
    GroupsStep(ring, s, highest);
    var gs, rest := Groups(ring, s, highest), Groups(ring, Advance(ring, s), highest);
    if Missing(ring, s) {
      assert gs[0] == s && gs[1..] == rest;
      assert forall i :: 0 <= i < |rest| ==> gs[i + 1] == rest[i];
    } else {
      assert gs == rest;
    }
  }

  /** Up to the step that passes `highest`, the 32-bit scan and the unbounded one agree. */
  lemma {:induction false} ScanFollows(ring: Ring, s: nat, highest: nat)
    requires s <= highest < TWO_32
    ensures var k := Steps(ring, s, highest);
            && Pids(ring, s, k) == Groups(ring, s, highest)
            && ScanAt(ring, s, k) == Exit(ring, s, highest) % TWO_32
            && forall j: nat :: j < k ==> ScanAt(ring, s, j) <= highest
    decreases highest + 1 - s
  {
    hide Missing, Groups, Advance;
    var next := Advance(ring, s);
    AdvanceIs(ring, s);
    GroupsStep(ring, s, highest);
    if next <= highest {
      assert next % TWO_32 == next;
      ScanFollows(ring, next, highest);
      forall j: nat | j < Steps(ring, s, highest)
        ensures ScanAt(ring, s, j) <= highest
      {
        if j > 0 { assert ScanAt(ring, s, j) == ScanAt(ring, next, j - 1); }
      }
    } else {
      GroupsStep(ring, next, highest);
      ScanOnce(ring, s);
    }
  }

  lemma ScanOnce(ring: Ring, s: nat)
    ensures ScanAt(ring, s, 1) == Advance(ring, s) % TWO_32
    ensures Pids(ring, s, 1) == if Missing(ring, s) then [s] else []
  {
  }

  /**
   The scan makes exactly the requests of Groups and is then left, if and only if no group ends beyond the
   32-bit range and `highest` is not the last 32-bit number; otherwise it starts over below 17.
   */
  lemma ScanIsGroupsIff(ring: Ring, s: nat, highest: nat)
    requires s <= highest < TWO_32
    ensures var k := Steps(ring, s, highest);
            && Pids(ring, s, k) == Groups(ring, s, highest)
            && (forall j: nat :: j < k ==> ScanAt(ring, s, j) <= highest)
            && (ScanAt(ring, s, k) > highest <==> Fits(ring, s, highest))
            && (!Fits(ring, s, highest) ==> ScanAt(ring, s, k) < 17)
  {
    hide Groups, Advance, Missing, Fits;
    ScanFollows(ring, s, highest);
    ExitBounds(ring, s, highest);
    ExitFits(ring, s, highest);
  }

  /** The condition holds for every ring if and only if the numbers stay 17 below the end of the range. */
  lemma FitsBelow(ring: Ring, s: nat, highest: nat)
    requires highest <= TWO_32 - 18
    ensures Fits(ring, s, highest)
  {
    forall i | 0 <= i < |Groups(ring, s, highest)|
      ensures Groups(ring, s, highest)[i] + 17 < TWO_32
    {
      GroupsAscend(ring, s, highest, i);
    }
  }

  /** With the last 32-bit number as `highest` the scan is never left, whatever is in the ring. */
  lemma {:induction false} NeverLeft(ring: Ring, s: nat, k: nat)
    requires s < TWO_32
    ensures ScanAt(ring, s, k) <= TWO_32 - 1
    decreases k
  {
    if k > 0 { NeverLeft(ring, Advance(ring, s) % TWO_32, k - 1); }
  }

  lemma LastNumberNeverEnds(ring: Ring, s: nat)
    requires s < TWO_32
    ensures !Ends(ring, s, TWO_32 - 1)
  {
    forall k: nat
      ensures ScanAt(ring, s, k) <= TWO_32 - 1
    {
      NeverLeft(ring, s, k);
    }
  }

  /** The mask in 32-bit arithmetic. */
  function Blp32(ring: Ring, pid: nat, highest: nat, i: nat): nat
    decreases 16 - i
  {
    var n := (pid + 1 + i) % TWO_32;
    if i >= 16 || n > highest then 0
    else (if ring[Idx(n)].filled then 0 else 1) + 2 * Blp32(ring, pid, highest, i + 1)
  }

  /** For a group inside the range the mask is the one ScanExact is about. */
  lemma {:induction false} BlpFits(ring: Ring, pid: nat, highest: nat, i: nat)
    requires pid + 17 < TWO_32
    ensures Blp32(ring, pid, highest, i) == BlpFrom(ring, pid, highest, i)
    decreases 16 - i
  {
    if i < 16 {
      assert (pid + 1 + i) % TWO_32 == pid + 1 + i;
      BlpFits(ring, pid, highest, i + 1);
    }
  }

  // ----- the runs of two datagrams

  /** With everything missing but the last number, 17 divides the range: no group reaches beyond it. */
  lemma {:induction false} SpreadGroups(ring: Ring, s: nat, highest: nat)
    requires s <= highest && (highest - s) % 17 == 0
    requires !Missing(ring, highest) && forall n :: s <= n < highest ==> Missing(ring, n)
    ensures forall i :: 0 <= i < |Groups(ring, s, highest)| ==> Groups(ring, s, highest)[i] + 17 <= highest
    decreases highest + 1 - s
  {
    hide Missing, Groups;
    GroupsStep(ring, s, highest);
    AdvanceIs(ring, s);
    if s == highest {
      GroupsStep(ring, s + 1, highest);
    } else {
      SpreadGroups(ring, s + 17, highest);
    }
  }

  /** What the scan finds after the first datagram and one that wraps: 255 missing numbers and the last. */
  lemma WrappedState(st: State, ext: nat, dg: Datagram, nowNs: int)
    requires st.ring == EmptyRing() && st.highest <= ext && ext >= st.next + RING_CAP
    ensures var room := MakeRoom(st, ext);
            && !Held(room, ext)
            && var filed := Drain(Insert(room, ext, dg, nowNs));
               && filed.next == ext - (RING_CAP - 1) && filed.highest == ext
               && !Missing(filed.ring, ext)
               && forall n :: filed.next <= n < ext ==> Missing(filed.ring, n)
  {
    hide ForceSkip, Drain;
    ForceSkipMoves(st, ext - st.next - (RING_CAP - 1));
    var filed := Insert(MakeRoom(st, ext), ext, dg, nowNs);
    forall n | filed.next <= n < ext
      ensures Missing(filed.ring, n)
    {
      OtherSlot(n, ext);
    }
    DrainStops(filed);
  }

  /**
   If the second datagram is older than extended number 0, the scan that follows ends if and only if it is
   not exactly the predecessor of 0: after numbers 0 and 65535, say, on_rtp does not return.
   */
  lemma ScanEndsIff(d: Datagram, late: Datagram, nowNs: int)
    requires WellFormed(d) && WellFormed(late)
    requires SeqOf(d) + Delta16(SeqOf(late), SeqOf(d)) < 0
    ensures var st := Bootstrap(INITIAL, d);
            var ext := ToExtSeq(st.highest, SeqOf(late));
            && ext >= st.next && !Held(MakeRoom(st, ext), ext)
            && var filed := Drain(Insert(MakeRoom(st, ext), ext, late, nowNs));
               && filed.next < filed.highest == ext
               && (Ends(filed.ring, filed.next, filed.highest) <==> SeqOf(d) + Delta16(SeqOf(late), SeqOf(d)) != -1)
  {
    hide MakeRoom, Insert, Drain, Held, Missing, Groups, SeqOf, Ends, Delta16;
    var st := Bootstrap(INITIAL, d);
    var ext := ToExtSeq(st.highest, SeqOf(late));
    WrapsHigh(SeqOf(d), SeqOf(late));
    WrapsTo(SeqOf(d), SeqOf(late));
    WrappedState(st, ext, late, nowNs);
    var filed := Drain(Insert(MakeRoom(st, ext), ext, late, nowNs));
    if ext == TWO_32 - 1 {
      LastNumberNeverEnds(filed.ring, filed.next);
    } else {
      SpreadGroups(filed.ring, filed.next, ext);
      ScanIsGroupsIff(filed.ring, filed.next, ext);
      EndsAfter(filed.ring, filed.next, ext, Steps(filed.ring, filed.next, ext));
    }
  }

  lemma EndsAfter(ring: Ring, s: nat, highest: nat, k: nat)
    requires ScanAt(ring, s, k) > highest
    ensures Ends(ring, s, highest)
  {
  }

  lemma WrapsTo(highest: nat, seq16: nat)
    requires highest < TWO_16 && seq16 < TWO_16 && highest + Delta16(seq16, highest) < 0
    ensures ToExtSeq(highest, seq16) == TWO_32 + highest + Delta16(seq16, highest)
  {
    assert highest % TWO_16 == highest;
  }

  /** The input: after numbers 0 and 65535 the scan is entered and never left. */
  lemma ZeroThenLast(d: Datagram, late: Datagram, nowNs: int)
    requires WellFormed(d) && WellFormed(late) && SeqOf(d) == 0 && SeqOf(late) == 65535
    ensures var st := Bootstrap(INITIAL, d);
            var ext := ToExtSeq(st.highest, SeqOf(late));
            && ext == TWO_32 - 1 && ext >= st.next && !Held(MakeRoom(st, ext), ext)
            && var filed := Drain(Insert(MakeRoom(st, ext), ext, late, nowNs));
               filed.next < filed.highest && !Ends(filed.ring, filed.next, filed.highest)
  {
    hide MakeRoom, Insert, Drain, Held, Ends;
    ScanEndsIff(d, late, nowNs);
  }
}
