/** Which numbers one NACK scan asks for, and how often the same request is repeated. */
module JitterNack {
  import opened Arithmetic
  import opened Common
  import opened Jitter
  import opened JitterRuns

  // ----- one scan

  predicate BitOf(b: nat, i: nat) {
    if i == 0 then b % 2 == 1 else BitOf(b / 2, i - 1)
  }

  /** A receiver of (pid, blp) takes `n` to be requested (section 6.2.1 of RFC 4585). */
  predicate Names(pid: nat, blp: nat, n: nat) {
    n == pid || (pid < n <= pid + 16 && BitOf(blp, n - pid - 1))
  }

  predicate Missing(ring: Ring, n: nat) { !ring[Idx(n)].filled }

  predicate GroupNames(ring: Ring, highest: nat, pid: nat, n: nat) {
    Names(pid, BlpFrom(ring, pid, highest, 0), n)
  }

  /** The mask from bit `i` on: that bit, then the mask from the next bit on. */
  lemma BlpUnfold(ring: Ring, pid: nat, highest: nat, i: nat)
    requires i < 16
    ensures var b := BlpFrom(ring, pid, highest, i);
            if pid + 1 + i > highest then b == 0
            else (b % 2 == 1 <==> Missing(ring, pid + 1 + i)) && b / 2 == BlpFrom(ring, pid, highest, i + 1)
  {
    if pid + 1 + i <= highest {
      DivUnique(BlpFrom(ring, pid, highest, i), 2, BlpFrom(ring, pid, highest, i + 1),
                if Missing(ring, pid + 1 + i) then 1 else 0);
    }
  }

  lemma {:induction false} BlpBit(ring: Ring, pid: nat, highest: nat, i: nat, j: nat)
    requires i <= j < 16
    ensures BitOf(BlpFrom(ring, pid, highest, i), j - i) <==>
            pid + 1 + j <= highest && Missing(ring, pid + 1 + j)
    decreases j - i
  {
    hide BlpFrom, Missing;
    BlpUnfold(ring, pid, highest, i);
    if pid + 1 + i > highest {
      ZeroHasNoBits(j - i);
    } else if i < j {
      BlpBit(ring, pid, highest, i + 1, j);
    }
  }

  lemma {:induction false} ZeroHasNoBits(i: nat)
    ensures !BitOf(0, i)
  {
    if i > 0 { ZeroHasNoBits(i - 1); }
  }

  lemma {:induction false} BlpIs16Bits(ring: Ring, pid: nat, highest: nat, i: nat)
    requires i <= 16
    ensures BlpFrom(ring, pid, highest, i) < Pow2(16 - i)
    decreases 16 - i
  {
    if i < 16 { BlpIs16Bits(ring, pid, highest, i + 1); }
  }

  lemma {:induction false} FirstMissingSkipsFilled(ring: Ring, s: nat, highest: nat)
    ensures forall n :: s <= n < FirstMissing(ring, s, highest) ==> !Missing(ring, n)
    ensures FirstMissing(ring, s, highest) <= highest ==> Missing(ring, FirstMissing(ring, s, highest))
    decreases highest + 1 - s
  {
    if s <= highest && ring[Idx(s)].filled { FirstMissingSkipsFilled(ring, s + 1, highest); }
  }

  lemma GroupNamesExactly(ring: Ring, highest: nat, pid: nat, n: nat)
    requires pid <= highest && Missing(ring, pid)
    ensures GroupNames(ring, highest, pid, n) <==> pid <= n <= pid + 16 && n <= highest && Missing(ring, n)
  {
    hide BlpFrom, Missing, BitOf;
    if pid < n <= pid + 16 { BlpBit(ring, pid, highest, 0, n - pid - 1); }
  }

  /** A scan with something left to ask for: its first group, then the scan behind it. */
  lemma GroupsUnfold(ring: Ring, s: nat, highest: nat)
    requires Groups(ring, s, highest) != []
    ensures var pid := FirstMissing(ring, s, highest);
            && s <= pid <= highest && Missing(ring, pid)
            && Groups(ring, s, highest) == [pid] + Groups(ring, pid + 17, highest)
  {
    FirstMissingSkipsFilled(ring, s, highest);
  }

  /** The groups start at missing numbers of the scanned range and never overlap. */
  lemma {:induction false} GroupsAscend(ring: Ring, s: nat, highest: nat, i: nat)
    requires i < |Groups(ring, s, highest)|
    ensures var gs := Groups(ring, s, highest);
            && s <= gs[i] <= highest && Missing(ring, gs[i])
            && (forall j :: i < j < |gs| ==> gs[i] + 17 <= gs[j])
    decreases highest + 1 - s
  {
    hide Groups, FirstMissing, Missing;
    GroupsUnfold(ring, s, highest);
    var pid := FirstMissing(ring, s, highest);
    var gs, rest := Groups(ring, s, highest), Groups(ring, pid + 17, highest);
    if i == 0 {
      forall j | 0 < j < |gs|
        ensures pid + 17 <= gs[j]
      {
        GroupsAscend(ring, pid + 17, highest, j - 1);
      }
    } else {
      GroupsAscend(ring, pid + 17, highest, i - 1);
    }
  }

  /** Every group names only missing numbers of the scanned range, and two groups never overlap. */
  lemma GroupsNameOnlyMissing(ring: Ring, s: nat, highest: nat, i: nat, n: nat)
    requires i < |Groups(ring, s, highest)|
    ensures var gs := Groups(ring, s, highest);
            && s <= gs[i] <= highest && Missing(ring, gs[i])
            && (GroupNames(ring, highest, gs[i], n) ==> s <= n <= highest && Missing(ring, n) && gs[i] <= n <= gs[i] + 16)
            && (forall j :: i < j < |gs| ==> gs[i] + 17 <= gs[j])
  {
    hide Groups, Missing, GroupNames;
    GroupsAscend(ring, s, highest, i);
    GroupNamesExactly(ring, highest, Groups(ring, s, highest)[i], n);
  }

  /** Every missing number of the scanned range is named by a group. */
  lemma {:induction false} GroupCovering(ring: Ring, s: nat, highest: nat, n: nat) returns (i: nat)
    requires s <= n <= highest && Missing(ring, n)
    ensures i < |Groups(ring, s, highest)| && GroupNames(ring, highest, Groups(ring, s, highest)[i], n)
    decreases highest + 1 - s
  {
    var pid := FirstMissing(ring, s, highest);
    FirstMissingSkipsFilled(ring, s, highest);
    if n <= pid + 16 {
      GroupNamesExactly(ring, highest, pid, n);
      i := 0;
    } else {
      i := GroupCovering(ring, pid + 17, highest, n);
      i := i + 1;
    }
  }

  /** Exactness of one scan: a number of the range is missing if and only if exactly one group names it. */
  lemma ScanExact(ring: Ring, s: nat, highest: nat, n: nat)
    requires s <= n <= highest
    ensures var gs := Groups(ring, s, highest);
            Missing(ring, n) <==>
              exists i :: 0 <= i < |gs| && GroupNames(ring, highest, gs[i], n)
                 && forall j :: 0 <= j < |gs| && GroupNames(ring, highest, gs[j], n) ==> j == i
  {
    var gs := Groups(ring, s, highest);
    if Missing(ring, n) {
      var i := GroupCovering(ring, s, highest, n);
      forall j | 0 <= j < |gs| && GroupNames(ring, highest, gs[j], n)
        ensures j == i
      {
        GroupsNameOnlyMissing(ring, s, highest, i, n);
        GroupsNameOnlyMissing(ring, s, highest, j, n);
      }
    } else if i :| 0 <= i < |gs| && GroupNames(ring, highest, gs[i], n) {
      GroupsNameOnlyMissing(ring, s, highest, i, n);
    }
  }

  /** The groups that are due when the scan starts, as they are sent. */
  function DueNacks(c: Config, ring: Ring, gs: seq<nat>, highest: nat, nowNs: int): seq<Nack> {
    if gs == [] then [] else DueNack(c, ring, gs[0], highest, nowNs) + DueNacks(c, ring, gs[1..], highest, nowNs)
  }

  /** Numbers of one window, lowest first. */
  predicate Ascending(gs: seq<nat>) {
    forall i, j :: 0 <= i < j < |gs| ==> gs[i] < gs[j] < gs[i] + RING_CAP
  }

  lemma {:induction false} BlpAgrees(a: Ring, b: Ring, pid: nat, highest: nat, i: nat)
    requires forall j: nat :: j < RING_CAP ==> a[j].filled == b[j].filled
    ensures BlpFrom(a, pid, highest, i) == BlpFrom(b, pid, highest, i)
    decreases 16 - i
  {
    if i < 16 && pid + 1 + i <= highest { BlpAgrees(a, b, pid, highest, i + 1); }
  }

  /** Marking the groups already handled does not change what is due among the rest. */
  lemma {:induction false} ScanSendsDue(c: Config, a: Ring, ring: Ring, gs: seq<nat>, highest: nat, nowNs: int)
    requires Ascending(gs)
    requires forall i: nat :: i < RING_CAP ==> a[i].filled == ring[i].filled
    requires forall k :: 0 <= k < |gs| ==> a[Idx(gs[k])] == ring[Idx(gs[k])]
    ensures ScanSent(c, a, gs, highest, nowNs) == DueNacks(c, ring, gs, highest, nowNs)
    decreases |gs|
  {
    hide BlpFrom;
    if gs != [] {
      var marked := MarkNacked(c, a, gs[0], nowNs);
      BlpAgrees(a, ring, gs[0], highest, 0);
      forall k | 0 <= k < |gs[1..]|
        ensures marked[Idx(gs[1..][k])] == ring[Idx(gs[1..][k])]
      {
        OtherSlot(gs[0], gs[k + 1]);
      }
      ScanSendsDue(c, marked, ring, gs[1..], highest, nowNs);
    }
  }

  /** The numbers not yet passed fit the ring; unlike Settled, this holds whatever force-skip steps over. */
  predicate InWindow(st: State) { st.highest < st.next + RING_CAP }

  /** A scan sends exactly the groups of the missing numbers that are due, lowest first. */
  lemma {:induction false} ScanSends(c: Config, st: State, nowNs: int)
    requires st.next < st.highest && InWindow(st)
    ensures DetectGaps(c, st, nowNs).nacks
         == st.nacks + DueNacks(c, st.ring, Groups(st.ring, st.next, st.highest), st.highest, nowNs)
  {
    var gs := Groups(st.ring, st.next, st.highest);
    forall i, j | 0 <= i < j < |gs|
      ensures gs[i] < gs[j] < gs[i] + RING_CAP
    {
      GroupsNameOnlyMissing(st.ring, st.next, st.highest, i, 0);
      GroupsNameOnlyMissing(st.ring, st.next, st.highest, j, 0);
    }
    ScanSendsDue(c, st.ring, st.ring, gs, st.highest, nowNs);
  }

  // ----- rate limit over whole runs

  /** Requests for the same number are at least one interval apart, and the slot of a number still
      missing remembers the last one. */
  predicate Paced(c: Config, st: State) {
    PacedParts(c, st.ring, st.next, st.highest, st.nacks)
  }

  predicate PacedParts(c: Config, ring: Ring, next: nat, highest: nat, nacks: seq<Nack>) {
    && (forall i, j :: 0 <= i < j < |nacks| && nacks[i].ext == nacks[j].ext ==>
          nacks[j].atNs - nacks[i].atNs >= c.nackIntervalUs * 1000)
    && (forall i :: 0 <= i < |nacks| ==> nacks[i].ext <= highest && Remembered(c, ring, next, nacks[i]))
  }

  predicate Remembered(c: Config, ring: Ring, next: nat, k: Nack) {
    k.ext >= next && Missing(ring, k.ext) ==>
      var slot := ring[Idx(k.ext)];
      slot.nacked && (slot.firstNackNs == k.atNs || slot.firstNackNs - k.atNs >= c.nackIntervalUs * 1000)
  }

  lemma {:induction false} DrainPaced(c: Config, st: State)
    requires Paced(c, st) && InWindow(st)
    ensures Paced(c, Drain(st))
    decreases FilledSet(st.ring)
  {
    if Held(st, st.next) {
      EmitNextReleases(st);
      assert Idx(st.next) in FilledSet(st.ring);
      var after := EmitNext(st);
      DrainPaced(c, after);
    }
  }

  lemma GiveUpPaced(c: Config, st: State)
    requires Paced(c, st)
    ensures Paced(c, GiveUp(st))
  {
  }

  lemma {:induction false} ForceSkipPaced(c: Config, st: State, count: nat)
    requires Paced(c, st)
    ensures Paced(c, ForceSkip(st, count))
    decreases count
  {
    if count > 0 {
      GiveUpPaced(c, st);
      ForceSkipPaced(c, GiveUp(st), count - 1);
    }
  }

  lemma {:induction false} SweepPaced(c: Config, st: State, nowNs: int)
    requires Paced(c, st) && InWindow(st)
    ensures Paced(c, SweepExpired(c, st, nowNs))
    decreases st.highest + 1 - st.next
  {
    if SweepFires(c, st, nowNs) {
      GiveUpPaced(c, st);
      DrainPaced(c, GiveUp(st));
      DrainAdvances(GiveUp(st));
      SweepPaced(c, Drain(GiveUp(st)), nowNs);
    }
  }

  lemma MarkPaced(c: Config, ring: Ring, next: nat, highest: nat, nacks: seq<Nack>, pid: nat, nowNs: int)
    requires PacedParts(c, ring, next, highest, nacks) && highest < next + RING_CAP && c.nackIntervalUs >= 0
    requires next <= pid <= highest && Missing(ring, pid)
    ensures PacedParts(c, MarkNacked(c, ring, pid, nowNs), next, highest, nacks + DueNack(c, ring, pid, highest, nowNs))
  {
    hide BlpFrom;
    var after := MarkNacked(c, ring, pid, nowNs);
    if NackDue(c, ring[Idx(pid)], nowNs) {
      forall i | 0 <= i < |nacks|
        ensures Remembered(c, after, next, nacks[i])
        ensures nacks[i].ext == pid ==> nowNs - nacks[i].atNs >= c.nackIntervalUs * 1000
      {
        assert Remembered(c, ring, next, nacks[i]);
        if nacks[i].ext >= next && nacks[i].ext != pid { assert Idx(nacks[i].ext) != Idx(pid); }
      }
    }
  }

  lemma {:induction false} ScanPaced(c: Config, ring: Ring, next: nat, highest: nat, nacks: seq<Nack>,
          gs: seq<nat>, nowNs: int)
    requires PacedParts(c, ring, next, highest, nacks) && highest < next + RING_CAP && c.nackIntervalUs >= 0
    requires forall k :: 0 <= k < |gs| ==> next <= gs[k] <= highest && Missing(ring, gs[k])
    ensures PacedParts(c, ScanRing(c, ring, gs, nowNs), next, highest, nacks + ScanSent(c, ring, gs, highest, nowNs))
    decreases |gs|
  {
    if gs == [] {
      assert nacks + ScanSent(c, ring, gs, highest, nowNs) == nacks;
    } else {
      var due, after := DueNack(c, ring, gs[0], highest, nowNs), MarkNacked(c, ring, gs[0], nowNs);
      MarkPaced(c, ring, next, highest, nacks, gs[0], nowNs);
      ScanPaced(c, after, next, highest, nacks + due, gs[1..], nowNs);
      assert nacks + (due + ScanSent(c, after, gs[1..], highest, nowNs))
          == (nacks + due) + ScanSent(c, after, gs[1..], highest, nowNs);
    }
  }

  lemma DetectPaced(c: Config, st: State, nowNs: int)
    requires Paced(c, st) && InWindow(st) && c.nackIntervalUs >= 0
    ensures Paced(c, DetectGaps(c, st, nowNs))
  {
    if st.next < st.highest {
      var gs := Groups(st.ring, st.next, st.highest);
      forall k | 0 <= k < |gs|
        ensures st.next <= gs[k] <= st.highest && Missing(st.ring, gs[k])
      {
        GroupsNameOnlyMissing(st.ring, st.next, st.highest, k, 0);
      }
      ScanPaced(c, st.ring, st.next, st.highest, st.nacks, gs, nowNs);
    }
  }

  lemma InsertPaced(c: Config, st: State, ext: nat, dg: Datagram, nowNs: int)
    requires Paced(c, st) && InWindow(st) && st.next <= ext < st.next + RING_CAP && !Held(st, ext)
    ensures Paced(c, Insert(st, ext, dg, nowNs))
  {
    var after := Insert(st, ext, dg, nowNs);
    forall i | 0 <= i < |st.nacks|
      ensures Remembered(c, after.ring, after.next, st.nacks[i])
    {
      assert Remembered(c, st.ring, st.next, st.nacks[i]);
      if st.nacks[i].ext >= st.next && st.nacks[i].ext != ext { assert Idx(st.nacks[i].ext) != Idx(ext); }
    }
  }

  lemma {:induction false} SweepInWindow(c: Config, st: State, nowNs: int)
    requires InWindow(st)
    ensures InWindow(SweepExpired(c, st, nowNs))
    decreases st.highest + 1 - st.next
  {
    if SweepFires(c, st, nowNs) {
      DrainAdvances(GiveUp(st));
      SweepInWindow(c, Drain(GiveUp(st)), nowNs);
    }
  }

  lemma SamePaced(c: Config, st: State, after: State)
    requires Paced(c, st)
    requires after.ring == st.ring && after.next == st.next && after.highest == st.highest && after.nacks == st.nacks
    ensures Paced(c, after)
  {
  }

  lemma SettlePaced(c: Config, st: State, nowNs: int)
    requires InWindow(st) && Paced(c, st) && c.nackIntervalUs >= 0
    ensures Paced(c, Settle(c, st, nowNs)) && InWindow(Settle(c, st, nowNs))
  {
    hide Paced, Drain, SweepExpired;
    var drained := Drain(st);
    DrainAdvances(st);
    DrainPaced(c, st);
    var scanned := DetectGaps(c, drained, nowNs);
    DetectPaced(c, drained, nowNs);
    SweepPaced(c, scanned, nowNs);
    SweepInWindow(c, scanned, nowNs);
    SamePaced(c, SweepExpired(c, scanned, nowNs), Settle(c, st, nowNs));
  }

  lemma AcceptPaced(c: Config, st: State, ext: nat, dg: Datagram, nowNs: int)
    requires ext >= st.next && InWindow(st) && Paced(c, st) && c.nackIntervalUs >= 0
    ensures Paced(c, Accept(c, st, ext, dg, nowNs)) && InWindow(Accept(c, st, ext, dg, nowNs))
  {
    hide Settle, Paced;
    var room := MakeRoom(st, ext);
    if ext - st.next >= RING_CAP {
      ForceSkipPaced(c, st, ext - st.next - (RING_CAP - 1));
      ForceSkipMoves(st, ext - st.next - (RING_CAP - 1));
    }
    if Held(room, ext) {
      SamePaced(c, room, Accept(c, st, ext, dg, nowNs));
    } else {
      InsertPaced(c, room, ext, dg, nowNs);
      SettlePaced(c, Insert(room, ext, dg, nowNs), nowNs);
    }
  }

  lemma StepPaced(c: Config, st: State, input: Input)
    requires st.seenFirst && InWindow(st) && Paced(c, st) && c.nackIntervalUs >= 0
    ensures Paced(c, Step(c, st, input)) && InWindow(Step(c, st, input))
  {
    hide Accept, Paced, SweepExpired;
    match input
    case TickAt(nowNs) =>
      var swept := SweepExpired(c, st, nowNs);
      SweepPaced(c, st, nowNs);
      SweepInWindow(c, st, nowNs);
      DetectPaced(c, swept, nowNs);
      SamePaced(c, DetectGaps(c, swept, nowNs), Step(c, st, input));
    case Arrive(_, dg, clockNs) =>
      if WellFormed(dg) {
        var ext := ToExtSeq(st.highest, SeqOf(dg));
        if ext < st.next {
          SamePaced(c, st, DropOld(st, ext));
        } else {
          AcceptPaced(c, st, ext, dg, ReceiveTime(dg, clockNs));
        }
      }
  }

  /** Rate limit, for every run whatsoever: two requests for the same number are an interval apart. */
  lemma {:induction false} RunPaced(c: Config, h: seq<Input>)
    requires c.nackIntervalUs >= 0
    ensures Paced(c, Run(c, h)) && InWindow(Run(c, h))
  {
    hide Step;
    if h != [] {
      var before, last := h[..|h| - 1], h[|h| - 1];
      RunPaced(c, before);
      RunLedger(c, before);
      if FirstNumber(before).Some? {
        StepPaced(c, Run(c, before), last);
      } else if last.Arrive? && WellFormed(last.dg) {
        NothingAskedYet(c, last);
      } else {
        IdleStep(c, last);
      }
    }
  }

  lemma NothingAskedYet(c: Config, input: Input)
    requires input.Arrive? && WellFormed(input.dg)
    ensures Paced(c, Step(c, INITIAL, input)) && InWindow(Step(c, INITIAL, input))
  {
    assert Step(c, INITIAL, input) == Bootstrap(INITIAL, input.dg);
  }

  // ----- every call asks for what is missing

  /** A slot marked as requested belongs to no datagram, and to a request made at the time it remembers. */
  predicate Recorded(ring: Ring, nacks: seq<Nack>) {
    forall i: nat :: i < RING_CAP && ring[i].nacked ==> !ring[i].filled && RecordedAt(nacks, i, ring[i].firstNackNs)
  }

  predicate RecordedAt(nacks: seq<Nack>, i: nat, atNs: int) {
    exists k :: 0 <= k < |nacks| && Idx(nacks[k].ext) == i && nacks[k].atNs == atNs
  }

  lemma RecordedOn(ring: Ring, nacks: seq<Nack>, more: seq<Nack>)
    requires Recorded(ring, nacks)
    ensures Recorded(ring, nacks + more)
  {
    var all := nacks + more;
    forall i: nat | i < RING_CAP && ring[i].nacked
      ensures RecordedAt(all, i, ring[i].firstNackNs)
    {
      var k :| 0 <= k < |nacks| && Idx(nacks[k].ext) == i && nacks[k].atNs == ring[i].firstNackNs;
      assert all[k] == nacks[k];
    }
  }

  lemma MarkRecorded(c: Config, ring: Ring, nacks: seq<Nack>, pid: nat, highest: nat, nowNs: int)
    requires Recorded(ring, nacks) && Missing(ring, pid)
    ensures Recorded(MarkNacked(c, ring, pid, nowNs), nacks + DueNack(c, ring, pid, highest, nowNs))
  {
    hide BlpFrom;
    var due := DueNack(c, ring, pid, highest, nowNs);
    RecordedOn(ring, nacks, due);
    if due != [] {
      var all := nacks + due;
      assert all[|nacks|] == due[0];
      assert RecordedAt(all, Idx(pid), nowNs);
    }
  }

  lemma {:induction false} ScanRecorded(c: Config, ring: Ring, nacks: seq<Nack>, gs: seq<nat>, highest: nat, nowNs: int)
    requires Recorded(ring, nacks) && forall k :: 0 <= k < |gs| ==> Missing(ring, gs[k])
    ensures Recorded(ScanRing(c, ring, gs, nowNs), nacks + ScanSent(c, ring, gs, highest, nowNs))
    decreases |gs|
  {
    hide Recorded, DueNack, MarkNacked;
    if gs == [] {
      assert nacks + ScanSent(c, ring, gs, highest, nowNs) == nacks;
    } else {
      var due, after := DueNack(c, ring, gs[0], highest, nowNs), MarkNacked(c, ring, gs[0], nowNs);
      MarkRecorded(c, ring, nacks, gs[0], highest, nowNs);
      MarkKeepsMissing(c, ring, gs[0], nowNs);
      ScanRecorded(c, after, nacks + due, gs[1..], highest, nowNs);
      assert nacks + (due + ScanSent(c, after, gs[1..], highest, nowNs))
          == (nacks + due) + ScanSent(c, after, gs[1..], highest, nowNs);
    }
  }

  lemma MarkKeepsMissing(c: Config, ring: Ring, pid: nat, nowNs: int)
    ensures forall n :: Missing(MarkNacked(c, ring, pid, nowNs), n) == Missing(ring, n)
  {
  }

  lemma GroupsMissing(ring: Ring, s: nat, highest: nat)
    ensures forall k :: 0 <= k < |Groups(ring, s, highest)| ==> Missing(ring, Groups(ring, s, highest)[k])
  {
    hide Groups, Missing;
    forall k | 0 <= k < |Groups(ring, s, highest)|
      ensures Missing(ring, Groups(ring, s, highest)[k])
    {
      GroupsAscend(ring, s, highest, k);
    }
  }

  lemma DetectRecorded(c: Config, st: State, nowNs: int)
    requires Recorded(st.ring, st.nacks)
    ensures Recorded(DetectGaps(c, st, nowNs).ring, DetectGaps(c, st, nowNs).nacks)
  {
    hide Recorded, Groups;
    if st.next < st.highest {
      GroupsMissing(st.ring, st.next, st.highest);
      ScanRecorded(c, st.ring, st.nacks, Groups(st.ring, st.next, st.highest), st.highest, nowNs);
    }
  }

  lemma {:induction false} DrainRecorded(st: State)
    requires Recorded(st.ring, st.nacks)
    ensures Recorded(Drain(st).ring, Drain(st).nacks) && Drain(st).nacks == st.nacks
    decreases FilledSet(st.ring)
  {
    if Held(st, st.next) {
      EmitNextReleases(st);
      assert Idx(st.next) in FilledSet(st.ring);
      DrainRecorded(EmitNext(st));
    }
  }

  lemma {:induction false} SweepRecorded(c: Config, st: State, nowNs: int)
    requires Recorded(st.ring, st.nacks)
    ensures Recorded(SweepExpired(c, st, nowNs).ring, st.nacks) && SweepExpired(c, st, nowNs).nacks == st.nacks
    decreases st.highest + 1 - st.next
  {
    hide Recorded;
    if SweepFires(c, st, nowNs) {
      DrainRecorded(GiveUp(st));
      DrainAdvances(GiveUp(st));
      SweepRecorded(c, Drain(GiveUp(st)), nowNs);
    }
  }

  lemma {:induction false} ForceSkipAsksNothing(st: State, count: nat)
    ensures ForceSkip(st, count).nacks == st.nacks
    decreases count
  {
    if count > 0 { ForceSkipAsksNothing(GiveUp(st), count - 1); }
  }

  /** A request that shares the slot of `pid`, for `pid` itself or whole ring cycles older, was made less than an
      interval ago. */
  predicate HeldBack(c: Config, nacks: seq<Nack>, pid: nat, nowNs: int) {
    exists k :: 0 <= k < |nacks| && Idx(nacks[k].ext) == Idx(pid) && nacks[k].ext <= pid
      && nowNs - nacks[k].atNs < c.nackIntervalUs * 1000
  }

  /** The request means what section 6.2.1 of RFC 4585 says: its pid, and bit i for pid + 1 + i. */
  ghost predicate Says(ring: Ring, next: nat, highest: nat, k: Nack, nowNs: int) {
    && k.pid == k.ext % TWO_16 && k.atNs == nowNs && next <= k.ext <= highest
    && forall n: nat :: Names(k.ext, k.blp, n) <==> k.ext <= n <= k.ext + 16 && n <= highest && Missing(ring, n)
  }

  /** Some request names `n`. */
  predicate Named(nacks: seq<Nack>, n: nat) { exists k :: 0 <= k < |nacks| && Names(nacks[k].ext, nacks[k].blp, n) }

  /** Its group was asked for less than an interval ago. */
  predicate Waived(c: Config, ring: Ring, next: nat, past: seq<Nack>, n: nat, nowNs: int) {
    exists pid: nat :: next <= pid <= n <= pid + 16 && Missing(ring, pid) && HeldBack(c, past, pid, nowNs)
  }

  /** The requests `sent` say what they should, do not overlap, and leave no missing number out whose group was
      not asked for less than an interval ago. */
  ghost predicate Asks(c: Config, ring: Ring, next: nat, highest: nat, past: seq<Nack>, sent: seq<Nack>, nowNs: int) {
    && (forall k :: 0 <= k < |sent| ==> Says(ring, next, highest, sent[k], nowNs))
    && (forall i, j :: 0 <= i < j < |sent| ==> sent[i].ext + 17 <= sent[j].ext)
    && (forall n: nat :: next <= n <= highest && Missing(ring, n) ==> Named(sent, n) || Waived(c, ring, next, past, n, nowNs))
  }

  function Request(ring: Ring, pid: nat, highest: nat, nowNs: int): Nack {
    Nack(pid % TWO_16, BlpFrom(ring, pid, highest, 0), pid, nowNs)
  }

  /** Every request sent is that of a group. */
  lemma {:induction false} SentIsDue(c: Config, ring: Ring, gs: seq<nat>, highest: nat, nowNs: int, k: nat) returns (i: nat)
    requires k < |DueNacks(c, ring, gs, highest, nowNs)|
    ensures k <= i < |gs| && DueNacks(c, ring, gs, highest, nowNs)[k] == Request(ring, gs[i], highest, nowNs)
    decreases |gs|
  {
    hide BlpFrom;
    var due := DueNack(c, ring, gs[0], highest, nowNs);
    if k < |due| {
      i := 0;
    } else {
      i := SentIsDue(c, ring, gs[1..], highest, nowNs, k - |due|);
      i := i + 1;
    }
  }

  /** And later ones are those of later groups. */
  lemma {:induction false} SentAscend(c: Config, ring: Ring, gs: seq<nat>, highest: nat, nowNs: int, j: nat, k: nat)
    requires j < k < |DueNacks(c, ring, gs, highest, nowNs)|
    requires forall a, b :: 0 <= a < b < |gs| ==> gs[a] + 17 <= gs[b]
    ensures var sent := DueNacks(c, ring, gs, highest, nowNs); sent[j].ext + 17 <= sent[k].ext
    decreases |gs|
  {
    hide BlpFrom;
    var due := DueNack(c, ring, gs[0], highest, nowNs);
    if j < |due| {
      var i := SentIsDue(c, ring, gs[1..], highest, nowNs, k - |due|);
      assert gs[1..][i] == gs[i + 1];
    } else {
      SentAscend(c, ring, gs[1..], highest, nowNs, j - |due|, k - |due|);
    }
  }

  /** The request of a due group is sent. */
  lemma {:induction false} DueIsSent(c: Config, ring: Ring, gs: seq<nat>, highest: nat, nowNs: int, i: nat) returns (k: nat)
    requires i < |gs| && NackDue(c, ring[Idx(gs[i])], nowNs)
    ensures k < |DueNacks(c, ring, gs, highest, nowNs)|
    ensures DueNacks(c, ring, gs, highest, nowNs)[k] == Request(ring, gs[i], highest, nowNs)
    decreases |gs|
  {
    hide BlpFrom;
    if i == 0 {
      k := 0;
    } else {
      k := DueIsSent(c, ring, gs[1..], highest, nowNs, i - 1);
      k := k + |DueNack(c, ring, gs[0], highest, nowNs)|;
    }
  }

  lemma RequestSays(ring: Ring, next: nat, highest: nat, pid: nat, nowNs: int)
    requires next <= pid <= highest && Missing(ring, pid)
    ensures Says(ring, next, highest, Request(ring, pid, highest, nowNs), nowNs)
  {
    hide Missing, Names;
    var k := Request(ring, pid, highest, nowNs);
    forall n: nat
      ensures Names(k.ext, k.blp, n) <==> k.ext <= n <= k.ext + 16 && n <= highest && Missing(ring, n)
    {
      GroupNamesExactly(ring, highest, pid, n);
    }
  }

  lemma MissingIsAsked(c: Config, st: State, nowNs: int, n: nat)
    requires InWindow(st) && Recorded(st.ring, st.nacks) && (forall k :: 0 <= k < |st.nacks| ==> st.nacks[k].ext <= st.highest)
    requires st.next <= n <= st.highest && Missing(st.ring, n)
    ensures Named(DueNacks(c, st.ring, Groups(st.ring, st.next, st.highest), st.highest, nowNs), n)
         || Waived(c, st.ring, st.next, st.nacks, n, nowNs)
  {
    hide Groups, BlpFrom, Names, GroupNames, Missing;
    var gs := Groups(st.ring, st.next, st.highest);
    var i := GroupCovering(st.ring, st.next, st.highest, n);
    GroupsNameOnlyMissing(st.ring, st.next, st.highest, i, n);
    var pid := gs[i];
    if NackDue(c, st.ring[Idx(pid)], nowNs) {
      var k := DueIsSent(c, st.ring, gs, st.highest, nowNs, i);
      GroupNamed(st.ring, st.highest, pid, n, nowNs);
    } else {
      SlotHeldBack(c, st, pid, nowNs);
    }
  }

  lemma GroupNamed(ring: Ring, highest: nat, pid: nat, n: nat, nowNs: int)
    requires GroupNames(ring, highest, pid, n)
    ensures var k := Request(ring, pid, highest, nowNs); Names(k.ext, k.blp, n)
  {
  }

  lemma SlotHeldBack(c: Config, st: State, pid: nat, nowNs: int)
    requires InWindow(st) && Recorded(st.ring, st.nacks) && (forall k :: 0 <= k < |st.nacks| ==> st.nacks[k].ext <= st.highest)
    requires st.next <= pid && !NackDue(c, st.ring[Idx(pid)], nowNs)
    ensures HeldBack(c, st.nacks, pid, nowNs)
  {
    var k :| 0 <= k < |st.nacks| && Idx(st.nacks[k].ext) == Idx(pid) && st.nacks[k].atNs == st.ring[Idx(pid)].firstNackNs;
    if st.nacks[k].ext > pid { OtherSlot(pid, st.nacks[k].ext); }
  }

  /** One scan asks. */
  lemma DetectAsks(c: Config, st: State, nowNs: int)
    requires InWindow(st) && Recorded(st.ring, st.nacks) && (forall k :: 0 <= k < |st.nacks| ==> st.nacks[k].ext <= st.highest)
    requires st.next < st.highest
    ensures var sent := DueNacks(c, st.ring, Groups(st.ring, st.next, st.highest), st.highest, nowNs);
            && DetectGaps(c, st, nowNs).nacks == st.nacks + sent
            && Asks(c, st.ring, st.next, st.highest, st.nacks, sent, nowNs)
  {
    hide Groups, BlpFrom, Says, Named, Waived, DueNacks, Missing, Recorded;
    var gs := Groups(st.ring, st.next, st.highest);
    var sent := DueNacks(c, st.ring, gs, st.highest, nowNs);
    ScanSends(c, st, nowNs);
    forall a, b | 0 <= a < b < |gs|
      ensures gs[a] + 17 <= gs[b]
    {
      GroupsAscend(st.ring, st.next, st.highest, a);
    }
    forall k | 0 <= k < |sent|
      ensures Says(st.ring, st.next, st.highest, sent[k], nowNs)
    {
      var i := SentIsDue(c, st.ring, gs, st.highest, nowNs, k);
      GroupsAscend(st.ring, st.next, st.highest, i);
      RequestSays(st.ring, st.next, st.highest, gs[i], nowNs);
    }
    forall j, k | 0 <= j < k < |sent|
      ensures sent[j].ext + 17 <= sent[k].ext
    {
      SentAscend(c, st.ring, gs, st.highest, nowNs, j, k);
    }
    forall n: nat | st.next <= n <= st.highest && Missing(st.ring, n)
      ensures Named(sent, n) || Waived(c, st.ring, st.next, st.nacks, n, nowNs)
    {
      MissingIsAsked(c, st, nowNs, n);
    }
  }

  /** When nothing was asked for recently, a number of the range is missing if and only if exactly one of the
      requests sent names it. */
  lemma AllDueExact(c: Config, ring: Ring, next: nat, highest: nat, past: seq<Nack>, sent: seq<Nack>, nowNs: int, n: nat)
    requires Asks(c, ring, next, highest, past, sent, nowNs) && next <= n <= highest
    requires forall pid: nat :: next <= pid <= highest && Missing(ring, pid) ==> !HeldBack(c, past, pid, nowNs)
    ensures Missing(ring, n) <==>
              exists k :: 0 <= k < |sent| && Names(sent[k].ext, sent[k].blp, n)
                 && forall j :: 0 <= j < |sent| && Names(sent[j].ext, sent[j].blp, n) ==> j == k
  {
    hide Names, Missing, HeldBack;
    forall k | 0 <= k < |sent| && Names(sent[k].ext, sent[k].blp, n)
      ensures Missing(ring, n)
    {
      assert Says(ring, next, highest, sent[k], nowNs);
    }
    if Missing(ring, n) {
      assert !Waived(c, ring, next, past, n, nowNs);
      var k :| 0 <= k < |sent| && Names(sent[k].ext, sent[k].blp, n);
      forall j | 0 <= j < |sent| && Names(sent[j].ext, sent[j].blp, n)
        ensures j == k
      {
        assert Says(ring, next, highest, sent[j], nowNs) && Says(ring, next, highest, sent[k], nowNs);
      }
    }
  }

  /** What a call adds to the requests, given the state it has reached when it looks for gaps. */
  ghost predicate AsksAt(c: Config, at: State, past: seq<Nack>, nacks: seq<Nack>, nowNs: int) {
    && past <= nacks
    && if at.next < at.highest then Asks(c, at.ring, at.next, at.highest, past, nacks[|past|..], nowNs) else nacks == past
  }

  lemma DetectAsksAt(c: Config, st: State, nowNs: int)
    requires InWindow(st) && Recorded(st.ring, st.nacks) && (forall k :: 0 <= k < |st.nacks| ==> st.nacks[k].ext <= st.highest)
    ensures AsksAt(c, st, st.nacks, DetectGaps(c, st, nowNs).nacks, nowNs)
  {
    hide Asks, Recorded, DueNacks, Groups;
    if st.next < st.highest {
      DetectAsks(c, st, nowNs);
      var sent := DueNacks(c, st.ring, Groups(st.ring, st.next, st.highest), st.highest, nowNs);
      assert (st.nacks + sent)[|st.nacks|..] == sent;
    }
  }

  /** What every run keeps for the requests. */
  predicate Asking(c: Config, st: State) {
    InWindow(st) && Paced(c, st) && Recorded(st.ring, st.nacks)
  }

  lemma PacedBound(c: Config, st: State)
    requires Paced(c, st)
    ensures forall k :: 0 <= k < |st.nacks| ==> st.nacks[k].ext <= st.highest
  {
  }

  lemma InsertRecorded(st: State, ext: nat, dg: Datagram, nowNs: int)
    requires Recorded(st.ring, st.nacks) && !Held(st, ext)
    ensures Recorded(Insert(st, ext, dg, nowNs).ring, st.nacks) && Insert(st, ext, dg, nowNs).nacks == st.nacks
  {
  }

  /** The state in which a datagram that is filed leaves the buffer before it looks for gaps. */
  function FiledAndDrained(st: State, ext: nat, dg: Datagram, nowNs: int): State
    requires ext >= st.next && !Held(MakeRoom(st, ext), ext)
  {
    Drain(Insert(MakeRoom(st, ext), ext, dg, nowNs))
  }

  lemma FiledIsAsking(c: Config, st: State, ext: nat, dg: Datagram, nowNs: int)
    requires Asking(c, st) && ext >= st.next && !Held(MakeRoom(st, ext), ext)
    ensures var d := FiledAndDrained(st, ext, dg, nowNs);
            Asking(c, d) && d.nacks == st.nacks
  {
    hide Paced, Recorded, Drain;
    var room := MakeRoom(st, ext);
    if ext - st.next >= RING_CAP {
      ForceSkipPaced(c, st, ext - st.next - (RING_CAP - 1));
      ForceSkipMoves(st, ext - st.next - (RING_CAP - 1));
      ForceSkipAsksNothing(st, ext - st.next - (RING_CAP - 1));
    }
    InsertPaced(c, room, ext, dg, nowNs);
    InsertRecorded(room, ext, dg, nowNs);
    var filed := Insert(room, ext, dg, nowNs);
    DrainPaced(c, filed);
    DrainAdvances(filed);
    DrainRecorded(filed);
  }

  /** What the call does to the requests, from any state of a run. */
  ghost predicate CallAsksFrom(c: Config, st: State, after: State, input: Input) {
    match input
    case TickAt(nowNs) => AsksAt(c, SweepExpired(c, st, nowNs), st.nacks, after.nacks, nowNs)
    case Arrive(_, dg, clockNs) =>
      if !WellFormed(dg) || !st.seenFirst then after.nacks == st.nacks
      else
        var ext, nowNs := ToExtSeq(st.highest, SeqOf(dg)), ReceiveTime(dg, clockNs);
        if ext < st.next || Held(MakeRoom(st, ext), ext) then after.nacks == st.nacks
        else AsksAt(c, FiledAndDrained(st, ext, dg, nowNs), st.nacks, after.nacks, nowNs)
  }

  lemma SettleAsks(c: Config, d: State, nowNs: int)
    requires Asking(c, d) && c.nackIntervalUs >= 0
    ensures var s := SweepExpired(c, DetectGaps(c, d, nowNs), nowNs);
            AsksAt(c, d, d.nacks, s.nacks, nowNs) && Recorded(s.ring, s.nacks)
  {
    hide Recorded, Paced, AsksAt, DetectGaps, SweepExpired;
    PacedBound(c, d);
    DetectAsksAt(c, d, nowNs);
    DetectRecorded(c, d, nowNs);
    SweepRecorded(c, DetectGaps(c, d, nowNs), nowNs);
  }

  lemma StepAsks(c: Config, st: State, input: Input)
    requires st.seenFirst && Asking(c, st) && c.nackIntervalUs >= 0
    ensures CallAsksFrom(c, st, Step(c, st, input), input)
    ensures Recorded(Step(c, st, input).ring, Step(c, st, input).nacks)
  {
    hide Recorded, Paced, AsksAt, DetectGaps, SweepExpired, Drain, Insert;
    match input
    case TickAt(nowNs) =>
      var swept := SweepExpired(c, st, nowNs);
      SweepPaced(c, st, nowNs);
      SweepInWindow(c, st, nowNs);
      SweepRecorded(c, st, nowNs);
      PacedBound(c, swept);
      DetectAsksAt(c, swept, nowNs);
      DetectRecorded(c, swept, nowNs);
    case Arrive(_, dg, clockNs) =>
      if WellFormed(dg) {
        var ext, nowNs := ToExtSeq(st.highest, SeqOf(dg)), ReceiveTime(dg, clockNs);
        if ext >= st.next {
          if ext - st.next >= RING_CAP {
            ForceSkipMoves(st, ext - st.next - (RING_CAP - 1));
            ForceSkipAsksNothing(st, ext - st.next - (RING_CAP - 1));
          }
          if !Held(MakeRoom(st, ext), ext) {
            FiledIsAsking(c, st, ext, dg, nowNs);
            SettleAsks(c, FiledAndDrained(st, ext, dg, nowNs), nowNs);
          }
        }
      }
  }

  lemma {:induction false} RunAsking(c: Config, h: seq<Input>)
    requires c.nackIntervalUs >= 0
    ensures Asking(c, Run(c, h))
  {
    hide Step, Recorded, Paced;
    RunPaced(c, h);
    if h == [] {
      NothingRecorded(INITIAL);
    } else {
      var before, last := h[..|h| - 1], h[|h| - 1];
      RunAsking(c, before);
      RunLedger(c, before);
      if FirstNumber(before).Some? {
        StepAsks(c, Run(c, before), last);
      } else {
        FirstAsksNothing(c, last);
        NothingRecorded(Step(c, INITIAL, last));
      }
    }
  }

  lemma NothingRecorded(st: State)
    requires st.ring == EmptyRing()
    ensures Recorded(st.ring, st.nacks)
  {
  }

  lemma FirstAsksNothing(c: Config, input: Input)
    ensures var st := Step(c, INITIAL, input);
            st.ring == EmptyRing() && st.nacks == [] && CallAsksFrom(c, INITIAL, st, input)
  {
    if input.Arrive? && WellFormed(input.dg) {
      assert Step(c, INITIAL, input) == Bootstrap(INITIAL, input.dg);
    } else {
      IdleStep(c, input);
    }
  }

  /**
   Main result: every call of every run asks for what is missing.  After a call that files a datagram, every
   number missing between the next and the highest one that the drain leaves is named by a request added in
   that call, unless its group was asked for less than an interval before; a tick does the same for what its
   sweep leaves.  Each request says exactly which numbers are missing.  Other calls ask for nothing.
   */
  lemma CallAsks(c: Config, h: seq<Input>, input: Input)
    requires c.nackIntervalUs >= 0
    ensures CallAsksFrom(c, Run(c, h), Run(c, h + [input]), input)
  {
    hide Step, CallAsksFrom, Recorded, Paced;
    RunSnoc(c, h, input);
    RunAsking(c, h);
    RunLedger(c, h);
    if FirstNumber(h).Some? { StepAsks(c, Run(c, h), input); } else { FirstAsksNothing(c, input); }
  }
}
