/**
 Functional form of the video jitter buffer (jitter_buffer_video.cpp): one function per
 operation on an immutable state.  The class in JitterBuffer.dfy is proved equal to these
 functions; what they mean over whole runs is proved in JitterTrace.dfy and JitterNack.dfy.
 */
module Jitter {
  import opened Common

  const RING_CAP: nat := 256

  datatype Datagram = Datagram(arrivalNs: int, bytes: seq<byte>)

  const NO_DATAGRAM := Datagram(0, [])

  /** A datagram shorter than the fixed RTP header is ignored. */
  predicate WellFormed(dg: Datagram) { |dg.bytes| >= 12 }

  /** The 16-bit RTP sequence number (bytes 2 and 3, big-endian). */
  function SeqOf(dg: Datagram): (s: nat)
    requires WellFormed(dg)
    ensures s < TWO_16
  {
    U16(dg.bytes[2], dg.bytes[3])
  }

  /** `ext` is the extended number the slot was filled for.  The source does not store it;
      it is carried here only so that properties can speak of it. */
  datatype Slot = Slot(filled: bool, nacked: bool, arrivalNs: int, firstNackNs: int, ext: nat, dg: Datagram)

  const EMPTY_SLOT := Slot(false, false, 0, 0, 0, NO_DATAGRAM)

  type Ring = r: seq<Slot> | |r| == RING_CAP witness seq(RING_CAP, i => EMPTY_SLOT)

  /** The emit and loss callbacks, in the order made. */
  datatype Delivery = Emit(ext: nat, dg: Datagram) | Loss(seq16: nat)

  /** A call of the NACK callback.  `ext` and `atNs` (the extended pid and the time) are for properties only. */
  datatype Nack = Nack(pid: nat, blp: nat, ext: nat, atNs: int)

  datatype State = State(ring: Ring, seenFirst: bool, next: nat, highest: nat,
                         emits: nat, lateDrops: nat, duplicateDrops: nat, expiredGaps: nat,
                         nacksSent: nat, reorderEvents: nat, pending: int, maxPending: int,
                         delivered: seq<Delivery>, nacks: seq<Nack>)

  datatype Config = Config(dwellUs: int, nackIntervalUs: int)

  function Idx(n: nat): (i: nat)
    ensures i < RING_CAP
  {
    n % RING_CAP
  }

  predicate Held(st: State, n: nat) { st.ring[Idx(n)].filled }

  // ----- sequence number extension

  /** The difference of two 16-bit numbers read as a signed 16-bit number. */
  function Delta16(seq16: nat, ref16: nat): (d: int)
    requires seq16 < TWO_16 && ref16 < TWO_16
    ensures -32768 <= d <= 32767
    ensures (ref16 + d - seq16) % TWO_16 == 0
  {
    var u := (seq16 - ref16) % TWO_16;
    if u < 32768 then u else u - TWO_16
  }

  /** to_ext_seq: the result is cast back to 32 unsigned bits. */
  function ToExtSeq(highest: nat, seq16: nat): (ext: nat)
    requires seq16 < TWO_16
  {
    (highest + Delta16(seq16, highest % TWO_16)) % TWO_32
  }

  // ----- drain

  function FilledSet(ring: Ring): set<nat> { set i: nat | i < RING_CAP && ring[i].filled }

  /** Hand over the datagram in the slot of `next` and release the slot. */
  function EmitNext(st: State): State
    requires Held(st, st.next)
  {
    var s := st.ring[Idx(st.next)];
    st.(ring := st.ring[Idx(st.next) := EMPTY_SLOT],
        next := st.next + 1,
        emits := st.emits + 1, pending := st.pending - 1,
        delivered := st.delivered + [Emit(s.ext, s.dg)])
  }

  lemma EmitNextReleases(st: State)
    requires Held(st, st.next)
    ensures FilledSet(EmitNext(st).ring) == FilledSet(st.ring) - {Idx(st.next)}
  {
  }

  function Drain(st: State): State
    decreases FilledSet(st.ring)
  {
    if !Held(st, st.next) then st
    else
      EmitNextReleases(st);
      assert Idx(st.next) in FilledSet(st.ring);
      Drain(EmitNext(st))
  }

  // ----- giving up on a missing number

  /** Report `next` lost and step over it. */
  function GiveUp(st: State): State {
    st.(next := st.next + 1,
        expiredGaps := st.expiredGaps + 1,
        delivered := st.delivered + [Loss(st.next % TWO_16)])
  }

  function ForceSkip(st: State, count: nat): State
    decreases count
  {
    if count == 0 then st else ForceSkip(GiveUp(st), count - 1)
  }

  /** The earliest arrival among the filled slots of `s..highest`; 0 means none. */
  function Earliest(ring: Ring, s: nat, highest: nat, acc: int): int
    decreases highest + 1 - s
  {
    if s > highest then acc
    else
      var q := ring[Idx(s)];
      Earliest(ring, s + 1, highest, if q.filled && (acc == 0 || q.arrivalNs < acc) then q.arrivalNs else acc)
  }

  predicate SweepFires(c: Config, st: State, nowNs: int) {
    && st.next < st.highest + 1
    && !Held(st, st.next)
    && var e := Earliest(st.ring, st.next + 1, st.highest, 0);
       e != 0 && nowNs - e >= c.dwellUs * 1000
  }

  lemma DrainAdvances(st: State)
    ensures Drain(st).next >= st.next
    ensures Drain(st).highest == st.highest && Drain(st).seenFirst == st.seenFirst
    decreases FilledSet(st.ring)
  {
    if Held(st, st.next) {
      EmitNextReleases(st);
      assert Idx(st.next) in FilledSet(st.ring);
      DrainAdvances(EmitNext(st));
    }
  }

  function SweepExpired(c: Config, st: State, nowNs: int): State
    decreases st.highest + 1 - st.next
  {
    if !SweepFires(c, st, nowNs) then st
    else
      DrainAdvances(GiveUp(st));
      SweepExpired(c, Drain(GiveUp(st)), nowNs)
  }

  // ----- NACK scan

  function FirstMissing(ring: Ring, s: nat, highest: nat): (m: nat)
    ensures s <= m
    decreases highest + 1 - s
  {
    if s <= highest && ring[Idx(s)].filled then FirstMissing(ring, s + 1, highest) else s
  }

  /** The BLP bits i, i+1, ..., 15 of the group that starts at `pid`, least significant first. */
  function BlpFrom(ring: Ring, pid: nat, highest: nat, i: nat): nat
    decreases 16 - i
  {
    if i >= 16 || pid + 1 + i > highest then 0
    else (if ring[Idx(pid + 1 + i)].filled then 0 else 1) + 2 * BlpFrom(ring, pid, highest, i + 1)
  }

  predicate NackDue(c: Config, slot: Slot, nowNs: int) {
    !slot.nacked || nowNs - slot.firstNackNs >= c.nackIntervalUs * 1000
  }

  /** The request for the group at `pid`, unless it was made too recently. */
  function DueNack(c: Config, ring: Ring, pid: nat, highest: nat, nowNs: int): seq<Nack> {
    if NackDue(c, ring[Idx(pid)], nowNs)
    then [Nack(pid % TWO_16, BlpFrom(ring, pid, highest, 0), pid, nowNs)] else []
  }

  /** Remember the time of that request in the slot of `pid`. */
  function MarkNacked(c: Config, ring: Ring, pid: nat, nowNs: int): Ring {
    var slot := ring[Idx(pid)];
    if NackDue(c, slot, nowNs) then ring[Idx(pid) := slot.(nacked := true, firstNackNs := nowNs)] else ring
  }

  /** The pids of the groups of a scan from `s` on: each group spans its pid and the next 16 numbers. */
  function Groups(ring: Ring, s: nat, highest: nat): seq<nat>
    decreases highest + 1 - s
  {
    var pid := FirstMissing(ring, s, highest);
    if pid > highest then [] else [pid] + Groups(ring, pid + 17, highest)
  }

  /** The requests made for the groups `gs`, one after the other. */
  function ScanSent(c: Config, ring: Ring, gs: seq<nat>, highest: nat, nowNs: int): seq<Nack>
    decreases |gs|
  {
    if gs == [] then []
    else DueNack(c, ring, gs[0], highest, nowNs) + ScanSent(c, MarkNacked(c, ring, gs[0], nowNs), gs[1..], highest, nowNs)
  }

  /** The ring after those requests. */
  function ScanRing(c: Config, ring: Ring, gs: seq<nat>, nowNs: int): Ring
    decreases |gs|
  {
    if gs == [] then ring else ScanRing(c, MarkNacked(c, ring, gs[0], nowNs), gs[1..], nowNs)
  }

  function NackScan(c: Config, st: State, nowNs: int): State {
    var gs := Groups(st.ring, st.next, st.highest);
    var sent := ScanSent(c, st.ring, gs, st.highest, nowNs);
    st.(ring := ScanRing(c, st.ring, gs, nowNs), nacksSent := st.nacksSent + |sent|, nacks := st.nacks + sent)
  }

  function DetectGaps(c: Config, st: State, nowNs: int): State {
    if st.next >= st.highest then st else NackScan(c, st, nowNs)
  }

  // ----- entry points

  function UpdatePending(st: State): State {
    if st.pending > st.maxPending
    then st.(maxPending := st.pending) else st
  }

  /** The time a datagram counts as received: its own stamp, or the clock when it has none. */
  function ReceiveTime(dg: Datagram, clockNs: int): (t: int)
    ensures t == dg.arrivalNs || (dg.arrivalNs == 0 && t == clockNs)
  {
    if dg.arrivalNs != 0 then dg.arrivalNs else clockNs
  }

  function Bootstrap(st: State, dg: Datagram): State
    requires WellFormed(dg)
  {
    st.(seenFirst := true, next := SeqOf(dg) + 1, highest := SeqOf(dg),
        emits := st.emits + 1,
        delivered := st.delivered + [Emit(SeqOf(dg), dg)])
  }

  function DropOld(st: State, ext: nat): State
    requires ext < st.next
  {
    if st.next - ext <= 32
    then st.(duplicateDrops := st.duplicateDrops + 1)
    else st.(lateDrops := st.lateDrops + 1)
  }

  /** Make room when `ext` lies beyond the ring.  Slots that are stepped over keep their contents. */
  function MakeRoom(st: State, ext: nat): State
    requires ext >= st.next
  {
    var ahead := ext - st.next;
    if ahead >= RING_CAP then ForceSkip(st, ahead - (RING_CAP - 1)) else st
  }

  function Insert(st: State, ext: nat, dg: Datagram, nowNs: int): State
    requires !Held(st, ext)
  {
    var filed := st.(ring := st.ring[Idx(ext) := Slot(true, false, nowNs, 0, ext, dg)],
                     pending := st.pending + 1);
    if ext < st.highest
    then filed.(reorderEvents := st.reorderEvents + 1)
    else filed.(highest := ext)
  }

  /** What follows the filing of a datagram: drain, request what is missing, give up on what is overdue. */
  function Settle(c: Config, st: State, nowNs: int): State {
    UpdatePending(SweepExpired(c, DetectGaps(c, Drain(st), nowNs), nowNs))
  }

  function Accept(c: Config, st: State, ext: nat, dg: Datagram, nowNs: int): State
    requires ext >= st.next
  {
    var room := MakeRoom(st, ext);
    if Held(room, ext) then room.(duplicateDrops := room.duplicateDrops + 1)
    else Settle(c, Insert(room, ext, dg, nowNs), nowNs)
  }

  function OnRtp(c: Config, st: State, dg: Datagram, clockNs: int): State {
    if !WellFormed(dg) then st
    else if !st.seenFirst then Bootstrap(st, dg)
    else
      var ext := ToExtSeq(st.highest, SeqOf(dg));
      if ext < st.next then DropOld(st, ext)
      else Accept(c, st, ext, dg, ReceiveTime(dg, clockNs))
  }

  function Tick(c: Config, st: State, nowNs: int): State {
    UpdatePending(DetectGaps(c, SweepExpired(c, st, nowNs), nowNs))
  }

  function EmptyRing(): Ring { seq(RING_CAP, i => EMPTY_SLOT) }

  const INITIAL := State(EmptyRing(), false, 0, 0, 0, 0, 0, 0, 0, 0, 0, 0, [], [])

  /** reset(): the counters survive, except the pending count. */
  function Reset(st: State): State {
    State(EmptyRing(), false, 0, 0, st.emits, st.lateDrops, st.duplicateDrops, st.expiredGaps,
          st.nacksSent, st.reorderEvents, 0, st.maxPending, st.delivered, st.nacks)
  }
}
