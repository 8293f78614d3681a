/**
 Nobody's picture is overwritten too early: as long as there are enough slots, every reference,
 every frame waiting for output, every frame emitted recently and the reserved IDR frame still
 show their own picture, and the picture being decoded goes to a slot none of them uses.
 */
module DpbIntegrity {
  import opened Common
  import opened Reorder
  import opened Dpb

  /** The slot exists and shows the picture. */
  predicate Shows(texture: seq<nat>, slot: nat, pic: nat) {
    1 <= slot < |texture| && texture[slot] == pic
  }

  function LastIdr(frames: seq<Frame>): Option<Frame> {
    if frames == [] then None
    else if frames[|frames| - 1].isIdr then Some(frames[|frames| - 1])
    else LastIdr(frames[..|frames| - 1])
  }

  predicate RefsIntact(st: State) {
    forall k :: 0 <= k < |st.refs| ==>
      Shows(st.texture, st.refs[k].slot, st.refs[k].pic) && (st.refs[k].slot < |st.entries| ==> st.entries[st.refs[k].slot].used)
  }

  predicate DelayedShown(texture: seq<nat>, delayed: seq<Frame>) {
    forall k :: 0 <= k < |delayed| ==> Shows(texture, delayed[k].slot, delayed[k].pic)
  }

  /** The `j`-th last frame handed over still shows, and the ring of recent slots holds its slot. */
  predicate RecentShown(texture: seq<nat>, emitted: seq<Frame>, n: Notes, j: nat)
    requires 1 <= j <= RECENT_N
  {
    j <= |emitted| ==>
      var f := emitted[|emitted| - j];
      n.recent[(n.head + RECENT_N - j) % RECENT_N] == f.slot && Shows(texture, f.slot, f.pic)
  }

  /** While a slot is reserved, it shows the last IDR frame handed over. */
  predicate AnchorShown(texture: seq<nat>, emitted: seq<Frame>, anchor: nat) {
    anchor == NO_SLOT ||
    match LastIdr(emitted)
    case Some(f) => f.slot == anchor && Shows(texture, f.slot, f.pic)
    case None => false
  }

  /** Everything the output side may still look at shows its own picture. */
  predicate OutputIntact(texture: seq<nat>, q: Queue, n: Notes) {
    && DelayedShown(texture, q.delayed)
    && (forall j :: 1 <= j <= RECENT_N ==> RecentShown(texture, q.emitted, n, j))
    && AnchorShown(texture, q.emitted, n.anchor)
  }

  /** The slot of the picture being decoded is used by nobody else. */
  predicate PendingApart(st: State) {
    st.pending.Some? ==>
      var s := st.pending.value.slot;
      1 <= s < |st.entries| && !Protected(st, s)
  }

  /** The invariant of every run: `cap` bounds the reference list. */
  predicate Intact(st: State, cap: nat) {
    && Shaped(st)
    && RefsIntact(st) && |st.refs| <= cap
    && OutputIntact(st.texture, st.queue, st.notes) && |st.queue.delayed| <= st.reorderSize
    && PendingApart(st)
    && (st.pending.Some? ==> st.pending.value.info.poc < INT32_MAX && Max(st.pending.value.info.numRefFrames, 1) <= cap)
    && (forall i :: 0 <= i < |st.entries| ==> st.entries[i].poc < INT32_MAX)
  }

  // ----- allocation

  /** Every reference sits in a slot marked used, and no slot has the POC that the victim search ignores. */
  predicate RefsMarked(st: State) {
    && (forall k :: 0 <= k < |st.refs| ==> st.refs[k].slot < |st.entries| && st.entries[st.refs[k].slot].used)
    && (forall i :: 0 <= i < |st.entries| ==> st.entries[i].poc < INT32_MAX)
  }

  lemma {:induction false} FirstFreeIsFree(st: State, i: nat)
    ensures match FirstFree(st, i)
            case Some(k) => Free(st, k) && forall j :: i <= j < k ==> !Free(st, j)
            case None => forall k :: i <= k < |st.entries| ==> !Free(st, k)
    decreases |st.entries| - i
  {
    if i < |st.entries| && !Free(st, i) { FirstFreeIsFree(st, i + 1); }
  }

  /** Slot `v` is unprotected and has the least POC of the unprotected slots below `n`, the first of several. */
  predicate IsVictim(st: State, v: nat, n: nat) {
    && 1 <= v < n <= |st.entries| && !Protected(st, v)
    && (forall k :: 1 <= k < n && !Protected(st, k) ==> st.entries[v].poc <= st.entries[k].poc)
    && (forall k :: 1 <= k < v && !Protected(st, k) ==> st.entries[v].poc < st.entries[k].poc)
  }

  lemma {:induction false} LeastVictimIs(st: State, i: nat, victim: nat, minPoc: int)
    requires 1 <= i <= |st.entries| < NO_SLOT && forall k :: 0 <= k < |st.entries| ==> st.entries[k].poc < INT32_MAX
    requires if victim == NO_SLOT then minPoc == INT32_MAX && forall k :: 1 <= k < i ==> Protected(st, k)
             else IsVictim(st, victim, i) && minPoc == st.entries[victim].poc
    ensures var v := LeastVictim(st, i, victim, minPoc);
            if v == NO_SLOT then forall k :: 1 <= k < |st.entries| ==> Protected(st, k)
            else IsVictim(st, v, |st.entries|)
    decreases |st.entries| - i
  {
    hide Protected;
    if i < |st.entries| {
      if !Protected(st, i) && st.entries[i].poc < minPoc {
        LeastVictimIs(st, i + 1, i, st.entries[i].poc);
      } else {
        LeastVictimIs(st, i + 1, victim, minPoc);
      }
    }
  }

  lemma FreeIsUnprotected(st: State, i: nat)
    requires RefsMarked(st) && i < |st.entries| && Free(st, i)
    ensures !Protected(st, i)
  {
  }

  /**
   The slot allocated is safe if and only if some slot is: the passes find one whenever there is one,
   and only the fallback overwrites a picture somebody still needs.
   */
  lemma AllocSafeIff(st: State)
    requires Shaped(st) && RefsMarked(st)
    ensures !Protected(st, Alloc(st)) <==> exists i :: 1 <= i < |st.entries| && !Protected(st, i)
  {
    hide Protected, Free, LeastVictim, FirstFree;
    FirstFreeIsFree(st, 1);
    LeastVictimIs(st, 1, NO_SLOT, INT32_MAX);
    if FirstFree(st, 1).Some? { FreeIsUnprotected(st, FirstFree(st, 1).value); }
  }

  /** A reference that may be overwritten at the last resort. */
  predicate Sacrificed(st: State, k: nat) {
    k < |st.refs| && st.refs[k].slot != st.notes.anchor && !InDelayed(st, st.refs[k].slot)
  }

  /** The last such reference of the first `n` is the oldest. */
  predicate LastSacrificed(st: State, k: nat, n: nat) {
    Sacrificed(st, k) && forall j :: k < j < n ==> !Sacrificed(st, j)
  }

  lemma {:induction false} OldestRefIs(st: State, n: nat)
    requires n <= |st.refs|
    ensures match OldestRef(st, n)
            case Some(s) => exists k :: 0 <= k < n && s == st.refs[k].slot && LastSacrificed(st, k, n)
            case None => forall k :: 0 <= k < n ==> !Sacrificed(st, k)
  {
    hide InDelayed;
    if n > 0 && !Sacrificed(st, n - 1) { OldestRefIs(st, n - 1); }
  }

  /**
   The whole allocation, pass by pass: the first free slot, left as it is; without one the unprotected slot
   with the least POC, cleared; without one the oldest reference that is neither reserved nor waiting, or
   slot 1, or 2 if 1 is reserved, cleared as well.
   */
  lemma AllocIs(st: State)
    requires Shaped(st) && forall i :: 0 <= i < |st.entries| ==> st.entries[i].poc < INT32_MAX
    ensures var a := Alloc(st);
            if exists i :: 1 <= i < |st.entries| && Free(st, i) then
              Free(st, a) && (forall j :: 1 <= j < a ==> !Free(st, j)) && AllocEntries(st) == st.entries
            else
              && AllocEntries(st) == st.entries[a := Entry(false, 0)]
              && if exists i :: 1 <= i < |st.entries| && !Protected(st, i) then IsVictim(st, a, |st.entries|)
                 else if exists k :: 0 <= k < |st.refs| && Sacrificed(st, k) then
                   exists k :: 0 <= k < |st.refs| && a == st.refs[k].slot && LastSacrificed(st, k, |st.refs|)
                 else a == if st.notes.anchor == 1 then 2 else 1
  {
    hide Protected, Free, LeastVictim, FirstFree, OldestRef, Sacrificed;
    FirstFreeIsFree(st, 1);
    LeastVictimIs(st, 1, NO_SLOT, INT32_MAX);
    OldestRefIs(st, |st.refs|);
  }

  // ----- pigeonhole

  function RefSlots(refs: seq<RefPic>): set<nat> { set r | r in refs :: r.slot }

  function FrameSlots(frames: seq<Frame>): set<nat> { set d | d in frames :: d.slot }

  function RecentSlots(recent: RecentRing): set<nat> { set i | i in recent }

  lemma {:induction false} RefSlotsSize(refs: seq<RefPic>)
    ensures |RefSlots(refs)| <= |refs|
  {
    if refs != [] {
      RefSlotsSize(refs[1..]);
      assert RefSlots(refs) == {refs[0].slot} + RefSlots(refs[1..]) by {
        assert refs == [refs[0]] + refs[1..];
      }
    }
  }

  lemma {:induction false} FrameSlotsSize(frames: seq<Frame>)
    ensures |FrameSlots(frames)| <= |frames|
  {
    if frames != [] {
      FrameSlotsSize(frames[1..]);
      assert FrameSlots(frames) == {frames[0].slot} + FrameSlots(frames[1..]) by {
        assert frames == [frames[0]] + frames[1..];
      }
    }
  }

  lemma RecentSlotsSize(recent: RecentRing)
    ensures |RecentSlots(recent)| <= RECENT_N
  {
    assert RecentSlots(recent) == {recent[0]} + {recent[1]} + {recent[2]} + {recent[3]} by {
      assert recent == [recent[0], recent[1], recent[2], recent[3]];
    }
  }

  /** The slots 1..size-1. */
  function Slots(size: nat): (s: set<nat>)
    requires size > 0
    ensures |s| == size - 1
    ensures forall i: nat :: i in s <==> 1 <= i < size
  {
    if size == 1 then {} else Slots(size - 1) + {size - 1}
  }

  /** With more slots than pictures to protect, one slot is unprotected. */
  lemma UnprotectedSlotExists(st: State)
    requires Shaped(st)
    requires |st.entries| - 1 > 1 + RECENT_N + |st.refs| + |st.queue.delayed|
    ensures exists i :: 1 <= i < |st.entries| && !Protected(st, i)
  {
    var inUse := {st.notes.anchor} + RecentSlots(st.notes.recent) + RefSlots(st.refs) + FrameSlots(st.queue.delayed);
    if forall i :: 1 <= i < |st.entries| ==> Protected(st, i) {
      RefSlotsSize(st.refs);
      FrameSlotsSize(st.queue.delayed);
      RecentSlotsSize(st.notes.recent);
      forall i | i in Slots(|st.entries|)
        ensures i in inUse
      {
        assert Protected(st, i);
      }
      SubsetSize(Slots(|st.entries|), inUse);
    }
  }

  // ----- output

  lemma NoteFrameKeepsRecent(texture: seq<nat>, emitted: seq<Frame>, n: Notes, d: Frame, j: nat)
    requires 1 <= j <= RECENT_N && Shows(texture, d.slot, d.pic)
    requires j > 1 ==> RecentShown(texture, emitted, n, j - 1)
    ensures RecentShown(texture, emitted + [d], NoteFrame(n, d), j)
  {
    var n' := NoteFrame(n, d);
    if j > 1 && j <= |emitted| + 1 {
      assert (emitted + [d])[|emitted| + 1 - j] == emitted[|emitted| - (j - 1)];
      assert (n'.head + RECENT_N - j) % RECENT_N == (n.head + RECENT_N - (j - 1)) % RECENT_N != n.head;
    }
  }

  lemma EmitChosenKeepsOutput(texture: seq<nat>, q: Queue, n: Notes)
    requires OutputIntact(texture, q, n) && q.delayed != []
    ensures OutputIntact(texture, EmitChosen(q), NoteFrame(n, q.delayed[Chosen(q)]))
  {
    hide RecentShown, OutIndex;
    var d, after, n' := q.delayed[Chosen(q)], EmitChosen(q), NoteFrame(n, q.delayed[Chosen(q)]);
    forall j | 1 <= j <= RECENT_N
      ensures RecentShown(texture, after.emitted, n', j)
    {
      if j > 1 { assert RecentShown(texture, q.emitted, n, j - 1); }
      NoteFrameKeepsRecent(texture, q.emitted, n, d, j);
    }
    assert after.emitted[..|q.emitted|] == q.emitted;
  }

  lemma {:induction false} SelectKeepsOutput(texture: seq<nat>, q: Queue, n: Notes, reorderSize: nat, drainAll: bool)
    requires OutputIntact(texture, q, n)
    ensures OutputIntact(texture, Select(q, reorderSize, drainAll), SelectNotes(q, n, reorderSize, drainAll))
    ensures |Select(q, reorderSize, drainAll).delayed| <= (if drainAll then 0 else reorderSize)
    decreases |q.delayed|
  {
    hide OutputIntact;
    if Ready(q, reorderSize, drainAll) {
      EmitChosenKeepsOutput(texture, q, n);
      SelectKeepsOutput(texture, EmitChosen(q), NoteFrame(n, q.delayed[Chosen(q)]), reorderSize, drainAll);
    }
  }

  // ----- the steps of a run

  lemma WriteKeepsRecent(st: State, slot: nat, pic: nat, j: nat)
    requires 1 <= j <= RECENT_N && RecentShown(st.texture, st.queue.emitted, st.notes, j)
    requires slot < |st.texture| && !RecentlyEmitted(st, slot)
    ensures RecentShown(st.texture[slot := pic], st.queue.emitted, st.notes, j)
  {
    assert st.notes.recent[(st.notes.head + RECENT_N - j) % RECENT_N] in st.notes.recent;
  }

  lemma WriteKeepsOutput(st: State, slot: nat, pic: nat)
    requires OutputIntact(st.texture, st.queue, st.notes) && slot < |st.texture| && !Protected(st, slot)
    ensures OutputIntact(st.texture[slot := pic], st.queue, st.notes)
  {
    hide RecentShown;
    var texture := st.texture[slot := pic];
    forall k | 0 <= k < |st.queue.delayed|
      ensures Shows(texture, st.queue.delayed[k].slot, st.queue.delayed[k].pic)
    {
      assert st.queue.delayed[k] in st.queue.delayed;
    }
    forall j | 1 <= j <= RECENT_N
      ensures RecentShown(texture, st.queue.emitted, st.notes, j)
    {
      WriteKeepsRecent(st, slot, pic, j);
    }
  }

  lemma WriteKeepsRefs(st: State, p: Pending)
    requires Shaped(st) && RefsIntact(st) && 1 <= p.slot < |st.entries| && !InRefs(st, p.slot)
    ensures RefsIntact(Decoded(st, p))
  {
    forall k | 0 <= k < |st.refs|
      ensures st.refs[k].slot != p.slot
    {
      assert st.refs[k] in st.refs;
    }
  }

  /** Writing a picture into the slot kept apart for it disturbs nobody. */
  lemma DecodedIntact(st: State, cap: nat)
    requires Intact(st, cap) && st.pending.Some?
    ensures var after := Decoded(st, st.pending.value);
            && Shaped(after) && |after.entries| == |st.entries| && RefsIntact(after) && |after.refs| <= cap
            && OutputIntact(after.texture, after.queue, after.notes)
            && (forall i :: 0 <= i < |after.entries| ==> after.entries[i].poc < INT32_MAX)
  {
    hide OutputIntact, RefsIntact;
    var p := st.pending.value;
    WriteKeepsOutput(st, p.slot, |st.decoded|);
    WriteKeepsRefs(st, p);
    var texture := st.texture[p.slot := |st.decoded|];
    AppendKeepsOutput(texture, st.queue, st.notes, Frame(|st.decoded|, p.info.poc, p.slot, p.info.isIdr));
  }

  lemma AppendKeepsOutput(texture: seq<nat>, q: Queue, n: Notes, f: Frame)
    requires OutputIntact(texture, q, n) && Shows(texture, f.slot, f.pic)
    ensures OutputIntact(texture, q.(delayed := q.delayed + [f]), n)
  {
    hide RecentShown;
  }

  lemma FlushIntact(st: State, cap: nat, beginOk: bool)
    requires Intact(st, cap)
    ensures Intact(FlushPending(st, beginOk), cap) && FlushPending(st, beginOk).pending.None?
    ensures |FlushPending(st, beginOk).entries| == |st.entries| && FlushPending(st, beginOk).reorderSize == st.reorderSize
  {
    if st.pending.Some? && beginOk {
      var d := Decoded(st, st.pending.value);
      DecodedIntact(st, cap);
      SelectKeepsOutput(d.texture, d.queue, d.notes, d.reorderSize, false);
    }
  }

  lemma ReleasedIntact(st: State, cap: nat)
    requires Intact(st, cap) && st.pending.None?
    ensures Intact(Released(st), cap) && Released(st).pending.None?
  {
    var n := Released(st).notes;
    forall j | 1 <= j <= RECENT_N
      ensures RecentShown(st.texture, st.queue.emitted, n, j)
    {
      assert RecentShown(st.texture, st.queue.emitted, st.notes, j);
    }
  }

  /** Allocation keeps the invariant, and gives the new picture a slot of its own. */
  lemma AllocIntact(st: State, cap: nat, info: PicInfo)
    requires Intact(st, cap) && st.pending.None?
    requires |st.entries| - 1 > 1 + RECENT_N + cap + st.reorderSize
    requires info.poc < INT32_MAX && Max(info.numRefFrames, 1) <= cap
    ensures Intact(st.(entries := AllocEntries(st), pending := Some(Pending(info, Alloc(st)))), cap)
  {
    hide OutputIntact, Alloc, FirstFree;
    UnprotectedSlotExists(st);
    RefsAreMarked(st, cap);
    AllocSafeIff(st);
    var after := st.(entries := AllocEntries(st), pending := Some(Pending(info, Alloc(st))));
    forall k | 0 <= k < |st.refs|
      ensures st.refs[k].slot != Alloc(st)
    {
      assert st.refs[k] in st.refs;
    }
    assert Protected(after, Alloc(st)) == Protected(st, Alloc(st));
  }

  lemma RefsAreMarked(st: State, cap: nat)
    requires Intact(st, cap)
    ensures RefsMarked(st)
  {
  }

  // ----- runs

  /** `cap` bounds the references any picture asks for; POCs are 32-bit numbers below the maximum. */
  predicate Fits(op: Op, cap: nat) {
    op.Start? ==> op.info.poc < INT32_MAX && Max(op.info.numRefFrames, 1) <= cap
  }

  lemma ApplyIntact(st: State, op: Op, cap: nat)
    requires Intact(st, cap) && Fits(op, cap)
    requires |st.entries| - 1 > 1 + RECENT_N + cap + st.reorderSize
    ensures Intact(Apply(st, op), cap)
    ensures |Apply(st, op).entries| == |st.entries| && Apply(st, op).reorderSize == st.reorderSize
  {
    hide Intact, Alloc;
    assert Shaped(st) by { IntactIsShaped(st, cap); }
    match op
    case Start(info, beginOk) =>
      var flushed := FlushPending(st, beginOk);
      FlushIntact(st, cap, beginOk);
      ReleasedIntact(flushed, cap);
      var ready := if info.isIdr then Released(flushed) else flushed;
      AllocIntact(ready, cap, info);
    case Finish(beginOk) =>
      FlushIntact(st, cap, beginOk);
    case Flush(beginOk) =>
      FlushIntact(st, cap, beginOk);
      DrainIntact(FlushPending(st, beginOk), cap);
      ResetIntact(SelectAndEmit(FlushPending(st, beginOk), true), cap);
  }

  lemma IntactIsShaped(st: State, cap: nat)
    requires Intact(st, cap)
    ensures Shaped(st)
  {
  }

  lemma DrainIntact(st: State, cap: nat)
    requires Intact(st, cap) && st.pending.None?
    ensures Intact(SelectAndEmit(st, true), cap) && SelectAndEmit(st, true).pending.None?
  {
    SelectKeepsOutput(st.texture, st.queue, st.notes, st.reorderSize, true);
  }

  lemma ResetIntact(st: State, cap: nat)
    requires Intact(st, cap) && st.pending.None?
    ensures Intact(ResetDpb(st), cap)
  {
  }

  /**
   Slot integrity over whole runs: with more slots than pictures to protect, every run of pictures,
   driver failures and flushes keeps every picture somebody may still look at.
   */
  lemma {:induction false} SlotIntegrity(size: nat, reorderSize: nat, cap: nat, ops: seq<Op>)
    requires size < NO_SLOT && size - 1 > 1 + RECENT_N + cap + reorderSize
    requires forall k :: 0 <= k < |ops| ==> Fits(ops[k], cap)
    ensures Intact(Run(Fresh(size, reorderSize), ops), cap)
  {
    hide Apply;
    if ops == [] {
      FreshIntact(size, reorderSize, cap);
    } else {
      SlotIntegrity(size, reorderSize, cap, ops[..|ops| - 1]);
      ApplyIntact(Run(Fresh(size, reorderSize), ops[..|ops| - 1]), ops[|ops| - 1], cap);
    }
  }

  lemma FreshIntact(size: nat, reorderSize: nat, cap: nat)
    requires 2 < size < NO_SLOT
    ensures Intact(Fresh(size, reorderSize), cap)
  {
  }
}
