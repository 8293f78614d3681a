/**
 How many slots are enough: slot integrity holds in every run if and only if there are more slots than
 pictures to protect.  One ordinary stream, an IDR picture, some reference pictures and then pictures that
 are no references, all in ascending POC, breaks every smaller decoder.
 */
module DpbTight {
  import opened Common
  import opened Reorder
  import opened Dpb
  import opened DpbIntegrity

  function Min(a: int, b: int): int { if a < b then a else b }

  /** There are more slots than pictures to protect. */
  predicate Roomy(size: nat, reorderSize: nat, cap: nat) {
    size - 1 > 1 + RECENT_N + cap + reorderSize
  }

  predicate AllFit(ops: seq<Op>, cap: nat) {
    forall k :: 0 <= k < |ops| ==> Fits(ops[k], cap)
  }

  /** Every run keeps everybody's picture. */
  ghost predicate AlwaysIntact(size: nat, reorderSize: nat, cap: nat)
    requires 2 < size < NO_SLOT
  {
    forall ops :: AllFit(ops, cap) ==> Intact(Run(Fresh(size, reorderSize), ops), cap)
  }

  // ----- the stream

  /** A decoder, the number of references of the stream and the POC of its first picture. */
  datatype Setup = Setup(size: nat, reorder: nat, cap: nat, base: int)

  predicate Proper(u: Setup) {
    2 < u.size < NO_SLOT && u.cap >= 1 && INT32_MIN <= u.base && u.base + u.size <= INT32_MAX
  }

  /** Picture `k`: number 0 is an IDR picture, the next `cap` are references, the others are not. */
  function Info(u: Setup, k: nat): PicInfo {
    PicInfo(k == 0, if k <= u.cap then 1 else 0, u.base + k, if k <= u.cap then k else u.cap + 1, u.cap)
  }

  function Shown(u: Setup, k: nat): Frame { Frame(k, u.base + k, k + 1, k == 0) }

  function Frames(u: Setup, from: nat, to: nat): (fs: seq<Frame>)
    requires from <= to
    ensures |fs| == to - from && forall i :: 0 <= i < |fs| ==> fs[i] == Shown(u, from + i)
  {
    seq(to - from, i requires 0 <= i < to - from => Shown(u, from + i))
  }

  /** How many of the first `k` frames have been handed over. */
  function Out(u: Setup, k: nat): (e: nat)
    ensures e <= k
  {
    if k > u.reorder then k - u.reorder else 0
  }

  predicate QueueLined(u: Setup, q: Queue, k: nat) {
    && q.delayed == Frames(u, Out(u, k), k) && |q.emitted| == Out(u, k)
    && q.nextPoc == (if Out(u, k) <= 1 then INT32_MIN else u.base + Out(u, k) - 1)
  }

  /** After `e` frames were handed over, the last four slots are remembered and the IDR frame's is reserved. */
  predicate NotesLined(n: Notes, e: nat) {
    && n.head == e % RECENT_N && n.anchor == (if e > 0 then 1 else NO_SLOT)
    && (forall j :: 0 <= j < RECENT_N ==> n.recent[j] == NO_SLOT || n.recent[j] <= e)
    && (forall p: nat :: p < e <= p + RECENT_N ==> n.recent[p % RECENT_N] == p + 1)
  }

  /** The newest references of the first `k` pictures, newest first: reference `j` is picture r-1-j. */
  predicate RefsLined(u: Setup, refs: seq<RefPic>, k: nat) {
    && |refs| == Min(k, u.cap)
    && forall j :: 0 <= j < |refs| ==> refs[j].slot == Min(k, u.cap + 1) - j && refs[j].pic == refs[j].slot - 1
  }

  /** `k` pictures have been decoded into slots 1..k, in order. */
  predicate Lined(u: Setup, st: State, k: nat) {
    && Shaped(st) && |st.entries| == u.size && st.reorderSize == u.reorder && k < u.size
    && (forall i :: 1 <= i < u.size ==> (st.entries[i].used <==> i <= k) && st.entries[i].poc < INT32_MAX)
    && st.entries[0].poc < INT32_MAX
    && (forall i :: 1 <= i <= k ==> st.texture[i] == i - 1)
    && |st.decoded| == k
    && QueueLined(u, st.queue, k) && NotesLined(st.notes, Out(u, k)) && RefsLined(u, st.refs, k)
  }

  // ----- one picture

  lemma {:induction false} HeadIsLeast(delayed: seq<Frame>, i: nat)
    requires 0 < i <= |delayed| && forall k :: 0 <= k < |delayed| ==> delayed[0].poc <= delayed[k].poc
    ensures OutIndex(delayed, i, 0) == 0
    decreases |delayed| - i
  {
    if i < |delayed| { HeadIsLeast(delayed, i + 1); }
  }

  lemma NotReady(u: Setup, q: Queue, k: nat)
    requires QueueLined(u, q, k) && Proper(u)
    ensures !Ready(q, u.reorder, false)
  {
    if q.delayed != [] { HeadIsLeast(q.delayed, 1); }
  }

  lemma NoteLined(u: Setup, n: Notes, e: nat)
    requires NotesLined(n, e)
    ensures NotesLined(NoteFrame(n, Shown(u, e)), e + 1)
  {
    var after := NoteFrame(n, Shown(u, e));
    forall p: nat | p < e + 1 <= p + RECENT_N
      ensures after.recent[p % RECENT_N] == p + 1
    {
      if p < e { assert p % RECENT_N != e % RECENT_N; }
    }
  }

  /** A frame joins the queue, and the head leaves it once it is full. */
  lemma SelectLined(u: Setup, q: Queue, n: Notes, k: nat)
    requires Proper(u) && QueueLined(u, q, k) && NotesLined(n, Out(u, k))
    ensures var joined := q.(delayed := q.delayed + [Shown(u, k)]);
            && QueueLined(u, Select(joined, u.reorder, false), k + 1)
            && NotesLined(SelectNotes(joined, n, u.reorder, false), Out(u, k + 1))
  {
    hide NotesLined, NoteFrame, OutIndex;
    var joined := q.(delayed := q.delayed + [Shown(u, k)]);
    var e := Out(u, k);
    assert joined.delayed == Frames(u, e, k + 1);
    HeadIsLeast(joined.delayed, 1);
    if k >= u.reorder {
      var after := EmitChosen(joined);
      assert after.delayed == Frames(u, e + 1, k + 1);
      assert QueueLined(u, after, k + 1);
      NotReady(u, after, k + 1);
      NoteLined(u, n, e);
    } else {
      assert QueueLined(u, joined, k + 1);
      NotReady(u, joined, k + 1);
    }
  }

  lemma PushLined(u: Setup, refs: seq<RefPic>, k: nat, r: RefPic)
    requires Proper(u) && RefsLined(u, refs, k) && r.slot == k + 1 && r.pic == k
    ensures RefsLined(u, UpdateRefs(refs, Info(u, k), r), k + 1)
  {
  }

  /** Picture `k`, assembled for slot k+1, is decoded. */
  lemma FlushLined(u: Setup, st: State, k: nat)
    requires Proper(u) && Lined(u, st, k) && k + 1 < u.size
    requires st.pending == Some(Pending(Info(u, k), k + 1))
    ensures Lined(u, FlushPending(st, true), k + 1)
  {
    hide QueueLined, NotesLined, RefsLined, Select, SelectNotes, UpdateRefs, UpdateHistory;
    var r := RefPic(k + 1, Info(u, k).frameNum, Info(u, k).poc, k);
    PushLined(u, st.refs, k, r);
    SelectLined(u, st.queue, st.notes, k);
  }

  /** While a slot is left, the next picture goes to the first unused one. */
  lemma NextSlot(u: Setup, st: State, k: nat)
    requires Proper(u) && Lined(u, st, k) && k + 1 < u.size
    ensures FirstFree(st, 1) == Some(k + 1)
  {
    hide RefsLined, FirstFree;
    FirstFreeIsFree(st, 1);
    assert Free(st, k + 1);
    assert forall i :: 1 <= i < k + 1 ==> !Free(st, i);
  }

  lemma StartLined(u: Setup, st: State, k: nat)
    requires Proper(u) && Lined(u, st, k) && st.pending.None? && 0 < k && k + 1 < u.size
    ensures var after := StartPicture(st, Info(u, k), true);
            Lined(u, after, k) && after.pending == Some(Pending(Info(u, k), k + 1))
  {
    hide QueueLined, NotesLined, RefsLined;
    NextSlot(u, st, k);
  }

  // ----- the run

  /** The first `k` pictures have been started. */
  function Ops(u: Setup, k: nat): (ops: seq<Op>)
    ensures |ops| == k && forall j :: 0 <= j < k ==> ops[j] == Start(Info(u, j), true)
  {
    seq(k, j requires 0 <= j < k => Start(Info(u, j), true))
  }

  lemma FirstStart(u: Setup)
    requires Proper(u)
    ensures var st := StartPicture(Fresh(u.size, u.reorder), Info(u, 0), true);
            Lined(u, st, 0) && st.pending == Some(Pending(Info(u, 0), 1))
  {
    var ready := Released(Fresh(u.size, u.reorder));
    assert Lined(u, ready, 0);
    NextSlot(u, ready, 0);
  }

  lemma RunSnoc(st: State, ops: seq<Op>, last: Op)
    requires Shaped(st)
    ensures Run(st, ops + [last]) == Apply(Run(st, ops), last)
  {
    assert (ops + [last])[..|ops|] == ops;
  }

  lemma {:induction false} RunLined(u: Setup, k: nat)
    requires Proper(u) && k + 1 < u.size
    ensures var st := Run(Fresh(u.size, u.reorder), Ops(u, k + 1));
            Lined(u, st, k) && st.pending == Some(Pending(Info(u, k), k + 1))
  {
    hide Lined, Run, FlushPending, StartPicture;
    var start := Fresh(u.size, u.reorder);
    assert Ops(u, k + 1) == Ops(u, k) + [Start(Info(u, k), true)];
    RunSnoc(start, Ops(u, k), Start(Info(u, k), true));
    if k == 0 {
      NothingRun(start, Ops(u, 0));
      FirstStart(u);
    } else {
      RunLined(u, k - 1);
      var before := Run(start, Ops(u, k));
      FlushLined(u, before, k - 1);
      StartLined(u, FlushPending(before, true), k);
      FlushFirst(before, Info(u, k));
    }
  }

  lemma NothingRun(st: State, ops: seq<Op>)
    requires Shaped(st) && ops == []
    ensures Run(st, ops) == st
  {
  }

  lemma FlushFirst(st: State, info: PicInfo)
    requires Shaped(st)
    ensures StartPicture(st, info, true) == StartPicture(FlushPending(st, true), info, true)
  {
  }

  // ----- no slot left

  /** With all slots used and no more of them than pictures to protect, every slot is protected. */
  lemma AllProtected(u: Setup, st: State)
    requires Proper(u) && Lined(u, st, u.size - 1) && !Roomy(u.size, u.reorder, u.cap)
    ensures forall i :: 1 <= i < u.size ==> Protected(st, i)
  {
    var m := u.size - 1;
    var e := Out(u, m);
    forall i | 1 <= i < u.size
      ensures Protected(st, i)
    {
      var p := i - 1;
      if p >= e {
        assert st.queue.delayed[p - e] == Shown(u, p);
        assert Shown(u, p) in st.queue.delayed;
      } else if p + RECENT_N >= e {
        assert st.notes.recent[p % RECENT_N] == i;
      } else if p > 0 {
        var r := st.refs[Min(m, u.cap + 1) - i];
        assert r in st.refs && r.slot == i;
      }
    }
  }

  /** The picture that finds no free slot, and the state it is started in. */
  lemma NoSlotLeft(u: Setup) returns (before: State)
    requires Proper(u)
    ensures Lined(u, before, u.size - 1) && before.pending.None?
    ensures Run(Fresh(u.size, u.reorder), Ops(u, u.size)) == StartPicture(before, Info(u, u.size - 1), true)
  {
    hide Lined, Run, FlushPending, StartPicture;
    var start, k := Fresh(u.size, u.reorder), u.size - 1;
    RunLined(u, k - 1);
    var st := Run(start, Ops(u, k));
    FlushLined(u, st, k - 1);
    before := FlushPending(st, true);
    assert Ops(u, k + 1) == Ops(u, k) + [Start(Info(u, k), true)];
    RunSnoc(start, Ops(u, k), Start(Info(u, k), true));
    FlushFirst(st, Info(u, k));
  }

  lemma LinedIsMarked(u: Setup, st: State, k: nat)
    requires Lined(u, st, k) && Proper(u) && k > 0
    ensures RefsMarked(st)
  {
  }

  /** The stream breaks every decoder that is not roomy: its last picture gets a slot somebody needs. */
  lemma StreamBreaks(u: Setup)
    requires Proper(u) && !Roomy(u.size, u.reorder, u.cap)
    ensures AllFit(Ops(u, u.size), u.cap)
    ensures !PendingApart(Run(Fresh(u.size, u.reorder), Ops(u, u.size)))
  {
    hide Lined, Run, Protected, Alloc;
    var k := u.size - 1;
    var before := NoSlotLeft(u);
    AllProtected(u, before);
    LinedIsMarked(u, before, k);
    AllocSafeIff(before);
    ProtectedStays(before, Info(u, k));
  }

  lemma ProtectedStays(st: State, info: PicInfo)
    requires Shaped(st) && st.pending.None? && !info.isIdr && Protected(st, Alloc(st))
    ensures !PendingApart(StartPicture(st, info, true))
  {
    hide Alloc;
  }

  /**
   Main result: for every decoder, all runs keep everybody's picture if and only if there are more slots
   than pictures to protect.
   */
  lemma IntactIffRoomy(size: nat, reorderSize: nat, cap: nat)
    requires 2 < size < NO_SLOT && cap >= 1
    ensures AlwaysIntact(size, reorderSize, cap) <==> Roomy(size, reorderSize, cap)
  {
    hide Intact, PendingApart, Run, AllFit;
    if Roomy(size, reorderSize, cap) {
      forall ops | AllFit(ops, cap)
        ensures Intact(Run(Fresh(size, reorderSize), ops), cap)
      {
        FitEach(ops, cap);
        SlotIntegrity(size, reorderSize, cap, ops);
      }
    } else {
      var u := Setup(size, reorderSize, cap, INT32_MIN);
      StreamBreaks(u);
      IntactKeepsApart(Run(Fresh(size, reorderSize), Ops(u, size)), cap);
    }
  }

  lemma FitEach(ops: seq<Op>, cap: nat)
    requires AllFit(ops, cap)
    ensures forall k :: 0 <= k < |ops| ==> Fits(ops[k], cap)
  {
  }

  lemma IntactKeepsApart(st: State, cap: nat)
    ensures Intact(st, cap) ==> PendingApart(st)
  {
  }

  // ----- the decoders the source makes

  /** init_decoder_h264: `minTargets` is what the driver asks for at least. */
  function DpbSize(numRefFrames: nat, minTargets: nat): nat {
    Min(Max(Max(numRefFrames + 2, 16), minTargets), 24)
  }

  function ReorderSize(restricted: bool, maxNumReorder: nat, numRefFrames: nat): nat {
    if restricted then Min(maxNumReorder, 8) else Min(numRefFrames, 4)
  }

  /** Without reorder information and with no wish of the driver's, a decoder keeps everybody's picture in
      every run exactly for at most five reference frames. */
  lemma DefaultSizeIff(numRefFrames: nat)
    requires numRefFrames <= 16
    ensures AlwaysIntact(DpbSize(numRefFrames, 0), ReorderSize(false, 0, numRefFrames), Max(numRefFrames, 1)) <==> numRefFrames <= 5
  {
    hide AlwaysIntact;
    IntactIffRoomy(DpbSize(numRefFrames, 0), ReorderSize(false, 0, numRefFrames), Max(numRefFrames, 1));
  }

  /** For a stream that declares that it needs no reordering, exactly for at most nine. */
  lemma NoReorderSizeIff(numRefFrames: nat)
    requires numRefFrames <= 16
    ensures AlwaysIntact(DpbSize(numRefFrames, 0), ReorderSize(true, 0, numRefFrames), Max(numRefFrames, 1)) <==> numRefFrames <= 9
  {
    hide AlwaysIntact;
    IntactIffRoomy(DpbSize(numRefFrames, 0), ReorderSize(true, 0, numRefFrames), Max(numRefFrames, 1));
  }

  /** Eight references and four reordered frames do not fit 16 slots; 19 are needed. */
  lemma EightAndFour(size: nat)
    requires 16 <= size <= 24
    ensures AlwaysIntact(size, 4, 8) <==> size >= 19
  {
    hide AlwaysIntact;
    IntactIffRoomy(size, 4, 8);
  }

  // ----- what is overwritten

  lemma {:induction false} AllProtectedNoVictim(st: State, i: nat)
    requires forall k :: i <= k < |st.entries| ==> Protected(st, k)
    ensures LeastVictim(st, i, NO_SLOT, INT32_MAX) == NO_SLOT
    decreases |st.entries| - i
  {
    hide Protected;
    if i < |st.entries| { AllProtectedNoVictim(st, i + 1); }
  }

  /** Unless picture 1 still waits for output, the fallback takes its slot. */
  lemma FallbackTakesSecond(u: Setup, st: State)
    requires Proper(u) && Lined(u, st, u.size - 1) && !Roomy(u.size, u.reorder, u.cap)
    requires u.size - 1 >= u.reorder + 2
    ensures Alloc(st) == 2
  {
    hide LeastVictim, FirstFree, Protected;
    AllProtected(u, st);
    FirstFreeIsFree(st, 1);
    AllProtectedNoVictim(st, 1);
    assert forall d :: d in st.queue.delayed ==> d.slot > 2;
    var n := |st.refs|;
    if st.refs[n - 1].slot == 2 {
      assert OldestRef(st, n) == Some(2);
    } else {
      assert st.refs[n - 1].slot == 1 && st.refs[n - 2].slot == 2;
      assert OldestRef(st, n) == OldestRef(st, n - 1) == Some(2);
    }
  }

  lemma SecondInRefs(u: Setup, refs: seq<RefPic>, k: nat, r: RefPic) returns (j: nat)
    requires Proper(u) && RefsLined(u, refs, k) && k >= 2
    ensures var after := UpdateRefs(refs, Info(u, k), r);
            j < |after| && after[j].slot == 2 && after[j].pic == 1
  {
    var i := Min(k, u.cap + 1) - 2;
    assert refs[i].slot == 2 && refs[i].pic == 1;
    j := if k <= u.cap then i + 1 else i;
  }

  /**
   In a decoder that is not roomy the last picture of the stream overwrites picture 1, unless that still
   waits for output: the driver writes into slot 2, and the reference list still gives slot 2 as picture 1.
   */
  lemma ReferenceOverwritten(u: Setup)
    requires Proper(u) && !Roomy(u.size, u.reorder, u.cap) && u.size - 1 >= u.reorder + 2
    ensures AllFit(Ops(u, u.size) + [Finish(true)], u.cap)
    ensures var st := Run(Fresh(u.size, u.reorder), Ops(u, u.size) + [Finish(true)]);
            && st.texture[2] == u.size - 1 > 1
            && exists j :: 0 <= j < |st.refs| && st.refs[j].slot == 2 && st.refs[j].pic == 1
  {
    hide Lined, Run, StartPicture, Select, SelectNotes, UpdateRefs, UpdateHistory;
    var before := NoSlotLeft(u);
    FallbackTakesSecond(u, before);
    RunSnoc(Fresh(u.size, u.reorder), Ops(u, u.size), Finish(true));
    Overwrites(u, before);
  }

  lemma Overwrites(u: Setup, st: State)
    requires Proper(u) && Lined(u, st, u.size - 1) && st.pending.None? && Alloc(st) == 2
    ensures var after := FlushPending(StartPicture(st, Info(u, u.size - 1), true), true);
            && after.texture[2] == u.size - 1
            && exists j :: 0 <= j < |after.refs| && after.refs[j].slot == 2 && after.refs[j].pic == 1
  {
    hide Select, SelectNotes, UpdateRefs, UpdateHistory, Alloc;
    var k := u.size - 1;
    var r := RefPic(2, Info(u, k).frameNum, Info(u, k).poc, k);
    var j := SecondInRefs(u, st.refs, k, r);
  }
}
