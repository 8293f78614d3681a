/**
 H.264 picture management of the DXVA codec in functional form: slot allocation, reference list,
 output queue, recently emitted slots and the reserved IDR slot, all sharing one texture array.
 The driver is reduced to two outcomes: it refuses the frame (DecoderBeginFrame fails), or the slot is
 given over to the picture.  As in the source, an error after that point changes nothing here.
 */
module Dpb {
  import opened Common
  import opened Reorder

  /** UINT_MAX: no slot. */
  const NO_SLOT: nat := TWO_32 - 1

  const RECENT_N: nat := 4

  datatype Entry = Entry(used: bool, poc: int)

  datatype RefPic = RefPic(slot: nat, frameNum: nat, poc: int, pic: nat)

  /** What on_au_h264 takes from the first slice of a picture and its SPS. */
  datatype PicInfo = PicInfo(isIdr: bool, refIdc: nat, poc: int, frameNum: nat, numRefFrames: nat)

  /** A picture being assembled, and the slot allocated for it. */
  datatype Pending = Pending(info: PicInfo, slot: nat)

  type RecentRing = r: seq<nat> | |r| == RECENT_N witness [NO_SLOT, NO_SLOT, NO_SLOT, NO_SLOT]

  /** What the codec remembers of frames handed over: the last slots, and the slot of the last IDR frame. */
  type RingIndex = h: nat | h < RECENT_N

  datatype Notes = Notes(recent: RecentRing, head: RingIndex, anchor: nat)

  const NO_NOTES := Notes([NO_SLOT, NO_SLOT, NO_SLOT, NO_SLOT], 0, NO_SLOT)

  /** `texture` tells to which picture each slot of the texture array was last given over.  `decoded` and `history` are
      kept for properties only: the frames decoded since the last reset, and the reference pictures
      since the last IDR picture, newest first. */
  datatype State = State(entries: seq<Entry>, texture: seq<nat>, refs: seq<RefPic>, queue: Queue, notes: Notes,
                         pending: Option<Pending>, reorderSize: nat,
                         decoded: seq<Frame>, history: seq<RefPic>)

  /** The arrays have one size, and every slot number in use is inside them; slot 0 is never used. */
  predicate Shaped(st: State) {
    && |st.entries| == |st.texture| && 2 < |st.entries| < NO_SLOT
    && (forall k :: 0 <= k < |st.refs| ==> 1 <= st.refs[k].slot < |st.entries|)
    && (st.pending.Some? ==> 1 <= st.pending.value.slot < |st.entries|)
  }

  // ----- slot allocation

  predicate InDelayed(st: State, i: nat) { exists d | d in st.queue.delayed :: d.slot == i }

  predicate RecentlyEmitted(st: State, i: nat) { i in st.notes.recent }

  predicate InRefs(st: State, i: nat) { exists r | r in st.refs :: r.slot == i }

  /** First pass: an unused slot nobody looks at. */
  predicate Free(st: State, i: nat)
    requires i < |st.entries|
  {
    i != st.notes.anchor && !InDelayed(st, i) && !st.entries[i].used && !RecentlyEmitted(st, i)
  }

  function FirstFree(st: State, i: nat): (r: Option<nat>)
    ensures r.Some? ==> i <= r.value < |st.entries|
    decreases |st.entries| - i
  {
    if i >= |st.entries| then None else if Free(st, i) then Some(i) else FirstFree(st, i + 1)
  }

  /** Second pass: a used slot may be taken if nobody looks at it. */
  predicate Protected(st: State, i: nat) {
    i == st.notes.anchor || InRefs(st, i) || RecentlyEmitted(st, i) || InDelayed(st, i)
  }

  /** The unprotected slot with the least POC; a POC of INT32_MAX never wins. */
  function LeastVictim(st: State, i: nat, victim: nat, minPoc: int): (v: nat)
    ensures v == victim || i <= v < |st.entries|
    decreases |st.entries| - i
  {
    if i >= |st.entries| then victim
    else if !Protected(st, i) && st.entries[i].poc < minPoc then LeastVictim(st, i + 1, i, st.entries[i].poc)
    else LeastVictim(st, i + 1, victim, minPoc)
  }

  /** The oldest reference that is neither the reserved slot nor waiting for output. */
  function OldestRef(st: State, n: nat): (r: Option<nat>)
    requires n <= |st.refs|
    ensures r.Some? ==> exists k :: 0 <= k < n && st.refs[k].slot == r.value
  {
    if n == 0 then None
    else
      var s := st.refs[n - 1].slot;
      if s != st.notes.anchor && !InDelayed(st, s) then Some(s) else OldestRef(st, n - 1)
  }

  function Fallback(st: State): nat {
    match OldestRef(st, |st.refs|)
    case Some(s) => s
    case None => if st.notes.anchor == 1 then 2 else 1
  }

  function Alloc(st: State): (slot: nat)
    requires Shaped(st)
    ensures 1 <= slot < |st.entries|
  {
    match FirstFree(st, 1)
    case Some(i) => i
    case None =>
      var v := LeastVictim(st, 1, NO_SLOT, INT32_MAX);
      if v != NO_SLOT then v else Fallback(st)
  }

  /** A slot taken by the second pass or the fallback is cleared; one found free is left as it is. */
  function AllocEntries(st: State): seq<Entry>
    requires Shaped(st)
  {
    if FirstFree(st, 1).None? then st.entries[Alloc(st) := Entry(false, 0)] else st.entries
  }

  // ----- output

  function NoteFrame(n: Notes, f: Frame): Notes {
    Notes(n.recent[n.head := f.slot], (n.head + 1) % RECENT_N, if f.isIdr then f.slot else n.anchor)
  }

  /** What is remembered after the output queue has handed over what it selects. */
  function SelectNotes(q: Queue, n: Notes, reorderSize: nat, drainAll: bool): Notes
    decreases |q.delayed|
  {
    if !Ready(q, reorderSize, drainAll) then n
    else SelectNotes(EmitChosen(q), NoteFrame(n, q.delayed[Chosen(q)]), reorderSize, drainAll)
  }

  function SelectAndEmit(st: State, drainAll: bool): State {
    st.(queue := Select(st.queue, st.reorderSize, drainAll),
        notes := SelectNotes(st.queue, st.notes, st.reorderSize, drainAll))
  }

  // ----- reference list

  function Max(a: nat, b: nat): nat { if a < b then b else a }

  /** Keep the `cap` newest references. */
  function Trim<T>(refs: seq<T>, cap: nat): seq<T> { if |refs| > cap then refs[..cap] else refs }

  function UpdateRefs(refs: seq<RefPic>, info: PicInfo, r: RefPic): seq<RefPic> {
    var kept := if info.isIdr then [] else refs;
    if info.refIdc != 0 then Trim([r] + kept, Max(info.numRefFrames, 1)) else kept
  }

  function UpdateHistory(history: seq<RefPic>, info: PicInfo, r: RefPic): seq<RefPic> {
    var kept := if info.isIdr then [] else history;
    if info.refIdc != 0 then [r] + kept else kept
  }

  // ----- one picture

  /** The picture is decoded into its slot, becomes a reference if it is one, and joins the output queue. */
  function Decoded(st: State, p: Pending): State
    requires Shaped(st) && 1 <= p.slot < |st.entries|
  {
    var pic := |st.decoded|;
    var r := RefPic(p.slot, p.info.frameNum, p.info.poc, pic);
    var f := Frame(pic, p.info.poc, p.slot, p.info.isIdr);
    State(st.entries[p.slot := Entry(true, p.info.poc)], st.texture[p.slot := pic],
          UpdateRefs(st.refs, p.info, r), st.queue.(delayed := st.queue.delayed + [f]), st.notes,
          None, st.reorderSize, st.decoded + [f], UpdateHistory(st.history, p.info, r))
  }

  /** flush_pending_pic_h264; `beginOk` is false if the driver refuses the frame. */
  function FlushPending(st: State, beginOk: bool): (after: State)
    requires Shaped(st)
    ensures Shaped(after) && after.pending.None?
    ensures |after.entries| == |st.entries| && after.reorderSize == st.reorderSize
  {
    if st.pending.None? then st
    else if !beginOk then st.(pending := None)
    else SelectAndEmit(Decoded(st, st.pending.value), false)
  }

  function Unused(entries: seq<Entry>): seq<Entry> {
    seq(|entries|, i requires 0 <= i < |entries| => Entry(false, entries[i].poc))
  }

  /** An IDR picture releases every slot, every reference and the reserved slot. */
  function Released(st: State): State {
    st.(entries := Unused(st.entries), refs := [], notes := st.notes.(anchor := NO_SLOT), history := [])
  }

  /** The first slice of a picture: finish the one before, allocate a slot. */
  function StartPicture(st: State, info: PicInfo, beginOk: bool): (after: State)
    requires Shaped(st)
    ensures Shaped(after) && |after.entries| == |st.entries| && after.reorderSize == st.reorderSize
  {
    var flushed := FlushPending(st, beginOk);
    var ready := if info.isIdr then Released(flushed) else flushed;
    ready.(entries := AllocEntries(ready), pending := Some(Pending(info, Alloc(ready))))
  }

  function Cleared(size: nat): (entries: seq<Entry>)
    ensures |entries| == size && forall i :: 0 <= i < size ==> entries[i] == Entry(false, 0)
  {
    seq(size, i => Entry(false, 0))
  }

  /** reset_dpb */
  function ResetDpb(st: State): State {
    State(Cleared(|st.entries|), st.texture, [], EMPTY_QUEUE, NO_NOTES,
          st.pending, st.reorderSize, [], [])
  }

  /** flush(): finish the picture, drain the queue, reset. */
  function FlushAll(st: State, beginOk: bool): (after: State)
    requires Shaped(st)
    ensures Shaped(after) && |after.entries| == |st.entries| && after.reorderSize == st.reorderSize
  {
    ResetDpb(SelectAndEmit(FlushPending(st, beginOk), true))
  }

  /** A new decoder with `size` slots. */
  function Fresh(size: nat, reorderSize: nat): State {
    State(Cleared(size), seq(size, i => 0), [], EMPTY_QUEUE, NO_NOTES, None, reorderSize, [], [])
  }

  // ----- runs

  /** Calls that reach the picture management. */
  datatype Op =
    | Start(info: PicInfo, beginOk: bool)
    | Finish(beginOk: bool)
    | Flush(beginOk: bool)

  function Apply(st: State, op: Op): (after: State)
    requires Shaped(st)
    ensures Shaped(after) && |after.entries| == |st.entries| && after.reorderSize == st.reorderSize
  {
    match op
    case Start(info, beginOk) => StartPicture(st, info, beginOk)
    case Finish(beginOk) => FlushPending(st, beginOk)
    case Flush(beginOk) => FlushAll(st, beginOk)
  }

  function Run(st: State, ops: seq<Op>): (after: State)
    requires Shaped(st)
    ensures Shaped(after) && |after.entries| == |st.entries| && after.reorderSize == st.reorderSize
  {
    if ops == [] then st else Apply(Run(st, ops[..|ops| - 1]), ops[|ops| - 1])
  }
}
