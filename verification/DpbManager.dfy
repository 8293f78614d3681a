/** The H.264 picture management as the source writes it: arrays and queues updated in place. */
module DpbManager {
  import opened Common
  import opened Reorder
  import opened Dpb

  class PictureManager {
    var entries: array<Entry>
    /** Which picture each slot of the texture array shows. */
    var texture: array<nat>
    var refs: seq<RefPic>
    var delayed: seq<Frame>
    var nextOutputPoc: int
    var reorderSize: nat
    var recent: array<nat>
    var recentHead: RingIndex
    var anchor: nat
    var hasPic: bool
    var cur: PicInfo
    var curSlot: nat
    /** Every frame handed over, and how many of them before the last reset. */
    var emitted: seq<Frame>
    var emittedAtReset: nat
    /** For properties only: see Dpb.State. */
    var decoded: seq<Frame>
    var history: seq<RefPic>

    ghost predicate Allocated()
      reads this
    {
      && recent.Length == RECENT_N && recent != texture
      && emittedAtReset <= |emitted|
    }

    ghost predicate Valid()
      reads this, entries, texture, recent
    {
      Allocated() && Shaped(Abs())
    }

    ghost function OutQueue(): Queue
      reads this
      requires Allocated()
    {
      Queue(delayed, nextOutputPoc, emitted[emittedAtReset..])
    }

    ghost function OutNotes(): Notes
      reads this, recent
      requires Allocated()
    {
      Notes(recent[..], recentHead, anchor)
    }

    ghost function Abs(): State
      reads this, entries, texture, recent
      requires Allocated()
    {
      State(entries[..], texture[..], refs, OutQueue(), OutNotes(),
            if hasPic then Some(Pending(cur, curSlot)) else None, reorderSize, decoded, history)
    }

    constructor (size: nat, newReorderSize: nat)
      requires 2 < size < NO_SLOT
      ensures Valid() && fresh(entries) && fresh(texture) && fresh(recent)
      ensures Abs() == Fresh(size, newReorderSize)
    {
      entries := new Entry[size](_ => Entry(false, 0));
      texture := new nat[size](_ => 0);
      refs, delayed, emitted, emittedAtReset := [], [], [], 0;
      nextOutputPoc, reorderSize := INT32_MIN, newReorderSize;
      recent := new nat[RECENT_N](_ => NO_SLOT);
      recentHead, anchor := 0, NO_SLOT;
      hasPic, cur, curSlot := false, PicInfo(false, 0, 0, 0, 0), 0;
      decoded, history := [], [];
      new;
      assert recent[..] == NO_NOTES.recent;
      assert entries[..] == Fresh(size, newReorderSize).entries;
      assert texture[..] == Fresh(size, newReorderSize).texture;
    }

    method IsInDelayed(i: nat) returns (found: bool)
      requires Valid()
      ensures found == InDelayed(Abs(), i)
    {
      for k := 0 to |delayed|
        invariant forall j :: 0 <= j < k ==> delayed[j].slot != i
      {
        if delayed[k].slot == i { return true; }
      }
      return false;
    }

    method IsRecentlyEmitted(i: nat) returns (found: bool)
      requires Valid()
      ensures found == RecentlyEmitted(Abs(), i)
    {
      for k := 0 to RECENT_N
        invariant forall j :: 0 <= j < k ==> recent[j] != i
      {
        if recent[k] == i { return true; }
      }
      return false;
    }

    method IsReference(i: nat) returns (found: bool)
      requires Valid()
      ensures found == InRefs(Abs(), i)
    {
      for k := 0 to |refs|
        invariant forall j :: 0 <= j < k ==> refs[j].slot != i
      {
        if refs[k].slot == i { return true; }
      }
      return false;
    }

    /** First pass of the allocation. */
    method FindFreeSlot() returns (slot: Option<nat>)
      requires Valid()
      ensures slot == FirstFree(Abs(), 1)
    {
      var i := 1;
      while i < entries.Length
        invariant 1 <= i
        invariant FirstFree(Abs(), i) == FirstFree(Abs(), 1)
        decreases entries.Length - i
      {
        if i != anchor {
          var waiting := IsInDelayed(i);
          var recently := IsRecentlyEmitted(i);
          if !waiting && !entries[i].used && !recently { return Some(i); }
        }
        i := i + 1;
      }
      return None;
    }

    /** Second pass of the allocation; NO_SLOT if it finds none. */
    method FindVictim() returns (victim: nat)
      requires Valid()
      ensures victim == LeastVictim(Abs(), 1, NO_SLOT, INT32_MAX)
    {
      victim := NO_SLOT;
      var minPoc := INT32_MAX;
      var i := 1;
      while i < entries.Length
        invariant 1 <= i
        invariant LeastVictim(Abs(), i, victim, minPoc) == LeastVictim(Abs(), 1, NO_SLOT, INT32_MAX)
        decreases entries.Length - i
      {
        var reference := IsReference(i);
        var recently := IsRecentlyEmitted(i);
        var waiting := IsInDelayed(i);
        if i != anchor && !reference && !recently && !waiting {
          if entries[i].poc < minPoc { minPoc, victim := entries[i].poc, i; }
        }
        i := i + 1;
      }
    }

    /** The last resort: the oldest reference that is neither reserved nor waiting. */
    method OverwriteReference() returns (victim: nat)
      requires Valid()
      ensures victim == Fallback(Abs())
    {
      var n := |refs|;
      while n > 0
        invariant 0 <= n <= |refs|
        invariant OldestRef(Abs(), n) == OldestRef(Abs(), |refs|)
      {
        var s := refs[n - 1].slot;
        var waiting := IsInDelayed(s);
        if s != anchor && !waiting { return s; }
        n := n - 1;
      }
      victim := if anchor == 1 then 2 else 1;
    }

    method AllocSlot() returns (slot: nat)
      requires Valid()
      modifies entries
      ensures Allocated()
      ensures slot == Alloc(old(Abs()))
      ensures Abs() == old(Abs()).(entries := AllocEntries(old(Abs())))
    {
      var free := FindFreeSlot();
      if free.Some? { return free.value; }
      var victim := FindVictim();
      if victim == NO_SLOT { victim := OverwriteReference(); }
      assert victim == Alloc(Abs());
      entries[victim] := Entry(false, 0);
      return victim;
    }

    method NoteEmitSlot(i: nat)
      requires Allocated()
      modifies this`recentHead, recent
      ensures Allocated() && OutNotes() == old(Notes(recent[..][recentHead := i], (recentHead + 1) % RECENT_N, anchor))
    {
      recent[recentHead] := i;
      recentHead := (recentHead + 1) % RECENT_N;
    }

    /** The position of the frame with the least POC up to the next IDR frame. */
    method ChooseFrame() returns (out: nat)
      requires Allocated() && delayed != []
      ensures out == Chosen(OutQueue())
    {
      out := 0;
      var i := 1;
      while i < |delayed|
        invariant out < i <= |delayed|
        invariant OutIndex(delayed, i, out) == OutIndex(delayed, 1, 0)
        decreases |delayed| - i
      {
        if delayed[i].isIdr { break; }
        if delayed[i].poc < delayed[out].poc { out := i; }
        i := i + 1;
      }
    }

    /** Hand over the frame at `outIdx`. */
    method EmitFrame(outIdx: nat)
      requires Allocated() && delayed != [] && outIdx == Chosen(OutQueue())
      modifies this`delayed, this`nextOutputPoc, this`emitted, this`recentHead, this`anchor, recent
      ensures Allocated() && old(emitted) <= emitted
      ensures OutQueue() == EmitChosen(old(OutQueue()))
      ensures OutNotes() == NoteFrame(old(OutNotes()), old(delayed)[outIdx])
    {
      hide OutIndex;
      var d := delayed[outIdx];
      var outOfOrder := d.poc < nextOutputPoc;
      delayed := delayed[..outIdx] + delayed[outIdx + 1..];
      if !outOfOrder { nextOutputPoc := d.poc; }
      if d.isIdr { nextOutputPoc := INT32_MIN; }
      emitted := emitted + [d];
      NoteEmitSlot(d.slot);
      if d.isIdr { anchor := d.slot; }
      assert emitted[emittedAtReset..] == old(emitted)[emittedAtReset..] + [d];
    }

    method SelectAndEmit(drainAll: bool)
      requires Allocated()
      modifies this`delayed, this`nextOutputPoc, this`emitted, this`recentHead, this`anchor, recent
      ensures Allocated() && old(emitted) <= emitted
      ensures OutQueue() == Select(old(OutQueue()), reorderSize, drainAll)
      ensures OutNotes() == SelectNotes(old(OutQueue()), old(OutNotes()), reorderSize, drainAll)
    {
      hide OutIndex, EmitChosen, NoteFrame;
      while delayed != []
        invariant Allocated() && old(emitted) <= emitted
        invariant Select(OutQueue(), reorderSize, drainAll) == Select(old(OutQueue()), reorderSize, drainAll)
        invariant SelectNotes(OutQueue(), OutNotes(), reorderSize, drainAll)
               == SelectNotes(old(OutQueue()), old(OutNotes()), reorderSize, drainAll)
        decreases |delayed|
      {
        var outIdx := ChooseFrame();
        var outOfOrder := delayed[outIdx].poc < nextOutputPoc;
        var overBuffer := |delayed| > reorderSize;
        if !drainAll && !outOfOrder && !overBuffer { break; }
        ghost var q, n := OutQueue(), OutNotes();
        assert Ready(q, reorderSize, drainAll);
        EmitFrame(outIdx);
        EmitShrinks(q);
      }
    }

    static lemma EmitShrinks(q: Queue)
      requires q.delayed != []
      ensures |EmitChosen(q).delayed| == |q.delayed| - 1
    {
    }

    /** A decoded reference picture heads the list; the oldest ones beyond the capacity leave it. */
    method PushReference(r: RefPic, numRefFrames: nat)
      modifies this`refs
      ensures refs == Trim([r] + old(refs), Max(numRefFrames, 1))
    {
      refs := [r] + refs;
      var cap := if numRefFrames < 1 then 1 else numRefFrames;
      while |refs| > cap
        invariant Trim(refs, cap) == Trim([r] + old(refs), cap)
      {
        refs := refs[..|refs| - 1];
      }
    }

    /** flush_pending_pic_h264; `beginOk` is the driver's answer to DecoderBeginFrame. */
    method FlushPendingPic(beginOk: bool)
      requires Valid()
      modifies this, entries, texture, recent
      ensures Valid() && entries == old(entries) && texture == old(texture) && recent == old(recent)
      ensures Abs() == FlushPending(old(Abs()), beginOk)
      ensures old(emitted) <= emitted && emittedAtReset == old(emittedAtReset)
    {
      hide Select, SelectNotes, UpdateRefs, UpdateHistory, Shaped;
      FlushShaped(Abs(), beginOk);
      if !hasPic { return; }
      if !beginOk {
        hasPic := false;
        return;
      }
      ghost var start := Abs();
      DecodeIntoSlot();
      hasPic := false;
      assert Abs() == Decoded(start, start.pending.value);
      SelectAndEmit(false);
      assert Abs() == FlushPending(old(Abs()), beginOk);
    }

    /** The driver writes the picture into its slot; it becomes a reference if it is one and joins the queue. */
    method DecodeIntoSlot()
      requires Valid() && hasPic
      modifies this`refs, this`delayed, this`decoded, this`history, entries, texture
      ensures Allocated()
      ensures Abs() == Decoded(old(Abs()), old(Abs()).pending.value).(pending := old(Abs()).pending)
    {
      var pic := |decoded|;
      texture[curSlot] := pic;
      entries[curSlot] := Entry(true, cur.poc);
      var r := RefPic(curSlot, cur.frameNum, cur.poc, pic);
      var f := Frame(pic, cur.poc, curSlot, cur.isIdr);
      if cur.isIdr { refs, history := [], []; }
      if cur.refIdc != 0 {
        PushReference(r, cur.numRefFrames);
        history := [r] + history;
      }
      delayed := delayed + [f];
      decoded := decoded + [f];
    }

    /** The first slice of a picture: finish the one before, release everything at an IDR picture, allocate. */
    method StartNewPicture(info: PicInfo, beginOk: bool)
      requires Valid()
      modifies this, entries, texture, recent
      ensures Valid() && entries == old(entries) && texture == old(texture) && recent == old(recent)
      ensures Abs() == StartPicture(old(Abs()), info, beginOk)
      ensures old(emitted) <= emitted && emittedAtReset == old(emittedAtReset)
    {
      FlushPendingPic(beginOk);
      ghost var flushed := Abs();
      if info.isIdr { ReleaseAll(); }
      ghost var ready := Abs();
      assert ready == if info.isIdr then Released(flushed) else flushed;
      curSlot := AllocSlot();
      cur := info;
      hasPic := true;
    }

    method ReleaseAll()
      requires Valid()
      modifies this`refs, this`history, this`anchor, entries
      ensures Valid() && Abs() == Released(old(Abs()))
    {
      for i := 0 to entries.Length
        invariant Allocated()
        invariant forall j :: 0 <= j < i ==> entries[j] == Entry(false, old(entries[j].poc))
        invariant forall j :: i <= j < entries.Length ==> entries[j] == old(entries[j])
      {
        entries[i] := entries[i].(used := false);
      }
      refs, history, anchor := [], [], NO_SLOT;
      assert entries[..] == Unused(old(entries[..]));
    }

    method ClearEntries()
      modifies entries
      ensures entries[..] == Cleared(entries.Length)
    {
      for i := 0 to entries.Length
        invariant forall j :: 0 <= j < i ==> entries[j] == Entry(false, 0)
      {
        entries[i] := Entry(false, 0);
      }
    }

    method ClearRecent()
      requires recent.Length == RECENT_N
      modifies recent
      ensures recent[..] == NO_NOTES.recent
    {
      for i := 0 to RECENT_N
        invariant forall j :: 0 <= j < i ==> recent[j] == NO_SLOT
      {
        recent[i] := NO_SLOT;
      }
    }

    /** The queue and what is remembered of frames handed over are as new. */
    method ResetOutput()
      requires Allocated()
      modifies this`delayed, this`nextOutputPoc, this`recentHead, this`anchor, this`emittedAtReset, recent
      ensures Allocated() && OutQueue() == EMPTY_QUEUE && OutNotes() == NO_NOTES
    {
      ClearRecent();
      recentHead, anchor := 0, NO_SLOT;
      delayed, nextOutputPoc, emittedAtReset := [], INT32_MIN, |emitted|;
      assert emitted[emittedAtReset..] == [];
    }

    method ResetDpb()
      requires Valid()
      modifies this`refs, this`delayed, this`nextOutputPoc, this`recentHead, this`anchor, this`emittedAtReset,
               this`decoded, this`history, entries, recent
      ensures Valid() && Abs() == Dpb.ResetDpb(old(Abs()))
    {
      hide Cleared, Shaped;
      ResetShaped(Abs());
      ClearEntries();
      ResetOutput();
      refs, decoded, history := [], [], [];
    }

    static lemma FlushShaped(st: State, beginOk: bool)
      requires Shaped(st)
      ensures Shaped(FlushPending(st, beginOk))
      ensures st.pending.Some? ==> 1 <= st.pending.value.slot < |st.entries| && Shaped(Decoded(st, st.pending.value))
    {
    }

    static lemma ResetShaped(st: State)
      requires Shaped(st)
      ensures Shaped(Dpb.ResetDpb(st))
    {
    }

    /** flush(): finish the picture, drain the queue, reset. */
    method Flush(beginOk: bool)
      requires Valid()
      modifies this, entries, texture, recent
      ensures Valid() && entries == old(entries) && texture == old(texture) && recent == old(recent)
      ensures Abs() == FlushAll(old(Abs()), beginOk)
      ensures emitted == old(emitted)[..old(emittedAtReset)]
                       + Dpb.SelectAndEmit(FlushPending(old(Abs()), beginOk), true).queue.emitted
    {
      hide Select, SelectNotes, FlushPending;
      FlushPendingPic(beginOk);
      SelectAndEmit(true);
      assert emitted == emitted[..emittedAtReset] + OutQueue().emitted;
      ResetDpb();
    }
  }
}
