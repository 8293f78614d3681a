/**
 What the picture management remembers besides its lists, in every run: what the slot entries say of the
 pictures in them, which slots were handed over last, which is reserved, and what an IDR picture and a flush
 leave behind.
 */
module DpbState {
  import opened Common
  import opened Reorder
  import opened Dpb
  import opened DpbIntegrity

  // ----- slot entries

  /** An entry in use shows the POC of the picture in its slot. */
  predicate EntryTells(entries: seq<Entry>, texture: seq<nat>, decoded: seq<Frame>, i: nat)
    requires i < |entries| == |texture|
  {
    entries[i].used ==>
      texture[i] < |decoded| && decoded[texture[i]].slot == i && decoded[texture[i]].poc == entries[i].poc
  }

  predicate EntriesTell(st: State) {
    && |st.entries| == |st.texture|
    && forall i: nat :: i < |st.entries| ==> EntryTells(st.entries, st.texture, st.decoded, i)
  }

  lemma DecodedTells(st: State, p: Pending)
    requires Shaped(st) && EntriesTell(st) && 1 <= p.slot < |st.entries|
    ensures EntriesTell(Decoded(st, p))
  {
    var after := Decoded(st, p);
    forall i: nat | i < |after.entries|
      ensures EntryTells(after.entries, after.texture, after.decoded, i)
    {
      assert EntryTells(st.entries, st.texture, st.decoded, i);
    }
  }

  lemma FlushTells(st: State, beginOk: bool)
    requires Shaped(st) && EntriesTell(st)
    ensures EntriesTell(FlushPending(st, beginOk))
  {
    hide Select, SelectNotes, EntryTells, Decoded;
    if st.pending.Some? { DecodedTells(st, st.pending.value); }
  }

  lemma StartTells(st: State, info: PicInfo, beginOk: bool)
    requires Shaped(st) && EntriesTell(st)
    ensures EntriesTell(StartPicture(st, info, beginOk))
  {
    hide FlushPending, Alloc;
    FlushTells(st, beginOk);
    var flushed := FlushPending(st, beginOk);
    var after := StartPicture(st, info, beginOk);
    forall i: nat | i < |after.entries|
      ensures EntryTells(after.entries, after.texture, after.decoded, i)
    {
      assert EntryTells(flushed.entries, flushed.texture, flushed.decoded, i);
    }
  }

  /** In every run the entries tell the truth, so that the victim of an allocation is the picture with the
      least POC. */
  lemma {:induction false} RunTells(size: nat, reorderSize: nat, ops: seq<Op>)
    requires 2 < size < NO_SLOT
    ensures EntriesTell(Run(Fresh(size, reorderSize), ops))
  {
    hide FlushPending, StartPicture, EntriesTell;
    if ops == [] {
      FreshTells(size, reorderSize);
    } else {
      var before, last := Run(Fresh(size, reorderSize), ops[..|ops| - 1]), ops[|ops| - 1];
      RunTells(size, reorderSize, ops[..|ops| - 1]);
      match last
      case Start(info, beginOk) => StartTells(before, info, beginOk);
      case Finish(beginOk) => FlushTells(before, beginOk);
      case Flush(beginOk) => ResetTells(SelectAndEmit(FlushPending(before, beginOk), true));
    }
  }

  lemma FreshTells(size: nat, reorderSize: nat)
    ensures EntriesTell(Fresh(size, reorderSize))
  {
  }

  lemma ResetTells(st: State)
    requires Shaped(st)
    ensures EntriesTell(ResetDpb(st))
  {
  }

  /** A slot found free has no picture in use; a victim is in use, and no unprotected picture in use has a
      lower POC. */
  lemma VictimIsEarliest(st: State, j: nat)
    requires Shaped(st) && EntriesTell(st) && (forall i :: 0 <= i < |st.entries| ==> st.entries[i].poc < INT32_MAX)
    requires (exists i :: 1 <= i < |st.entries| && !Protected(st, i)) && forall i :: 1 <= i < |st.entries| ==> !Free(st, i)
    requires 1 <= j < |st.entries| && !Protected(st, j)
    ensures var a := Alloc(st);
            && st.entries[a].used && st.entries[j].used && !Protected(st, a)
            && st.texture[a] < |st.decoded| && st.texture[j] < |st.decoded|
            && st.decoded[st.texture[a]].poc <= st.decoded[st.texture[j]].poc
  {
    hide InDelayed, InRefs, RecentlyEmitted, Alloc;
    AllocIs(st);
    var a := Alloc(st);
    assert !Free(st, a) && !Free(st, j);
    assert EntryTells(st.entries, st.texture, st.decoded, a) && EntryTells(st.entries, st.texture, st.decoded, j);
  }

  // ----- what was handed over

  /** The `j`-th last place of the ring holds the slot of the `j`-th last frame handed over. */
  predicate RecentAt(n: Notes, emitted: seq<Frame>, j: nat)
    requires 1 <= j <= RECENT_N
  {
    n.recent[(n.head + RECENT_N - j) % RECENT_N] == if j <= |emitted| then emitted[|emitted| - j].slot else NO_SLOT
  }

  predicate RecentIs(n: Notes, emitted: seq<Frame>) {
    forall j: nat :: 1 <= j <= RECENT_N ==> RecentAt(n, emitted, j)
  }

  /** The slot of the last IDR frame handed over from position `from` on is reserved, and no other. */
  predicate AnchorIs(anchor: nat, emitted: seq<Frame>, from: nat) {
    && from <= |emitted|
    && anchor == match LastIdr(emitted[from..]) case Some(f) => f.slot case None => NO_SLOT
  }

  lemma NoteRecent(n: Notes, emitted: seq<Frame>, f: Frame)
    requires RecentIs(n, emitted)
    ensures RecentIs(NoteFrame(n, f), emitted + [f])
  {
    hide RecentAt, NoteFrame;
    forall j: nat | 1 <= j <= RECENT_N
      ensures RecentAt(NoteFrame(n, f), emitted + [f], j)
    {
      if j == 1 { NewestRecent(n, emitted, f); } else { OlderRecent(n, emitted, f, j); }
    }
  }

  lemma NewestRecent(n: Notes, emitted: seq<Frame>, f: Frame)
    ensures RecentAt(NoteFrame(n, f), emitted + [f], 1)
  {
    RingHead(n.head);
  }

  lemma OlderRecent(n: Notes, emitted: seq<Frame>, f: Frame, j: nat)
    requires 2 <= j <= RECENT_N && RecentAt(n, emitted, j - 1)
    ensures RecentAt(NoteFrame(n, f), emitted + [f], j)
  {
    RingPlace(n.head, j);
  }

  lemma RingPlace(head: RingIndex, j: int)
    requires 2 <= j <= RECENT_N
    ensures ((head + 1) % RECENT_N + RECENT_N - j) % RECENT_N == (head + RECENT_N - (j - 1)) % RECENT_N != head
  {
  }

  lemma RingHead(head: RingIndex)
    ensures ((head + 1) % RECENT_N + RECENT_N - 1) % RECENT_N == head
  {
  }

  lemma NoteAnchor(n: Notes, emitted: seq<Frame>, f: Frame, from: nat)
    requires AnchorIs(n.anchor, emitted, from)
    ensures AnchorIs(NoteFrame(n, f).anchor, emitted + [f], from)
  {
    var all := (emitted + [f])[from..];
    assert all == emitted[from..] + [f];
    assert all[..|all| - 1] == emitted[from..];
  }

  lemma {:induction false} SelectNotesFollow(q: Queue, n: Notes, reorderSize: nat, drainAll: bool, from: nat)
    requires RecentIs(n, q.emitted) && AnchorIs(n.anchor, q.emitted, from)
    ensures var after, notes := Select(q, reorderSize, drainAll), SelectNotes(q, n, reorderSize, drainAll);
            RecentIs(notes, after.emitted) && AnchorIs(notes.anchor, after.emitted, from)
    decreases |q.delayed|
  {
    hide RecentIs, AnchorIs, NoteFrame, OutIndex;
    if Ready(q, reorderSize, drainAll) {
      var d := q.delayed[Chosen(q)];
      NoteRecent(n, q.emitted, d);
      NoteAnchor(n, q.emitted, d, from);
      SelectNotesFollow(EmitChosen(q), NoteFrame(n, d), reorderSize, drainAll, from);
    }
  }

  lemma FlushNotes(st: State, beginOk: bool, from: nat)
    requires Shaped(st) && RecentIs(st.notes, st.queue.emitted) && AnchorIs(st.notes.anchor, st.queue.emitted, from)
    ensures var after := FlushPending(st, beginOk);
            RecentIs(after.notes, after.queue.emitted) && AnchorIs(after.notes.anchor, after.queue.emitted, from)
  {
    hide Select, SelectNotes, RecentIs, AnchorIs;
    if st.pending.Some? && beginOk {
      SelectNotesFollow(Decoded(st, st.pending.value).queue, st.notes, st.reorderSize, false, from);
    }
  }

  /** How many frames had been handed over when the last IDR picture was started; since the last reset. */
  function ReleasedAt(size: nat, reorderSize: nat, ops: seq<Op>): nat
    requires 2 < size < NO_SLOT
  {
    if ops == [] then 0
    else
      var before := ops[..|ops| - 1];
      match ops[|ops| - 1]
      case Start(info, beginOk) =>
        if info.isIdr then |FlushPending(Run(Fresh(size, reorderSize), before), beginOk).queue.emitted|
        else ReleasedAt(size, reorderSize, before)
      case Finish(_) => ReleasedAt(size, reorderSize, before)
      case Flush(_) => 0
  }

  /** In every run the ring holds the last four slots handed over, and the slot of the last IDR frame handed
      over is reserved, from its output until the next IDR picture starts. */
  lemma {:induction false} NotesFollow(size: nat, reorderSize: nat, ops: seq<Op>)
    requires 2 < size < NO_SLOT
    ensures var st := Run(Fresh(size, reorderSize), ops);
            && RecentIs(st.notes, st.queue.emitted)
            && AnchorIs(st.notes.anchor, st.queue.emitted, ReleasedAt(size, reorderSize, ops))
  {
    hide FlushPending, RecentIs, AnchorIs, Alloc, AllocEntries;
    if ops == [] {
      NothingNoted();
    } else {
      var before, from := Run(Fresh(size, reorderSize), ops[..|ops| - 1]), ReleasedAt(size, reorderSize, ops[..|ops| - 1]);
      NotesFollow(size, reorderSize, ops[..|ops| - 1]);
      FlushNotes(before, ops[|ops| - 1].beginOk, from);
      NothingNoted();
      var flushed := FlushPending(before, ops[|ops| - 1].beginOk);
      RingOnly(flushed.notes, flushed.queue.emitted);
    }
  }

  lemma NothingNoted()
    ensures RecentIs(NO_NOTES, []) && AnchorIs(NO_SLOT, [], 0)
  {
  }

  lemma RingOnly(n: Notes, emitted: seq<Frame>)
    requires RecentIs(n, emitted)
    ensures RecentIs(n.(anchor := NO_SLOT), emitted) && AnchorIs(NO_SLOT, emitted, |emitted|)
  {
    assert emitted[|emitted|..] == [];
    forall j: nat | 1 <= j <= RECENT_N
      ensures RecentAt(n.(anchor := NO_SLOT), emitted, j)
    {
      assert RecentAt(n, emitted, j);
    }
  }

  // ----- IDR pictures and flushes

  /** When an IDR picture starts, no slot is in use, no picture is a reference, no slot is reserved. */
  lemma IdrReleases(size: nat, reorderSize: nat, ops: seq<Op>, info: PicInfo, beginOk: bool)
    requires 2 < size < NO_SLOT && info.isIdr
    ensures var st := Run(Fresh(size, reorderSize), ops + [Start(info, beginOk)]);
            && (forall i :: 0 <= i < |st.entries| ==> !st.entries[i].used)
            && st.refs == [] && st.history == [] && st.notes.anchor == NO_SLOT
            && st.pending.Some? && st.pending.value.info == info
  {
    hide FlushPending, Alloc;
    assert (ops + [Start(info, beginOk)])[..|ops|] == ops;
  }

  /** A flush leaves the decoder as new, but for what the texture still shows; so all theorems on runs of a
      new decoder speak of what follows. */
  lemma FlushStartsOver(size: nat, reorderSize: nat, ops: seq<Op>, beginOk: bool)
    requires 2 < size < NO_SLOT
    ensures var st := Run(Fresh(size, reorderSize), ops + [Flush(beginOk)]);
            st == Fresh(size, reorderSize).(texture := st.texture)
  {
    hide FlushPending, Select, SelectNotes;
    assert (ops + [Flush(beginOk)])[..|ops|] == ops;
    var flushed := FlushPending(Run(Fresh(size, reorderSize), ops), beginOk);
    assert Cleared(|flushed.entries|) == Cleared(size);
  }
}
