/**
 Runs of the picture management: what the reference list and the output queue are in terms of the
 pictures decoded.
 */
module DpbRuns {
  import opened Common
  import opened Reorder
  import opened ReorderOrder
  import opened Dpb
  import opened DpbIntegrity

  // ----- the reference list is a sliding window

  /** What the inputs ask for: the picture being assembled, the reference pictures since the last IDR picture,
      newest first, and everything decoded since the last reset. */
  datatype Demand = Demand(pending: Option<PicInfo>, refs: seq<PicInfo>, decoded: seq<PicInfo>)

  function DemandFlush(d: Demand, beginOk: bool): Demand {
    if d.pending.None? || !beginOk then d.(pending := None)
    else
      var info := d.pending.value;
      var kept := if info.isIdr then [] else d.refs;
      Demand(None, if info.refIdc != 0 then [info] + kept else kept, d.decoded + [info])
  }

  function DemandStep(d: Demand, op: Op): Demand {
    match op
    case Start(info, beginOk) =>
      var flushed := DemandFlush(d, beginOk);
      Demand(Some(info), if info.isIdr then [] else flushed.refs, flushed.decoded)
    case Finish(beginOk) => DemandFlush(d, beginOk)
    case Flush(beginOk) => Demand(None, [], [])
  }

  function Demands(ops: seq<Op>): Demand {
    if ops == [] then Demand(None, [], []) else DemandStep(Demands(ops[..|ops| - 1]), ops[|ops| - 1])
  }

  /** How many references each of these pictures allows. */
  function Caps(infos: seq<PicInfo>): (caps: seq<nat>)
    ensures |caps| == |infos| && forall k :: 0 <= k < |infos| ==> caps[k] == Max(infos[k].numRefFrames, 1)
  {
    seq(|infos|, k requires 0 <= k < |infos| => Max(infos[k].numRefFrames, 1))
  }

  /** How many pictures are kept, if each new one cuts the list to what it allows. */
  function Room(caps: seq<nat>): (n: nat)
    ensures n <= |caps|
  {
    if caps == [] then 0 else if Room(caps[1..]) + 1 <= caps[0] then Room(caps[1..]) + 1 else caps[0]
  }

  /** As many as every picture since allows: `j` newer ones came after the one that allowed caps[j]. */
  lemma {:induction false} RoomIsLeast(caps: seq<nat>)
    ensures forall j :: 0 <= j < |caps| ==> Room(caps) <= caps[j] + j
    ensures Room(caps) == |caps| || exists j :: 0 <= j < |caps| && Room(caps) == caps[j] + j
  {
    if caps != [] {
      var rest := caps[1..];
      RoomIsLeast(rest);
      forall j | 0 <= j < |caps|
        ensures Room(caps) <= caps[j] + j
      {
        if j > 0 { assert rest[j - 1] == caps[j]; }
      }
      if Room(caps) == caps[0] {
        assert Room(caps) == caps[0] + 0;
      } else if Room(rest) != |rest| {
        var j :| 0 <= j < |rest| && Room(rest) == rest[j] + j;
        assert Room(caps) == caps[j + 1] + (j + 1);
      }
    }
  }

  /** The entry is that of the picture: its number, POC and slot. */
  predicate Records(decoded: seq<Frame>, r: RefPic, info: PicInfo) {
    && r.frameNum == info.frameNum && r.poc == info.poc
    && r.pic < |decoded| && decoded[r.pic].slot == r.slot && decoded[r.pic].poc == r.poc
  }

  /** Frame `k` of those decoded is picture `k` of those asked for. */
  predicate FrameIs(f: Frame, k: nat, info: PicInfo) { f.pic == k && f.poc == info.poc && f.isIdr == info.isIdr }

  predicate DecodedAsAsked(decoded: seq<Frame>, infos: seq<PicInfo>) {
    |decoded| == |infos| && forall k :: 0 <= k < |decoded| ==> FrameIs(decoded[k], k, infos[k])
  }

  predicate HistoryAsAsked(history: seq<RefPic>, decoded: seq<Frame>, infos: seq<PicInfo>) {
    |history| == |infos| && forall k :: 0 <= k < |history| ==> Records(decoded, history[k], infos[k])
  }

  predicate PendingAsAsked(pending: Option<Pending>, info: Option<PicInfo>) {
    if pending.Some? then info == Some(pending.value.info) else info == None
  }

  /** The frames decoded and the references are those asked for; the list is as many of the newest reference
      pictures as the inputs allow. */
  predicate Window(st: State, d: Demand) {
    && PendingAsAsked(st.pending, d.pending)
    && DecodedAsAsked(st.decoded, d.decoded)
    && HistoryAsAsked(st.history, st.decoded, d.refs)
    && st.refs == Trim(st.history, Room(Caps(d.refs)))
  }

  lemma DecodedPush(decoded: seq<Frame>, infos: seq<PicInfo>, f: Frame, info: PicInfo)
    requires DecodedAsAsked(decoded, infos) && FrameIs(f, |decoded|, info)
    ensures DecodedAsAsked(decoded + [f], infos + [info])
  {
    hide FrameIs;
  }

  lemma HistoryPush(history: seq<RefPic>, decoded: seq<Frame>, infos: seq<PicInfo>, f: Frame, r: RefPic, info: PicInfo)
    requires HistoryAsAsked(history, decoded, infos)
    ensures HistoryAsAsked(history, decoded + [f], infos)
    ensures Records(decoded + [f], r, info) ==> HistoryAsAsked([r] + history, decoded + [f], [info] + infos)
  {
    assert forall k :: 0 <= k < |history| ==> Records(decoded + [f], history[k], infos[k]);
  }

  lemma TrimPush<T>(x: T, h: seq<T>, n: nat, cap: nat)
    requires n <= |h|
    ensures Trim([x] + Trim(h, n), cap) == Trim([x] + h, if n + 1 <= cap then n + 1 else cap)
  {
  }

  lemma CapsPush(info: PicInfo, infos: seq<PicInfo>)
    ensures Caps([info] + infos) == [Max(info.numRefFrames, 1)] + Caps(infos)
    ensures Room(Caps([info] + infos)) ==
      if Room(Caps(infos)) + 1 <= Max(info.numRefFrames, 1) then Room(Caps(infos)) + 1 else Max(info.numRefFrames, 1)
  {
    assert ([Max(info.numRefFrames, 1)] + Caps(infos))[1..] == Caps(infos);
  }

  lemma FlushWindow(st: State, beginOk: bool, d: Demand)
    requires Shaped(st) && Window(st, d)
    ensures Window(FlushPending(st, beginOk), DemandFlush(d, beginOk))
  {
    hide Caps, Room, Select, SelectNotes, DecodedAsAsked, HistoryAsAsked, FrameIs;
    if st.pending.Some? && beginOk {
      var p := st.pending.value;
      var r := RefPic(p.slot, p.info.frameNum, p.info.poc, |st.decoded|);
      var f := Frame(|st.decoded|, p.info.poc, p.slot, p.info.isIdr);
      var kept, infos := if p.info.isIdr then [] else st.history, if p.info.isIdr then [] else d.refs;
      NothingAsked(st.decoded);
      NoCaps();
      SameCount(kept, st.decoded, infos);
      TrimPush(r, kept, Room(Caps(infos)), Max(p.info.numRefFrames, 1));
      CapsPush(p.info, infos);
      PictureAsAsked(st.decoded, d.decoded, f, r, p.info);
      DecodedPush(st.decoded, d.decoded, f, p.info);
      HistoryPush(kept, st.decoded, infos, f, r, p.info);
    }
  }

  lemma SameCount(history: seq<RefPic>, decoded: seq<Frame>, infos: seq<PicInfo>)
    requires HistoryAsAsked(history, decoded, infos)
    ensures |history| == |infos|
  {
  }

  lemma NothingAsked(decoded: seq<Frame>)
    ensures HistoryAsAsked([], decoded, []) && DecodedAsAsked([], [])
  {
  }

  lemma PictureAsAsked(decoded: seq<Frame>, infos: seq<PicInfo>, f: Frame, r: RefPic, info: PicInfo)
    requires f.pic == |decoded| == r.pic && f.poc == info.poc == r.poc && f.isIdr == info.isIdr && f.slot == r.slot
    requires r.frameNum == info.frameNum
    ensures FrameIs(f, |decoded|, info) && Records(decoded + [f], r, info)
  {
  }

  lemma NoCaps()
    ensures Room(Caps([])) == 0
  {
  }

  /** In every run the list is the newest reference pictures since the last IDR picture, newest first, as
      many of them as every num_ref_frames since then allows. */
  lemma {:induction false} SlidingWindow(size: nat, reorderSize: nat, ops: seq<Op>)
    requires 2 < size < NO_SLOT
    ensures Window(Run(Fresh(size, reorderSize), ops), Demands(ops))
  {
    hide FlushPending, DemandFlush, Alloc, AllocEntries, DecodedAsAsked, HistoryAsAsked, Caps, Room;
    NothingAsked([]);
    NoCaps();
    if ops != [] {
      var before, d := Run(Fresh(size, reorderSize), ops[..|ops| - 1]), Demands(ops[..|ops| - 1]);
      SlidingWindow(size, reorderSize, ops[..|ops| - 1]);
      FlushWindow(before, ops[|ops| - 1].beginOk, d);
      FlushedDemand(d, ops[|ops| - 1].beginOk);
      NothingAsked(FlushPending(before, ops[|ops| - 1].beginOk).decoded);
    }
  }

  lemma FlushedDemand(d: Demand, beginOk: bool)
    ensures DemandFlush(d, beginOk).pending == None
  {
  }

  lemma {:induction false} SteadyRoom(caps: seq<nat>, cap: nat)
    requires forall j :: 0 <= j < |caps| ==> caps[j] == cap
    ensures Room(caps) == if |caps| <= cap then |caps| else cap
  {
    RoomIsLeast(caps);
    if caps != [] { assert caps[0] == cap; }
  }

  /** If num_ref_frames did not change since the last IDR picture, these are the newest max(num_ref_frames, 1). */
  lemma SteadyWindow(size: nat, reorderSize: nat, ops: seq<Op>, numRefFrames: nat)
    requires 2 < size < NO_SLOT
    requires forall j :: 0 <= j < |Demands(ops).refs| ==> Demands(ops).refs[j].numRefFrames == numRefFrames
    ensures var st := Run(Fresh(size, reorderSize), ops); st.refs == Trim(st.history, Max(numRefFrames, 1))
  {
    SlidingWindow(size, reorderSize, ops);
    SteadyRoom(Caps(Demands(ops).refs), Max(numRefFrames, 1));
  }

  // ----- the output queue

  /** The queue is the one reached by decoding exactly the frames decoded since the last reset. */
  predicate QueueFollows(st: State) {
    && Numbered(st.decoded)
    && st.queue == Reorder.Decode(st.decoded, st.reorderSize)
  }

  lemma FlushFollows(st: State, beginOk: bool)
    requires Shaped(st) && QueueFollows(st)
    ensures QueueFollows(FlushPending(st, beginOk))
  {
    if st.pending.Some? && beginOk {
      var d := Decoded(st, st.pending.value);
      assert d.decoded[..|d.decoded| - 1] == st.decoded;
    }
  }

  /** Whatever is decoded, the output queue is that of the stream of decoded frames, so that
      QueueSafety and ReorderCorrect speak about it. */
  lemma {:induction false} QueueFollowsDecoding(size: nat, reorderSize: nat, ops: seq<Op>)
    requires 2 < size < NO_SLOT
    ensures QueueFollows(Run(Fresh(size, reorderSize), ops))
  {
    hide FlushPending;
    if ops != [] {
      var before := Run(Fresh(size, reorderSize), ops[..|ops| - 1]);
      QueueFollowsDecoding(size, reorderSize, ops[..|ops| - 1]);
      FlushFollows(before, ops[|ops| - 1].beginOk);
    }
  }

  /**
   Nothing is lost at the end: what flush() has handed over since the last reset is everything decoded
   since then, never across an IDR frame; and for POCs as the standard asks it is in display order if and
   only if the stream needs no more reordering than the queue has room for.
   */
  lemma FlushHandsOverAll(size: nat, reorderSize: nat, ops: seq<Op>, beginOk: bool)
    requires 2 < size < NO_SLOT
    ensures var st := FlushPending(Run(Fresh(size, reorderSize), ops), beginOk);
            var out := SelectAndEmit(st, true).queue;
            && out.delayed == [] && multiset(out.emitted) == multiset(st.decoded) && GopsInOrder(st.decoded, out)
            && (Playable(st.decoded) ==>
                  (InDisplayOrder(st.decoded, out.emitted) <==> FewOvertaken(st.decoded, reorderSize)))
  {
    hide FlushPending, Run, Select, SelectNotes, GopsInOrder, Playable, FewOvertaken, InDisplayOrder;
    var before := Run(Fresh(size, reorderSize), ops);
    QueueFollowsDecoding(size, reorderSize, ops);
    FlushFollows(before, beginOk);
    var st := FlushPending(before, beginOk);
    DrainSafety(st.decoded, reorderSize);
    if Playable(st.decoded) { DisplayOrderIff(st.decoded, reorderSize); }
  }
}
