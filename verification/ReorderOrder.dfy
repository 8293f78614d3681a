/**
 In which order the output queue hands frames over: never across an IDR frame, whatever the
 POCs are; and in display order, if the stream needs no more reordering than the queue has room for.
 */
module ReorderOrder {
  import opened Common
  import opened Reorder

  /** The frames of a stream are numbered in decode order. */
  predicate Numbered(stream: seq<Frame>) {
    forall k :: 0 <= k < |stream| ==> stream[k].pic == k
  }

  /** The group of pictures of frame `k`: how many IDR frames were decoded up to and including it. */
  function Gop(stream: seq<Frame>, k: nat): nat {
    (if k == 0 then 0 else Gop(stream, k - 1)) + (if k < |stream| && stream[k].isIdr then 1 else 0)
  }

  lemma {:induction false} GopMonotone(stream: seq<Frame>, j: nat, k: nat)
    requires j <= k < |stream|
    ensures Gop(stream, j) <= Gop(stream, k)
    ensures j < k && stream[k].isIdr ==> Gop(stream, j) < Gop(stream, k)
    decreases k - j
  {
    if j < k { GopMonotone(stream, j, k - 1); }
  }

  lemma GopStep(stream: seq<Frame>, k: nat)
    requires 0 < k < |stream| && !stream[k].isIdr
    ensures Gop(stream, k) == Gop(stream, k - 1)
  {
  }

  /** The frame is the one of that number in the stream. */
  predicate From(stream: seq<Frame>, f: Frame) {
    f.pic < |stream| && stream[f.pic] == f
  }

  // ----- safety, with arbitrary POCs

  /** The frame behind frame `i` of the queue starts a group or belongs to the same one. */
  predicate Linked(stream: seq<Frame>, delayed: seq<Frame>, i: nat)
    requires i + 1 < |delayed|
  {
    delayed[i + 1].isIdr || Gop(stream, delayed[i + 1].pic) == Gop(stream, delayed[i].pic)
  }

  /** The frames waiting are in decode order, and every change of group among them starts with its IDR frame. */
  predicate Waiting(stream: seq<Frame>, m: nat, delayed: seq<Frame>) {
    && (forall i :: 0 <= i < |delayed| ==> From(stream, delayed[i]) && delayed[i].pic < m)
    && (forall i, j :: 0 <= i < j < |delayed| ==> delayed[i].pic < delayed[j].pic)
    && (forall i: nat :: i + 1 < |delayed| ==> Linked(stream, delayed, i))
  }

  /** No frame decoded at or after an IDR frame was handed over before one decoded before it. */
  predicate GopsInOrder(stream: seq<Frame>, q: Queue) {
    && (forall i :: 0 <= i < |q.emitted| ==> From(stream, q.emitted[i]))
    && (forall i, j :: 0 <= i < j < |q.emitted| ==> Gop(stream, q.emitted[i].pic) <= Gop(stream, q.emitted[j].pic))
    && (forall i, j :: 0 <= i < |q.emitted| && 0 <= j < |q.delayed| ==>
          Gop(stream, q.emitted[i].pic) <= Gop(stream, q.delayed[j].pic))
  }

  /** The frames handed over and the frames waiting are exactly the first `m` frames. */
  predicate Conserved(stream: seq<Frame>, m: nat, q: Queue) {
    m <= |stream| && multiset(q.emitted) + multiset(q.delayed) == multiset(stream[..m])
  }

  /** What every queue reached by decoding the first `m` frames satisfies. */
  predicate Safe(stream: seq<Frame>, m: nat, q: Queue) {
    Waiting(stream, m, q.delayed) && GopsInOrder(stream, q) && Conserved(stream, m, q)
  }

  /** The scanned part of the queue belongs to one group, and nothing in the queue to an earlier one. */
  lemma {:induction false} SegmentGop(stream: seq<Frame>, m: nat, delayed: seq<Frame>, k: nat)
    requires Waiting(stream, m, delayed) && k < |delayed|
    ensures Gop(stream, delayed[0].pic) <= Gop(stream, delayed[k].pic)
    ensures k < ScanEnd(delayed, 1) ==> Gop(stream, delayed[k].pic) == Gop(stream, delayed[0].pic)
    decreases k
  {
    hide Gop, ScanEnd;
    OutIndexIsLeast(delayed, 1, 0);
    if k > 0 {
      SegmentGop(stream, m, delayed, k - 1);
      assert Linked(stream, delayed, k - 1);
      GopMonotone(stream, delayed[k - 1].pic, delayed[k].pic);
    }
  }

  lemma RemovalKeepsMultiset(s: seq<Frame>, k: nat)
    requires k < |s|
    ensures multiset(s[..k] + s[k + 1..]) + multiset([s[k]]) == multiset(s)
  {
    assert s == s[..k] + [s[k]] + s[k + 1..];
  }

  lemma RemovalKeepsWaiting(stream: seq<Frame>, m: nat, delayed: seq<Frame>, k: nat)
    requires Waiting(stream, m, delayed) && k < |delayed|
    requires k == 0 || !delayed[k].isIdr
    ensures Waiting(stream, m, delayed[..k] + delayed[k + 1..])
  {
    hide Gop;
    var after := delayed[..k] + delayed[k + 1..];
    forall i: nat | i + 1 < |after|
      ensures Linked(stream, after, i)
    {
      if i + 1 == k {
        assert Linked(stream, delayed, i);
        assert Linked(stream, delayed, k);
      } else {
        assert Linked(stream, delayed, if i < k then i else i + 1);
      }
    }
  }

  lemma EmitChosenConserves(stream: seq<Frame>, m: nat, q: Queue)
    requires Conserved(stream, m, q) && q.delayed != []
    ensures Conserved(stream, m, EmitChosen(q))
  {
    RemovalKeepsMultiset(q.delayed, Chosen(q));
    assert multiset(EmitChosen(q).emitted) == multiset(q.emitted) + multiset([q.delayed[Chosen(q)]]);
  }

  lemma EmitChosenKeepsGops(stream: seq<Frame>, m: nat, q: Queue)
    requires Waiting(stream, m, q.delayed) && q.delayed != [] && GopsInOrder(stream, q)
    ensures GopsInOrder(stream, EmitChosen(q))
  {
    hide Gop, ScanEnd, OutIndex;
    OutIndexIsLeast(q.delayed, 1, 0);
    forall j | 0 <= j < |q.delayed|
      ensures Gop(stream, q.delayed[Chosen(q)].pic) <= Gop(stream, q.delayed[j].pic)
    {
      SegmentGop(stream, m, q.delayed, j);
      SegmentGop(stream, m, q.delayed, Chosen(q));
    }
  }

  lemma EmitChosenSafe(stream: seq<Frame>, m: nat, q: Queue)
    requires Safe(stream, m, q) && q.delayed != []
    ensures Safe(stream, m, EmitChosen(q))
  {
    hide Waiting, GopsInOrder, Conserved, OutIndex;
    OutIndexIsLeast(q.delayed, 1, 0);
    RemovalKeepsWaiting(stream, m, q.delayed, Chosen(q));
    EmitChosenKeepsGops(stream, m, q);
    EmitChosenConserves(stream, m, q);
  }

  lemma {:induction false} SelectSafe(stream: seq<Frame>, m: nat, q: Queue, reorderSize: nat, drainAll: bool)
    requires Safe(stream, m, q)
    ensures var after := Select(q, reorderSize, drainAll);
            Safe(stream, m, after) && |after.delayed| <= (if drainAll then 0 else reorderSize)
    decreases |q.delayed|
  {
    hide Safe;
    if Ready(q, reorderSize, drainAll) {
      EmitChosenSafe(stream, m, q);
      SelectSafe(stream, m, EmitChosen(q), reorderSize, drainAll);
    }
  }

  /** The frame decoded last belongs to the group of the last frame waiting. */
  lemma LastDecodedGop(stream: seq<Frame>, m: nat, q: Queue)
    requires Safe(stream, m, q) && Numbered(stream) && q.delayed != []
    ensures m > 0 && Gop(stream, m - 1) == Gop(stream, q.delayed[|q.delayed| - 1].pic)
  {
    hide Gop, Conserved;
    var last := q.delayed[|q.delayed| - 1];
    if last.pic < m - 1 {
      WasEmitted(stream, m, q, m - 1);
      var i :| 0 <= i < |q.emitted| && q.emitted[i] == stream[m - 1];
      GopMonotone(stream, last.pic, m - 1);
    }
  }

  /** A decoded frame after the last one waiting has been handed over. */
  lemma WasEmitted(stream: seq<Frame>, m: nat, q: Queue, k: nat)
    requires Conserved(stream, m, q) && Waiting(stream, m, q.delayed) && Numbered(stream)
    requires k < m && (q.delayed == [] || q.delayed[|q.delayed| - 1].pic < k)
    ensures k < |stream| && stream[k] in q.emitted
  {
    hide Gop;
    assert stream[..m][k] == stream[k];
    assert stream[k] in multiset(q.emitted) + multiset(q.delayed);
  }

  /** Frame `m` is an IDR frame, or belongs to the group of the last frame waiting. */
  lemma {:induction false} LastGop(stream: seq<Frame>, m: nat, q: Queue)
    requires Safe(stream, m, q) && Numbered(stream) && m < |stream| && q.delayed != []
    ensures stream[m].isIdr || Gop(stream, m) == Gop(stream, q.delayed[|q.delayed| - 1].pic)
  {
    hide Gop, Safe;
    LastDecodedGop(stream, m, q);
    if !stream[m].isIdr { GopStep(stream, m); }
  }

  /** Only the two frames concerned matter. */
  lemma LinkedAgrees(stream: seq<Frame>, delayed: seq<Frame>, after: seq<Frame>, i: nat)
    requires i + 1 < |delayed| && i + 1 < |after| && Linked(stream, delayed, i)
    requires after[i] == delayed[i] && after[i + 1] == delayed[i + 1]
    ensures Linked(stream, after, i)
  {
  }

  lemma AppendWaiting(stream: seq<Frame>, m: nat, delayed: seq<Frame>, f: Frame)
    requires Waiting(stream, m, delayed) && From(stream, f) && f.pic == m
    requires delayed != [] ==> Linked(stream, [delayed[|delayed| - 1], f], 0)
    ensures Waiting(stream, m + 1, delayed + [f])
  {
    hide Gop, Linked, From;
    var after := delayed + [f];
    forall i | 0 <= i < |after|
      ensures From(stream, after[i]) && after[i].pic < m + 1
    {
      if i < |delayed| { assert after[i] == delayed[i]; }
    }
    forall i: nat | i + 1 < |after|
      ensures Linked(stream, after, i)
    {
      if i + 1 < |delayed| { LinkedAgrees(stream, delayed, after, i); } else { LastLinked(stream, delayed, f); }
    }
  }

  lemma LastLinked(stream: seq<Frame>, delayed: seq<Frame>, f: Frame)
    requires delayed != [] && Linked(stream, [delayed[|delayed| - 1], f], 0)
    ensures Linked(stream, delayed + [f], |delayed| - 1)
  {
  }

  lemma AppendGops(stream: seq<Frame>, m: nat, q: Queue)
    requires GopsInOrder(stream, q) && Numbered(stream) && m < |stream|
    requires forall i :: 0 <= i < |q.emitted| ==> q.emitted[i].pic < m
    ensures GopsInOrder(stream, q.(delayed := q.delayed + [stream[m]]))
  {
    hide Gop;
    forall i | 0 <= i < |q.emitted|
      ensures Gop(stream, q.emitted[i].pic) <= Gop(stream, m)
    {
      GopMonotone(stream, q.emitted[i].pic, m);
    }
  }

  lemma AppendSafe(stream: seq<Frame>, m: nat, q: Queue)
    requires Safe(stream, m, q) && Numbered(stream) && m < |stream|
    requires forall i :: 0 <= i < |q.emitted| ==> q.emitted[i].pic < m
    ensures Safe(stream, m + 1, q.(delayed := q.delayed + [stream[m]]))
  {
    hide Gop, Waiting, GopsInOrder;
    assert stream[..m + 1] == stream[..m] + [stream[m]];
    if q.delayed != [] { LastGop(stream, m, q); }
    AppendWaiting(stream, m, q.delayed, stream[m]);
    AppendGops(stream, m, q);
  }

  lemma EmittedWereDecoded(stream: seq<Frame>, m: nat, q: Queue, i: nat)
    requires Conserved(stream, m, q) && Numbered(stream) && i < |q.emitted|
    ensures q.emitted[i].pic < m
  {
    assert q.emitted[i] in multiset(stream[..m]);
  }

  lemma PushSafe(stream: seq<Frame>, m: nat, q: Queue)
    requires Safe(stream, m, q) && Numbered(stream) && m < |stream|
    ensures Safe(stream, m + 1, q.(delayed := q.delayed + [stream[m]]))
  {
    hide Waiting, GopsInOrder;
    forall i | 0 <= i < |q.emitted|
      ensures q.emitted[i].pic < m
    {
      EmittedWereDecoded(stream, m, q, i);
    }
    AppendSafe(stream, m, q);
  }

  /**
   Safety with arbitrary POCs: after any stream, the frames handed over and waiting are exactly the
   frames decoded, at most `reorderSize` wait, and none was handed over across an IDR frame.
   */
  lemma {:induction false} QueueSafety(stream: seq<Frame>, m: nat, reorderSize: nat)
    requires Numbered(stream) && m <= |stream|
    ensures var q := Decode(stream[..m], reorderSize);
            Safe(stream, m, q) && |q.delayed| <= reorderSize
  {
    hide Select;
    if m > 0 {
      QueueSafety(stream, m - 1, reorderSize);
      assert stream[..m][..m - 1] == stream[..m - 1];
      var before := Decode(stream[..m - 1], reorderSize);
      PushSafe(stream, m - 1, before);
      SelectSafe(stream, m, before.(delayed := before.delayed + [stream[m - 1]]), reorderSize, false);
    }
  }

  /** Draining empties the queue and still crosses no IDR frame. */
  lemma DrainSafety(stream: seq<Frame>, reorderSize: nat)
    requires Numbered(stream)
    ensures var q := Select(Decode(stream, reorderSize), reorderSize, true);
            q.delayed == [] && multiset(q.emitted) == multiset(stream) && GopsInOrder(stream, q)
  {
    hide Waiting, GopsInOrder;
    assert stream[..|stream|] == stream;
    QueueSafety(stream, |stream|, reorderSize);
    SelectSafe(stream, |stream|, Decode(stream, reorderSize), reorderSize, true);
  }

  // ----- display order

  /** Display order: by group, and by POC within a group. */
  predicate Earlier(stream: seq<Frame>, a: Frame, b: Frame) {
    var ga, gb := Gop(stream, a.pic), Gop(stream, b.pic);
    ga < gb || (ga == gb && a.poc < b.poc)
  }

  /** The frames decoded before frame `k` that are displayed after it in the same group. */
  function Overtaken(stream: seq<Frame>, k: nat): set<nat>
    requires k < |stream|
  {
    set j: nat | j < k && Gop(stream, j) == Gop(stream, k) && stream[j].poc > stream[k].poc
  }

  /** What the standard asks of POCs: they differ within a group, an IDR frame has the least of its group. */
  predicate Playable(stream: seq<Frame>) {
    && Numbered(stream)
    && (forall j, k :: 0 <= j < |stream| && 0 <= k < |stream| && j != k && Gop(stream, j) == Gop(stream, k) ==>
          stream[j].poc != stream[k].poc)
    && (forall j, k :: 0 <= j < |stream| && 0 <= k < |stream| && Gop(stream, j) == Gop(stream, k) && stream[j].isIdr ==>
          stream[j].poc <= stream[k].poc)
    && (forall k :: 0 <= k < |stream| ==> stream[k].poc >= INT32_MIN)
  }

  /** No frame overtakes more than `reorderSize` others. */
  predicate FewOvertaken(stream: seq<Frame>, reorderSize: nat) {
    forall k :: 0 <= k < |stream| ==> |Overtaken(stream, k)| <= reorderSize
  }

  /** The stream needs no more reordering than `reorderSize`. */
  predicate Orderly(stream: seq<Frame>, reorderSize: nat) { Playable(stream) && FewOvertaken(stream, reorderSize) }

  /** What was handed over is in display order and precedes everything that was not; `nextPoc`, when set,
      is the POC of a frame handed over from the group now being handed over. */
  predicate Displayed(stream: seq<Frame>, q: Queue) {
    && (forall i, j :: 0 <= i < j < |q.emitted| ==> Earlier(stream, q.emitted[i], q.emitted[j]))
    && (forall i, k :: 0 <= i < |q.emitted| && 0 <= k < |stream| && stream[k] !in q.emitted ==>
          Earlier(stream, q.emitted[i], stream[k]))
    && (q.nextPoc == INT32_MIN || LastGopHasPoc(stream, q))
  }

  predicate LastGopHasPoc(stream: seq<Frame>, q: Queue) {
    q.emitted != [] &&
    exists i :: 0 <= i < |q.emitted| && q.emitted[i].poc == q.nextPoc &&
                Gop(stream, q.emitted[i].pic) == Gop(stream, q.emitted[|q.emitted| - 1].pic)
  }

  lemma {:induction false} GopStart(stream: seq<Frame>, k: nat) returns (j: nat)
    requires k < |stream| && Gop(stream, k) > 0
    ensures j <= k && stream[j].isIdr && Gop(stream, j) == Gop(stream, k)
  {
    if stream[k].isIdr { j := k; } else { j := GopStart(stream, k - 1); }
  }

  function PicSet(frames: seq<Frame>): set<nat> { set i | 0 <= i < |frames| :: frames[i].pic }

  lemma PicSetSnoc(frames: seq<Frame>, last: Frame)
    requires forall i :: 0 <= i < |frames| ==> frames[i].pic < last.pic
    ensures PicSet(frames + [last]) == PicSet(frames) + {last.pic} && last.pic !in PicSet(frames)
  {
    var all := frames + [last];
    assert all[|frames|] == last;
    assert forall i :: 0 <= i < |frames| ==> all[i] == frames[i];
  }

  lemma {:induction false} PicSetSize(frames: seq<Frame>)
    requires forall i, j :: 0 <= i < j < |frames| ==> frames[i].pic < frames[j].pic
    ensures |PicSet(frames)| == |frames|
  {
    hide PicSet;
    if frames == [] {
      NoPics();
    } else {
      var init, last := frames[..|frames| - 1], frames[|frames| - 1];
      PicSetSize(init);
      PicSetSnoc(init, last);
      assert frames == init + [last];
    }
  }

  lemma NoPics()
    ensures PicSet([]) == {}
  {
  }

  /** If the group of the head of the queue is still growing, the scan reaches the end of the queue. */
  lemma WholeQueueScanned(stream: seq<Frame>, m: nat, delayed: seq<Frame>, k: nat)
    requires Waiting(stream, m, delayed) && delayed != [] && k < |stream|
    requires delayed[|delayed| - 1].pic <= k && Gop(stream, k) == Gop(stream, delayed[0].pic)
    ensures ScanEnd(delayed, 1) == |delayed|
  {
    hide Gop, ScanEnd;
    OutIndexIsLeast(delayed, 1, 0);
    var e := ScanEnd(delayed, 1);
    if e < |delayed| {
      GopMonotone(stream, delayed[0].pic, delayed[e].pic);
      GopMonotone(stream, delayed[e].pic, k);
    }
  }

  /** A frame emitted because the queue is full is displayed before everything still to come. */
  lemma FullQueueIsSafe(stream: seq<Frame>, reorderSize: nat, m: nat, delayed: seq<Frame>, out: nat, k: nat)
    requires Orderly(stream, reorderSize) && Waiting(stream, m, delayed) && |delayed| > reorderSize
    requires out == OutIndex(delayed, 1, 0) < |delayed|
    requires m <= k < |stream|
    ensures Earlier(stream, delayed[out], stream[k])
  {
    hide Gop, ScanEnd, OutIndex;
    var d := delayed[out];
    OutIndexIsLeast(delayed, 1, 0);
    GopMonotone(stream, d.pic, k);
    if Gop(stream, d.pic) == Gop(stream, k) && stream[k].poc <= d.poc {
      SegmentGop(stream, m, delayed, out);
      WholeQueueScanned(stream, m, delayed, k);
      forall i | 0 <= i < |delayed|
        ensures delayed[i].pic in Overtaken(stream, k)
      {
        SegmentGop(stream, m, delayed, i);
      }
      PicSetSize(delayed);
      SubsetSize(PicSet(delayed), Overtaken(stream, k));
    }
  }

  /** The group of a frame that is out of order has not been started: no frame of it was handed over. */
  lemma OutOfOrderStartsGop(stream: seq<Frame>, reorderSize: nat, q: Queue, d: Frame, j: nat)
    requires Orderly(stream, reorderSize) && Displayed(stream, q)
    requires From(stream, d) && d !in q.emitted && d.poc < q.nextPoc
    requires j < |q.emitted|
    ensures Gop(stream, q.emitted[j].pic) < Gop(stream, d.pic)
  {
    hide Gop;
    var last := |q.emitted| - 1;
    var e :| 0 <= e < |q.emitted| && q.emitted[e].poc == q.nextPoc
             && Gop(stream, q.emitted[e].pic) == Gop(stream, q.emitted[last].pic);
    assert Earlier(stream, q.emitted[e], stream[d.pic]);
    if j < last { assert Earlier(stream, q.emitted[j], q.emitted[last]); }
  }

  /** A frame whose POC lies below the last one handed over is the IDR frame that starts its group. */
  lemma OutOfOrderIsIdr(stream: seq<Frame>, reorderSize: nat, m: nat, q: Queue)
    requires Orderly(stream, reorderSize) && Safe(stream, m, q) && q.delayed != []
    requires Displayed(stream, q) && OutOfOrder(q)
    ensures q.delayed[Chosen(q)].isIdr
  {
    hide Gop, ScanEnd, OutIndex, Displayed, GopsInOrder;
    var d := q.delayed[Chosen(q)];
    NotTwice(stream, m, q, d);
    OutIndexIsLeast(q.delayed, 1, 0);
    GopPositive(stream, reorderSize, q, d);
    var s := GopStart(stream, d.pic);
    var f := stream[s];
    if f in q.emitted {
      var i :| 0 <= i < |q.emitted| && q.emitted[i] == f;
      OutOfOrderStartsGop(stream, reorderSize, q, d, i);
    }
    assert stream[..m][s] == f;
    assert f in multiset(stream[..m]);
    var i :| 0 <= i < |q.delayed| && q.delayed[i] == f;
    InFirstSegment(stream, m, q.delayed, Chosen(q), i);
  }

  /** A frame waiting that is decoded no later than the chosen one and shares its group was scanned. */
  lemma InFirstSegment(stream: seq<Frame>, m: nat, delayed: seq<Frame>, out: nat, i: nat)
    requires Waiting(stream, m, delayed) && out < |delayed| && i < |delayed|
    requires out < ScanEnd(delayed, 1) && delayed[i].pic <= delayed[out].pic
    ensures i < ScanEnd(delayed, 1)
  {
    hide Gop, ScanEnd;
  }

  lemma GopPositive(stream: seq<Frame>, reorderSize: nat, q: Queue, d: Frame)
    requires Orderly(stream, reorderSize) && Displayed(stream, q)
    requires From(stream, d) && d !in q.emitted && d.poc < q.nextPoc
    ensures Gop(stream, d.pic) > 0
  {
    hide Gop;
    assert q.emitted != [];
    OutOfOrderStartsGop(stream, reorderSize, q, d, 0);
  }

  lemma {:induction false} OnceOnly(stream: seq<Frame>, m: nat, f: Frame)
    requires Numbered(stream) && m <= |stream|
    ensures multiset(stream[..m])[f] <= 1
    ensures f in stream[..m] ==> f.pic < m
  {
    if m > 0 {
      OnceOnly(stream, m - 1, f);
      assert stream[..m] == stream[..m - 1] + [stream[m - 1]];
    }
  }

  /** No frame is both waiting and handed over. */
  lemma NotTwice(stream: seq<Frame>, m: nat, q: Queue, f: Frame)
    requires Conserved(stream, m, q) && Numbered(stream) && f in q.delayed
    ensures f !in q.emitted
  {
    OnceOnly(stream, m, f);
    assert (multiset(q.emitted) + multiset(q.delayed))[f] == multiset(q.emitted)[f] + multiset(q.delayed)[f];
  }

  /** The frame chosen is displayed before every other frame not yet handed over. */
  lemma ChosenIsNext(stream: seq<Frame>, reorderSize: nat, m: nat, q: Queue, drainAll: bool, k: nat)
    requires Orderly(stream, reorderSize) && Safe(stream, m, q) && Displayed(stream, q)
    requires Ready(q, reorderSize, drainAll) && (drainAll ==> m == |stream|)
    requires k < |stream| && stream[k] !in q.emitted && stream[k] != q.delayed[Chosen(q)]
    ensures Earlier(stream, q.delayed[Chosen(q)], stream[k])
  {
    hide Gop, ScanEnd, OutIndex, Displayed, GopsInOrder;
    var out, d := Chosen(q), q.delayed[Chosen(q)];
    if k < m {
      assert stream[..m][k] == stream[k];
      assert stream[k] in multiset(stream[..m]);
      var i :| 0 <= i < |q.delayed| && q.delayed[i] == stream[k];
      ChosenIsLeast(stream, reorderSize, m, q.delayed, i);
    } else if |q.delayed| > reorderSize {
      FullQueueIsSafe(stream, reorderSize, m, q.delayed, out, k);
    } else {
      OutOfOrderIsIdr(stream, reorderSize, m, q);
      GopMonotone(stream, d.pic, k);
    }
  }

  /** Among the frames waiting, the chosen one is displayed first. */
  lemma ChosenIsLeast(stream: seq<Frame>, reorderSize: nat, m: nat, delayed: seq<Frame>, i: nat)
    requires Orderly(stream, reorderSize) && Waiting(stream, m, delayed) && i < |delayed|
    ensures var out := OutIndex(delayed, 1, 0);
            out < |delayed| && (i == out || Earlier(stream, delayed[out], delayed[i]))
  {
    hide Gop, ScanEnd, OutIndex;
    OutIndexIsLeast(delayed, 1, 0);
    var out := OutIndex(delayed, 1, 0);
    SegmentGop(stream, m, delayed, out);
    SegmentGop(stream, m, delayed, i);
    if i != out && Gop(stream, delayed[i].pic) == Gop(stream, delayed[out].pic) {
      SameGopScanned(stream, m, delayed, i);
      assert delayed[i].pic != delayed[out].pic;
    }
  }

  lemma SameGopScanned(stream: seq<Frame>, m: nat, delayed: seq<Frame>, i: nat)
    requires Waiting(stream, m, delayed) && i < |delayed|
    requires Gop(stream, delayed[i].pic) == Gop(stream, delayed[0].pic)
    ensures i < ScanEnd(delayed, 1)
  {
    hide Gop, ScanEnd;
    OutIndexIsLeast(delayed, 1, 0);
    var e := ScanEnd(delayed, 1);
    if e <= i {
      GopMonotone(stream, delayed[0].pic, delayed[e].pic);
      GopMonotone(stream, delayed[e].pic, delayed[i].pic);
    }
  }

  lemma EmitChosenDisplayed(stream: seq<Frame>, reorderSize: nat, m: nat, q: Queue, drainAll: bool)
    requires Orderly(stream, reorderSize) && Safe(stream, m, q) && Displayed(stream, q)
    requires Ready(q, reorderSize, drainAll) && (drainAll ==> m == |stream|)
    ensures Displayed(stream, EmitChosen(q))
  {
    hide Gop, ScanEnd, OutIndex, Orderly, Safe, Earlier;
    var d, after := q.delayed[Chosen(q)], EmitChosen(q);
    ChosenWaits(stream, reorderSize, m, q);
    forall k | 0 <= k < |stream| && stream[k] !in after.emitted
      ensures Earlier(stream, d, stream[k])
    {
      ChosenIsNext(stream, reorderSize, m, q, drainAll, k);
    }
    if OutOfOrder(q) {
      OutOfOrderIsIdr(stream, reorderSize, m, q);
    } else if !d.isIdr {
      assert after.emitted[|q.emitted|].poc == after.nextPoc;
    }
  }

  lemma ChosenWaits(stream: seq<Frame>, reorderSize: nat, m: nat, q: Queue)
    requires Orderly(stream, reorderSize) && Safe(stream, m, q) && q.delayed != []
    ensures From(stream, q.delayed[Chosen(q)]) && q.delayed[Chosen(q)] !in q.emitted
  {
    NotTwice(stream, m, q, q.delayed[Chosen(q)]);
  }

  lemma {:induction false} SelectDisplayed(stream: seq<Frame>, reorderSize: nat, m: nat, q: Queue, drainAll: bool)
    requires Orderly(stream, reorderSize) && Safe(stream, m, q) && Displayed(stream, q)
    requires drainAll ==> m == |stream|
    ensures Displayed(stream, Select(q, reorderSize, drainAll))
    decreases |q.delayed|
  {
    hide Orderly, Safe, Displayed;
    if Ready(q, reorderSize, drainAll) {
      EmitChosenDisplayed(stream, reorderSize, m, q, drainAll);
      EmitChosenSafe(stream, m, q);
      SelectDisplayed(stream, reorderSize, m, EmitChosen(q), drainAll);
    }
  }

  lemma AppendDisplayed(stream: seq<Frame>, q: Queue, f: Frame)
    requires Displayed(stream, q)
    ensures Displayed(stream, q.(delayed := q.delayed + [f]))
  {
  }

  lemma EmptyDisplayed(stream: seq<Frame>)
    ensures Displayed(stream, EMPTY_QUEUE)
  {
  }

  lemma {:induction false} DecodeDisplayed(stream: seq<Frame>, m: nat, reorderSize: nat)
    requires Orderly(stream, reorderSize) && Numbered(stream) && m <= |stream|
    ensures Displayed(stream, Decode(stream[..m], reorderSize))
  {
    hide Orderly, Safe, Displayed, Select;
    if m == 0 {
      EmptyDisplayed(stream);
    } else {
      DecodeDisplayed(stream, m - 1, reorderSize);
      assert stream[..m][..m - 1] == stream[..m - 1];
      var before := Decode(stream[..m - 1], reorderSize);
      QueueSafety(stream, m - 1, reorderSize);
      PushSafe(stream, m - 1, before);
      AppendDisplayed(stream, before, stream[m - 1]);
      SelectDisplayed(stream, reorderSize, m, before.(delayed := before.delayed + [stream[m - 1]]), false);
    }
  }

  /** Strictly in display order. */
  predicate InDisplayOrder(stream: seq<Frame>, frames: seq<Frame>) {
    forall i, j :: 0 <= i < j < |frames| ==> Earlier(stream, frames[i], frames[j])
  }

  /**
   Main result: a stream that needs no more reordering than the queue has room for comes out, once
   drained, complete and in display order: its groups in decode order, each sorted by POC.
   */
  lemma ReorderCorrect(stream: seq<Frame>, reorderSize: nat)
    requires Orderly(stream, reorderSize)
    ensures var out := Select(Decode(stream, reorderSize), reorderSize, true).emitted;
            InDisplayOrder(stream, out) && multiset(out) == multiset(stream)
    ensures InDisplayOrder(stream, Decode(stream, reorderSize).emitted)
  {
    hide Gop, Safe, Earlier, Orderly;
    var q := Decode(stream, reorderSize);
    assert stream[..|stream|] == stream;
    assert Numbered(stream) by { OrderlyIsNumbered(stream, reorderSize); }
    QueueSafety(stream, |stream|, reorderSize);
    DecodeDisplayed(stream, |stream|, reorderSize);
    SelectDisplayed(stream, reorderSize, |stream|, q, true);
    DrainSafety(stream, reorderSize);
  }

  lemma OrderlyIsNumbered(stream: seq<Frame>, reorderSize: nat)
    requires Orderly(stream, reorderSize)
    ensures Numbered(stream)
  {
  }

  // ----- and only then

  lemma {:induction false} SelectGrows(q: Queue, reorderSize: nat, drainAll: bool)
    ensures q.emitted <= Select(q, reorderSize, drainAll).emitted
    decreases |q.delayed|
  {
    hide OutIndex;
    if Ready(q, reorderSize, drainAll) { SelectGrows(EmitChosen(q), reorderSize, drainAll); }
  }

  lemma {:induction false} DecodeGrows(stream: seq<Frame>, m: nat, reorderSize: nat)
    requires m <= |stream|
    ensures Decode(stream[..m], reorderSize).emitted <= Decode(stream, reorderSize).emitted
    decreases |stream| - m
  {
    hide Select;
    if m == |stream| {
      assert stream[..m] == stream;
    } else {
      DecodeGrows(stream, m + 1, reorderSize);
      assert stream[..m + 1][..m] == stream[..m];
      var before := Decode(stream[..m], reorderSize);
      SelectGrows(before.(delayed := before.delayed + [stream[m]]), reorderSize, false);
    }
  }

  /** If more than `reorderSize` of the first `k` frames are in question, one of them was handed over. */
  lemma OneWasEmitted(stream: seq<Frame>, k: nat, reorderSize: nat, frames: set<nat>) returns (j: nat)
    requires Numbered(stream) && k < |stream| && |frames| > reorderSize && forall j :: j in frames ==> j < k
    ensures j in frames && stream[j] in Decode(stream[..k], reorderSize).emitted
    ensures stream[k] !in Decode(stream[..k], reorderSize).emitted
  {
    hide GopsInOrder, Gop, Decode;
    var q := Decode(stream[..k], reorderSize);
    QueueSafety(stream, k, reorderSize);
    PicSetSize(q.delayed);
    if frames <= PicSet(q.delayed) { SubsetSize(frames, PicSet(q.delayed)); }
    j :| j in frames && j !in PicSet(q.delayed);
    assert stream[..k][j] == stream[j];
    assert stream[j] in multiset(q.emitted) + multiset(q.delayed);
    if stream[k] in q.emitted {
      var i :| 0 <= i < |q.emitted| && q.emitted[i] == stream[k];
      EmittedWereDecoded(stream, k, q, i);
    }
  }

  /** A frame that overtakes more than `reorderSize` others is handed over after one it should precede. */
  lemma TooManyOvertaken(stream: seq<Frame>, reorderSize: nat, k: nat)
    requires Numbered(stream) && k < |stream| && |Overtaken(stream, k)| > reorderSize
    ensures !InDisplayOrder(stream, Select(Decode(stream, reorderSize), reorderSize, true).emitted)
  {
    hide Gop, GopsInOrder, Select, Decode;
    var before := Decode(stream[..k], reorderSize).emitted;
    var out := Select(Decode(stream, reorderSize), reorderSize, true).emitted;
    DecodeGrows(stream, k, reorderSize);
    SelectGrows(Decode(stream, reorderSize), reorderSize, true);
    DrainSafety(stream, reorderSize);
    var j := OneWasEmitted(stream, k, reorderSize, Overtaken(stream, k));
    var a :| 0 <= a < |before| && before[a] == stream[j];
    assert stream[k] in multiset(out);
    var b :| 0 <= b < |out| && out[b] == stream[k];
    assert forall i :: 0 <= i < |before| ==> out[i] == before[i];
    assert out[a] == stream[j] && !Earlier(stream, out[a], out[b]);
  }

  /**
   Main result, both ways: for every stream whose POCs are as the standard asks, the drained output is in
   display order if and only if no frame overtakes more others than the queue has room for.
   */
  lemma DisplayOrderIff(stream: seq<Frame>, reorderSize: nat)
    requires Playable(stream)
    ensures InDisplayOrder(stream, Select(Decode(stream, reorderSize), reorderSize, true).emitted) <==>
            FewOvertaken(stream, reorderSize)
  {
    hide Gop, Earlier, InDisplayOrder, Select, Decode, Overtaken;
    if FewOvertaken(stream, reorderSize) {
      ReorderCorrect(stream, reorderSize);
    } else {
      var k :| 0 <= k < |stream| && |Overtaken(stream, k)| > reorderSize;
      TooManyOvertaken(stream, reorderSize, k);
    }
  }

  /** There is only one such output. */
  lemma {:induction false} DisplayOrderIsUnique(stream: seq<Frame>, a: seq<Frame>, b: seq<Frame>)
    requires InDisplayOrder(stream, a) && InDisplayOrder(stream, b) && multiset(a) == multiset(b)
    ensures a == b
    decreases |a|
  {
    hide Gop, Earlier;
    assert |multiset(a)| == |a| && |multiset(b)| == |b|;
    if a != [] {
      SameHead(stream, a, b);
      TailMultiset(a);
      TailMultiset(b);
      DisplayOrderIsUnique(stream, a[1..], b[1..]);
      assert a == [a[0]] + a[1..] && b == [b[0]] + b[1..];
    }
  }

  lemma TailMultiset(a: seq<Frame>)
    requires a != []
    ensures multiset(a[1..]) == multiset(a) - multiset([a[0]])
  {
    assert a == [a[0]] + a[1..];
  }

  lemma SameHead(stream: seq<Frame>, a: seq<Frame>, b: seq<Frame>)
    requires InDisplayOrder(stream, a) && InDisplayOrder(stream, b) && multiset(a) == multiset(b)
    requires a != [] && b != []
    ensures a[0] == b[0]
  {
    hide Gop;
    assert a[0] in multiset(b) && b[0] in multiset(a);
    var i :| 0 <= i < |b| && b[i] == a[0];
    var j :| 0 <= j < |a| && a[j] == b[0];
  }
}
