/**
 When the output queue hands frames over: as soon as it holds more than it may, or holds a frame that
 should have come before one already handed over, and never earlier.
 */
module ReorderTiming {
  import opened Common
  import opened Reorder

  /** The queue without its memory: what waits and what was handed over. */
  datatype Flow = Flow(delayed: seq<Frame>, emitted: seq<Frame>)

  function FlowOf(q: Queue): Flow { Flow(q.delayed, q.emitted) }

  /** What was handed over after the last IDR frame that was. */
  function SinceIdr(emitted: seq<Frame>): seq<Frame> {
    if emitted == [] || emitted[|emitted| - 1].isIdr then []
    else SinceIdr(emitted[..|emitted| - 1]) + [emitted[|emitted| - 1]]
  }

  /** Frame `k` waits before the next IDR frame of the queue. */
  predicate BeforeIdr(delayed: seq<Frame>, k: nat) {
    k < |delayed| && forall j :: 1 <= j <= k ==> !delayed[j].isIdr
  }

  /** A frame that waits has a POC below that of a frame handed over since the last IDR frame. */
  predicate Overdue(w: Flow, k: nat) {
    BeforeIdr(w.delayed, k) && exists f :: f in SinceIdr(w.emitted) && w.delayed[k].poc < f.poc
  }

  predicate AnyOverdue(w: Flow) { exists k: nat :: k < |w.delayed| && Overdue(w, k) }

  /** A frame has to go. */
  predicate Must(w: Flow, reorderSize: nat, drainAll: bool) {
    w.delayed != [] && (drainAll || |w.delayed| > reorderSize || AnyOverdue(w))
  }

  /** The frame with the least POC before the next IDR frame goes, the first of several. */
  function HandOver(w: Flow): (r: Flow)
    requires w.delayed != []
    ensures |r.delayed| + 1 == |w.delayed| && |r.emitted| == |w.emitted| + 1
  {
    OutIndexIsLeast(w.delayed, 1, 0);
    var k := OutIndex(w.delayed, 1, 0);
    Flow(w.delayed[..k] + w.delayed[k + 1..], w.emitted + [w.delayed[k]])
  }

  /** Frames go as long as one has to. */
  function Settled(w: Flow, reorderSize: nat, drainAll: bool): (r: Flow)
    ensures !Must(r, reorderSize, drainAll)
    decreases |w.delayed|
  {
    if Must(w, reorderSize, drainAll) then Settled(HandOver(w), reorderSize, drainAll) else w
  }

  /** The POC remembered is the largest handed over since the last IDR frame. */
  predicate Remembers(q: Queue) {
    && (forall f :: f in SinceIdr(q.emitted) ==> f.poc <= q.nextPoc)
    && (q.nextPoc == INT32_MIN || exists f :: f in SinceIdr(q.emitted) && f.poc == q.nextPoc)
  }

  predicate In32Bits(frames: seq<Frame>) { forall k :: 0 <= k < |frames| ==> INT32_MIN <= frames[k].poc <= INT32_MAX }

  lemma {:induction false} ScanBefore(delayed: seq<Frame>, k: nat)
    requires delayed != []
    ensures BeforeIdr(delayed, k) <==> k < ScanEnd(delayed, 1)
  {
    hide ScanEnd;
    OutIndexIsLeast(delayed, 1, 0);
  }

  /** What the source compares says whether a frame is overdue. */
  lemma OutOfOrderIff(q: Queue)
    requires q.delayed != [] && Remembers(q) && In32Bits(q.delayed)
    ensures OutOfOrder(q) <==> AnyOverdue(FlowOf(q))
  {
    hide OutIndex, ScanEnd, SinceIdr, BeforeIdr;
    OutIndexIsLeast(q.delayed, 1, 0);
    var out := Chosen(q);
    if OutOfOrder(q) {
      var f :| f in SinceIdr(q.emitted) && f.poc == q.nextPoc;
      ScanBefore(q.delayed, out);
      assert Overdue(FlowOf(q), out);
    }
    if AnyOverdue(FlowOf(q)) {
      var k: nat :| k < |q.delayed| && Overdue(FlowOf(q), k);
      ScanBefore(q.delayed, k);
    }
  }

  lemma SinceSnoc(emitted: seq<Frame>, d: Frame)
    ensures SinceIdr(emitted + [d]) == if d.isIdr then [] else SinceIdr(emitted) + [d]
  {
    assert (emitted + [d])[..|emitted|] == emitted;
  }

  lemma EmitRemembers(q: Queue)
    requires q.delayed != [] && Remembers(q)
    ensures Remembers(EmitChosen(q)) && FlowOf(EmitChosen(q)) == HandOver(FlowOf(q))
  {
    hide OutIndex, SinceIdr;
    OutIndexIsLeast(q.delayed, 1, 0);
    var d := q.delayed[Chosen(q)];
    SinceSnoc(q.emitted, d);
    var since := SinceIdr(q.emitted) + [d];
    assert since[|since| - 1] == d;
    if !d.isIdr && OutOfOrder(q) && q.nextPoc != INT32_MIN {
      var f :| f in SinceIdr(q.emitted) && f.poc == q.nextPoc;
      assert f in since;
    }
  }

  lemma {:induction false} SelectSettles(q: Queue, reorderSize: nat, drainAll: bool)
    requires Remembers(q) && In32Bits(q.delayed)
    ensures var after := Select(q, reorderSize, drainAll);
            Remembers(after) && In32Bits(after.delayed) && FlowOf(after) == Settled(FlowOf(q), reorderSize, drainAll)
    decreases |q.delayed|
  {
    hide OutIndex, Remembers, AnyOverdue;
    if q.delayed != [] {
      OutOfOrderIff(q);
      if Ready(q, reorderSize, drainAll) {
        EmitRemembers(q);
        SelectSettles(EmitChosen(q), reorderSize, drainAll);
      }
    }
  }

  /** The flow of a stream: each frame joins, and frames go as long as one has to. */
  function FlowAfter(stream: seq<Frame>, reorderSize: nat): Flow {
    if stream == [] then Flow([], [])
    else
      var before := FlowAfter(stream[..|stream| - 1], reorderSize);
      Settled(before.(delayed := before.delayed + [stream[|stream| - 1]]), reorderSize, false)
  }

  /**
   Main result: for every stream the queue hands a frame over exactly as long as more than `reorderSize`
   wait, or one that waits before the next IDR frame has a POC below one handed over since the last IDR
   frame.  So between calls no frame is overdue, and nothing is handed over early.
   */
  lemma {:induction false} HandedOverInTime(stream: seq<Frame>, reorderSize: nat)
    requires In32Bits(stream)
    ensures var q := Decode(stream, reorderSize);
            && FlowOf(q) == FlowAfter(stream, reorderSize)
            && |q.delayed| <= reorderSize && !AnyOverdue(FlowOf(q))
            && Remembers(q) && In32Bits(q.delayed)
  {
    hide Select, Settled, Remembers;
    if stream == [] {
      NothingRemembered();
    } else {
      var init, f := stream[..|stream| - 1], stream[|stream| - 1];
      HandedOverInTime(init, reorderSize);
      var before := Decode(init, reorderSize);
      JoinRemembers(before, f);
      SelectSettles(before.(delayed := before.delayed + [f]), reorderSize, false);
    }
  }

  lemma NothingRemembered()
    ensures Remembers(EMPTY_QUEUE)
  {
  }

  lemma JoinRemembers(q: Queue, f: Frame)
    requires Remembers(q)
    ensures Remembers(q.(delayed := q.delayed + [f]))
  {
  }

  /** A drain hands over everything, in the order in which frames go. */
  lemma DrainedFlow(stream: seq<Frame>, reorderSize: nat)
    requires In32Bits(stream)
    ensures FlowOf(Select(Decode(stream, reorderSize), reorderSize, true))
         == Settled(FlowAfter(stream, reorderSize), reorderSize, true)
  {
    HandedOverInTime(stream, reorderSize);
    SelectSettles(Decode(stream, reorderSize), reorderSize, true);
  }
}
