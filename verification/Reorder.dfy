/**
 The H.264 output queue (select_and_emit_h264): which decoded frame is handed over next.
 */
module Reorder {
  import opened Common

  const INT32_MIN: int := -0x8000_0000
  const INT32_MAX: int := 0x7FFF_FFFF

  /** A decoded frame waiting for output: its number in decode order, POC, texture slot, IDR flag. */
  datatype Frame = Frame(pic: nat, poc: int, slot: nat, isIdr: bool)

  /** `emitted` holds the frames handed over so far. */
  datatype Queue = Queue(delayed: seq<Frame>, nextPoc: int, emitted: seq<Frame>)

  const EMPTY_QUEUE := Queue([], INT32_MIN, [])

  /** The scan for the least POC, from position `i` on; it stops before an IDR frame. */
  function OutIndex(delayed: seq<Frame>, i: nat, best: nat): nat
    requires best < i <= |delayed|
    decreases |delayed| - i
  {
    if i == |delayed| || delayed[i].isIdr then best
    else OutIndex(delayed, i + 1, if delayed[i].poc < delayed[best].poc then i else best)
  }

  /** Where that scan stops. */
  function ScanEnd(delayed: seq<Frame>, i: nat): (e: nat)
    requires i <= |delayed|
    ensures i <= e <= |delayed|
    decreases |delayed| - i
  {
    if i == |delayed| || delayed[i].isIdr then i else ScanEnd(delayed, i + 1)
  }

  lemma {:induction false} OutIndexIsLeast(delayed: seq<Frame>, i: nat, best: nat)
    requires best < i <= |delayed|
    requires forall k :: 0 <= k < i ==> delayed[best].poc <= delayed[k].poc
    requires forall k :: 0 <= k < best ==> delayed[best].poc < delayed[k].poc
    ensures var out := OutIndex(delayed, i, best);
            && out < ScanEnd(delayed, i)
            && (forall k :: 0 <= k < out ==> delayed[out].poc < delayed[k].poc)
            && (forall k :: 0 <= k < ScanEnd(delayed, i) ==> delayed[out].poc <= delayed[k].poc)
            && (forall k :: i <= k < ScanEnd(delayed, i) ==> !delayed[k].isIdr)
            && (out == best || i <= out)
            && (ScanEnd(delayed, i) < |delayed| ==> delayed[ScanEnd(delayed, i)].isIdr)
    decreases |delayed| - i
  {
    if i < |delayed| && !delayed[i].isIdr {
      OutIndexIsLeast(delayed, i + 1, if delayed[i].poc < delayed[best].poc then i else best);
    }
  }

  function Chosen(q: Queue): (k: nat)
    requires q.delayed != []
    ensures k < |q.delayed|
  {
    OutIndexIsLeast(q.delayed, 1, 0);
    OutIndex(q.delayed, 1, 0)
  }

  predicate OutOfOrder(q: Queue)
    requires q.delayed != []
  {
    q.delayed[Chosen(q)].poc < q.nextPoc
  }

  predicate Ready(q: Queue, reorderSize: nat, drainAll: bool) {
    q.delayed != [] && (drainAll || OutOfOrder(q) || |q.delayed| > reorderSize)
  }

  function EmitChosen(q: Queue): Queue
    requires q.delayed != []
  {
    var k := Chosen(q);
    var d := q.delayed[k];
    Queue(q.delayed[..k] + q.delayed[k + 1..],
          if d.isIdr then INT32_MIN else if OutOfOrder(q) then q.nextPoc else d.poc,
          q.emitted + [d])
  }

  function Select(q: Queue, reorderSize: nat, drainAll: bool): Queue
    decreases |q.delayed|
  {
    if !Ready(q, reorderSize, drainAll) then q else Select(EmitChosen(q), reorderSize, drainAll)
  }

  /** A newly decoded frame joins the queue. */
  function Push(q: Queue, f: Frame, reorderSize: nat): Queue {
    Select(q.(delayed := q.delayed + [f]), reorderSize, false)
  }

  /** The queue after all frames of `stream` were decoded. */
  function Decode(stream: seq<Frame>, reorderSize: nat): Queue {
    if stream == [] then EMPTY_QUEUE
    else Push(Decode(stream[..|stream| - 1], reorderSize), stream[|stream| - 1], reorderSize)
  }
}
