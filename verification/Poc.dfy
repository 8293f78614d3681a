/** Picture order count (section 8.2.1 of H.264): compute_poc for types 0 and 2. */
module Poc {
  import opened Arithmetic
  import opened Common

  /** The part of PocState the source reads. */
  datatype PocState = PocState(prevMsb: int, prevLsb: int, prevFrameNum: nat, prevFrameNumOffset: nat)

  const INITIAL := PocState(0, 0, 0, 0)

  /** What a slice header says about the order of its picture. */
  datatype Order = Order(isIdr: bool, isRef: bool, lsb: nat, frameNum: nat)

  function Type0(st: PocState, maxLsb: nat, o: Order): (int, PocState) {
    var prevMsb, prevLsb := if o.isIdr then 0 else st.prevMsb, if o.isIdr then 0 else st.prevLsb;
    var msb :=
      if o.lsb < prevLsb && prevLsb - o.lsb >= maxLsb / 2 then prevMsb + maxLsb
      else if o.lsb > prevLsb && o.lsb - prevLsb > maxLsb / 2 then prevMsb - maxLsb
      else prevMsb;
    (msb + o.lsb, if o.isRef then PocState(msb, o.lsb, st.prevFrameNum, st.prevFrameNumOffset) else st)
  }

  function Type2(st: PocState, maxFrameNum: nat, o: Order): (int, PocState) {
    var offset := if o.isIdr then 0
                  else if st.prevFrameNum > o.frameNum then st.prevFrameNumOffset + maxFrameNum
                  else st.prevFrameNumOffset;
    var total := offset + o.frameNum;
    (if o.isRef then 2 * total else 2 * total - 1, PocState(st.prevMsb, st.prevLsb, o.frameNum, offset))
  }

  /** What compute_poc needs of the SPS: the type, and the two moduli as exponents over 4. */
  datatype PocSps = PocSps(pocType: nat, log2MaxFrameNumMinus4: nat, log2MaxLsbMinus4: nat)

  function ComputePoc(st: PocState, sps: PocSps, o: Order): (int, PocState) {
    if sps.pocType == 0 then Type0(st, Pow2(sps.log2MaxLsbMinus4 + 4), o)
    else if sps.pocType == 2 then Type2(st, Pow2(sps.log2MaxFrameNumMinus4 + 4), o)
    else (0, st)
  }

  class PocTracker {
    var prevMsb: int
    var prevLsb: int
    var prevFrameNum: nat
    var prevFrameNumOffset: nat

    ghost function Abs(): PocState
      reads this
    {
      PocState(prevMsb, prevLsb, prevFrameNum, prevFrameNumOffset)
    }

    constructor ()
      ensures Abs() == INITIAL
    {
      prevMsb, prevLsb, prevFrameNum, prevFrameNumOffset := 0, 0, 0, 0;
    }

    method Compute(sps: PocSps, o: Order) returns (poc: int)
      modifies this
      ensures (poc, Abs()) == ComputePoc(old(Abs()), sps, o)
      ensures sps.pocType != 0 && sps.pocType != 2 ==> poc == 0 && Abs() == old(Abs())
    {
      if sps.pocType == 0 {
        var maxLsb := Pow2(sps.log2MaxLsbMinus4 + 4);
        var msbBefore, lsbBefore := prevMsb, prevLsb;
        if o.isIdr { msbBefore, lsbBefore := 0, 0; }
        var msb := msbBefore;
        if o.lsb < lsbBefore && lsbBefore - o.lsb >= maxLsb / 2 {
          msb := msbBefore + maxLsb;
        } else if o.lsb > lsbBefore && o.lsb - lsbBefore > maxLsb / 2 {
          msb := msbBefore - maxLsb;
        }
        if o.isRef { prevMsb, prevLsb := msb, o.lsb; }
        return msb + o.lsb;
      }
      if sps.pocType == 2 {
        var maxFrameNum := Pow2(sps.log2MaxFrameNumMinus4 + 4);
        var offset := 0;
        if !o.isIdr {
          offset := prevFrameNumOffset;
          if prevFrameNum > o.frameNum { offset := offset + maxFrameNum; }
        }
        var total := offset + o.frameNum;
        prevFrameNum, prevFrameNumOffset := o.frameNum, offset;
        return if o.isRef then 2 * total else 2 * total - 1;
      }
      return 0;
    }
  }

  // ----- runs of the entry point

  /** The state after the first `k` pictures. */
  function StateAfter(sps: PocSps, orders: seq<Order>, k: nat): PocState
    requires k <= |orders|
  {
    if k == 0 then INITIAL else ComputePoc(StateAfter(sps, orders, k - 1), sps, orders[k - 1]).1
  }

  /** What compute_poc returns for picture `k`. */
  function PocAt(sps: PocSps, orders: seq<Order>, k: nat): int
    requires k < |orders|
  {
    ComputePoc(StateAfter(sps, orders, k), sps, orders[k]).0
  }

  // ----- type 0

  /** The state knows the true POC `q` of the last reference picture. */
  predicate Knows(st: PocState, maxLsb: nat, q: int)
    requires maxLsb > 0
  {
    st.prevLsb == q % maxLsb && st.prevMsb + st.prevLsb == q
  }

  /** How many cycles the code moves away from that of the last reference's low bits `l`. */
  function Cycles(lsb: nat, l: nat, maxLsb: nat): int {
    if lsb < l && l - lsb >= maxLsb / 2 then 1 else if lsb > l && lsb - l > maxLsb / 2 then -1 else 0
  }

  /** `k` whole cycles too many vanish if and only if the true difference is within half a cycle. */
  lemma {:induction false} HalfCycle(k: int, lsb: nat, l: nat, maxLsb: nat, difference: int)
    requires maxLsb % 2 == 0 && lsb < maxLsb && l < maxLsb
    requires difference == k * maxLsb + Cycles(lsb, l, maxLsb) * maxLsb + lsb - l
    ensures k * maxLsb == 0 <==> -(maxLsb / 2) < difference <= maxLsb / 2
  {
    var near := Cycles(lsb, l, maxLsb) * maxLsb + lsb - l;
    assert -(maxLsb / 2) < near <= maxLsb / 2;
    if -(maxLsb / 2) < difference <= maxLsb / 2 { SmallMultiple(k, maxLsb); }
  }

  /** From the low bits the true POC is recovered if and only if it differs from the last reference's by
      more than minus half, and at most half, of the modulus. */
  lemma {:induction false} Type0RecoversIff(st: PocState, maxLsb: nat, o: Order, q: int, poc: int)
    requires maxLsb > 0 && maxLsb % 2 == 0 && o.lsb == poc % maxLsb
    requires if o.isIdr then q == 0 else Knows(st, maxLsb, q)
    ensures Type0(st, maxLsb, o).0 == poc <==> -(maxLsb / 2) < poc - q <= maxLsb / 2
  {
    hide Type0, Cycles, Knows;
    ZeroMod(maxLsb);
    var c := Cycles(o.lsb, q % maxLsb, maxLsb);
    var k := WholeCycles(poc, q, c, maxLsb);
    Type0Value(st, maxLsb, o, q);
    HalfCycle(k, o.lsb, q % maxLsb, maxLsb, poc - q);
  }

  /** The POC computed with `c` cycles is whole cycles away from the true one. */
  lemma WholeCycles(poc: int, q: int, c: int, m: nat) returns (k: int)
    requires m > 0
    ensures poc - (q - q % m + c * m + poc % m) == k * m
    ensures poc - q == k * m + c * m + poc % m - q % m
  {
    var a, b := poc / m, q / m;
    k := a - b - c;
    assert poc == a * m + poc % m && q == b * m + q % m;
    Distribute(a, b, c, m);
  }

  lemma ZeroMod(m: nat)
    requires m > 0
    ensures 0 % m == 0 && 0 / m == 0
  {
    DivUnique(0, m, 0, 0);
  }

  lemma Distribute(a: int, b: int, c: int, m: int)
    ensures (a - b - c) * m == a * m - b * m - c * m
  {
  }

  /** The POC computed is that of the same cycle as `q`, or one cycle away, whichever is within half. */
  lemma Type0Value(st: PocState, maxLsb: nat, o: Order, q: int)
    requires maxLsb > 0 && o.lsb < maxLsb
    requires if o.isIdr then q == 0 && q % maxLsb == 0 else Knows(st, maxLsb, q)
    ensures Type0(st, maxLsb, o).0 == q - q % maxLsb + Cycles(o.lsb, q % maxLsb, maxLsb) * maxLsb + o.lsb
  {
  }

  /** A picture of a stream: its true POC, and whether it is an IDR or a reference picture. */
  datatype Pic = Pic(poc: int, isIdr: bool, isRef: bool)

  /** The POC that picture `k` is coded against. */
  function PrevRef(pics: seq<Pic>, k: nat): int
    requires k < |pics|
  {
    if pics[k].isIdr then 0 else LastRef(pics, k)
  }

  /** The POC of the last reference picture before picture `k`. */
  function LastRef(pics: seq<Pic>, k: nat): int
    requires k <= |pics|
  {
    if k == 0 then 0 else if pics[k - 1].isRef then pics[k - 1].poc else LastRef(pics, k - 1)
  }

  /** MaxPicOrderCntLsb (section 7.4.2.1). */
  function MaxLsb(sps: PocSps): nat { Pow2(sps.log2MaxLsbMinus4 + 4) }

  /** The slice headers of these pictures in a stream of type 0: of each POC the low bits are sent.  What they
      say of frame_num does not matter. */
  predicate Codes0(sps: PocSps, orders: seq<Order>, pics: seq<Pic>) {
    && sps.pocType == 0 && |orders| == |pics|
    && forall k :: 0 <= k < |pics| ==>
         orders[k].isIdr == pics[k].isIdr && orders[k].isRef == pics[k].isRef && orders[k].lsb == pics[k].poc % MaxLsb(sps)
  }

  lemma MaxLsbEven(sps: PocSps)
    ensures MaxLsb(sps) > 0 && MaxLsb(sps) % 2 == 0
  {
  }

  /** Each picture lies within half a cycle of the reference it is coded against. */
  predicate WithinHalf(pics: seq<Pic>, maxLsb: nat) {
    forall k :: 0 <= k < |pics| ==> -(maxLsb / 2) < pics[k].poc - PrevRef(pics, k) <= maxLsb / 2
  }

  /** Over a whole stream the entry point recovers every POC, whatever frame_num says. */
  lemma {:induction false} Type0Stream(sps: PocSps, orders: seq<Order>, pics: seq<Pic>, k: nat)
    requires Codes0(sps, orders, pics) && WithinHalf(pics, MaxLsb(sps)) && k <= |pics|
    ensures MaxLsb(sps) > 0 && Knows(StateAfter(sps, orders, k), MaxLsb(sps), LastRef(pics, k))
    ensures k < |pics| ==> PocAt(sps, orders, k) == pics[k].poc
  {
    hide MaxLsb, Type0, Knows, PocAt, StateAfter, WithinHalf;
    MaxLsbEven(sps);
    if k > 0 {
      Type0Stream(sps, orders, pics, k - 1);
      EntryIsType0(sps, orders, k - 1);
      KnowsNext(StateAfter(sps, orders, k - 1), MaxLsb(sps), orders[k - 1], LastRef(pics, k - 1), pics[k - 1]);
    } else {
      NothingKnown(sps, orders);
    }
    if k < |pics| {
      EntryIsType0(sps, orders, k);
      PictureRecovered(StateAfter(sps, orders, k), MaxLsb(sps), orders[k], pics, k);
    }
  }

  lemma NothingKnown(sps: PocSps, orders: seq<Order>)
    requires MaxLsb(sps) > 0
    ensures Knows(StateAfter(sps, orders, 0), MaxLsb(sps), 0)
  {
    hide MaxLsb;
    ZeroMod(MaxLsb(sps));
  }

  lemma PictureRecovered(st: PocState, m: nat, o: Order, pics: seq<Pic>, k: nat)
    requires m > 0 && m % 2 == 0 && WithinHalf(pics, m) && k < |pics| && Knows(st, m, LastRef(pics, k))
    requires o.isIdr == pics[k].isIdr && o.lsb == pics[k].poc % m
    ensures Type0(st, m, o).0 == pics[k].poc
  {
    hide Type0, Knows;
    Type0RecoversIff(st, m, o, PrevRef(pics, k), pics[k].poc);
  }

  lemma EntryIsType0(sps: PocSps, orders: seq<Order>, k: nat)
    requires sps.pocType == 0 && k < |orders|
    ensures PocAt(sps, orders, k) == Type0(StateAfter(sps, orders, k), MaxLsb(sps), orders[k]).0
    ensures StateAfter(sps, orders, k + 1) == Type0(StateAfter(sps, orders, k), MaxLsb(sps), orders[k]).1
  {
    hide Type0;
  }

  /** A reference picture is remembered, another is not. */
  lemma KnowsNext(st: PocState, m: nat, o: Order, q: int, p: Pic)
    requires m > 0 && Knows(st, m, q) && o.isRef == p.isRef && o.lsb == p.poc % m && Type0(st, m, o).0 == p.poc
    ensures Knows(Type0(st, m, o).1, m, if p.isRef then p.poc else q)
  {
  }

  const INT32_MIN: int := -0x8000_0000
  const INT32_MAX: int := 0x7FFF_FFFF

  /** All POCs lie in 32 bits, one modulus away from the lower end. */
  predicate Fitting(pics: seq<Pic>, maxLsb: nat) {
    forall k :: 0 <= k < |pics| ==> INT32_MIN + maxLsb <= pics[k].poc <= INT32_MAX
  }

  lemma {:induction false} LastRefFits(pics: seq<Pic>, maxLsb: nat, k: nat)
    requires Fitting(pics, maxLsb) && k <= |pics| && maxLsb <= TWO_32 / 2
    ensures INT32_MIN + maxLsb <= LastRef(pics, k) <= INT32_MAX
  {
    if k > 0 { LastRefFits(pics, maxLsb, k - 1); }
  }

  /** In such a stream no 32-bit value of the computation overflows: neither the state nor the new
      most significant part nor the sum. */
  lemma Type0Fits(sps: PocSps, orders: seq<Order>, pics: seq<Pic>, k: nat)
    requires Codes0(sps, orders, pics) && MaxLsb(sps) <= TWO_32 / 2
    requires WithinHalf(pics, MaxLsb(sps)) && Fitting(pics, MaxLsb(sps)) && k < |pics|
    ensures var st := StateAfter(sps, orders, k);
            && INT32_MIN <= st.prevMsb <= INT32_MAX && 0 <= st.prevLsb < MaxLsb(sps)
            && INT32_MIN <= PocAt(sps, orders, k) - orders[k].lsb <= INT32_MAX
            && INT32_MIN <= PocAt(sps, orders, k) <= INT32_MAX
  {
    hide StateAfter, PocAt, MaxLsb;
    MaxLsbEven(sps);
    Type0Stream(sps, orders, pics, k);
    LastRefFits(pics, MaxLsb(sps), k);
  }

  // ----- type 2

  /** A picture of a stream: its true (unwrapped) frame number since the last IDR picture. */
  datatype Pic2 = Pic2(number: nat, isIdr: bool, isRef: bool)

  /** MaxFrameNum (section 7.4.2.1). */
  function MaxFrameNum(sps: PocSps): nat { Pow2(sps.log2MaxFrameNumMinus4 + 4) }

  /** The slice headers of these pictures in a stream of type 2: of each frame number the residue is sent. */
  predicate Codes2(sps: PocSps, orders: seq<Order>, pics: seq<Pic2>) {
    && sps.pocType == 2 && |orders| == |pics|
    && forall k :: 0 <= k < |pics| ==>
         && orders[k].isIdr == pics[k].isIdr && orders[k].isRef == pics[k].isRef
         && orders[k].frameNum == pics[k].number % MaxFrameNum(sps)
  }

  /** Numbers restart below the modulus at an IDR picture and otherwise advance by less than the modulus. */
  predicate Advances(pics: seq<Pic2>, maxFrameNum: nat) {
    && (pics != [] ==> pics[0].isIdr)
    && (forall k :: 0 <= k < |pics| && pics[k].isIdr ==> pics[k].number < maxFrameNum)
    && (forall k :: 0 < k < |pics| && !pics[k].isIdr ==>
          pics[k - 1].number <= pics[k].number < pics[k - 1].number + maxFrameNum)
  }

  /** A number that advances by less than the modulus wraps exactly when its residue drops. */
  lemma {:induction false} WrapDetected(a: nat, b: nat, m: nat)
    requires m > 0 && a <= b < a + m
    ensures b - b % m == a - a % m + (if a % m > b % m then m else 0)
  {
    var q, q' := a / m, b / m;
    assert a == q * m + a % m && b == q' * m + b % m;
    var k := q' - q - (if a % m > b % m then 1 else 0);
    Distribute(q', q, if a % m > b % m then 1 else 0, m);
    assert k * m == b - a - b % m + a % m - (if a % m > b % m then m else 0);
    SmallMultiple(k, m);
  }

  /** Over a whole stream the entry point yields twice the true number, less one for a picture that is no
      reference, across any number of wraps of frame_num. */
  lemma {:induction false} Type2Stream(sps: PocSps, orders: seq<Order>, pics: seq<Pic2>, k: nat)
    requires Codes2(sps, orders, pics) && Advances(pics, MaxFrameNum(sps)) && k < |pics|
    ensures PocAt(sps, orders, k) == 2 * pics[k].number - (if pics[k].isRef then 0 else 1)
    ensures var st := StateAfter(sps, orders, k + 1);
            && st.prevFrameNum == pics[k].number % MaxFrameNum(sps)
            && st.prevFrameNumOffset + st.prevFrameNum == pics[k].number
  {
    hide MaxFrameNum;
    var m := MaxFrameNum(sps);
    ModulusPositive(sps);
    EntryIsType2(sps, orders, k);
    if !pics[k].isIdr {
      Type2Stream(sps, orders, pics, k - 1);
      WrapDetected(pics[k - 1].number, pics[k].number, m);
    } else {
      DivUnique(pics[k].number, m, 0, pics[k].number);
    }
  }

  lemma ModulusPositive(sps: PocSps)
    ensures MaxFrameNum(sps) > 1
  {
  }

  lemma EntryIsType2(sps: PocSps, orders: seq<Order>, k: nat)
    requires sps.pocType == 2 && k < |orders|
    ensures PocAt(sps, orders, k) == Type2(StateAfter(sps, orders, k), MaxFrameNum(sps), orders[k]).0
    ensures StateAfter(sps, orders, k + 1) == Type2(StateAfter(sps, orders, k), MaxFrameNum(sps), orders[k]).1
  {
    hide Type2;
  }

  /** While frame numbers stay below 2^30, neither the unsigned offset nor the signed POC overflows. */
  lemma Type2Fits(sps: PocSps, orders: seq<Order>, pics: seq<Pic2>, k: nat)
    requires Codes2(sps, orders, pics) && Advances(pics, MaxFrameNum(sps)) && k < |pics| && pics[k].number < TWO_32 / 4
    ensures var after := StateAfter(sps, orders, k + 1);
            && 0 <= after.prevFrameNumOffset + after.prevFrameNum < TWO_32 / 4
            && INT32_MIN <= PocAt(sps, orders, k) <= INT32_MAX
  {
    hide PocAt, StateAfter;
    Type2Stream(sps, orders, pics, k);
  }

  /** Between IDR pictures the POC grows from one picture to the next if and only if the frame number grows,
      or a picture that is no reference is followed by a reference with its number. */
  lemma Type2GrowsIff(sps: PocSps, orders: seq<Order>, pics: seq<Pic2>, k: nat)
    requires Codes2(sps, orders, pics) && Advances(pics, MaxFrameNum(sps)) && k + 1 < |pics| && !pics[k + 1].isIdr
    ensures PocAt(sps, orders, k) < PocAt(sps, orders, k + 1) <==>
            (pics[k].number < pics[k + 1].number || (!pics[k].isRef && pics[k + 1].isRef))
  {
    hide PocAt, StateAfter;
    Type2Stream(sps, orders, pics, k);
    Type2Stream(sps, orders, pics, k + 1);
  }

  /** The rules for frame_num (section 7.4.3) without gaps: it grows after a reference picture and only then,
      and two pictures in a row are not both non-references. */
  predicate Conforming(pics: seq<Pic2>, maxFrameNum: nat) {
    && Advances(pics, maxFrameNum)
    && (forall k :: 0 < k < |pics| && !pics[k].isIdr ==>
          && pics[k].number == pics[k - 1].number + (if pics[k - 1].isRef then 1 else 0)
          && (pics[k - 1].isRef || pics[k].isRef))
  }

  /** In a conforming stream POCs strictly increase in decode order between IDR pictures. */
  lemma {:induction false} Type2Increases(sps: PocSps, orders: seq<Order>, pics: seq<Pic2>, j: nat, k: nat)
    requires Codes2(sps, orders, pics) && Conforming(pics, MaxFrameNum(sps)) && j < k < |pics|
    requires forall i :: j < i <= k ==> !pics[i].isIdr
    ensures PocAt(sps, orders, j) < PocAt(sps, orders, k)
    decreases k - j
  {
    hide PocAt;
    Type2GrowsIff(sps, orders, pics, k - 1);
    if j < k - 1 { Type2Increases(sps, orders, pics, j, k - 1); }
  }
}
