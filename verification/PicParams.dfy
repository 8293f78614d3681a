/** The reference part of the DXVA picture parameters (fill_pic_params and its caller). */
module PicParams {
  import opened Arithmetic
  import opened Common
  import Dpb
  import DpbRuns

  const MAX_REFS: nat := 16

  /** An entry of the reference list as fill_pic_params takes it (its RefPic). */
  datatype ParamRef = ParamRef(dpbIndex: byte, used: bool, longTerm: nat, frameNum: nat, poc: int)

  /** A RefFrameList entry: unused (0xFF), or a 7-bit slot index and the long-term flag. */
  datatype PicEntry = Unused | Entry(index: nat, flag: nat)

  datatype RefSlot = RefSlot(entry: PicEntry, poc: int, frameNum: nat)

  const EMPTY_SLOT := RefSlot(Unused, 0, 0)

  predicate Usable(r: ParamRef) { r.used && r.dpbIndex != 255 }

  function Kept(refs: seq<ParamRef>): (k: seq<ParamRef>)
    ensures |k| <= |refs|
  {
    if refs == [] then []
    else
      var init := Kept(refs[..|refs| - 1]);
      if Usable(refs[|refs| - 1]) then init + [refs[|refs| - 1]] else init
  }

  /** Exactly the entries in use that have a slot number are kept, each as often as it is there. */
  lemma {:induction false} KeptExactly(refs: seq<ParamRef>, r: ParamRef)
    ensures multiset(Kept(refs))[r] == if r.used && r.dpbIndex != 255 then multiset(refs)[r] else 0
    decreases |refs|
  {
    if refs != [] {
      KeptExactly(refs[..|refs| - 1], r);
      assert refs == refs[..|refs| - 1] + [refs[|refs| - 1]];
    }
  }

  /** And they stay in order. */
  lemma {:induction false} KeptInOrder(refs: seq<ParamRef>, j: nat, k: nat) returns (a: nat, b: nat)
    requires j < k < |Kept(refs)|
    ensures a < b < |refs| && refs[a] == Kept(refs)[j] && refs[b] == Kept(refs)[k]
    decreases |refs|
  {
    var init := refs[..|refs| - 1];
    if k < |Kept(init)| {
      a, b := KeptInOrder(init, j, k);
    } else {
      a := KeptPlace(init, j);
      b := |refs| - 1;
    }
  }

  lemma {:induction false} KeptPlace(refs: seq<ParamRef>, j: nat) returns (a: nat)
    requires j < |Kept(refs)|
    ensures a < |refs| && refs[a] == Kept(refs)[j]
    decreases |refs|
  {
    var init := refs[..|refs| - 1];
    if j < |Kept(init)| { a := KeptPlace(init, j); } else { a := |refs| - 1; }
  }

  function SlotOf(r: ParamRef): RefSlot {
    RefSlot(Entry(r.dpbIndex % 128, r.longTerm % 2), r.poc, r.frameNum % TWO_16)
  }

  /** The first 16 references of the list, as the caller copies them. */
  function FirstRefs(list: seq<ParamRef>): seq<ParamRef> {
    if |list| > MAX_REFS then list[..MAX_REFS] else list
  }

  /**
   Fill the 16 slots and the flags.  The slots hold the usable ones of the first 16 references in order,
   the rest is unused, and exactly the two flag bits of each filled slot are set.
   */
  method FillRefs(list: seq<ParamRef>, slots: array<RefSlot>) returns (usedFlags: nat)
    requires slots.Length == MAX_REFS
    modifies slots
    ensures var kept := Kept(FirstRefs(list));
            && |kept| <= MAX_REFS
            && (forall k :: 0 <= k < |kept| ==>
                  slots[k] == RefSlot(Entry(kept[k].dpbIndex % 128, kept[k].longTerm % 2), kept[k].poc, kept[k].frameNum % TWO_16))
            && (forall k :: |kept| <= k < MAX_REFS ==> slots[k] == RefSlot(Unused, 0, 0))
            && (forall b: nat :: FlagSet(usedFlags, b) <==> b < 2 * |kept|)
  {
    var refs := FirstRefs(list);
    for k := 0 to MAX_REFS
      invariant forall j :: 0 <= j < k ==> slots[j] == EMPTY_SLOT
    {
      slots[k] := EMPTY_SLOT;
    }
    usedFlags := 0;
    var slot := 0;
    for i := 0 to |refs|
      invariant slot == |Kept(refs[..i])| <= i
      invariant usedFlags == Pow2(2 * slot) - 1
      invariant forall k :: 0 <= k < slot ==> slots[k] == SlotOf(Kept(refs[..i])[k])
      invariant forall k :: slot <= k < MAX_REFS ==> slots[k] == EMPTY_SLOT
    {
      assert refs[..i + 1][..i] == refs[..i];
      if Usable(refs[i]) {
        slots[slot] := SlotOf(refs[i]);
        usedFlags := usedFlags + 3 * Pow2(2 * slot);
        slot := slot + 1;
        assert Pow2(2 * slot) == 4 * Pow2(2 * slot - 2);
      }
    }
    assert refs[..|refs|] == refs;
    forall b: nat
      ensures FlagSet(usedFlags, b) <==> b < 2 * slot
    {
      AllOnes(2 * slot, b);
    }
  }

  predicate FlagSet(flags: nat, b: nat) { (flags / Pow2(b)) % 2 == 1 }

  /** 2^n - 1 has exactly the bits below `n` set. */
  lemma {:induction false} AllOnes(n: nat, b: nat)
    ensures FlagSet(Pow2(n) - 1, b) <==> b < n
    decreases n
  {
    if n == 0 {
      DivUnique(0, Pow2(b), 0, 0);
    } else if b == 0 {
      assert (Pow2(n) - 1) / 1 == Pow2(n) - 1;
    } else {
      AllOnes(n - 1, b - 1);
      HalveOdd(Pow2(n - 1) - 1, Pow2(b - 1));
    }
  }

  lemma {:induction false} HalveOdd(v: nat, p: nat)
    requires p > 0
    ensures (2 * v + 1) / (2 * p) == v / p
  {
    var q, r := v / p, v % p;
    assert v == q * p + r;
    assert 2 * v + 1 == q * (2 * p) + (2 * r + 1);
    DivUnique(2 * v + 1, 2 * p, q, 2 * r + 1);
  }

  // ----- the list of the picture management

  /** An entry of the decoder's list as the parameters take it: a short-term reference, its slot in a byte. */
  function AsParams(r: Dpb.RefPic): ParamRef {
    ParamRef(r.slot % 256, true, 0, r.frameNum, r.poc)
  }

  function AllAsParams(refs: seq<Dpb.RefPic>): (ps: seq<ParamRef>)
    ensures |ps| == |refs|
  {
    seq(|refs|, k requires 0 <= k < |refs| => AsParams(refs[k]))
  }

  /** Slots of a decoder of the source's sizes fit the seven bits of an entry. */
  const MAX_SLOTS: nat := 128

  lemma {:induction false} AllKept(refs: seq<ParamRef>)
    requires forall k :: 0 <= k < |refs| ==> Usable(refs[k])
    ensures Kept(refs) == refs
  {
    if refs != [] {
      AllKept(refs[..|refs| - 1]);
      assert refs == refs[..|refs| - 1] + [refs[|refs| - 1]];
    }
  }

  /** FillRefs, called with the decoder's list `refs`, leaves the slots and flags of `newest`. */
  predicate Sends(refs: seq<Dpb.RefPic>, newest: seq<Dpb.RefPic>) {
    var kept := Kept(FirstRefs(AllAsParams(refs)));
    && |kept| == |newest|
    && forall k :: 0 <= k < |newest| ==>
         SlotOf(kept[k]) == RefSlot(Entry(newest[k].slot, 0), newest[k].poc, newest[k].frameNum % TWO_16)
  }

  /** The slot number and the flag survive their narrow fields. */
  lemma EntryFits(r: Dpb.RefPic)
    requires r.slot < MAX_SLOTS
    ensures Usable(AsParams(r)) && SlotOf(AsParams(r)) == RefSlot(Entry(r.slot, 0), r.poc, r.frameNum % TWO_16)
  {
  }

  lemma ListIsSent(refs: seq<Dpb.RefPic>)
    requires forall k :: 0 <= k < |refs| ==> refs[k].slot < MAX_SLOTS
    ensures Sends(refs, Dpb.Trim(refs, MAX_REFS))
  {
    hide SlotOf, AsParams, Usable, Kept;
    forall k | 0 <= k < |refs|
      ensures Usable(AsParams(refs[k]))
      ensures SlotOf(AsParams(refs[k])) == RefSlot(Entry(refs[k].slot, 0), refs[k].poc, refs[k].frameNum % TWO_16)
    {
      EntryFits(refs[k]);
    }
    AllKept(FirstRefs(AllAsParams(refs)));
  }

  /**
   In every run the driver is told exactly the newest references, at most 16 and at most as many as every
   num_ref_frames since the last IDR picture allows, newest first, each with its own slot, POC and frame number.
   */
  lemma NewestAreSent(size: nat, reorderSize: nat, ops: seq<Dpb.Op>)
    requires 2 < size <= MAX_SLOTS
    ensures var st := Dpb.Run(Dpb.Fresh(size, reorderSize), ops);
            Sends(st.refs, Dpb.Trim(Dpb.Trim(st.history, DpbRuns.Room(DpbRuns.Caps(DpbRuns.Demands(ops).refs))), MAX_REFS))
  {
    hide Sends, Dpb.Run, DpbRuns.Demands;
    var st := Dpb.Run(Dpb.Fresh(size, reorderSize), ops);
    DpbRuns.SlidingWindow(size, reorderSize, ops);
    ListIsSent(st.refs);
  }
}
