/** The picture parameter set parser (section 7.3.2.2 of H.264). */
module Pps {
  import opened Common
  import opened Bits
  import BitReader

  /** The fields parse_pps fills. */
  datatype Pps = Pps(id: nat, spsId: nat, entropyCodingMode: nat, bottomFieldPicOrder: nat,
                     numRefIdxL0: nat, numRefIdxL1: nat, weightedPred: nat, weightedBipred: nat,
                     picInitQp: int, picInitQs: int, chromaQpOffset: int,
                     deblockingControl: nat, constrainedIntra: nat, redundantPicCnt: nat,
                     transform8x8: nat, secondChromaQpOffset: int)

  /** The cast to an unsigned, and to a signed, byte. */
  function U8(v: nat): nat { v % 256 }

  function I8(v: int): int { if v % 256 < 128 then v % 256 else v % 256 - 256 }

  /** The fields before the slice groups; None if the set belongs to another sequence parameter set. */
  datatype Head = Head(id: nat, spsId: nat, entropyCodingMode: nat, bottomFieldPicOrder: nat)

  function ParseHead(r: Reader, spsId: nat): Option<(Head, Reader)> {
    var (id, r) := ReadUe(r);
    var (sps, r) := ReadUe(r);
    if U8(sps) != spsId then None
    else
      var (entropy, r) := ReadBits(r, 1);
      var (bottom, r) := ReadBits(r, 1);
      var (groups, r) := ReadUe(r);
      if U8(groups) != 0 then None else Some((Head(U8(id), U8(sps), entropy, bottom), r))
  }

  datatype Middle = Middle(numRefIdxL0: nat, numRefIdxL1: nat, weightedPred: nat, weightedBipred: nat)

  function ParseMiddle(r: Reader): (Middle, Reader) {
    var (l0, r) := ReadUe(r);
    var (l1, r) := ReadUe(r);
    var (pred, r) := ReadBits(r, 1);
    var (bipred, r) := ReadBits(r, 2);
    (Middle(U8(l0), U8(l1), pred, bipred), r)
  }

  datatype Quant = Quant(picInitQp: int, picInitQs: int, chromaQpOffset: int,
                         deblockingControl: nat, constrainedIntra: nat, redundantPicCnt: nat)

  function ParseQuant(r: Reader): (Quant, Reader) {
    var (qp, r) := ReadSe(r);
    var (qs, r) := ReadSe(r);
    var (chroma, r) := ReadSe(r);
    var (deblock, r) := ReadBits(r, 1);
    var (intra, r) := ReadBits(r, 1);
    var (redundant, r) := ReadBits(r, 1);
    (Quant(I8(qp), I8(qs), I8(chroma), deblock, intra, redundant), r)
  }

  /** The optional tail; None if it asks for a scaling matrix. */
  function ParseTail(r: Reader, chromaQpOffset: int): Option<((nat, int), Reader)> {
    if MoreData(r) then
      var (transform, r) := ReadBits(r, 1);
      var (matrix, r) := ReadBits(r, 1);
      if matrix != 0 then None
      else
        var (second, r) := ReadSe(r);
        Some(((transform, I8(second)), r))
    else Some(((0, chromaQpOffset), r))
  }

  function Assemble(h: Head, m: Middle, q: Quant, t: (nat, int)): Pps {
    Pps(h.id, h.spsId, h.entropyCodingMode, h.bottomFieldPicOrder, m.numRefIdxL0, m.numRefIdxL1,
        m.weightedPred, m.weightedBipred, q.picInitQp, q.picInitQs, q.chromaQpOffset,
        q.deblockingControl, q.constrainedIntra, q.redundantPicCnt, t.0, t.1)
  }

  /** parse_pps: None where the source returns false. */
  function Parse(rbsp: seq<bit>, spsId: nat): Option<Pps> {
    match ParseHead(Reader(rbsp, false), spsId)
    case None => None
    case Some((h, r)) =>
      var (m, r) := ParseMiddle(r);
      var (q, r) := ParseQuant(r);
      match ParseTail(r, q.chromaQpOffset)
      case None => None
      case Some((t, r)) => if r.bad then None else Some(Assemble(h, m, q, t))
  }

  method ReadHead(br: BitReader.BitReader, spsId: nat) returns (h: Option<Head>)
    requires br.Valid()
    modifies br
    ensures br.Valid() && h.Some? == ParseHead(old(br.Abs()), spsId).Some?
    ensures h.Some? ==> ParseHead(old(br.Abs()), spsId).value == (h.value, br.Abs())
  {
    hide ReadUe, ReadBits, BitsOf, U8;
    var id := br.ReadUe();
    var sps := br.ReadUe();
    if U8(sps) != spsId { return None; }
    var entropy := br.ReadBits(1);
    var bottom := br.ReadBits(1);
    var groups := br.ReadUe();
    if U8(groups) != 0 { return None; }
    return Some(Head(U8(id), U8(sps), entropy, bottom));
  }

  method ReadMiddle(br: BitReader.BitReader) returns (m: Middle)
    requires br.Valid()
    modifies br
    ensures br.Valid() && ParseMiddle(old(br.Abs())) == (m, br.Abs())
  {
    hide ReadUe, ReadBits, BitsOf, U8;
    var l0 := br.ReadUe();
    var l1 := br.ReadUe();
    var pred := br.ReadBits(1);
    var bipred := br.ReadBits(2);
    m := Middle(U8(l0), U8(l1), pred, bipred);
  }

  method ReadQuant(br: BitReader.BitReader) returns (q: Quant)
    requires br.Valid()
    modifies br
    ensures br.Valid() && ParseQuant(old(br.Abs())) == (q, br.Abs())
  {
    hide ReadSe, ReadBits, BitsOf, I8;
    var qp := br.ReadSe();
    var qs := br.ReadSe();
    var chroma := br.ReadSe();
    var deblock := br.ReadBits(1);
    var intra := br.ReadBits(1);
    var redundant := br.ReadBits(1);
    q := Quant(I8(qp), I8(qs), I8(chroma), deblock, intra, redundant);
  }

  method ReadTail(br: BitReader.BitReader, chromaQpOffset: int) returns (t: Option<(nat, int)>)
    requires br.Valid()
    modifies br
    ensures br.Valid() && t.Some? == ParseTail(old(br.Abs()), chromaQpOffset).Some?
    ensures t.Some? ==> ParseTail(old(br.Abs()), chromaQpOffset).value == (t.value, br.Abs())
  {
    hide ReadSe, ReadBits, BitsOf, MoreData, I8;
    var more := br.MoreRbspData();
    if !more { return Some((0, chromaQpOffset)); }
    var transform := br.ReadBits(1);
    var matrix := br.ReadBits(1);
    if matrix != 0 { return None; }
    var second := br.ReadSe();
    return Some((transform, I8(second)));
  }

  method ParsePps(rbsp: seq<byte>, spsId: nat) returns (pps: Option<Pps>)
    ensures pps == Parse(BitsOf(rbsp), spsId)
  {
    hide ParseHead, ParseMiddle, ParseQuant, ParseTail, BitsOf;
    var br := new BitReader.BitReader(rbsp);
    var h := ReadHead(br, spsId);
    if h.None? { return None; }
    var m := ReadMiddle(br);
    var q := ReadQuant(br);
    var t := ReadTail(br, q.chromaQpOffset);
    if t.None? || br.bad { return None; }
    return Some(Assemble(h.value, m, q, t.value));
  }

  // ----- the syntax

  /** The ranges of the supported subset: one slice group, no scaling matrix, fields that fit their types. */
  predicate InRange(p: Pps) {
    && p.id < 256 && p.spsId < 256 && p.entropyCodingMode < 2 && p.bottomFieldPicOrder < 2
    && p.numRefIdxL0 < 256 && p.numRefIdxL1 < 256 && p.weightedPred < 2 && p.weightedBipred < 4
    && -128 <= p.picInitQp < 128 && -128 <= p.picInitQs < 128 && -128 <= p.chromaQpOffset < 128
    && p.deblockingControl < 2 && p.constrainedIntra < 2 && p.redundantPicCnt < 2
    && p.transform8x8 < 2 && -128 <= p.secondChromaQpOffset < 128
  }

  /** Without the optional tail its fields have their inferred values. */
  predicate TailInferred(p: Pps) { p.transform8x8 == 0 && p.secondChromaQpOffset == p.chromaQpOffset }

  /** `groups` is num_slice_groups_minus1. */
  function HeadBits(p: Pps, groups: nat, rest: seq<bit>): seq<bit>
    requires InRange(p)
  {
    UeBits(p.id) + (UeBits(p.spsId) + ([p.entropyCodingMode] + ([p.bottomFieldPicOrder] + (UeBits(groups) + rest))))
  }

  function MiddleBits(p: Pps, rest: seq<bit>): seq<bit>
    requires InRange(p)
  {
    UeBits(p.numRefIdxL0) + (UeBits(p.numRefIdxL1) + ([p.weightedPred] + (Binary(p.weightedBipred, 2) + rest)))
  }

  function QuantBits(p: Pps, rest: seq<bit>): seq<bit>
    requires InRange(p)
  {
    SeBits(p.picInitQp) + (SeBits(p.picInitQs) + (SeBits(p.chromaQpOffset)
      + ([p.deblockingControl] + ([p.constrainedIntra] + ([p.redundantPicCnt] + rest)))))
  }

  function TailBits(p: Pps): seq<bit>
    requires InRange(p)
  {
    [p.transform8x8] + ([0] + SeBits(p.secondChromaQpOffset))
  }

  /** The parameter set as written, with or without its optional tail. */
  function PpsBits(p: Pps, withTail: bool, pad: nat): seq<bit>
    requires InRange(p)
  {
    HeadBits(p, 0, MiddleBits(p, QuantBits(p, (if withTail then TailBits(p) else []) + Trailing(pad))))
  }

  /** Slice groups are refused; the count is cast to a byte first. */
  lemma HeadRead(p: Pps, groups: nat, rest: seq<bit>)
    requires InRange(p) && groups <= MAX_CODE
    ensures ParseHead(Reader(HeadBits(p, groups, rest), false), p.spsId) ==
      if groups % 256 != 0 then None
      else Some((Head(p.id, p.spsId, p.entropyCodingMode, p.bottomFieldPicOrder), Reader(rest, false)))
  {
    hide UeBits, ReadUe, ReadBits;
    var s4 := UeBits(groups) + rest;
    var s3: seq<bit> := [p.bottomFieldPicOrder] + s4;
    var s2: seq<bit> := [p.entropyCodingMode] + s3;
    ReadUeInverts(p.id, UeBits(p.spsId) + s2);
    ReadUeInverts(p.spsId, s2);
    ReadFlagInverts(p.entropyCodingMode, s3);
    ReadFlagInverts(p.bottomFieldPicOrder, s4);
    ReadUeInverts(groups, rest);
  }

  lemma MiddleRead(p: Pps, rest: seq<bit>)
    requires InRange(p)
    ensures ParseMiddle(Reader(MiddleBits(p, rest), false))
         == (Middle(p.numRefIdxL0, p.numRefIdxL1, p.weightedPred, p.weightedBipred), Reader(rest, false))
  {
    hide UeBits, ReadUe, ReadBits, Binary;
    var s3 := Binary(p.weightedBipred, 2) + rest;
    var s2: seq<bit> := [p.weightedPred] + s3;
    ReadUeInverts(p.numRefIdxL0, UeBits(p.numRefIdxL1) + s2);
    ReadUeInverts(p.numRefIdxL1, s2);
    ReadFlagInverts(p.weightedPred, s3);
    assert Pow2(2) == 4;
    ReadBitsInverts(p.weightedBipred, 2, rest);
  }

  lemma QuantRead(p: Pps, rest: seq<bit>)
    requires InRange(p)
    ensures ParseQuant(Reader(QuantBits(p, rest), false))
         == (Quant(p.picInitQp, p.picInitQs, p.chromaQpOffset, p.deblockingControl, p.constrainedIntra, p.redundantPicCnt),
             Reader(rest, false))
  {
    hide SeBits, ReadSe, ReadBits;
    var s5: seq<bit> := [p.redundantPicCnt] + rest;
    var s4: seq<bit> := [p.constrainedIntra] + s5;
    var s3: seq<bit> := [p.deblockingControl] + s4;
    ReadSeInverts(p.picInitQp, SeBits(p.picInitQs) + (SeBits(p.chromaQpOffset) + s3));
    ReadSeInverts(p.picInitQs, SeBits(p.chromaQpOffset) + s3);
    ReadSeInverts(p.chromaQpOffset, s3);
    ReadFlagInverts(p.deblockingControl, s4);
    ReadFlagInverts(p.constrainedIntra, s5);
    ReadFlagInverts(p.redundantPicCnt, rest);
  }

  /** The tail is read exactly when it was written. */
  lemma TailRead(p: Pps, withTail: bool, pad: nat)
    requires InRange(p) && (withTail || TailInferred(p))
    ensures ParseTail(Reader((if withTail then TailBits(p) else []) + Trailing(pad), false), p.chromaQpOffset)
         == Some(((p.transform8x8, p.secondChromaQpOffset), Reader(Trailing(pad), false)))
  {
    hide SeBits, ReadSe, ReadBits, MoreData, Trailing;
    var t := Trailing(pad);
    if withTail {
      MoreDataExact(TailBits(p), pad);
      var s2 := SeBits(p.secondChromaQpOffset) + t;
      var s1: seq<bit> := [0] + s2;
      assert TailBits(p) + t == [p.transform8x8] + s1;
      ReadFlagInverts(p.transform8x8, s1);
      ReadFlagInverts(0, s2);
      ReadSeInverts(p.secondChromaQpOffset, t);
    } else {
      MoreDataExact([], pad);
      assert [] + t == t;
    }
  }

  /** The parser inverts the syntax, with or without the optional tail and however many zeros follow the stop bit. */
  lemma {:induction false} ParseInverts(p: Pps, withTail: bool, pad: nat)
    requires InRange(p) && (withTail || TailInferred(p))
    ensures Parse(PpsBits(p, withTail, pad), p.spsId) == Some(p)
  {
    hide ParseHead, ParseMiddle, ParseQuant, ParseTail, HeadBits, MiddleBits, QuantBits, TailBits, Trailing;
    var tail := (if withTail then TailBits(p) else []) + Trailing(pad);
    var quant := QuantBits(p, tail);
    var middle := MiddleBits(p, quant);
    HeadRead(p, 0, middle);
    MiddleRead(p, quant);
    QuantRead(p, tail);
    TailRead(p, withTail, pad);
  }

  /** Another sequence parameter set's picture parameter set is refused. */
  lemma {:induction false} OtherSpsRefused(p: Pps, withTail: bool, pad: nat, spsId: nat)
    requires InRange(p) && spsId != p.spsId
    ensures Parse(PpsBits(p, withTail, pad), spsId) == None
  {
    hide UeBits, ReadUe, MiddleBits, QuantBits, TailBits, Trailing;
    var rest := MiddleBits(p, QuantBits(p, (if withTail then TailBits(p) else []) + Trailing(pad)));
    var s2: seq<bit> := [p.entropyCodingMode] + ([p.bottomFieldPicOrder] + (UeBits(0) + rest));
    ReadUeInverts(p.id, UeBits(p.spsId) + s2);
    ReadUeInverts(p.spsId, s2);
  }

  /** A set with slice groups is refused, as far as their number survives the cast to a byte. */
  lemma SliceGroupsRefused(p: Pps, groups: nat, rest: seq<bit>)
    requires InRange(p) && groups <= MAX_CODE && groups % 256 != 0
    ensures Parse(HeadBits(p, groups, rest), p.spsId) == None
  {
    hide ParseHead, HeadBits;
    HeadRead(p, groups, rest);
  }

  /** A set with a scaling matrix is refused, whatever follows the flag. */
  lemma ScalingMatrixRefused(p: Pps, transform: bit, rest: seq<bit>)
    requires InRange(p)
    ensures Parse(HeadBits(p, 0, MiddleBits(p, QuantBits(p, [transform] + ([1] + rest)))), p.spsId) == None
  {
    hide ParseHead, ParseMiddle, ParseQuant, HeadBits, MiddleBits, QuantBits, ReadBits;
    var tail: seq<bit> := [transform] + ([1] + rest);
    var quant := QuantBits(p, tail);
    HeadRead(p, 0, MiddleBits(p, quant));
    MiddleRead(p, quant);
    QuantRead(p, tail);
    assert tail[1] == 1;
    ReadFlagInverts(transform, [1] + rest);
    ReadFlagInverts(1, rest);
  }

  /** What is left of `rest` when only the first `m` bits of `part + rest` are there. */
  lemma PartLength(p: Pps, rest: seq<bit>)
    requires InRange(p)
    ensures |HeadBits(p, 0, rest)| == |HeadBits(p, 0, [])| + |rest|
    ensures |MiddleBits(p, rest)| == |MiddleBits(p, [])| + |rest|
    ensures |QuantBits(p, rest)| == |QuantBits(p, [])| + |rest|
  {
    hide UeBits, SeBits, Binary;
  }

  /** The head cut short is refused or leaves nothing to read. */
  lemma HeadCut(p: Pps, rest: seq<bit>, m: nat)
    requires InRange(p) && m <= |HeadBits(p, 0, rest)|
    ensures var h := ParseHead(Reader(HeadBits(p, 0, rest)[..m], false), p.spsId);
            if m < |HeadBits(p, 0, [])| then h.None? || Exhausted(h.value.1)
            else h == Some((Head(p.id, p.spsId, p.entropyCodingMode, p.bottomFieldPicOrder),
                            Reader(rest[..m - |HeadBits(p, 0, [])|], false)))
  {
    hide UeBits, ReadUe, ReadBits, Exhausted;
    var s4 := UeBits(0) + rest;
    var s3: seq<bit> := [p.bottomFieldPicOrder] + s4;
    var s2: seq<bit> := [p.entropyCodingMode] + s3;
    var s1 := UeBits(p.spsId) + s2;
    UeCut(p.id, s1, m);
    var r1 := ReadUe(Reader(HeadBits(p, 0, rest)[..m], false)).1;
    if m < |UeBits(p.id)| { StayExhausted4(r1); return; }
    var m1 := m - |UeBits(p.id)|;
    UeCut(p.spsId, s2, m1);
    var r2 := ReadUe(r1).1;
    if m1 < |UeBits(p.spsId)| { StayExhausted3(r2); return; }
    var m2 := m1 - |UeBits(p.spsId)|;
    FlagCut(p.entropyCodingMode, s3, m2);
    var r3 := ReadBits(r2, 1).1;
    if m2 < 1 { BadIsExhausted(r3); StayExhausted2(r3); return; }
    FlagCut(p.bottomFieldPicOrder, s4, m2 - 1);
    var r4 := ReadBits(r3, 1).1;
    if m2 - 1 < 1 { BadIsExhausted(r4); ExhaustedStays(r4, 1); return; }
    UeCut(0, rest, m2 - 2);
  }

  lemma BadIsExhausted(r: Reader)
    requires r.bad
    ensures Exhausted(r)
  {
  }

  lemma StayExhausted2(r: Reader)
    requires Exhausted(r)
    ensures Exhausted(ReadUe(ReadBits(r, 1).1).1)
  {
    hide ReadUe, ReadBits, Exhausted;
    ExhaustedStays(r, 1);
    BadIsExhausted(ReadBits(r, 1).1);
    ExhaustedStays(ReadBits(r, 1).1, 1);
  }

  lemma StayExhausted3(r: Reader)
    requires Exhausted(r)
    ensures Exhausted(ReadUe(ReadBits(ReadBits(r, 1).1, 1).1).1)
  {
    hide ReadUe, ReadBits, Exhausted;
    ExhaustedStays(r, 1);
    BadIsExhausted(ReadBits(r, 1).1);
    StayExhausted2(ReadBits(r, 1).1);
  }

  lemma StayExhausted4(r: Reader)
    requires Exhausted(r)
    ensures Exhausted(ReadUe(ReadBits(ReadBits(ReadUe(r).1, 1).1, 1).1).1)
  {
    hide ReadUe, ReadBits, Exhausted;
    ExhaustedStays(r, 1);
    StayExhausted3(ReadUe(r).1);
  }

  /** What nothing is left for ends with the error flag set. */
  lemma MiddleExhausted(r: Reader)
    requires Exhausted(r)
    ensures Exhausted(ParseMiddle(r).1)
  {
    hide ReadUe, ReadBits, Exhausted;
    var r1 := ReadUe(r).1;
    var r2 := ReadUe(r1).1;
    var r3 := ReadBits(r2, 1).1;
    ExhaustedStays(r, 1);
    ExhaustedStays(r1, 1);
    ExhaustedStays(r2, 1);
    BadIsExhausted(r3);
    ExhaustedStays(r3, 2);
    BadIsExhausted(ReadBits(r3, 2).1);
  }

  lemma QuantExhausted(r: Reader)
    requires Exhausted(r)
    ensures ParseQuant(r).1.bad
  {
    hide ReadSe, ReadBits, Exhausted;
    var r1 := ReadSe(r).1;
    var r2 := ReadSe(r1).1;
    var r3 := ReadSe(r2).1;
    ExhaustedStays(r, 1);
    ExhaustedStays(r1, 1);
    ExhaustedStays(r2, 1);
    FlagsExhausted(r3);
  }

  lemma FlagsExhausted(r: Reader)
    requires Exhausted(r)
    ensures ReadBits(r, 1).1.bad && ReadBits(ReadBits(r, 1).1, 1).1.bad
    ensures ReadBits(ReadBits(ReadBits(r, 1).1, 1).1, 1).1.bad
  {
    hide ReadBits, Exhausted;
    var r1 := ReadBits(r, 1).1;
    ExhaustedStays(r, 1);
    BadIsExhausted(r1);
    ExhaustedStays(r1, 1);
    BadIsExhausted(ReadBits(r1, 1).1);
    ExhaustedStays(ReadBits(r1, 1).1, 1);
  }

  lemma TailKeepsBad(r: Reader, chroma: int)
    requires r.bad
    ensures ParseTail(r, chroma).None? || ParseTail(r, chroma).value.1.bad
  {
    hide ReadSe, ReadBits, MoreData;
    BadIsExhausted(r);
    FlagsExhausted(r);
    BadIsExhausted(ReadBits(ReadBits(r, 1).1, 1).1);
    ExhaustedStays(ReadBits(ReadBits(r, 1).1, 1).1, 1);
  }

  lemma MiddleCut(p: Pps, rest: seq<bit>, m: nat)
    requires InRange(p) && m <= |MiddleBits(p, rest)|
    ensures var c := ParseMiddle(Reader(MiddleBits(p, rest)[..m], false));
            if m < |MiddleBits(p, [])| then Exhausted(c.1)
            else c.1 == Reader(rest[..m - |MiddleBits(p, [])|], false)
  {
    hide UeBits, ReadUe, ReadBits, Binary, Exhausted;
    var s3 := Binary(p.weightedBipred, 2) + rest;
    var s2: seq<bit> := [p.weightedPred] + s3;
    var s1 := UeBits(p.numRefIdxL1) + s2;
    var r1 := ReadUe(Reader(MiddleBits(p, rest)[..m], false)).1;
    UeCut(p.numRefIdxL0, s1, m);
    if m < |UeBits(p.numRefIdxL0)| {
      ExhaustedStays(r1, 1);
      BipredExhausted(ReadUe(r1).1);
      return;
    }
    var m1 := m - |UeBits(p.numRefIdxL0)|;
    UeCut(p.numRefIdxL1, s2, m1);
    var r2 := ReadUe(r1).1;
    if m1 < |UeBits(p.numRefIdxL1)| { BipredExhausted(r2); return; }
    var m2 := m1 - |UeBits(p.numRefIdxL1)|;
    FlagCut(p.weightedPred, s3, m2);
    var r3 := ReadBits(r2, 1).1;
    if m2 < 1 {
      BadIsExhausted(r3);
      ExhaustedStays(r3, 2);
      BadIsExhausted(ReadBits(r3, 2).1);
      return;
    }
    assert Pow2(2) == 4;
    BitsCut(p.weightedBipred, 2, rest, m2 - 1);
    if m2 - 1 < 2 { BadIsExhausted(ReadBits(r3, 2).1); }
  }

  lemma BipredExhausted(r: Reader)
    requires Exhausted(r)
    ensures Exhausted(ReadBits(ReadBits(r, 1).1, 2).1)
  {
    hide ReadBits, Exhausted;
    ExhaustedStays(r, 1);
    BadIsExhausted(ReadBits(r, 1).1);
    ExhaustedStays(ReadBits(r, 1).1, 2);
    BadIsExhausted(ReadBits(ReadBits(r, 1).1, 2).1);
  }

  lemma QuantCut(p: Pps, rest: seq<bit>, m: nat)
    requires InRange(p) && m < |QuantBits(p, [])| && m <= |QuantBits(p, rest)|
    ensures ParseQuant(Reader(QuantBits(p, rest)[..m], false)).1.bad
  {
    hide SeBits, ReadSe, ReadBits, Exhausted;
    var s5: seq<bit> := [p.redundantPicCnt] + rest;
    var s4: seq<bit> := [p.constrainedIntra] + s5;
    var s3: seq<bit> := [p.deblockingControl] + s4;
    var s2 := SeBits(p.chromaQpOffset) + s3;
    var s1 := SeBits(p.picInitQs) + s2;
    var r1 := ReadSe(Reader(QuantBits(p, rest)[..m], false)).1;
    var r2 := ReadSe(r1).1;
    var r3 := ReadSe(r2).1;
    SeCut(p.picInitQp, s1, m);
    if m < |SeBits(p.picInitQp)| {
      ExhaustedStays(r1, 1);
      ExhaustedStays(r2, 1);
      FlagsExhausted(r3);
      return;
    }
    var m1 := m - |SeBits(p.picInitQp)|;
    SeCut(p.picInitQs, s2, m1);
    if m1 < |SeBits(p.picInitQs)| {
      ExhaustedStays(r2, 1);
      FlagsExhausted(r3);
      return;
    }
    var m2 := m1 - |SeBits(p.picInitQs)|;
    SeCut(p.chromaQpOffset, s3, m2);
    if m2 < |SeBits(p.chromaQpOffset)| { FlagsExhausted(r3); return; }
    FlagsCut(p, rest, m2 - |SeBits(p.chromaQpOffset)|);
  }

  lemma FlagsCut(p: Pps, rest: seq<bit>, m: nat)
    requires InRange(p) && m < 3
    ensures var s: seq<bit> := [p.deblockingControl] + ([p.constrainedIntra] + ([p.redundantPicCnt] + rest));
            ReadBits(ReadBits(ReadBits(Reader(s[..m], false), 1).1, 1).1, 1).1.bad
  {
    hide ReadBits, Exhausted;
    var s2: seq<bit> := [p.redundantPicCnt] + rest;
    var s1: seq<bit> := [p.constrainedIntra] + s2;
    var r := Reader(([p.deblockingControl] + s1)[..m], false);
    FlagCut(p.deblockingControl, s1, m);
    if m == 0 {
      BadIsExhausted(ReadBits(r, 1).1);
      FlagsExhausted(ReadBits(r, 1).1);
    } else {
      FlagCut(p.constrainedIntra, s2, m - 1);
      var r1 := ReadBits(r, 1).1;
      if m == 1 {
        BadIsExhausted(ReadBits(r1, 1).1);
        ExhaustedStays(ReadBits(r1, 1).1, 1);
      } else {
        FlagCut(p.redundantPicCnt, rest, 0);
      }
    }
  }

  /** A set that ends before its last mandatory flag is refused. */
  lemma TruncatedRefused(p: Pps, rest: seq<bit>, m: nat)
    requires InRange(p) && m < |HeadBits(p, 0, MiddleBits(p, QuantBits(p, [])))|
    ensures m <= |HeadBits(p, 0, MiddleBits(p, QuantBits(p, rest)))|
    ensures Parse(HeadBits(p, 0, MiddleBits(p, QuantBits(p, rest)))[..m], p.spsId) == None
  {
    hide ParseHead, ParseMiddle, ParseQuant, ParseTail, HeadBits, MiddleBits, QuantBits, Exhausted;
    var quant := QuantBits(p, rest);
    var middle := MiddleBits(p, quant);
    PartLength(p, rest);
    PartLength(p, quant);
    PartLength(p, middle);
    PartLength(p, QuantBits(p, []));
    PartLength(p, MiddleBits(p, QuantBits(p, [])));
    HeadCut(p, middle, m);
    var h := ParseHead(Reader(HeadBits(p, 0, middle)[..m], false), p.spsId);
    if h.None? { return; }
    var r := h.value.1;
    var (mid, r1) := ParseMiddle(r);
    var (q, r2) := ParseQuant(r1);
    if m < |HeadBits(p, 0, [])| {
      MiddleExhausted(r);
      QuantExhausted(r1);
    } else {
      var m1 := m - |HeadBits(p, 0, [])|;
      MiddleCut(p, quant, m1);
      if m1 < |MiddleBits(p, [])| { QuantExhausted(r1); } else { QuantCut(p, rest, m1 - |MiddleBits(p, [])|); }
    }
    TailKeepsBad(r2, q.chromaQpOffset);
  }

  lemma LengthWithPad(p: Pps, withTail: bool, pad: nat)
    requires InRange(p)
    ensures |PpsBits(p, withTail, pad)| == |PpsBits(p, withTail, 0)| + pad
  {
  }

  /** How many zeros fill the last byte. */
  function PadFor(p: Pps, withTail: bool): nat
    requires InRange(p)
  {
    (8 - |PpsBits(p, withTail, 0)| % 8) % 8
  }

  /** The same on bytes: every parameter set, padded to whole bytes, parses back to itself. */
  lemma {:induction false} ParseInvertsBytes(p: Pps, withTail: bool)
    requires InRange(p) && (withTail || TailInferred(p))
    ensures |PpsBits(p, withTail, PadFor(p, withTail))| % 8 == 0
    ensures Parse(BitsOf(Pack(PpsBits(p, withTail, PadFor(p, withTail)))), p.spsId) == Some(p)
  {
    hide PpsBits, Parse;
    var pad := PadFor(p, withTail);
    LengthWithPad(p, withTail, pad);
    UnpackPacked(PpsBits(p, withTail, pad));
    ParseInverts(p, withTail, pad);
  }
}
