/** The RTP depacketizer for H.264 (RFC 6184): single NAL units, STAP-A and FU-A. */
module DepackH264 {
  import opened Common
  import opened AnnexB
  import opened AccessUnits

  const IDR: nat := 5
  const SEI: nat := 6
  const SPS: nat := 7
  const PPS: nat := 8
  const STAP_A: nat := 24
  const FU_A: nat := 28

  /** Whether a SEI unit, without its header byte, announces recovery at once. */
  type SeiTest = seq<byte> -> bool

  function NalType(header: byte): nat { header as int % 32 }

  datatype State = State(
    sps: seq<byte>, pps: seq<byte>, au: seq<byte>,
    fu: seq<byte>, fuOpen: bool, fuHeader: byte,
    refsLost: bool, sawIdr: bool, sawRecovery: bool,
    pts: int, arrival: int, out: seq<AccessUnit>)

  const FRESH: State := State([], [], [], [], false, 0, true, false, false, 0, 0, [])

  // ----- what each kind of payload does

  /** A complete NAL unit goes into the access unit. */
  function Consume(sei: SeiTest, s: State, nal: seq<byte>): State
    requires nal != []
  {
    var t := NalType(nal[0]);
    s.(au := s.au + StartCoded([nal]),
       sawIdr := s.sawIdr || t == IDR,
       sps := if t == SPS then nal else s.sps,
       pps := if t == PPS then nal else s.pps,
       sawRecovery := s.sawRecovery || (t == SEI && |nal| > 1 && sei(nal[1..])))
  }

  predicate NoneEmpty(nals: seq<seq<byte>>) { forall k :: 0 <= k < |nals| ==> nals[k] != [] }

  function ConsumeAll(sei: SeiTest, s: State, nals: seq<seq<byte>>): State
    requires NoneEmpty(nals)
    decreases |nals|
  {
    if nals == [] then s else ConsumeAll(sei, Consume(sei, s, nals[0]), nals[1..])
  }

  /** The units of a STAP-A after its header byte: two bytes of size, then the unit, up to the first that
      does not fit. */
  function Units(rest: seq<byte>): seq<seq<byte>> {
    if |rest| < 2 || 2 + U16(rest[0], rest[1]) > |rest| then []
    else [rest[2..2 + U16(rest[0], rest[1])]] + Units(rest[2 + U16(rest[0], rest[1])..])
  }

  /** The units from position `i` on, if there is room for another length. */
  lemma UnitsAt(payload: seq<byte>, i: nat)
    requires i + 2 <= |payload|
    ensures var size := U16(payload[i], payload[i + 1]);
            Units(payload[i..]) == if i + 2 + size > |payload| then []
                                   else [payload[i + 2..i + 2 + size]] + Units(payload[i + 2 + size..])
  {
    var rest, size := payload[i..], U16(payload[i], payload[i + 1]);
    if i + 2 + size <= |payload| {
      assert rest[2..2 + size] == payload[i + 2..i + 2 + size] && rest[2 + size..] == payload[i + 2 + size..];
    }
  }

  lemma UnitsEnd(payload: seq<byte>, i: nat)
    ensures i <= |payload| < i + 2 ==> Units(payload[i..]) == []
  {
  }

  predicate IsStart(fuHeader: byte) { fuHeader >= 128 }

  predicate IsEnd(fuHeader: byte) { fuHeader as int / 64 % 2 == 1 }

  function StartFu(s: State, indicator: byte, fuHeader: byte): State {
    var header: byte := indicator as int / 32 * 32 + fuHeader as int % 32;
    s.(fu := [header], fuOpen := true, fuHeader := header, sawIdr := s.sawIdr || NalType(fuHeader) == IDR)
  }

  function FinishFu(sei: SeiTest, s: State, t: nat): State {
    s.(au := s.au + StartCoded([s.fu]),
       sps := if t == SPS then s.fu else s.sps,
       pps := if t == PPS then s.fu else s.pps,
       sawRecovery := s.sawRecovery || (t == SEI && |s.fu| > 1 && sei(s.fu[1..])),
       fuOpen := false, fu := [])
  }

  function Fragment(sei: SeiTest, s: State, payload: seq<byte>): State
    requires |payload| >= 2
  {
    var s1 := if IsStart(payload[1]) then StartFu(s, payload[0], payload[1]) else s;
    if !s1.fuOpen then s1
    else
      var s2 := s1.(fu := s1.fu + payload[2..]);
      if IsEnd(payload[1]) then FinishFu(sei, s2, NalType(payload[1])) else s2
  }

  /** Payloads on which the original is defined: no unit of a STAP-A is empty. */
  predicate Readable(payload: seq<byte>) {
    payload != [] && NalType(payload[0]) == STAP_A ==> NoneEmpty(Units(payload[1..]))
  }

  /** An FU-A without its header byte, which ends the call early. */
  predicate Truncated(payload: seq<byte>) {
    payload != [] && NalType(payload[0]) == FU_A && |payload| < 2
  }

  function Receive(sei: SeiTest, s: State, payload: seq<byte>): State
    requires payload != [] && Readable(payload) && !Truncated(payload)
  {
    var t := NalType(payload[0]);
    if 1 <= t <= 23 then Consume(sei, s, payload)
    else if t == STAP_A then ConsumeAll(sei, s, Units(payload[1..]))
    else if t == FU_A then Fragment(sei, s, payload)
    else s.(refsLost := true)
  }

  // ----- access units

  function Front(s: State, withExtradata: bool): seq<seq<byte>> {
    if withExtradata && s.sps != [] && s.pps != [] then [s.sps, s.pps] else []
  }

  function EmitAu(s: State, pts: int, withExtradata: bool): State {
    if s.au == [] then s
    else
      s.(out := s.out + [AccessUnit(pts, s.arrival, StartCoded(Front(s, withExtradata)) + s.au,
                                    s.sawIdr, s.sawRecovery, s.refsLost, s.sps != [] && s.pps != [])],
         refsLost := s.refsLost && !s.sawIdr && !s.sawRecovery,
         au := [], sawIdr := false, sawRecovery := false, arrival := 0)
  }

  /** A change of time stamp ends the access unit. */
  function Flushed(s: State, p: Packet): State {
    if s.au != [] && p.pts != s.pts then EmitAu(s, s.pts, false) else s
  }

  /** Then the packet's stamps are taken over. */
  function Begin(s: State, p: Packet): State {
    var s1 := Flushed(s, p);
    s1.(arrival := if s1.au == [] && p.arrival != 0 then p.arrival else s1.arrival, pts := p.pts)
  }

  function OnRtp(sei: SeiTest, s: State, p: Packet): State
    requires Readable(p.payload)
  {
    if p.payload == [] then s
    else if Truncated(p.payload) then Begin(s, p)
    else
      var s1 := Receive(sei, Begin(s, p), p.payload);
      if p.marker then EmitAu(s1, p.pts, s1.sawIdr) else s1
  }

  function MarkReferenceLost(s: State): State {
    s.(refsLost := true, fu := [], fuOpen := false)
  }

  function Reset(s: State): State {
    s.(au := [], fu := [], fuOpen := false, sawIdr := false, sawRecovery := false,
       refsLost := true, pts := 0, arrival := 0)
  }

  // ----- the object

  class Depacketizer {
    const sei: SeiTest
    var sps: seq<byte>
    var pps: seq<byte>
    var auBuffer: seq<byte>
    var fuBuffer: seq<byte>
    var fuInProgress: bool
    var fuNalHeader: byte
    var refsLost: bool
    var sawIdrInAu: bool
    var sawRecoveryInAu: bool
    var currentPts: int
    var currentArrival: int
    /** What has been passed to the emit callback. */
    var emitted: seq<AccessUnit>

    ghost function Abs(): State
      reads this
    {
      State(sps, pps, auBuffer, fuBuffer, fuInProgress, fuNalHeader, refsLost, sawIdrInAu, sawRecoveryInAu,
            currentPts, currentArrival, emitted)
    }

    constructor (sei: SeiTest)
      ensures Abs() == FRESH && this.sei == sei
    {
      this.sei := sei;
      sps, pps, auBuffer, fuBuffer := [], [], [], [];
      fuInProgress, fuNalHeader, refsLost := false, 0, true;
      sawIdrInAu, sawRecoveryInAu := false, false;
      currentPts, currentArrival, emitted := 0, 0, [];
    }

    method ConsumeNal(nal: seq<byte>)
      requires nal != []
      modifies this
      ensures Abs() == Consume(sei, old(Abs()), nal)
    {
      auBuffer := AppendAnnexB(auBuffer, nal);
      var t := NalType(nal[0]);
      if t == IDR { sawIdrInAu := true; }
      if t == SPS { sps := nal; }
      if t == PPS { pps := nal; }
      if t == SEI && |nal| > 1 && sei(nal[1..]) { sawRecoveryInAu := true; }
    }

    method ReceiveStapA(payload: seq<byte>)
      requires payload != [] && NoneEmpty(Units(payload[1..]))
      modifies this
      ensures Abs() == ConsumeAll(sei, old(Abs()), Units(payload[1..]))
    {
      hide Consume, Units;
      var i := 1;
      while i + 2 <= |payload|
        invariant 1 <= i <= |payload| && NoneEmpty(Units(payload[i..]))
        invariant ConsumeAll(sei, Abs(), Units(payload[i..])) == ConsumeAll(sei, old(Abs()), Units(payload[1..]))
      {
        var size := U16(payload[i], payload[i + 1]);
        UnitsAt(payload, i);
        i := i + 2;
        if i + size > |payload| { break; }
        var nal := payload[i..i + size];
        ghost var rest := Units(payload[i + size..]);
        assert ([nal] + rest)[0] == nal && ([nal] + rest)[1..] == rest;
        ConsumeNal(nal);
        i := i + size;
      }
      UnitsEnd(payload, i);
    }

    method StartFragments(indicator: byte, header: byte)
      modifies this
      ensures Abs() == StartFu(old(Abs()), indicator, header)
    {
      fuBuffer := [];
      fuInProgress := true;
      fuNalHeader := indicator as int / 32 * 32 + header as int % 32;
      fuBuffer := fuBuffer + [fuNalHeader];
      if NalType(header) == IDR { sawIdrInAu := true; }
    }

    method FinishFragments(t: nat)
      modifies this
      ensures Abs() == FinishFu(sei, old(Abs()), t)
    {
      auBuffer := AppendAnnexB(auBuffer, fuBuffer);
      if t == SPS { sps := fuBuffer; }
      if t == PPS { pps := fuBuffer; }
      if t == SEI && |fuBuffer| > 1 && sei(fuBuffer[1..]) { sawRecoveryInAu := true; }
      fuInProgress := false;
      fuBuffer := [];
    }

    method ReceiveFuA(payload: seq<byte>)
      requires |payload| >= 2
      modifies this
      ensures Abs() == Fragment(sei, old(Abs()), payload)
    {
      hide StartFu, FinishFu, NalType, IsStart, IsEnd;
      if IsStart(payload[1]) { StartFragments(payload[0], payload[1]); }
      if fuInProgress {
        fuBuffer := fuBuffer + payload[2..];
        if IsEnd(payload[1]) { FinishFragments(NalType(payload[1])); }
      }
    }

    method EmitAccessUnit(pts: int, withExtradata: bool)
      modifies this
      ensures Abs() == EmitAu(old(Abs()), pts, withExtradata)
    {
      hide StartCoded;
      if |auBuffer| == 0 { return; }
      var bytes := [];
      NothingInFront(auBuffer);
      if withExtradata && |sps| > 0 && |pps| > 0 {
        bytes := AppendAnnexB(bytes, sps);
        bytes := AppendAnnexB(bytes, pps);
        StartCodedConcat([sps], [pps]);
        assert [] + StartCoded([sps]) == StartCoded([sps]) && [sps] + [pps] == [sps, pps];
        bytes := bytes + auBuffer;
      } else {
        bytes := auBuffer;
      }
      assert bytes == StartCoded(Front(old(Abs()), withExtradata)) + auBuffer;
      var unit := AccessUnit(pts, currentArrival, bytes, sawIdrInAu, sawRecoveryInAu, refsLost, |sps| > 0 && |pps| > 0);
      if unit.anchor || unit.recovery { refsLost := false; }
      emitted := emitted + [unit];
      auBuffer := [];
      sawIdrInAu := false;
      sawRecoveryInAu := false;
      currentArrival := 0;
    }

    /** A change of time stamp ends the access unit. */
    method BeginPacket(p: Packet)
      modifies this
      ensures Abs() == Begin(old(Abs()), p)
    {
      hide EmitAu;
      if |auBuffer| > 0 && p.pts != currentPts { EmitAccessUnit(currentPts, false); }
      if |auBuffer| == 0 && p.arrival != 0 { currentArrival := p.arrival; }
      currentPts := p.pts;
    }

    method ReceivePayload(payload: seq<byte>)
      requires payload != [] && Readable(payload) && !Truncated(payload)
      modifies this
      ensures Abs() == Receive(sei, old(Abs()), payload)
    {
      hide Consume, ConsumeAll, Fragment, Units, NalType, NoneEmpty;
      var t := NalType(payload[0]);
      if 1 <= t <= 23 {
        ConsumeNal(payload);
      } else if t == STAP_A {
        ReceiveStapA(payload);
      } else if t == FU_A {
        ReceiveFuA(payload);
      } else {
        refsLost := true;
      }
    }

    method OnRtpPacket(p: Packet)
      requires Readable(p.payload)
      modifies this
      ensures Abs() == OnRtp(sei, old(Abs()), p)
    {
      hide Begin, Receive, EmitAu, NalType, Readable;
      if |p.payload| == 0 { return; }
      BeginPacket(p);
      if NalType(p.payload[0]) == FU_A && |p.payload| < 2 { return; }
      ReceivePayload(p.payload);
      if p.marker { EmitAccessUnit(p.pts, sawIdrInAu); }
    }

    method LoseReference()
      modifies this
      ensures Abs() == MarkReferenceLost(old(Abs()))
    {
      refsLost := true;
      fuBuffer := [];
      fuInProgress := false;
    }

    method ResetStream()
      modifies this
      ensures Abs() == Reset(old(Abs()))
    {
      auBuffer := [];
      fuBuffer := [];
      fuInProgress := false;
      sawIdrInAu := false;
      sawRecoveryInAu := false;
      refsLost := true;
      currentPts := 0;
      currentArrival := 0;
    }
  }

  lemma NothingInFront(au: seq<byte>)
    ensures StartCoded([]) + au == au
  {
  }
}
