/** The RTP depacketizer for H.265 (RFC 7798): single NAL units, aggregation packets and fragments. */
module DepackH265 {
  import opened Common
  import opened AnnexB
  import opened AccessUnits

  const VPS: nat := 32
  const SPS: nat := 33
  const PPS: nat := 34
  const AP: nat := 48
  const FU: nat := 49

  /** The type in the first byte of the two-byte header. */
  function NalType(b0: byte): (t: nat)
    ensures t < 64
  {
    b0 as int / 2 % 64
  }

  predicate IsIrap(t: nat) { 16 <= t <= 23 }

  datatype State = State(
    vps: seq<byte>, sps: seq<byte>, pps: seq<byte>, au: seq<byte>,
    fu: seq<byte>, fuOpen: bool,
    refsLost: bool, sawIrap: bool, sawRecovery: bool,
    pts: int, arrival: int, out: seq<AccessUnit>)

  const FRESH: State := State([], [], [], [], [], false, true, false, false, 0, 0, [])

  /** A unit being put together has its two header bytes. */
  predicate Sound(s: State) { s.fuOpen ==> |s.fu| >= 2 }

  // ----- what each kind of payload does

  /** A complete NAL unit goes into the access unit. */
  function Consume(s: State, nal: seq<byte>): State
    requires |nal| >= 2
  {
    var t := NalType(nal[0]);
    s.(au := s.au + StartCoded([nal]),
       sawIrap := s.sawIrap || IsIrap(t),
       vps := if t == VPS then nal else s.vps,
       sps := if t == SPS then nal else s.sps,
       pps := if t == PPS then nal else s.pps)
  }

  predicate AllHeaded(nals: seq<seq<byte>>) { forall k :: 0 <= k < |nals| ==> |nals[k]| >= 2 }

  function ConsumeAll(s: State, nals: seq<seq<byte>>): State
    requires AllHeaded(nals)
    decreases |nals|
  {
    if nals == [] then s else ConsumeAll(Consume(s, nals[0]), nals[1..])
  }

  /** The units of an aggregation packet after its header: two bytes of size, then the unit, up to the
      first that does not fit or is shorter than a header. */
  function Units(rest: seq<byte>): (nals: seq<seq<byte>>)
    ensures AllHeaded(nals)
  {
    if |rest| < 2 || 2 + U16(rest[0], rest[1]) > |rest| || U16(rest[0], rest[1]) < 2 then []
    else [rest[2..2 + U16(rest[0], rest[1])]] + Units(rest[2 + U16(rest[0], rest[1])..])
  }

  predicate IsStart(fuHeader: byte) { fuHeader >= 128 }

  predicate IsEnd(fuHeader: byte) { fuHeader as int / 64 % 2 == 1 }

  /** The first header byte, rebuilt: the type of the FU header between the outer bits. */
  function Rebuilt(b0: byte, fuHeader: byte): byte {
    b0 as int / 128 * 128 + fuHeader as int % 64 * 2 + b0 as int % 2
  }

  function StartFu(s: State, b0: byte, b1: byte, fuHeader: byte): State {
    s.(fu := [Rebuilt(b0, fuHeader), b1], fuOpen := true, sawIrap := s.sawIrap || IsIrap(fuHeader as int % 64))
  }

  function FinishFu(s: State): State
    requires |s.fu| >= 2
  {
    Consume(s, s.fu).(fuOpen := false, fu := [])
  }

  function Fragment(s: State, payload: seq<byte>): (r: State)
    requires |payload| >= 3 && Sound(s)
    ensures Sound(r)
  {
    var s1 := if IsStart(payload[2]) then StartFu(s, payload[0], payload[1], payload[2]) else s;
    if !s1.fuOpen then s1
    else
      var s2 := s1.(fu := s1.fu + payload[3..]);
      if IsEnd(payload[2]) then FinishFu(s2) else s2
  }

  /** A fragment without its FU header, which ends the call early. */
  predicate Truncated(payload: seq<byte>) {
    |payload| == 2 && NalType(payload[0]) == FU
  }

  function Receive(s: State, payload: seq<byte>): State
    requires |payload| >= 2 && !Truncated(payload) && Sound(s)
  {
    var t := NalType(payload[0]);
    if t == AP then ConsumeAll(s, Units(payload[2..]))
    else if t == FU then Fragment(s, payload)
    else if t < 48 then Consume(s, payload)
    else s.(refsLost := true)
  }

  // ----- access units

  function Front(s: State, withExtradata: bool): seq<seq<byte>> {
    if withExtradata && s.vps != [] && s.sps != [] && s.pps != [] then [s.vps, s.sps, s.pps] else []
  }

  function EmitAu(s: State, pts: int, withExtradata: bool): State {
    if s.au == [] then s
    else
      s.(out := s.out + [AccessUnit(pts, s.arrival, StartCoded(Front(s, withExtradata)) + s.au,
                                    s.sawIrap, s.sawRecovery, s.refsLost, s.vps != [] && s.sps != [] && s.pps != [])],
         refsLost := s.refsLost && !s.sawIrap && !s.sawRecovery,
         au := [], sawIrap := false, sawRecovery := false, arrival := 0)
  }

  /** A change of time stamp ends the access unit. */
  function Flushed(s: State, p: Packet): State {
    if s.au != [] && p.pts != s.pts then EmitAu(s, s.pts, s.sawIrap) else s
  }

  /** Then the packet's stamps are taken over. */
  function Begin(s: State, p: Packet): State {
    var s1 := Flushed(s, p);
    s1.(arrival := if s1.au == [] && p.arrival != 0 then p.arrival else s1.arrival, pts := p.pts)
  }

  function OnRtp(s: State, p: Packet): State
    requires Sound(s)
  {
    if |p.payload| < 2 then s
    else if Truncated(p.payload) then Begin(s, p)
    else
      var s1 := Receive(Begin(s, p), p.payload);
      if p.marker then EmitAu(s1, p.pts, s1.sawIrap) else s1
  }

  function MarkReferenceLost(s: State): State {
    s.(refsLost := true, fu := [], fuOpen := false)
  }

  function Reset(s: State): State {
    s.(au := [], fu := [], fuOpen := false, sawIrap := false, sawRecovery := false,
       refsLost := true, pts := 0, arrival := 0)
  }

  lemma {:induction false} ConsumedAll(s: State, nals: seq<seq<byte>>)
    requires AllHeaded(nals)
    ensures var r := ConsumeAll(s, nals);
            && r.au == s.au + StartCoded(nals) && r.out == s.out && r.pts == s.pts
            && r.fuOpen == s.fuOpen && r.fu == s.fu && r.refsLost == s.refsLost && r.sawRecovery == s.sawRecovery
            && r.arrival == s.arrival
    decreases |nals|
  {
    if nals != [] {
      ConsumedAll(Consume(s, nals[0]), nals[1..]);
      assert nals == [nals[0]] + nals[1..];
      StartCodedConcat([nals[0]], nals[1..]);
      assert s.au + StartCoded(nals) == s.au + StartCoded([nals[0]]) + StartCoded(nals[1..]);
    }
  }

  lemma BeginSound(s: State, p: Packet)
    requires Sound(s)
    ensures Sound(Begin(s, p))
  {
  }

  lemma OnRtpSound(s: State, p: Packet)
    requires Sound(s)
    ensures Sound(OnRtp(s, p))
  {
    hide Units, ConsumeAll, StartCoded, Fragment;
    if |p.payload| >= 2 && NalType(p.payload[0]) == AP { ConsumedAll(Begin(s, p), Units(p.payload[2..])); }
  }

  // ----- the object

  class Depacketizer {
    var vps: seq<byte>
    var sps: seq<byte>
    var pps: seq<byte>
    var auBuffer: seq<byte>
    var fuBuffer: seq<byte>
    var fuInProgress: bool
    var refsLost: bool
    var sawIrapInAu: bool
    var sawRecoveryInAu: bool
    var currentPts: int
    var currentArrival: int
    /** What has been passed to the emit callback. */
    var emitted: seq<AccessUnit>

    ghost function Abs(): State
      reads this
    {
      State(vps, sps, pps, auBuffer, fuBuffer, fuInProgress, refsLost, sawIrapInAu, sawRecoveryInAu,
            currentPts, currentArrival, emitted)
    }

    ghost predicate Valid()
      reads this
    {
      Sound(Abs())
    }

    constructor ()
      ensures Valid() && Abs() == FRESH
    {
      vps, sps, pps, auBuffer, fuBuffer := [], [], [], [], [];
      fuInProgress, refsLost := false, true;
      sawIrapInAu, sawRecoveryInAu := false, false;
      currentPts, currentArrival, emitted := 0, 0, [];
    }

    method ConsumeNal(nal: seq<byte>)
      requires |nal| >= 2
      modifies this
      ensures Abs() == Consume(old(Abs()), nal)
    {
      auBuffer := AppendAnnexB(auBuffer, nal);
      var t := NalType(nal[0]);
      if IsIrap(t) { sawIrapInAu := true; }
      if t == VPS {
        vps := nal;
      } else if t == SPS {
        sps := nal;
      } else if t == PPS {
        pps := nal;
      }
    }

    method ReceiveAggregate(payload: seq<byte>)
      requires |payload| >= 2
      modifies this
      ensures Abs() == ConsumeAll(old(Abs()), Units(payload[2..]))
    {
      hide Consume;
      var i := 2;
      while i + 2 <= |payload|
        invariant 2 <= i <= |payload|
        invariant ConsumeAll(Abs(), Units(payload[i..])) == ConsumeAll(old(Abs()), Units(payload[2..]))
      {
        var size := U16(payload[i], payload[i + 1]);
        ghost var rest := payload[i..];
        i := i + 2;
        if i + size > |payload| || size < 2 { break; }
        var nal := payload[i..i + size];
        assert rest[2..2 + size] == nal && rest[2 + size..] == payload[i + size..];
        assert Units(rest)[0] == nal && Units(rest)[1..] == Units(payload[i + size..]);
        ConsumeNal(nal);
        i := i + size;
      }
    }

    method StartFragments(b0: byte, b1: byte, header: byte)
      modifies this
      ensures Abs() == StartFu(old(Abs()), b0, b1, header)
    {
      fuBuffer := [];
      fuBuffer := fuBuffer + [Rebuilt(b0, header)];
      fuBuffer := fuBuffer + [b1];
      fuInProgress := true;
      if IsIrap(header as int % 64) { sawIrapInAu := true; }
      assert fuBuffer == [Rebuilt(b0, header), b1];
    }

    method ReceiveFragment(payload: seq<byte>)
      requires |payload| >= 3 && Valid()
      modifies this
      ensures Abs() == Fragment(old(Abs()), payload) && Valid()
    {
      hide Consume, NalType, IsStart, IsEnd, Rebuilt;
      if IsStart(payload[2]) { StartFragments(payload[0], payload[1], payload[2]); }
      if fuInProgress {
        fuBuffer := fuBuffer + payload[3..];
        if IsEnd(payload[2]) {
          ConsumeNal(fuBuffer);
          fuInProgress := false;
          fuBuffer := [];
        }
      }
    }

    method EmitAccessUnit(pts: int, withExtradata: bool)
      modifies this
      ensures Abs() == EmitAu(old(Abs()), pts, withExtradata)
    {
      hide StartCoded;
      if |auBuffer| == 0 { return; }
      var bytes := [];
      NothingInFront(auBuffer);
      if withExtradata && |vps| > 0 && |sps| > 0 && |pps| > 0 {
        bytes := AppendAnnexB(bytes, vps);
        bytes := AppendAnnexB(bytes, sps);
        bytes := AppendAnnexB(bytes, pps);
        ThreeInFront(vps, sps, pps);
        bytes := bytes + auBuffer;
      } else {
        bytes := auBuffer;
      }
      assert bytes == StartCoded(Front(old(Abs()), withExtradata)) + auBuffer;
      var unit := AccessUnit(pts, currentArrival, bytes, sawIrapInAu, sawRecoveryInAu, refsLost,
                             |vps| > 0 && |sps| > 0 && |pps| > 0);
      if unit.anchor || unit.recovery { refsLost := false; }
      emitted := emitted + [unit];
      auBuffer := [];
      sawIrapInAu := false;
      sawRecoveryInAu := false;
      currentArrival := 0;
    }

    /** A change of time stamp ends the access unit. */
    method BeginPacket(p: Packet)
      modifies this
      ensures Abs() == Begin(old(Abs()), p)
    {
      hide EmitAu;
      if |auBuffer| > 0 && p.pts != currentPts { EmitAccessUnit(currentPts, sawIrapInAu); }
      if |auBuffer| == 0 && p.arrival != 0 { currentArrival := p.arrival; }
      currentPts := p.pts;
    }

    method ReceivePayload(payload: seq<byte>)
      requires |payload| >= 2 && !Truncated(payload) && Valid()
      modifies this
      ensures Abs() == Receive(old(Abs()), payload)
    {
      hide Consume, ConsumeAll, Fragment, Units, NalType;
      var t := NalType(payload[0]);
      if t == AP {
        ReceiveAggregate(payload);
      } else if t == FU {
        ReceiveFragment(payload);
      } else if t == 50 {
        refsLost := true;
      } else if t < 48 {
        ConsumeNal(payload);
      } else {
        refsLost := true;
      }
    }

    method OnRtpPacket(p: Packet)
      requires Valid()
      modifies this
      ensures Abs() == OnRtp(old(Abs()), p) && Valid()
    {
      hide Begin, Receive, EmitAu, NalType;
      OnRtpSound(Abs(), p);
      if |p.payload| < 2 { return; }
      BeginSound(Abs(), p);
      BeginPacket(p);
      if NalType(p.payload[0]) == FU && |p.payload| < 3 { return; }
      ReceivePayload(p.payload);
      if p.marker { EmitAccessUnit(p.pts, sawIrapInAu); }
    }

    method LoseReference()
      modifies this
      ensures Abs() == MarkReferenceLost(old(Abs())) && Valid()
    {
      refsLost := true;
      fuBuffer := [];
      fuInProgress := false;
    }

    method ResetStream()
      modifies this
      ensures Abs() == Reset(old(Abs())) && Valid()
    {
      auBuffer := [];
      fuBuffer := [];
      fuInProgress := false;
      sawIrapInAu := false;
      sawRecoveryInAu := false;
      refsLost := true;
      currentPts := 0;
      currentArrival := 0;
    }
  }

  lemma NothingInFront(au: seq<byte>)
    ensures StartCoded([]) + au == au
  {
  }

  lemma ThreeInFront(a: seq<byte>, b: seq<byte>, c: seq<byte>)
    ensures [] + StartCoded([a]) + StartCoded([b]) + StartCoded([c]) == StartCoded([a, b, c])
  {
    StartCodedConcat([a], [b]);
    StartCodedConcat([a, b], [c]);
    assert [a] + [b] == [a, b] && [a, b] + [c] == [a, b, c];
  }
}
