/** Runs of the H.265 depacketizer: the account of NAL units, and independence of the packetization. */
module H265Packets {
  import opened Arithmetic
  import opened Common
  import opened AnnexB
  import opened AccessUnits
  import opened DepackH265

  // ----- runs

  function Step(s: State, e: Event): (r: State)
    requires Sound(s)
    ensures Sound(r)
  {
    match e
    case Rtp(p) => OnRtpSound(s, p); OnRtp(s, p)
    case ReferenceLost => MarkReferenceLost(s)
  }

  function Run(s: State, es: seq<Event>): (r: State)
    requires Sound(s)
    ensures Sound(r)
    decreases |es|
  {
    if es == [] then s else Step(Run(s, es[..|es| - 1]), es[|es| - 1])
  }

  lemma RunSnoc(s: State, es: seq<Event>, e: Event)
    requires Sound(s)
    ensures Run(s, es + [e]) == Step(Run(s, es), e)
  {
    assert (es + [e])[..|es|] == es;
  }

  lemma {:induction false} RunConcat(s: State, a: seq<Event>, b: seq<Event>)
    requires Sound(s)
    ensures Run(s, a + b) == Run(Run(s, a), b)
    decreases |b|
  {
    hide Step;
    if b == [] {
      assert a + b == a;
    } else {
      var init, e := b[..|b| - 1], b[|b| - 1];
      RunConcat(s, a, init);
      assert (a + b)[..|a + b| - 1] == a + init && (a + b)[|a + b| - 1] == e;
    }
  }

  predicate HasIrap(nals: seq<seq<byte>>) {
    exists k :: 0 <= k < |nals| && nals[k] != [] && IsIrap(NalType(nals[k][0]))
  }

  // ----- the format

  /** Section 4.4 of RFC 7798: what a payload is. */
  function Classify(payload: seq<byte>): Effect {
    if |payload| < 2 then Ignored
    else
      var t := NalType(payload[0]);
      if t == AP then Whole(Units(payload[2..]))
      else if t == FU then
        if |payload| < 3 then Cut
        else if IsStart(payload[2]) then
          First([Rebuilt(payload[0], payload[2]), payload[1]], payload[3..], IsEnd(payload[2]))
        else More(payload[3..], IsEnd(payload[2]))
      else if t < 48 then Whole([payload])
      else Refused
  }

  /** The first fragment of an IRAP unit. */
  predicate BeginsIrap(payload: seq<byte>) {
    |payload| >= 3 && NalType(payload[0]) == FU && IsStart(payload[2]) && IsIrap(payload[2] as int % 64)
  }

  predicate AnnouncesIrap(a: Arrival) { HasIrap(a.nals) || BeginsIrap(a.packet.payload) }

  /** The last unit of type `t`, if there is one. */
  function Latest(nals: seq<seq<byte>>, t: nat, otherwise: seq<byte>): seq<byte>
    requires AllHeaded(nals)
    decreases |nals|
  {
    if nals == [] then otherwise
    else Latest(nals[1..], t, if NalType(nals[0][0]) == t then nals[0] else otherwise)
  }

  /** The last parameter set of type `t` that the packet completes. */
  function SetOf(a: Arrival, t: nat, otherwise: seq<byte>): seq<byte> {
    if AllHeaded(a.nals) then Latest(a.nals, t, otherwise) else otherwise
  }

  function LatestSet(log: seq<Arrival>, t: nat, otherwise: seq<byte>): seq<byte> {
    if log == [] then otherwise else SetOf(log[|log| - 1], t, LatestSet(log[..|log| - 1], t, otherwise))
  }

  function Three(vps: seq<byte>, sps: seq<byte>, pps: seq<byte>): seq<seq<byte>> {
    if vps != [] && sps != [] && pps != [] then [vps, sps, pps] else []
  }

  /** H.265 with these parameter sets known beforehand; recovery points are not looked for. */
  function Format(vps: seq<byte>, sps: seq<byte>, pps: seq<byte>): Codec {
    Codec(Classify, AnnouncesIrap, _ => false,
          log => Three(LatestSet(log, VPS, vps), LatestSet(log, SPS, sps), LatestSet(log, PPS, pps)), true)
  }

  // ----- the account of a run

  function View(s: State): Collecting {
    Collecting(s.out, s.au, s.pts, s.sawIrap, s.sawRecovery, s.refsLost, s.arrival)
  }

  /** The fragments held are those of the unit begun. */
  predicate Holds(s: State, es: seq<Event>) {
    && (s.fuOpen <==> Begun(Classify, es).Some?)
    && (s.fuOpen ==> s.fu == Begun(Classify, es).value)
  }

  predicate Known(s: State, log: seq<Arrival>, vps: seq<byte>, sps: seq<byte>, pps: seq<byte>) {
    s.vps == LatestSet(log, VPS, vps) && s.sps == LatestSet(log, SPS, sps) && s.pps == LatestSet(log, PPS, pps)
  }

  lemma KnownSets(s: State, log: seq<Arrival>, vps: seq<byte>, sps: seq<byte>, pps: seq<byte>)
    requires Known(s, log, vps, sps, pps)
    ensures Format(vps, sps, pps).sets(log) == Three(s.vps, s.sps, s.pps)
  {
  }

  lemma NothingAppended(au: seq<byte>)
    ensures au + StartCoded([]) == au && !HasIrap([])
  {
  }

  lemma OneUnit(nal: seq<byte>)
    requires nal != []
    ensures HasIrap([nal]) <==> IsIrap(NalType(nal[0]))
    ensures !HasIrap([])
  {
    hide NalType, IsIrap;
    assert [nal][0] == nal;
  }

  /** What a packet does, in terms of the units it completes. */
  predicate Takes(s: State, r: State, a: Arrival) {
    && r.au == s.au + StartCoded(a.nals)
    && r.out == s.out && r.pts == s.pts && r.arrival == s.arrival
    && (r.sawIrap <==> s.sawIrap || AnnouncesIrap(a)) && r.sawRecovery == s.sawRecovery
    && r.vps == SetOf(a, VPS, s.vps) && r.sps == SetOf(a, SPS, s.sps) && r.pps == SetOf(a, PPS, s.pps)
    && (r.refsLost <==> s.refsLost || Classify(a.packet.payload).Refused?)
  }

  lemma WholeTakes(s: State, p: Packet, es: seq<Event>)
    requires Classify(p.payload).Whole? && Sound(s)
    ensures var r := Receive(s, p.payload);
            && Takes(s, r, Arrival(p, Completed(Classify, es, p.payload)))
            && r.fuOpen == s.fuOpen && r.fu == s.fu
  {
    hide StartCoded, Units, Begun, HasIrap, Latest, Consume, ConsumeAll;
    var nals := Classify(p.payload).nals;
    if NalType(p.payload[0]) != AP { OneConsumed(s, p.payload); }
    ConsumedAll(s, nals);
    ConsumedFlags(s, nals);
  }

  lemma OneConsumed(s: State, nal: seq<byte>)
    requires |nal| >= 2
    ensures ConsumeAll(s, [nal]) == Consume(s, nal)
  {
    hide Consume;
  }

  /** A unit put together from fragments is consumed like one taken whole. */
  lemma FragmentTakes(s: State, p: Packet, es: seq<Event>)
    requires |p.payload| >= 3 && NalType(p.payload[0]) == FU && Holds(s, es) && Sound(s)
    ensures var r := Receive(s, p.payload);
            Takes(s, r, Arrival(p, Completed(Classify, es, p.payload))) && Holds(r, es + [Rtp(p)])
  {
    hide StartCoded, Units, Begun, HasIrap, NalType, IsStart, IsEnd, IsIrap, Rebuilt, Latest;
    BegunSnoc(Classify, es, Rtp(p));
    NothingAppended(s.au);
    var done := Completed(Classify, es, p.payload);
    if done != [] {
      OneUnit(done[0]);
      OneSet(done[0]);
    } else {
      NoSets();
    }
  }

  lemma OneSet(nal: seq<byte>)
    requires |nal| >= 2
    ensures forall t: nat, o :: Latest([nal], t, o) == if NalType(nal[0]) == t then nal else o
  {
    hide NalType;
    assert [nal][1..] == [];
  }

  lemma NoSets()
    ensures forall t: nat, o :: Latest([], t, o) == o
  {
  }

  lemma RefusedTakes(s: State, p: Packet, es: seq<Event>)
    requires Classify(p.payload).Refused? && Sound(s)
    ensures var r := Receive(s, p.payload);
            && Takes(s, r, Arrival(p, Completed(Classify, es, p.payload)))
            && r.fuOpen == s.fuOpen && r.fu == s.fu
  {
    hide StartCoded, Units, Begun, HasIrap;
    NothingAppended(s.au);
  }

  lemma WholeHolds(s: State, r: State, p: Packet, es: seq<Event>)
    requires Holds(s, es) && r.fuOpen == s.fuOpen && r.fu == s.fu
    requires !Classify(p.payload).First? && !Classify(p.payload).More?
    ensures Holds(r, es + [Rtp(p)])
  {
    hide Begun, Classify;
    BegunSnoc(Classify, es, Rtp(p));
  }

  lemma ReceiveTakes(s: State, p: Packet, es: seq<Event>)
    requires |p.payload| >= 2 && !Truncated(p.payload) && Holds(s, es) && Sound(s)
    ensures !Classify(p.payload).Cut? && !Classify(p.payload).Ignored?
    ensures var r := Receive(s, p.payload);
            Takes(s, r, Arrival(p, Completed(Classify, es, p.payload))) && Holds(r, es + [Rtp(p)])
  {
    hide Takes, Holds, Completed, Receive, Units;
    if NalType(p.payload[0]) == FU {
      FragmentTakes(s, p, es);
    } else if Classify(p.payload).Refused? {
      RefusedTakes(s, p, es);
      WholeHolds(s, Receive(s, p.payload), p, es);
    } else {
      WholeTakes(s, p, es);
      WholeHolds(s, Receive(s, p.payload), p, es);
    }
  }

  /** Everything about the state, from the events that led to it. */
  ghost predicate Follows(vps: seq<byte>, sps: seq<byte>, pps: seq<byte>, es: seq<Event>, s: State) {
    && Accounted(Format(vps, sps, pps), View(s), LedgerOf(Format(vps, sps, pps), es))
    && Known(s, Log(Classify, es), vps, sps, pps) && Holds(s, es)
  }

  lemma EmitAccounted(vps: seq<byte>, sps: seq<byte>, pps: seq<byte>, s: State, log: seq<Arrival>, l: Ledger)
    requires Accounted(Format(vps, sps, pps), View(s), l) && Known(s, log, vps, sps, pps)
    requires s.au != []
    ensures Accounted(Format(vps, sps, pps), View(EmitAu(s, s.pts, s.sawIrap)), Close(Format(vps, sps, pps), log, l, true))
  {
    hide Accounted, Known, LatestSet;
    KnownSets(s, log, vps, sps, pps);
    var r := EmitAu(s, s.pts, s.sawIrap);
    AccountEmitted(Format(vps, sps, pps), View(s), l, log, r.out[|s.out|], true);
  }

  /** A new time stamp. */
  lemma FlushedAccounted(vps: seq<byte>, sps: seq<byte>, pps: seq<byte>, s: State, log: seq<Arrival>, l: Ledger, p: Packet)
    requires Accounted(Format(vps, sps, pps), View(s), l) && Known(s, log, vps, sps, pps)
    ensures var f := Flushed(s, p);
            && Accounted(Format(vps, sps, pps), View(f), AtStamp(Format(vps, sps, pps), log, l, p.pts))
            && Known(f, log, vps, sps, pps) && f.fu == s.fu && f.fuOpen == s.fuOpen && (f.au != [] ==> f.pts == p.pts)
  {
    hide Known, AnyMarks, Leading, LastStamp, Carries, Close;
    SameSets(s, Flushed(s, p), log, vps, sps, pps);
    EmptyIffNone(UnitsOf(l.open));
    if s.au != [] && p.pts != s.pts { EmitAccounted(vps, sps, pps, s, log, l); }
  }

  lemma SameSets(s: State, s': State, log: seq<Arrival>, vps: seq<byte>, sps: seq<byte>, pps: seq<byte>)
    requires Known(s, log, vps, sps, pps) && s'.vps == s.vps && s'.sps == s.sps && s'.pps == s.pps
    ensures Known(s', log, vps, sps, pps)
  {
  }

  /** The packet itself. */
  lemma PostAccounted(vps: seq<byte>, sps: seq<byte>, pps: seq<byte>, f: State, log: seq<Arrival>, l: Ledger, p: Packet,
                      r: State, a: Arrival)
    requires Accounted(Format(vps, sps, pps), View(f), l) && Known(f, log, vps, sps, pps)
    requires a.packet == p && (f.au != [] ==> f.pts == p.pts)
    requires Takes(f.(arrival := if f.au == [] && p.arrival != 0 then p.arrival else f.arrival, pts := p.pts), r, a)
    ensures var posted := Post(l, a);
            Accounted(Format(vps, sps, pps), View(r),
                      if Classify(p.payload).Refused? then posted.(lost := true) else posted)
    ensures Known(r, log + [a], vps, sps, pps) && r.pts == p.pts
  {
    hide Accounted, AnnouncesIrap, SetOf, Classify, StartCoded;
    AccountPosted(Format(vps, sps, pps), View(f), l, a);
    assert (log + [a])[..|log|] == log;
    if Classify(p.payload).Refused? { LostAccounted(Format(vps, sps, pps), View(r).(lost := f.refsLost), Post(l, a)); }
  }

  /** A fragment without its header: only the stamps. */
  lemma CutTakes(s: State, p: Packet, es: seq<Event>)
    requires Truncated(p.payload) && Holds(s, es)
    ensures Classify(p.payload) == Cut
    ensures Takes(s, s, Arrival(p, Completed(Classify, es, p.payload))) && Holds(s, es + [Rtp(p)])
  {
    hide StartCoded, Begun, HasIrap;
    NothingAppended(s.au);
    BegunSnoc(Classify, es, Rtp(p));
  }

  lemma StepFollows(vps: seq<byte>, sps: seq<byte>, pps: seq<byte>, es: seq<Event>, s: State, e: Event)
    requires Follows(vps, sps, pps, es, s) && Sound(s)
    ensures Follows(vps, sps, pps, es + [e], Step(s, e))
  {
    hide Accounted, Known, Holds, LatestSet, Completed, Close, Receive, Takes, Truncated, AtStamp, Classify, EmitAu;
    var codec := Format(vps, sps, pps);
    assert (es + [e])[..|es|] == es;
    var log, l := Log(Classify, es), LedgerOf(codec, es);
    if e.ReferenceLost? {
      LossFollows(vps, sps, pps, es, s);
    } else if |e.packet.payload| < 2 {
      NothingRead(s, es, e.packet);
    } else {
      var p := e.packet;
      var a := Arrival(p, Completed(Classify, es, p.payload));
      var f := Flushed(s, p);
      BeginSound(s, p);
      FlushedAccounted(vps, sps, pps, s, log, l, p);
      HeldOn(s, Begin(s, p), es);
      if Truncated(p.payload) {
        CutTakes(Begin(s, p), p, es);
        PostAccounted(vps, sps, pps, f, log, AtStamp(codec, log, l, p.pts), p, Begin(s, p), a);
      } else {
        var r := Receive(Begin(s, p), p.payload);
        ReceiveTakes(Begin(s, p), p, es);
        PostAccounted(vps, sps, pps, f, log, AtStamp(codec, log, l, p.pts), p, r, a);
        MarkerFollows(vps, sps, pps, log, l, s, e, r, a);
        HeldOn(r, Step(s, e), es + [e]);
      }
    }
  }

  /** The marker. */
  lemma MarkerFollows(vps: seq<byte>, sps: seq<byte>, pps: seq<byte>, log: seq<Arrival>, l: Ledger, s: State, e: Event,
                      r: State, a: Arrival)
    requires Sound(s) && Sound(Begin(s, if e.Rtp? then e.packet else a.packet))
    requires e.Rtp? && |e.packet.payload| >= 2 && !Truncated(e.packet.payload)
    requires !Classify(e.packet.payload).Cut? && a.packet == e.packet
    requires r == Receive(Begin(s, e.packet), e.packet.payload) && r.pts == e.packet.pts
    requires var codec := Format(vps, sps, pps);
             var posted := Post(AtStamp(codec, log, l, e.packet.pts), a);
             Accounted(codec, View(r), if Classify(e.packet.payload).Refused? then posted.(lost := true) else posted)
    requires Known(r, log + [a], vps, sps, pps)
    ensures Accounted(Format(vps, sps, pps), View(Step(s, e)), PostPacket(Format(vps, sps, pps), log, l, a))
    ensures Known(Step(s, e), log + [a], vps, sps, pps)
    ensures Step(s, e).fu == r.fu && Step(s, e).fuOpen == r.fuOpen
  {
    hide Known, Close, Receive, Truncated, AtStamp, Classify, AnyMarks, Leading, LastStamp, Carries;
    var codec := Format(vps, sps, pps);
    var posted := Post(AtStamp(codec, log, l, e.packet.pts), a);
    var judged := if Classify(e.packet.payload).Refused? then posted.(lost := true) else posted;
    EmptyIffNone(UnitsOf(judged.open));
    SameSets(r, Step(s, e), log + [a], vps, sps, pps);
    if e.packet.marker && r.au != [] { EmitAccounted(vps, sps, pps, r, log + [a], judged); }
  }

  lemma HeldOn(s: State, s': State, es: seq<Event>)
    requires s.fu == s'.fu && s.fuOpen == s'.fuOpen
    ensures Holds(s, es) <==> Holds(s', es)
  {
    hide Begun;
  }

  lemma LossFollows(vps: seq<byte>, sps: seq<byte>, pps: seq<byte>, es: seq<Event>, s: State)
    requires Follows(vps, sps, pps, es, s)
    ensures Follows(vps, sps, pps, es + [ReferenceLost], MarkReferenceLost(s))
  {
    hide Accounted, LatestSet, Begun, Completed;
    assert (es + [ReferenceLost])[..|es|] == es;
    assert Log(Classify, es) + [] == Log(Classify, es);
    BegunSnoc(Classify, es, ReferenceLost);
    LostAccounted(Format(vps, sps, pps), View(s), LedgerOf(Format(vps, sps, pps), es));
  }

  /** A payload without a header leaves no trace. */
  lemma NothingRead(s: State, es: seq<Event>, p: Packet)
    requires |p.payload| < 2
    ensures Classify(p.payload) == Ignored && Log(Classify, es + [Rtp(p)]) == Log(Classify, es)
    ensures Holds(s, es + [Rtp(p)]) <==> Holds(s, es)
  {
    hide Begun, Completed;
    assert (es + [Rtp(p)])[..|es|] == es;
    BegunSnoc(Classify, es, Rtp(p));
  }

  function Start(vps: seq<byte>, sps: seq<byte>, pps: seq<byte>): (s: State)
    ensures Sound(s)
  {
    FRESH.(vps := vps, sps := sps, pps := pps)
  }

  lemma {:induction false} RunFollows(vps: seq<byte>, sps: seq<byte>, pps: seq<byte>, es: seq<Event>)
    ensures Follows(vps, sps, pps, es, Run(Start(vps, sps, pps), es))
    decreases |es|
  {
    hide Follows, Step;
    if es == [] {
      StartFollows(vps, sps, pps);
    } else {
      RunFollows(vps, sps, pps, es[..|es| - 1]);
      StepFollows(vps, sps, pps, es[..|es| - 1], Run(Start(vps, sps, pps), es[..|es| - 1]), es[|es| - 1]);
      assert es[..|es| - 1] + [es[|es| - 1]] == es;
    }
  }

  lemma StartFollows(vps: seq<byte>, sps: seq<byte>, pps: seq<byte>)
    ensures Follows(vps, sps, pps, [], Start(vps, sps, pps))
  {
    NoLedgerBalanced(Format(vps, sps, pps), 0);
  }

  /**
   Access unit conservation, as for H.264: everything emitted follows from the events alone.  The packets
   taken in fall into parts, one for each access unit emitted and one for the buffer, and each access unit is
   that of its part.  It is an anchor if and only if its part completes an IRAP unit or has the first
   fragment of one.
   */
  lemma AccessUnitsConserved(vps: seq<byte>, sps: seq<byte>, pps: seq<byte>, es: seq<Event>)
    ensures var l := LedgerOf(Format(vps, sps, pps), es);
            && Accounted(Format(vps, sps, pps), View(Run(Start(vps, sps, pps), es)), l)
            && All(l) == Log(Classify, es)
  {
    RunFollows(vps, sps, pps, es);
    AllIsLog(Format(vps, sps, pps), es);
  }

  /** Fragments, for every run, as for H.264. */
  lemma FragmentsJoined(vps: seq<byte>, sps: seq<byte>, pps: seq<byte>, es: seq<Event>, p: Packet, i: nat)
    requires IsMore(Classify, Rtp(p)) && IsLast(Classify, Rtp(p))
    requires i < |es| && IsFirst(Classify, es[i]) && forall k :: i < k < |es| ==> !IsFirst(Classify, es[k])
    ensures |p.payload| >= 2 && !Truncated(p.payload) && Sound(Begin(Run(Start(vps, sps, pps), es), p))
    ensures var s := Run(Start(vps, sps, pps), es);
            var begun := Flushed(s, p);
            var whole := Classify(es[i].packet.payload).header + Pieces(Classify, es[i..]) + Classify(p.payload).piece;
            var r := Receive(Begin(s, p), p.payload);
            r.au == if Unbroken(Classify, es, i) then begun.au + StartCoded([whole]) else begun.au
  {
    hide Follows, Holds, Takes, Receive, Unbroken, Completed, StartCoded, Flushed, IsMore, IsLast, Classify;
    var s := Run(Start(vps, sps, pps), es);
    RunFollows(vps, sps, pps, es);
    HoldsAfter(vps, sps, pps, es, s);
    SameBuffer(s, p);
    HeldOn(s, Begin(s, p), es);
    HeadedFragment(p);
    BeginSound(s, p);
    ReceiveTakes(Begin(s, p), p, es);
    LastCompletes(Classify, es, p, i);
    NothingAppended(Flushed(s, p).au);
    TakesUnits(Begin(s, p), Receive(Begin(s, p), p.payload), Arrival(p, Completed(Classify, es, p.payload)));
  }

  lemma HoldsAfter(vps: seq<byte>, sps: seq<byte>, pps: seq<byte>, es: seq<Event>, s: State)
    requires Follows(vps, sps, pps, es, s)
    ensures Holds(s, es)
  {
  }

  lemma SameBuffer(s: State, p: Packet)
    ensures Begin(s, p).fu == s.fu && Begin(s, p).fuOpen == s.fuOpen && Begin(s, p).au == Flushed(s, p).au
  {
  }

  lemma HeadedFragment(p: Packet)
    requires IsMore(Classify, Rtp(p))
    ensures |p.payload| >= 2 && !Truncated(p.payload)
  {
  }

  lemma TakesUnits(s: State, r: State, a: Arrival)
    requires Takes(s, r, a)
    ensures r.au == s.au + StartCoded(a.nals)
  {
  }

  predicate AnyBegins(arrivals: seq<Arrival>) { exists k :: 0 <= k < |arrivals| && BeginsIrap(arrivals[k].packet.payload) }

  lemma HasIrapAppend(x: seq<seq<byte>>, y: seq<seq<byte>>)
    ensures HasIrap(x + y) <==> HasIrap(x) || HasIrap(y)
  {
    hide NalType, IsIrap;
    var both := x + y;
    assert forall k :: 0 <= k < |x| ==> both[k] == x[k];
    assert forall k :: 0 <= k < |y| ==> both[|x| + k] == y[k];
    assert forall k :: |x| <= k < |both| ==> both[k] == y[k - |x|];
  }

  lemma {:induction false} MarksAre(arrivals: seq<Arrival>)
    ensures AnyMarks(AnnouncesIrap, arrivals) <==> HasIrap(UnitsOf(arrivals)) || AnyBegins(arrivals)
    decreases |arrivals|
  {
    hide HasIrap, BeginsIrap;
    if arrivals == [] {
      NothingAppended([]);
    } else {
      var init, last := arrivals[..|arrivals| - 1], arrivals[|arrivals| - 1];
      MarksAre(init);
      HasIrapAppend(UnitsOf(init), last.nals);
      MarksPosted(AnnouncesIrap, init, last);
      assert arrivals == init + [last];
      assert forall k :: 0 <= k < |init| ==> init[k] == arrivals[k];
    }
  }

  /** In every run an access unit that carries an IRAP unit is an anchor, and one that carries none is an
      anchor if and only if a series of fragments of one began since the access unit before. */
  lemma AnchorHonestIff(vps: seq<byte>, sps: seq<byte>, pps: seq<byte>, es: seq<Event>, k: nat)
    requires k < |Run(Start(vps, sps, pps), es).out|
    ensures var unit := Run(Start(vps, sps, pps), es).out[k];
            var parts := LedgerOf(Format(vps, sps, pps), es).parts;
            && k < |parts|
            && (unit.anchor <==> HasIrap(UnitsOf(parts[k].arrivals)) || AnyBegins(parts[k].arrivals))
  {
    hide Run, LedgerOf, Log, AnyBegins, HasIrap, AnyMarks, StartCoded, Leading, LastStamp;
    AccessUnitsConserved(vps, sps, pps, es);
    MarksAre(LedgerOf(Format(vps, sps, pps), es).parts[k].arrivals);
  }

  // ----- lost references

  function TellOf(s: State): Told { Told(s.out, s.refsLost) }

  lemma EmitStaysLost(s: State, pts: int, withExtradata: bool)
    ensures StaysLost(TellOf(s), TellOf(EmitAu(s, pts, withExtradata)))
  {
    hide StartCoded, Front, StaysLost;
    NothingTold(TellOf(s));
    if s.au != [] { UnitTold(TellOf(s), EmitAu(s, pts, withExtradata).out[|s.out|]); }
  }

  lemma ReceiveStaysLost(s: State, payload: seq<byte>)
    requires |payload| >= 2 && !Truncated(payload) && Sound(s)
    ensures StaysLost(TellOf(s), TellOf(Receive(s, payload)))
    ensures Classify(payload).Refused? ==> Receive(s, payload) == s.(refsLost := true)
  {
    hide StartCoded, ConsumeAll, Units, StaysLost;
    NothingTold(TellOf(s));
    if NalType(payload[0]) == AP { ConsumedAll(s, Units(payload[2..])); }
  }

  lemma StepStaysLost(s: State, e: Event)
    requires Sound(s)
    ensures StaysLost(TellOf(s), TellOf(Step(s, e)))
  {
    hide EmitAu, Receive, Truncated, StaysLost;
    NothingTold(TellOf(s));
    if e.Rtp? && |e.packet.payload| >= 2 {
      var p := e.packet;
      EmitStaysLost(s, s.pts, s.sawIrap);
      BeginSound(s, p);
      var s2 := Begin(s, p);
      assert StaysLost(TellOf(s), TellOf(s2));
      if !Truncated(p.payload) {
        var s3 := Receive(s2, p.payload);
        ReceiveStaysLost(s2, p.payload);
        StaysLostTrans(TellOf(s), TellOf(s2), TellOf(s3));
        EmitStaysLost(s3, p.pts, s3.sawIrap);
        StaysLostTrans(TellOf(s), TellOf(s3), TellOf(EmitAu(s3, p.pts, s3.sawIrap)));
      }
    }
  }

  /** Once references are lost every access unit is marked, up to and including the next anchor, in every run. */
  lemma {:induction false} LossHolds(s: State, es: seq<Event>)
    requires Sound(s)
    ensures StaysLost(TellOf(s), TellOf(Run(s, es)))
    decreases |es|
  {
    hide StaysLost, Step;
    if es == [] {
      NothingTold(TellOf(s));
    } else {
      var s1 := Run(s, es[..|es| - 1]);
      LossHolds(s, es[..|es| - 1]);
      StepStaysLost(s1, es[|es| - 1]);
      StaysLostTrans(TellOf(s), TellOf(s1), TellOf(Run(s, es)));
    }
  }

  /** A loss: reported from outside, or a payload of a format that is not supported. */
  predicate Loses(e: Event) { e.ReferenceLost? || Classify(e.packet.payload).Refused? }

  /** How many access units are out when an event is looked at: a new time stamp has ended one before that. */
  function OutBefore(s: State, e: Event): nat { if e.Rtp? then |Flushed(s, e.packet).out| else |s.out| }

  lemma LossMarks(s: State, e: Event)
    requires Sound(s) && Loses(e)
    ensures MarkedFrom(TellOf(Step(s, e)), OutBefore(s, e))
  {
    hide EmitAu, Receive, StaysLost, MarkedFrom, Units;
    NothingTold(TellOf(MarkReferenceLost(s)));
    StaysMarked(TellOf(MarkReferenceLost(s)), TellOf(MarkReferenceLost(s)));
    if e.Rtp? {
      BeginSound(s, e.packet);
      var begun := Begin(s, e.packet);
      var r := Receive(begun, e.packet.payload);
      ReceiveStaysLost(begun, e.packet.payload);
      EmitStaysLost(r, e.packet.pts, r.sawIrap);
      NothingTold(TellOf(r));
      StaysMarked(TellOf(r), TellOf(Step(s, e)));
    }
  }

  /**
   After a loss, at any place of any run: every access unit emitted from then on is marked, up to and
   including the next anchor, and the state stays marked if none comes.
   */
  lemma LossAlwaysMarks(s: State, es: seq<Event>, i: nat)
    requires Sound(s) && i < |es| && Loses(es[i])
    ensures MarkedFrom(TellOf(Run(s, es)), OutBefore(Run(s, es[..i]), es[i]))
  {
    hide MarkedFrom, Step, Loses, OutBefore, StaysLost;
    var before, after := es[..i], es[i + 1..];
    assert es == (before + [es[i]]) + after;
    RunSnoc(s, before, es[i]);
    RunConcat(s, before + [es[i]], after);
    LossMarks(Run(s, before), es[i]);
    LossHolds(Run(s, before + [es[i]]), after);
    MarkedOn(TellOf(Run(s, before + [es[i]])), TellOf(Run(s, es)), OutBefore(Run(s, before), es[i]));
  }

  // ----- a new stream

  /** The same state, but for access units told earlier. */
  predicate Alike(s: State, t: State, told: seq<AccessUnit>) {
    s.out == told + t.out && s.(out := []) == t.(out := [])
  }

  lemma {:induction false} ConsumeAlike(s: State, t: State, told: seq<AccessUnit>, nals: seq<seq<byte>>)
    requires Alike(s, t, told) && AllHeaded(nals)
    ensures Alike(ConsumeAll(s, nals), ConsumeAll(t, nals), told)
    decreases |nals|
  {
    hide StartCoded, NalType;
    if nals != [] { ConsumeAlike(Consume(s, nals[0]), Consume(t, nals[0]), told, nals[1..]); }
  }

  lemma EmitAlike(s: State, t: State, told: seq<AccessUnit>, pts: int, withExtradata: bool)
    requires Alike(s, t, told)
    ensures Alike(EmitAu(s, pts, withExtradata), EmitAu(t, pts, withExtradata), told)
  {
    hide StartCoded;
    if s.au != [] {
      var unit := EmitAu(t, pts, withExtradata).out[|t.out|];
      assert told + (t.out + [unit]) == (told + t.out) + [unit];
    }
  }

  lemma ReceiveAlike(s: State, t: State, told: seq<AccessUnit>, payload: seq<byte>)
    requires Alike(s, t, told) && Sound(s) && Sound(t) && |payload| >= 2 && !Truncated(payload)
    ensures Alike(Receive(s, payload), Receive(t, payload), told)
  {
    hide StartCoded, NalType, Units, ConsumeAll, Fragment;
    if NalType(payload[0]) == AP { ConsumeAlike(s, t, told, Units(payload[2..])); }
    if NalType(payload[0]) == FU { FragmentAlike(s, t, told, payload); }
  }

  lemma FinishAlike(s: State, t: State, told: seq<AccessUnit>)
    requires Alike(s, t, told) && |s.fu| >= 2 && |t.fu| >= 2
    ensures Alike(FinishFu(s), FinishFu(t), told)
  {
    hide StartCoded, NalType;
  }

  lemma FragmentAlike(s: State, t: State, told: seq<AccessUnit>, payload: seq<byte>)
    requires Alike(s, t, told) && Sound(s) && Sound(t) && |payload| >= 3
    ensures Alike(Fragment(s, payload), Fragment(t, payload), told)
  {
    hide StartCoded, NalType, IsStart, IsEnd, IsIrap, Rebuilt, FinishFu;
    var s1 := if IsStart(payload[2]) then StartFu(s, payload[0], payload[1], payload[2]) else s;
    var t1 := if IsStart(payload[2]) then StartFu(t, payload[0], payload[1], payload[2]) else t;
    if s1.fuOpen { FinishAlike(s1.(fu := s1.fu + payload[3..]), t1.(fu := t1.fu + payload[3..]), told); }
  }

  lemma StepAlike(s: State, t: State, told: seq<AccessUnit>, e: Event)
    requires Alike(s, t, told) && Sound(s) && Sound(t)
    ensures Alike(Step(s, e), Step(t, e), told)
  {
    hide EmitAu, Receive, Truncated;
    if e.Rtp? && |e.packet.payload| >= 2 {
      var p := e.packet;
      EmitAlike(s, t, told, s.pts, s.sawIrap);
      BeginSound(s, p);
      BeginSound(t, p);
      assert Alike(Begin(s, p), Begin(t, p), told);
      if !Truncated(p.payload) {
        var s1, t1 := Receive(Begin(s, p), p.payload), Receive(Begin(t, p), p.payload);
        ReceiveAlike(Begin(s, p), Begin(t, p), told, p.payload);
        EmitAlike(s1, t1, told, p.pts, s1.sawIrap);
      }
    }
  }

  lemma {:induction false} RunAlike(s: State, t: State, told: seq<AccessUnit>, es: seq<Event>)
    requires Alike(s, t, told) && Sound(s) && Sound(t)
    ensures Alike(Run(s, es), Run(t, es), told)
    decreases |es|
  {
    hide Alike, Step;
    if es != [] {
      RunAlike(s, t, told, es[..|es| - 1]);
      StepAlike(Run(s, es[..|es| - 1]), Run(t, es[..|es| - 1]), told, es[|es| - 1]);
    }
  }

  /** After a reset, in every state, everything is as in a new depacketizer that knows the same parameter
      sets; so all theorems on runs from the start speak of the next stream. */
  lemma ResetStartsOver(s: State, es: seq<Event>)
    ensures Alike(Run(Reset(s), es), Run(Start(s.vps, s.sps, s.pps), es), s.out)
  {
    assert s.out + [] == s.out;
    RunAlike(Reset(s), Start(s.vps, s.sps, s.pps), s.out, es);
  }

  // ----- packetization

  /** Sections 4.4.1, 4.4.2 and 4.4.3 of RFC 7798. */
  predicate Fits(c: Carrier) {
    match c
    case Single(nal) => |nal| >= 2 && NalType(nal[0]) < 48
    case Aggregate(header, units) =>
      |header| == 2 && NalType(header[0]) == AP && forall k :: 0 <= k < |units| ==> 2 <= |units[k]| < TWO_16
    case Fragments(whole, pieces) => |whole| >= 2 && pieces != [] && Flat(pieces) == whole[2..]
  }

  function FuPayload(b0: byte, b1: byte, pieces: seq<seq<byte>>, k: nat): (payload: seq<byte>)
    requires k < |pieces|
    ensures |payload| == 3 + |pieces[k]|
  {
    var start, end := if k == 0 then 128 else 0, if k == |pieces| - 1 then 64 else 0;
    [b0 as int / 128 * 128 + FU * 2 + b0 as int % 2, b1, start + end + NalType(b0)] + pieces[k]
  }

  function Payloads(c: Carrier): seq<seq<byte>>
    requires Fits(c)
  {
    match c
    case Single(nal) => [nal]
    case Aggregate(header, units) => [header + Body(units)]
    case Fragments(whole, pieces) =>
      seq(|pieces|, k requires 0 <= k < |pieces| => FuPayload(whole[0], whole[1], pieces, k))
  }

  predicate AllFit(cs: seq<Carrier>) { forall k :: 0 <= k < |cs| ==> Fits(cs[k]) }

  function AllPayloads(cs: seq<Carrier>): seq<seq<byte>>
    requires AllFit(cs)
  {
    if cs == [] then [] else Payloads(cs[0]) + AllPayloads(cs[1..])
  }

  function Feed(s: State, ps: seq<Packet>): (r: State)
    requires Sound(s)
    ensures Sound(r)
    decreases |ps|
  {
    if ps == [] then s else OnRtpSound(s, ps[0]); Feed(OnRtp(s, ps[0]), ps[1..])
  }

  lemma {:induction false} FeedConcat(s: State, a: seq<Packet>, b: seq<Packet>)
    requires Sound(s)
    ensures Feed(s, a + b) == Feed(Feed(s, a), b)
    decreases |a|
  {
    if a == [] {
      assert a + b == b;
    } else {
      assert (a + b)[1..] == a[1..] + b;
      OnRtpSound(s, a[0]);
      FeedConcat(OnRtp(s, a[0]), a[1..], b);
    }
  }

  lemma FeedOne(s: State, p: Packet)
    requires Sound(s)
    ensures Feed(s, [p]) == OnRtp(s, p)
  {
    OnRtpSound(s, p);
    assert Feed(OnRtp(s, p), []) == OnRtp(s, p);
  }

  /** Ready for units of time stamp `pts`: no fragments pending, and the access unit is of that time. */
  predicate Ready(s: State, pts: int): (ready: bool)
    ensures ready ==> Sound(s)
  {
    !s.fuOpen && s.fu == [] && (s.au == [] || s.pts == pts)
  }

  /** The state without the arrival stamp. */
  function Core(s: State): State { s.(arrival := 0) }

  lemma {:induction false} ConsumeAllCore(s: State, s': State, nals: seq<seq<byte>>)
    requires AllHeaded(nals) && Core(s) == Core(s')
    ensures Core(ConsumeAll(s, nals)) == Core(ConsumeAll(s', nals))
    decreases |nals|
  {
    if nals != [] { ConsumeAllCore(Consume(s, nals[0]), Consume(s', nals[0]), nals[1..]); }
  }

  lemma {:induction false} UnitsOfBody(units: seq<seq<byte>>)
    requires forall k :: 0 <= k < |units| ==> 2 <= |units[k]| < TWO_16
    ensures Units(Body(units)) == units
  {
    if units != [] {
      var body := Body(units);
      var n := |units[0]|;
      assert body[0] as int * 256 + body[1] as int == n;
      assert body[2..2 + n] == units[0] && body[2 + n..] == Body(units[1..]);
      UnitsOfBody(units[1..]);
    }
  }

  /** The units and what follows them make up the bytes. */
  predicate Parts(rest: seq<byte>, tail: seq<byte>) {
    && (forall k :: 0 <= k < |Units(rest)| ==> |Units(rest)[k]| < TWO_16)
    && rest == Body(Units(rest)) + tail
  }

  /** On every input the units of an aggregation packet are exactly those that are there in full: their sizes and bytes are
      the beginning of the payload, and what remains is too short for a size or for the unit of that size, or
      announces a unit shorter than a header. */
  lemma {:induction false} UnitsExact(rest: seq<byte>) returns (tail: seq<byte>)
    ensures Parts(rest, tail)
    ensures |tail| < 2 || 2 + U16(tail[0], tail[1]) > |tail| || U16(tail[0], tail[1]) < 2
    decreases |rest|
  {
    if |rest| < 2 || 2 + U16(rest[0], rest[1]) > |rest| || U16(rest[0], rest[1]) < 2 {
      tail := rest;
      assert [] + rest == rest;
    } else {
      tail := UnitsExact(rest[2 + U16(rest[0], rest[1])..]);
      PartsGrow(rest, tail);
    }
  }

  /** One unit more in front. */
  lemma PartsGrow(rest: seq<byte>, tail: seq<byte>)
    requires |rest| >= 2 && 2 + U16(rest[0], rest[1]) <= |rest| && U16(rest[0], rest[1]) >= 2
    requires Parts(rest[2 + U16(rest[0], rest[1])..], tail)
    ensures Parts(rest, tail)
  {
    hide Units, U16, Body;
    var n := U16(rest[0], rest[1]);
    UnitsUnfold(rest);
    BodyUnfold(rest[0], rest[1], rest[2..2 + n], Units(rest[2 + n..]), tail);
    assert rest == [rest[0], rest[1]] + rest[2..2 + n] + rest[2 + n..];
  }

  lemma UnitsUnfold(rest: seq<byte>)
    requires |rest| >= 2 && 2 + U16(rest[0], rest[1]) <= |rest| && U16(rest[0], rest[1]) >= 2
    ensures var n := U16(rest[0], rest[1]); Units(rest) == [rest[2..2 + n]] + Units(rest[2 + n..])
  {
  }

  lemma BeginReady(s: State, p: Packet)
    requires Ready(s, p.pts)
    ensures Core(Begin(s, p)) == Core(s.(pts := p.pts))
  {
  }

  /** The third byte of a fragment: start, end and inner type. */
  lemma FuHeaderBits(start: bool, end: bool, t: nat)
    requires t < 64
    ensures var h: byte := (if start then 128 else 0) + (if end then 64 else 0) + t;
            h as int % 64 == t && (IsStart(h) <==> start) && (IsEnd(h) <==> end)
  {
    var h := (if start then 128 else 0) + (if end then 64 else 0) + t;
    DivUnique(h, 64, (if start then 2 else 0) + (if end then 1 else 0), t);
  }

  /** The first byte of a fragment, and the unit's own one rebuilt from it. */
  lemma FuFirstByte(b0: byte, fuHeader: byte)
    requires fuHeader as int % 64 == NalType(b0)
    ensures var first: byte := b0 as int / 128 * 128 + FU * 2 + b0 as int % 2;
            NalType(first) == FU && Rebuilt(first, fuHeader) == b0
  {
    var first, high, low := b0 as int / 128 * 128 + FU * 2 + b0 as int % 2, b0 as int / 128, b0 as int % 2;
    DivUnique(first, 128, high, FU * 2 + low);
    DivUnique(first, 2, high * 64 + FU, low);
    DivUnique(high * 64 + FU, 64, high, FU);
  }

  /** The bytes of fragment `k` say what they should. */
  lemma FuBytes(b0: byte, b1: byte, pieces: seq<seq<byte>>, k: nat)
    requires k < |pieces|
    ensures var f := FuPayload(b0, b1, pieces, k);
            && NalType(f[0]) == FU && f[1] == b1 && f[2] as int % 64 == NalType(b0)
            && (IsStart(f[2]) <==> k == 0) && (IsEnd(f[2]) <==> k == |pieces| - 1)
            && Rebuilt(f[0], f[2]) == b0
            && f[3..] == pieces[k]
  {
    hide NalType, Rebuilt, IsStart, IsEnd;
    FuHeaderBits(k == 0, k == |pieces| - 1, NalType(b0));
    FuFirstByte(b0, FuPayload(b0, b1, pieces, k)[2]);
  }

  /** The state while the fragments of a unit are coming in. */
  function Holding(s: State, pts: int, b0: byte, b1: byte, got: seq<byte>): (r: State)
    ensures Sound(r) && |r.fu| >= 2
  {
    s.(pts := pts, fu := [b0, b1] + got, fuOpen := true, sawIrap := s.sawIrap || IsIrap(NalType(b0)))
  }

  lemma FinishCore(s: State, s': State)
    requires Core(s) == Core(s') && |s.fu| >= 2 && |s'.fu| >= 2
    ensures Core(FinishFu(s)) == Core(FinishFu(s'))
  {
    hide StartCoded, NalType;
    assert Core(s).fu == s.fu && Core(s').fu == s'.fu;
  }

  lemma {:induction false} FragmentCore(s: State, s': State, payload: seq<byte>)
    requires |payload| >= 3 && Core(s) == Core(s') && Sound(s) && Sound(s')
    ensures Core(Fragment(s, payload)) == Core(Fragment(s', payload))
  {
    hide NalType, IsStart, IsEnd, FinishFu, Rebuilt;
    var a, b := s, s';
    if IsStart(payload[2]) {
      a, b := StartFu(s, payload[0], payload[1], payload[2]), StartFu(s', payload[0], payload[1], payload[2]);
    }
    assert Core(a) == Core(b);
    assert Core(a).fuOpen == a.fuOpen && Core(b).fuOpen == b.fuOpen && Core(a).fu == a.fu && Core(b).fu == b.fu;
    if a.fuOpen { FinishCore(a.(fu := a.fu + payload[3..]), b.(fu := b.fu + payload[3..])); }
  }

  /** Fragment `k` of a unit, from the state that holds the fragments before it. */
  lemma FragmentAdds(s: State, pts: int, b0: byte, b1: byte, pieces: seq<seq<byte>>, k: nat)
    requires k < |pieces| && Sound(s)
    ensures var before := if k == 0 then s.(pts := pts) else Holding(s, pts, b0, b1, Flat(pieces[..k]));
            var after := Holding(s, pts, b0, b1, Flat(pieces[..k + 1]));
            Fragment(before, FuPayload(b0, b1, pieces, k)) == if k == |pieces| - 1 then FinishFu(after) else after
  {
    hide FuPayload, IsStart, IsEnd, NalType, StartCoded, FinishFu, Rebuilt;
    FuBytes(b0, b1, pieces, k);
    assert pieces[..k + 1][..k] == pieces[..k];
    assert [b0, b1] + Flat(pieces[..k]) + pieces[k] == [b0, b1] + (Flat(pieces[..k]) + pieces[k]);
    if k == 0 { assert Flat(pieces[..1]) == pieces[0]; }
  }

  lemma FragmentHeld(s: State, s1: State, b0: byte, b1: byte, pieces: seq<seq<byte>>, k: nat, p: Packet)
    requires k < |pieces| && p.payload == FuPayload(b0, b1, pieces, k) && !p.marker && Sound(s) && Sound(s1)
    requires if k == 0 then s1 == s && Ready(s, p.pts) else Core(s1) == Core(Holding(s, p.pts, b0, b1, Flat(pieces[..k])))
    ensures var after := Holding(s, p.pts, b0, b1, Flat(pieces[..k + 1]));
            Core(OnRtp(s1, p)) == Core(if k == |pieces| - 1 then FinishFu(after) else after)
  {
    hide FuPayload, NalType, Fragment, FinishFu;
    FuBytes(b0, b1, pieces, k);
    var before := if k == 0 then s.(pts := p.pts) else Holding(s, p.pts, b0, b1, Flat(pieces[..k]));
    assert Core(Begin(s1, p)) == Core(before);
    FragmentCore(Begin(s1, p), before, p.payload);
    FragmentAdds(s, p.pts, b0, b1, pieces, k);
  }

  lemma {:induction false} FragmentsArrive(s: State, whole: seq<byte>, pieces: seq<seq<byte>>,
          ps: seq<Packet>, pts: int, k: nat)
    requires Fits(Fragments(whole, pieces)) && Bring(ps, Payloads(Fragments(whole, pieces)), pts)
    requires Ready(s, pts) && Sound(s) && 1 <= k <= |pieces|
    ensures k < |pieces| ==>
      Core(Feed(s, ps[..k])) == Core(Holding(s, pts, whole[0], whole[1], Flat(pieces[..k])))
    ensures k == |pieces| ==>
      Core(Feed(s, ps[..k])) == Core(FinishFu(Holding(s, pts, whole[0], whole[1], whole[2..])))
  {
    hide FuPayload, Holding, FinishFu, OnRtp, Core, Ready, Feed;
    var p := ps[k - 1];
    var s1 := Feed(s, ps[..k - 1]);
    if k > 1 { FragmentsArrive(s, whole, pieces, ps, pts, k - 1); } else { FeedNone(s); }
    assert ps[..k] == ps[..k - 1] + [p];
    FeedConcat(s, ps[..k - 1], [p]);
    FeedOne(s1, p);
    FragmentHeld(s, s1, whole[0], whole[1], pieces, k - 1, p);
    assert pieces[..|pieces|] == pieces;
  }

  lemma FeedNone(s: State)
    requires Sound(s)
    ensures Feed(s, []) == s
  {
  }

  lemma FinishIsConsume(s: State, pts: int, whole: seq<byte>)
    requires |whole| >= 2 && Ready(s, pts)
    ensures FinishFu(Holding(s, pts, whole[0], whole[1], whole[2..])) == Consume(s.(pts := pts), whole)
  {
    assert [whole[0], whole[1]] + whole[2..] == whole;
  }

  lemma {:induction false} OnePacket(s: State, p: Packet, nals: seq<seq<byte>>)
    requires |p.payload| >= 2 && !p.marker && Ready(s, p.pts) && AllHeaded(nals)
    requires var t := NalType(p.payload[0]);
             (t < 48 && nals == [p.payload]) || (t == AP && nals == Units(p.payload[2..]))
    ensures Core(Feed(s, [p])) == Core(ConsumeAll(s.(pts := p.pts), nals))
  {
    hide Consume, Units, Core, Ready, Begin, Feed;
    BeginReady(s, p);
    ConsumeAllCore(Begin(s, p), s.(pts := p.pts), nals);
    FeedOne(s, p);
    assert nals == [p.payload] ==> ConsumeAll(Begin(s, p), nals) == Consume(Begin(s, p), p.payload);
  }

  lemma {:induction false} CarrierArrives(s: State, c: Carrier, ps: seq<Packet>, pts: int)
    requires Ready(s, pts) && Fits(c) && Bring(ps, Payloads(c), pts)
    ensures AllHeaded(Carried(c))
    ensures Core(Feed(s, ps)) == Core(ConsumeAll(s.(pts := pts), Carried(c)))
  {
    hide Core, Consume, Feed, NalType;
    match c
    case Single(nal) =>
      assert ps == [ps[0]];
      OnePacket(s, ps[0], [nal]);
    case Aggregate(header, units) =>
      assert ps == [ps[0]];
      UnitsOfBody(units);
      assert ps[0].payload[2..] == Body(units);
      OnePacket(s, ps[0], units);
    case Fragments(whole, pieces) =>
      assert ps[..|pieces|] == ps;
      FragmentsArrive(s, whole, pieces, ps, pts, |pieces|);
      FinishIsConsume(s, pts, whole);
  }

  lemma ReadyAfter(s: State, r: State, nals: seq<seq<byte>>, pts: int)
    requires Ready(s, pts) && AllHeaded(nals) && Core(r) == Core(ConsumeAll(s.(pts := pts), nals))
    ensures Ready(r, pts) && r.pts == pts
  {
    ConsumedAll(s.(pts := pts), nals);
    assert Core(r).fu == r.fu && Core(r).fuOpen == r.fuOpen && Core(r).pts == r.pts;
  }

  lemma {:induction false} ConsumeAllConcat(s: State, a: seq<seq<byte>>, b: seq<seq<byte>>)
    requires AllHeaded(a) && AllHeaded(b)
    ensures AllHeaded(a + b) && ConsumeAll(s, a + b) == ConsumeAll(ConsumeAll(s, a), b)
    decreases |a|
  {
    if a == [] {
      assert a + b == b;
    } else {
      assert (a + b)[1..] == a[1..] + b;
      ConsumeAllConcat(Consume(s, a[0]), a[1..], b);
    }
  }

  /**
   Packetization independence: with no fragments pending, packets of one time stamp have the effect of
   consuming their NAL units in order, however the units are put into packets: one by one, aggregated, or
   cut into fragments.  The access unit, the parameter sets and all flags are the same.
   */
  lemma {:induction false} PacketizationIndependent(s: State, cs: seq<Carrier>, ps: seq<Packet>, pts: int)
    requires Ready(s, pts) && AllFit(cs) && Bring(ps, AllPayloads(cs), pts)
    ensures AllHeaded(AllCarried(cs))
    ensures ps != [] ==> Core(Feed(s, ps)) == Core(ConsumeAll(s.(pts := pts), AllCarried(cs)))
    decreases |cs|
  {
    hide Core, Ready, Consume, Payloads, Carried, Fits;
    if cs != [] {
      var c, rest := cs[0], cs[1..];
      var n := |Payloads(c)|;
      var ps1, ps2 := ps[..n], ps[n..];
      assert ps == ps1 + ps2;
      assert AllPayloads(cs)[..n] == Payloads(c) && AllPayloads(cs)[n..] == AllPayloads(rest);
      SomePayload(c);
      CarrierArrives(s, c, ps1, pts);
      var s1 := Feed(s, ps1);
      ReadyAfter(s, s1, Carried(c), pts);
      PacketizationIndependent(s1, rest, ps2, pts);
      FeedConcat(s, ps1, ps2);
      ConsumeAllConcat(s.(pts := pts), Carried(c), AllCarried(rest));
      assert s1.(pts := pts) == s1;
      ConsumeAllCore(s1, ConsumeAll(s.(pts := pts), Carried(c)), AllCarried(rest));
      if ps2 == [] { NothingLeft(rest); }
    }
  }

  lemma SomePayload(c: Carrier)
    requires Fits(c)
    ensures Payloads(c) != []
  {
  }

  lemma NothingLeft(cs: seq<Carrier>)
    requires AllFit(cs) && AllPayloads(cs) == []
    ensures cs == []
  {
    if cs != [] { SomePayload(cs[0]); }
  }

  // ----- the access unit that comes out

  lemma MarkedFeed(s: State, ps: seq<Packet>)
    requires ps != [] && Sound(s)
    requires var p := ps[|ps| - 1]; !p.marker && |p.payload| >= 2 && !Truncated(p.payload)
    ensures var r := Feed(s, ps);
            Feed(s, Marked(ps)) == EmitAu(r, ps[|ps| - 1].pts, r.sawIrap)
  {
    hide Receive, Truncated, EmitAu, Feed;
    var p, init := ps[|ps| - 1], ps[..|ps| - 1];
    var p' := p.(marker := true);
    assert ps == init + [p];
    FeedConcat(s, init, [p]);
    FeedConcat(s, init, [p']);
    var s1 := Feed(s, init);
    FeedOne(s1, p);
    FeedOne(s1, p');
    assert Begin(s1, p) == Begin(s1, p');
  }

  lemma {:induction false} LastPayload(cs: seq<Carrier>)
    requires AllFit(cs) && cs != []
    ensures var all := AllPayloads(cs);
            all != [] && |all[|all| - 1]| >= 2 && !Truncated(all[|all| - 1])
    decreases |cs|
  {
    var c := cs[0];
    if |cs| > 1 {
      LastPayload(cs[1..]);
    } else {
      assert AllPayloads(cs) == Payloads(c);
      if c.Fragments? { FuBytes(c.whole[0], c.whole[1], c.pieces, |c.pieces| - 1); }
    }
  }

  lemma {:induction false} ConsumedFlags(s: State, nals: seq<seq<byte>>)
    requires AllHeaded(nals)
    ensures var r := ConsumeAll(s, nals);
            && r.vps == Latest(nals, VPS, s.vps) && r.sps == Latest(nals, SPS, s.sps) && r.pps == Latest(nals, PPS, s.pps)
            && (r.sawIrap <==> s.sawIrap || HasIrap(nals))
    decreases |nals|
  {
    hide NalType, IsIrap;
    if nals != [] {
      var s1, rest := Consume(s, nals[0]), nals[1..];
      ConsumedFlags(s1, rest);
      assert forall k :: 0 <= k < |rest| ==> rest[k] == nals[k + 1];
      assert forall k :: 0 < k < |nals| ==> nals[k] == rest[k - 1];
    }
  }

  /** The parameter sets that go in front. */
  function FrontOf(anchor: bool, vps: seq<byte>, sps: seq<byte>, pps: seq<byte>): seq<seq<byte>> {
    if anchor && vps != [] && sps != [] && pps != [] then [vps, sps, pps] else []
  }

  lemma NotNothing(nals: seq<seq<byte>>)
    requires nals != []
    ensures StartCoded(nals) != []
  {
  }

  lemma EmittedUnit(r: State, t: State, pts: int)
    requires Core(r) == Core(t) && t.au != []
    ensures var e := EmitAu(r, pts, r.sawIrap);
            && e.au == [] && |e.out| == |t.out| + 1 && e.out[..|t.out|] == t.out
            && e.refsLost == (t.refsLost && !t.sawIrap && !t.sawRecovery)
            && var unit := e.out[|t.out|];
               && unit.pts == pts && unit.bytes == StartCoded(FrontOf(t.sawIrap, t.vps, t.sps, t.pps)) + t.au
               && unit.anchor == t.sawIrap && unit.refsLost == t.refsLost
  {
    hide StartCoded;
    assert Core(r).out == r.out && Core(r).au == r.au && Core(r).vps == r.vps && Core(r).sps == r.sps && Core(r).pps == r.pps;
    assert Core(r).sawIrap == r.sawIrap && Core(r).sawRecovery == r.sawRecovery && Core(r).refsLost == r.refsLost;
  }

  /**
   From the sender's NAL units to the receiver's: with nothing collected before, however the units of one
   time stamp are put into packets, a marker on the last packet gives exactly one access unit.  Its bytes
   are the units, start-coded, in order, behind the latest parameter sets if it is an anchor; and if the
   units can be split at all, splitting returns them one by one.
   */
  lemma AccessUnitDelivered(s: State, cs: seq<Carrier>, ps: seq<Packet>, pts: int)
    requires !s.fuOpen && s.fu == [] && s.au == []
    requires AllFit(cs) && AllCarried(cs) != [] && Bring(ps, AllPayloads(cs), pts)
    ensures ps != [] && AllHeaded(AllCarried(cs))
    ensures var nals := AllCarried(cs);
            var anchor := s.sawIrap || HasIrap(nals);
            var front := FrontOf(anchor, Latest(nals, VPS, s.vps), Latest(nals, SPS, s.sps), Latest(nals, PPS, s.pps));
            var r := Feed(s, Marked(ps));
            && r.au == [] && |r.out| == |s.out| + 1 && r.out[..|s.out|] == s.out
            && r.refsLost == (s.refsLost && !anchor && !s.sawRecovery)
            && var unit := r.out[|s.out|];
               && unit.pts == pts && unit.bytes == StartCoded(front + nals)
               && unit.anchor == anchor && unit.refsLost == s.refsLost
               && ((forall k :: 0 <= k < |front + nals| ==> Splittable((front + nals)[k])) ==>
                     Split(unit.bytes) == front + nals)
  {
    hide Core, ConsumeAll, Feed, Splittable, Split, Latest, HasIrap, Truncated, StartCoded, NalType, EmitAu, OnRtp;
    var nals := AllCarried(cs);
    NothingCarried(cs);
    LastPayload(cs);
    PacketizationIndependent(s, cs, ps, pts);
    MarkedFeed(s, ps);
    var t := ConsumeAll(s.(pts := pts), nals);
    ConsumedAll(s.(pts := pts), nals);
    ConsumedFlags(s.(pts := pts), nals);
    NotNothing(nals);
    assert t.au == StartCoded(nals);
    EmittedUnit(Feed(s, ps), t, pts);
    var front := FrontOf(t.sawIrap, t.vps, t.sps, t.pps);
    StartCodedConcat(front, nals);
    SplitInvertsIff(front + nals);
  }

  // ----- recovery points

  ghost predicate NoRecovery(s: State) { !s.sawRecovery && forall k :: 0 <= k < |s.out| ==> !s.out[k].recovery }

  lemma StepNoRecovery(s: State, e: Event)
    requires Sound(s) && NoRecovery(s)
    ensures NoRecovery(Step(s, e))
  {
    hide StartCoded, ConsumeAll, Units, NalType, Fragment, Front;
    if e.Rtp? && |e.packet.payload| >= 2 {
      var s1 := Begin(s, e.packet);
      assert NoRecovery(s1);
      ConsumedAll(s1, Units(e.packet.payload[2..]));
      if !Truncated(e.packet.payload) && NalType(e.packet.payload[0]) == FU { FragmentNoRecovery(s1, e.packet.payload); }
    }
  }

  lemma FragmentNoRecovery(s: State, payload: seq<byte>)
    requires |payload| >= 3 && Sound(s)
    ensures Fragment(s, payload).out == s.out && Fragment(s, payload).sawRecovery == s.sawRecovery
  {
  }

  /** No access unit ever reports a recovery point: unlike for H.264, SEI units are not looked at. */
  lemma {:induction false} RecoveryNeverReported(s: State, es: seq<Event>)
    requires Sound(s) && NoRecovery(s)
    ensures NoRecovery(Run(s, es))
    decreases |es|
  {
    hide Step, NoRecovery;
    if es != [] {
      RecoveryNeverReported(s, es[..|es| - 1]);
      StepNoRecovery(Run(s, es[..|es| - 1]), es[|es| - 1]);
    }
  }
}
