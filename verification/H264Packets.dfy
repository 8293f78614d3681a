/** Runs of the H.264 depacketizer: the account of NAL units, and independence of the packetization. */
module H264Packets {
  import opened Common
  import opened AnnexB
  import opened AccessUnits
  import opened DepackH264

  // ----- runs

  ghost predicate ReadableEvent(e: Event) { e.Rtp? ==> Readable(e.packet.payload) }

  ghost predicate ReadableEvents(es: seq<Event>) { forall k :: 0 <= k < |es| ==> ReadableEvent(es[k]) }

  function Step(sei: SeiTest, s: State, e: Event): State
    requires ReadableEvent(e)
  {
    match e
    case Rtp(p) => OnRtp(sei, s, p)
    case ReferenceLost => MarkReferenceLost(s)
  }

  function Run(sei: SeiTest, s: State, es: seq<Event>): State
    requires ReadableEvents(es)
    decreases |es|
  {
    if es == [] then s else Step(sei, Run(sei, s, es[..|es| - 1]), es[|es| - 1])
  }

  lemma RunSnoc(sei: SeiTest, s: State, es: seq<Event>, e: Event)
    requires ReadableEvents(es) && ReadableEvent(e)
    ensures ReadableEvents(es + [e]) && Run(sei, s, es + [e]) == Step(sei, Run(sei, s, es), e)
  {
    assert (es + [e])[..|es|] == es;
  }

  lemma {:induction false} RunConcat(sei: SeiTest, s: State, a: seq<Event>, b: seq<Event>)
    requires ReadableEvents(a) && ReadableEvents(b)
    ensures ReadableEvents(a + b) && Run(sei, s, a + b) == Run(sei, Run(sei, s, a), b)
    decreases |b|
  {
    hide Step, ReadableEvent;
    if b == [] {
      assert a + b == a;
    } else {
      var init, e := b[..|b| - 1], b[|b| - 1];
      RunConcat(sei, s, a, init);
      assert (a + b)[..|a + b| - 1] == a + init && (a + b)[|a + b| - 1] == e;
    }
  }

  lemma {:induction false} ConsumedAll(sei: SeiTest, s: State, nals: seq<seq<byte>>)
    requires NoneEmpty(nals)
    ensures var r := ConsumeAll(sei, s, nals);
            && r.au == s.au + StartCoded(nals) && r.out == s.out && r.pts == s.pts
            && r.fuOpen == s.fuOpen && r.fu == s.fu && r.arrival == s.arrival && r.fuHeader == s.fuHeader
            && r.refsLost == s.refsLost
    decreases |nals|
  {
    if nals != [] {
      ConsumedAll(sei, Consume(sei, s, nals[0]), nals[1..]);
      assert nals == [nals[0]] + nals[1..];
      StartCodedConcat([nals[0]], nals[1..]);
      assert s.au + StartCoded(nals) == s.au + StartCoded([nals[0]]) + StartCoded(nals[1..]);
    }
  }

  predicate HasType(nals: seq<seq<byte>>, t: nat) {
    exists k :: 0 <= k < |nals| && nals[k] != [] && NalType(nals[k][0]) == t
  }

  // ----- the format

  /** Sections 5.6 to 5.8 of RFC 6184: what a payload is. */
  function Classify(payload: seq<byte>): Effect {
    if payload == [] then Ignored
    else
      var t := NalType(payload[0]);
      if 1 <= t <= 23 then Whole([payload])
      else if t == STAP_A then Whole(Units(payload[1..]))
      else if t != FU_A then Refused
      else if |payload| < 2 then Cut
      else if IsStart(payload[1]) then
        First([payload[0] as int / 32 * 32 + payload[1] as int % 32], payload[2..], IsEnd(payload[1]))
      else More(payload[2..], IsEnd(payload[1]))
  }

  /** An IDR unit taken whole: by itself or in a STAP-A. */
  predicate TakesIdr(payload: seq<byte>) {
    payload != [] &&
    (NalType(payload[0]) == IDR || (NalType(payload[0]) == STAP_A && HasType(Units(payload[1..]), IDR)))
  }

  predicate IsFragment(payload: seq<byte>) { |payload| >= 2 && NalType(payload[0]) == FU_A }

  /** The first fragment of an IDR unit. */
  predicate BeginsIdr(payload: seq<byte>) {
    IsFragment(payload) && IsStart(payload[1]) && NalType(payload[1]) == IDR
  }

  predicate AnnouncesIdr(a: Arrival) { TakesIdr(a.packet.payload) || BeginsIdr(a.packet.payload) }

  /** A last fragment completes an IDR unit. */
  predicate EndsIdr(a: Arrival) {
    a.packet.payload != [] && NalType(a.packet.payload[0]) == FU_A && HasType(a.nals, IDR)
  }

  /** The last parameter set of type `t` that the packet completes.  A unit put together from fragments counts
      as what its last fragment says. */
  function SetOf(a: Arrival, t: nat, otherwise: seq<byte>): seq<byte> {
    if IsFragment(a.packet.payload) then
      if a.nals != [] && NalType(a.packet.payload[1]) == t then a.nals[0] else otherwise
    else if NoneEmpty(a.nals) then Latest(a.nals, t, otherwise) else otherwise
  }

  function LatestSet(log: seq<Arrival>, t: nat, otherwise: seq<byte>): seq<byte> {
    if log == [] then otherwise else SetOf(log[|log| - 1], t, LatestSet(log[..|log| - 1], t, otherwise))
  }

  predicate Announces(sei: SeiTest, nal: seq<byte>) { |nal| > 1 && sei(nal[1..]) }

  /** The packet completes a SEI unit that announces recovery at once. */
  predicate RecoversAt(sei: SeiTest, a: Arrival) {
    if IsFragment(a.packet.payload) then
      a.nals != [] && NalType(a.packet.payload[1]) == SEI && Announces(sei, a.nals[0])
    else Recovers(sei, a.nals)
  }

  /** The last unit of type `t`, if there is one. */
  function Latest(nals: seq<seq<byte>>, t: nat, otherwise: seq<byte>): seq<byte>
    requires NoneEmpty(nals)
    decreases |nals|
  {
    if nals == [] then otherwise
    else Latest(nals[1..], t, if NalType(nals[0][0]) == t then nals[0] else otherwise)
  }

  predicate Recovers(sei: SeiTest, nals: seq<seq<byte>>) {
    exists k :: 0 <= k < |nals| && |nals[k]| > 1 && NalType(nals[k][0]) == SEI && sei(nals[k][1..])
  }

  function Both(sps: seq<byte>, pps: seq<byte>): seq<seq<byte>> { if sps != [] && pps != [] then [sps, pps] else [] }

  /** H.264 with these parameter sets known beforehand. */
  function Format(sei: SeiTest, sps: seq<byte>, pps: seq<byte>): Codec {
    Codec(Classify, AnnouncesIdr, a => RecoversAt(sei, a),
          log => Both(LatestSet(log, SPS, sps), LatestSet(log, PPS, pps)), false)
  }

  // ----- the account of a run

  function View(s: State): Collecting {
    Collecting(s.out, s.au, s.pts, s.sawIdr, s.sawRecovery, s.refsLost, s.arrival)
  }

  /** The fragments held are those of the unit begun. */
  predicate Holds(s: State, es: seq<Event>) {
    && (s.fuOpen <==> Begun(Classify, es).Some?)
    && (s.fuOpen ==> s.fu == Begun(Classify, es).value)
  }

  predicate Known(s: State, log: seq<Arrival>, sps: seq<byte>, pps: seq<byte>) {
    s.sps == LatestSet(log, SPS, sps) && s.pps == LatestSet(log, PPS, pps)
  }

  lemma KnownSets(sei: SeiTest, s: State, log: seq<Arrival>, sps: seq<byte>, pps: seq<byte>)
    requires Known(s, log, sps, pps)
    ensures Format(sei, sps, pps).sets(log) == Both(s.sps, s.pps)
  {
  }

  lemma NothingAppended(au: seq<byte>)
    ensures au + StartCoded([]) == au
  {
  }

  /** What a packet does, in terms of the units it completes. */
  predicate Takes(sei: SeiTest, s: State, r: State, a: Arrival) {
    && r.au == s.au + StartCoded(a.nals)
    && r.out == s.out && r.pts == s.pts && r.arrival == s.arrival
    && (r.sawIdr <==> s.sawIdr || AnnouncesIdr(a)) && (r.sawRecovery <==> s.sawRecovery || RecoversAt(sei, a))
    && r.sps == SetOf(a, SPS, s.sps) && r.pps == SetOf(a, PPS, s.pps)
    && (r.refsLost <==> s.refsLost || Classify(a.packet.payload).Refused?)
  }

  lemma WholeTakes(sei: SeiTest, s: State, p: Packet, es: seq<Event>)
    requires Classify(p.payload).Whole? && Readable(p.payload)
    ensures var r := Receive(sei, s, p.payload);
            && Takes(sei, s, r, Arrival(p, Completed(Classify, es, p.payload)))
            && r.fuOpen == s.fuOpen && r.fu == s.fu
  {
    hide StartCoded, Units, Begun, HasType, Recovers, Latest, Consume, ConsumeAll;
    var nals := Classify(p.payload).nals;
    if NalType(p.payload[0]) == STAP_A {
      ConsumedAll(sei, s, nals);
      ConsumedFlags(sei, s, nals);
    } else {
      assert ConsumeAll(sei, s, nals) == Consume(sei, s, p.payload) by { OneConsumed(sei, s, p.payload); }
      ConsumedAll(sei, s, nals);
      ConsumedFlags(sei, s, nals);
      OneUnit(p.payload);
    }
  }

  lemma OneConsumed(sei: SeiTest, s: State, nal: seq<byte>)
    requires nal != []
    ensures ConsumeAll(sei, s, [nal]) == Consume(sei, s, nal)
  {
    hide Consume;
  }

  lemma OneUnit(nal: seq<byte>)
    requires nal != []
    ensures HasType([nal], IDR) <==> NalType(nal[0]) == IDR
  {
    hide NalType;
    assert [nal][0] == nal;
  }

  lemma FragmentTakes(sei: SeiTest, s: State, p: Packet, es: seq<Event>)
    requires IsFragment(p.payload) && Holds(s, es)
    ensures var r := Receive(sei, s, p.payload);
            Takes(sei, s, r, Arrival(p, Completed(Classify, es, p.payload))) && Holds(r, es + [Rtp(p)])
  {
    hide StartCoded, Units, Begun, HasType, Recovers, NalType, IsStart, IsEnd;
    BegunSnoc(Classify, es, Rtp(p));
    NothingAppended(s.au);
  }

  lemma WholeHolds(s: State, r: State, p: Packet, es: seq<Event>)
    requires Holds(s, es) && r.fuOpen == s.fuOpen && r.fu == s.fu
    requires !Classify(p.payload).First? && !Classify(p.payload).More?
    ensures Holds(r, es + [Rtp(p)])
  {
    hide Begun, Classify;
    BegunSnoc(Classify, es, Rtp(p));
  }

  lemma RefusedTakes(sei: SeiTest, s: State, p: Packet, es: seq<Event>)
    requires Classify(p.payload).Refused?
    ensures Readable(p.payload)
    ensures var r := Receive(sei, s, p.payload);
            && Takes(sei, s, r, Arrival(p, Completed(Classify, es, p.payload)))
            && r.fuOpen == s.fuOpen && r.fu == s.fu
  {
    hide StartCoded, Units, Begun, HasType;
    NothingAppended(s.au);
  }

  lemma ReceiveTakes(sei: SeiTest, s: State, p: Packet, es: seq<Event>)
    requires p.payload != [] && Readable(p.payload) && !Truncated(p.payload) && Holds(s, es)
    ensures !Classify(p.payload).Cut? && !Classify(p.payload).Ignored?
    ensures var r := Receive(sei, s, p.payload);
            Takes(sei, s, r, Arrival(p, Completed(Classify, es, p.payload))) && Holds(r, es + [Rtp(p)])
  {
    hide Takes, Holds, Completed, Receive, Units;
    if IsFragment(p.payload) {
      FragmentTakes(sei, s, p, es);
    } else if Classify(p.payload).Refused? {
      RefusedTakes(sei, s, p, es);
      WholeHolds(s, Receive(sei, s, p.payload), p, es);
    } else {
      WholeTakes(sei, s, p, es);
      WholeHolds(s, Receive(sei, s, p.payload), p, es);
    }
  }

  /** Everything about the state, from the events that led to it. */
  ghost predicate Follows(sei: SeiTest, sps: seq<byte>, pps: seq<byte>, es: seq<Event>, s: State) {
    && Accounted(Format(sei, sps, pps), View(s), LedgerOf(Format(sei, sps, pps), es))
    && Known(s, Log(Classify, es), sps, pps) && Holds(s, es)
  }

  lemma EmitAccounted(sei: SeiTest, sps: seq<byte>, pps: seq<byte>, s: State, log: seq<Arrival>, l: Ledger, withSets: bool)
    requires Accounted(Format(sei, sps, pps), View(s), l) && Known(s, log, sps, pps)
    requires s.au != []
    ensures Accounted(Format(sei, sps, pps), View(EmitAu(s, s.pts, withSets && s.sawIdr)),
                      Close(Format(sei, sps, pps), log, l, withSets))
  {
    hide Accounted, Known, LatestSet;
    KnownSets(sei, s, log, sps, pps);
    var r := EmitAu(s, s.pts, withSets && s.sawIdr);
    AccountEmitted(Format(sei, sps, pps), View(s), l, log, r.out[|s.out|], withSets);
  }

  /** A new time stamp. */
  lemma FlushedAccounted(sei: SeiTest, sps: seq<byte>, pps: seq<byte>, s: State, log: seq<Arrival>, l: Ledger, p: Packet)
    requires Accounted(Format(sei, sps, pps), View(s), l) && Known(s, log, sps, pps)
    ensures var f := Flushed(s, p);
            && Accounted(Format(sei, sps, pps), View(f), AtStamp(Format(sei, sps, pps), log, l, p.pts))
            && Known(f, log, sps, pps) && f.fu == s.fu && f.fuOpen == s.fuOpen && (f.au != [] ==> f.pts == p.pts)
  {
    hide Known, AnyMarks, Leading, LastStamp, Carries, Close;
    assert Known(Flushed(s, p), log, sps, pps) by { SameSets(s, Flushed(s, p), log, sps, pps); }
    EmptyIffNone(UnitsOf(l.open));
    if s.au != [] && p.pts != s.pts {
      EmitAccounted(sei, sps, pps, s, log, l, false);
    }
  }

  lemma SameSets(s: State, s': State, log: seq<Arrival>, sps: seq<byte>, pps: seq<byte>)
    requires Known(s, log, sps, pps) && s'.sps == s.sps && s'.pps == s.pps
    ensures Known(s', log, sps, pps)
  {
  }

  /** The packet itself. */
  lemma PostAccounted(sei: SeiTest, sps: seq<byte>, pps: seq<byte>, f: State, log: seq<Arrival>, l: Ledger, p: Packet,
                      r: State, a: Arrival)
    requires Accounted(Format(sei, sps, pps), View(f), l) && Known(f, log, sps, pps)
    requires a.packet == p && (f.au != [] ==> f.pts == p.pts)
    requires Takes(sei, f.(arrival := if f.au == [] && p.arrival != 0 then p.arrival else f.arrival, pts := p.pts), r, a)
    ensures var posted := Post(l, a);
            Accounted(Format(sei, sps, pps), View(r),
                      if Classify(p.payload).Refused? then posted.(lost := true) else posted)
    ensures Known(r, log + [a], sps, pps) && r.pts == p.pts
  {
    hide Accounted, RecoversAt, AnnouncesIdr, SetOf, Classify, StartCoded;
    AccountPosted(Format(sei, sps, pps), View(f), l, a);
    assert (log + [a])[..|log|] == log;
    if Classify(p.payload).Refused? { LostAccounted(Format(sei, sps, pps), View(r).(lost := f.refsLost), Post(l, a)); }
  }

  /** A fragment without its header: only the stamps. */
  lemma CutTakes(sei: SeiTest, s: State, p: Packet, es: seq<Event>)
    requires Truncated(p.payload) && Holds(s, es)
    ensures Classify(p.payload) == Cut
    ensures Takes(sei, s, s, Arrival(p, Completed(Classify, es, p.payload))) && Holds(s, es + [Rtp(p)])
  {
    hide StartCoded, Begun;
    NothingAppended(s.au);
    BegunSnoc(Classify, es, Rtp(p));
  }

  lemma StepFollows(sei: SeiTest, sps: seq<byte>, pps: seq<byte>, es: seq<Event>, s: State, e: Event)
    requires Follows(sei, sps, pps, es, s) && ReadableEvent(e)
    ensures Follows(sei, sps, pps, es + [e], Step(sei, s, e))
  {
    hide Accounted, Known, Holds, LatestSet, Completed, Close, Receive, Takes, Truncated, Readable, AtStamp, Classify, EmitAu;
    var codec := Format(sei, sps, pps);
    assert (es + [e])[..|es|] == es;
    var log, l := Log(Classify, es), LedgerOf(codec, es);
    if e.ReferenceLost? {
      LossFollows(sei, sps, pps, es, s);
    } else if e.packet.payload == [] {
      NothingRead(s, es, e.packet);
    } else {
      var p := e.packet;
      var a := Arrival(p, Completed(Classify, es, p.payload));
      var f := Flushed(s, p);
      FlushedAccounted(sei, sps, pps, s, log, l, p);
      HeldOn(s, Begin(s, p), es);
      if Truncated(p.payload) {
        CutTakes(sei, Begin(s, p), p, es);
        PostAccounted(sei, sps, pps, f, log, AtStamp(codec, log, l, p.pts), p, Begin(s, p), a);
      } else {
        var r := Receive(sei, Begin(s, p), p.payload);
        ReceiveTakes(sei, Begin(s, p), p, es);
        PostAccounted(sei, sps, pps, f, log, AtStamp(codec, log, l, p.pts), p, r, a);
        MarkerFollows(sei, sps, pps, log, l, s, e, r, a);
        HeldOn(r, Step(sei, s, e), es + [e]);
      }
    }
  }

  /** The marker. */
  lemma MarkerFollows(sei: SeiTest, sps: seq<byte>, pps: seq<byte>, log: seq<Arrival>, l: Ledger, s: State, e: Event,
                      r: State, a: Arrival)
    requires e.Rtp? && e.packet.payload != [] && Readable(e.packet.payload) && !Truncated(e.packet.payload)
    requires !Classify(e.packet.payload).Cut? && a.packet == e.packet
    requires r == Receive(sei, Begin(s, e.packet), e.packet.payload) && r.pts == e.packet.pts
    requires var codec := Format(sei, sps, pps);
             var posted := Post(AtStamp(codec, log, l, e.packet.pts), a);
             Accounted(codec, View(r), if Classify(e.packet.payload).Refused? then posted.(lost := true) else posted)
    requires Known(r, log + [a], sps, pps)
    ensures Accounted(Format(sei, sps, pps), View(Step(sei, s, e)), PostPacket(Format(sei, sps, pps), log, l, a))
    ensures Known(Step(sei, s, e), log + [a], sps, pps)
    ensures Step(sei, s, e).fu == r.fu && Step(sei, s, e).fuOpen == r.fuOpen
  {
    hide Known, Close, Receive, Truncated, Readable, AtStamp, Classify, AnyMarks, Leading, LastStamp, Carries;
    var codec := Format(sei, sps, pps);
    var posted := Post(AtStamp(codec, log, l, e.packet.pts), a);
    var judged := if Classify(e.packet.payload).Refused? then posted.(lost := true) else posted;
    EmptyIffNone(UnitsOf(judged.open));
    SameSets(r, Step(sei, s, e), log + [a], sps, pps);
    if e.packet.marker && r.au != [] {
      EmitAccounted(sei, sps, pps, r, log + [a], judged, true);
    }
  }

  lemma HeldOn(s: State, s': State, es: seq<Event>)
    requires s.fu == s'.fu && s.fuOpen == s'.fuOpen
    ensures Holds(s, es) <==> Holds(s', es)
  {
    hide Begun;
  }

  lemma LossFollows(sei: SeiTest, sps: seq<byte>, pps: seq<byte>, es: seq<Event>, s: State)
    requires Follows(sei, sps, pps, es, s)
    ensures Follows(sei, sps, pps, es + [ReferenceLost], MarkReferenceLost(s))
  {
    hide Accounted, LatestSet, Begun, Completed;
    assert (es + [ReferenceLost])[..|es|] == es;
    assert Log(Classify, es) + [] == Log(Classify, es);
    BegunSnoc(Classify, es, ReferenceLost);
    LostAccounted(Format(sei, sps, pps), View(s), LedgerOf(Format(sei, sps, pps), es));
  }

  /** An empty payload leaves no trace. */
  lemma NothingRead(s: State, es: seq<Event>, p: Packet)
    requires p.payload == []
    ensures Classify(p.payload) == Ignored && Log(Classify, es + [Rtp(p)]) == Log(Classify, es)
    ensures Holds(s, es + [Rtp(p)]) <==> Holds(s, es)
  {
    hide Begun, Completed;
    assert (es + [Rtp(p)])[..|es|] == es;
    BegunSnoc(Classify, es, Rtp(p));
  }

  function Start(sps: seq<byte>, pps: seq<byte>): State { FRESH.(sps := sps, pps := pps) }

  lemma {:induction false} RunFollows(sei: SeiTest, sps: seq<byte>, pps: seq<byte>, es: seq<Event>)
    requires ReadableEvents(es)
    ensures Follows(sei, sps, pps, es, Run(sei, Start(sps, pps), es))
    decreases |es|
  {
    hide Follows, Step, ReadableEvent;
    if es == [] {
      StartFollows(sei, sps, pps);
    } else {
      RunFollows(sei, sps, pps, es[..|es| - 1]);
      StepFollows(sei, sps, pps, es[..|es| - 1], Run(sei, Start(sps, pps), es[..|es| - 1]), es[|es| - 1]);
      assert es[..|es| - 1] + [es[|es| - 1]] == es;
    }
  }

  lemma StartFollows(sei: SeiTest, sps: seq<byte>, pps: seq<byte>)
    ensures Follows(sei, sps, pps, [], Start(sps, pps))
  {
    NoLedgerBalanced(Format(sei, sps, pps), 0);
  }

  /**
   Access unit conservation: in every run without a reset, whatever parameter sets came beforehand and with
   references lost anywhere in between, everything emitted follows from the events alone.  The packets taken
   in fall into parts, one for each access unit emitted and one for the buffer; each access unit is that of
   its part, with the parameter sets in front, the flags and the stamps that Carries and LedgerOf say.
   */
  lemma AccessUnitsConserved(sei: SeiTest, sps: seq<byte>, pps: seq<byte>, es: seq<Event>)
    requires ReadableEvents(es)
    ensures var l := LedgerOf(Format(sei, sps, pps), es);
            && Accounted(Format(sei, sps, pps), View(Run(sei, Start(sps, pps), es)), l)
            && All(l) == Log(Classify, es)
  {
    RunFollows(sei, sps, pps, es);
    AllIsLog(Format(sei, sps, pps), es);
  }

  /**
   Fragments, for every run: a last fragment completes the unit begun by the last first fragment, its rebuilt
   header and all pieces since, if no loss was reported and no fragment was the last in between; otherwise it
   completes nothing.
   */
  lemma FragmentsJoined(sei: SeiTest, sps: seq<byte>, pps: seq<byte>, es: seq<Event>, p: Packet, i: nat)
    requires ReadableEvents(es) && IsMore(Classify, Rtp(p)) && IsLast(Classify, Rtp(p))
    requires i < |es| && IsFirst(Classify, es[i]) && forall k :: i < k < |es| ==> !IsFirst(Classify, es[k])
    ensures p.payload != [] && Readable(p.payload) && !Truncated(p.payload)
    ensures var s := Run(sei, Start(sps, pps), es);
            var begun := Flushed(s, p);
            var whole := Classify(es[i].packet.payload).header + Pieces(Classify, es[i..]) + Classify(p.payload).piece;
            var r := Receive(sei, Begin(s, p), p.payload);
            r.au == if Unbroken(Classify, es, i) then begun.au + StartCoded([whole]) else begun.au
  {
    hide Follows, Holds, Takes, Receive, Unbroken, Completed, StartCoded, Flushed, IsMore, IsLast, Classify;
    var s := Run(sei, Start(sps, pps), es);
    RunFollows(sei, sps, pps, es);
    HoldsAfter(sei, sps, pps, es, s);
    SameBuffer(s, p);
    HeldOn(s, Begin(s, p), es);
    ReadableFragment(p);
    ReceiveTakes(sei, Begin(s, p), p, es);
    LastCompletes(Classify, es, p, i);
    NothingAppended(Flushed(s, p).au);
    TakesUnits(sei, Begin(s, p), Receive(sei, Begin(s, p), p.payload), Arrival(p, Completed(Classify, es, p.payload)));
  }

  lemma HoldsAfter(sei: SeiTest, sps: seq<byte>, pps: seq<byte>, es: seq<Event>, s: State)
    requires Follows(sei, sps, pps, es, s)
    ensures Holds(s, es)
  {
  }

  lemma SameBuffer(s: State, p: Packet)
    ensures Begin(s, p).fu == s.fu && Begin(s, p).fuOpen == s.fuOpen && Begin(s, p).au == Flushed(s, p).au
  {
  }

  lemma ReadableFragment(p: Packet)
    requires IsMore(Classify, Rtp(p))
    ensures p.payload != [] && Readable(p.payload) && !Truncated(p.payload)
  {
  }

  lemma TakesUnits(sei: SeiTest, s: State, r: State, a: Arrival)
    requires Takes(sei, s, r, a)
    ensures r.au == s.au + StartCoded(a.nals)
  {
  }

  // ----- packetization

  /** Sections 5.6, 5.7.1 and 5.8 of RFC 6184. */
  predicate Fits(c: Carrier) {
    match c
    case Single(nal) => nal != [] && 1 <= NalType(nal[0]) <= 23
    case Aggregate(header, units) =>
      |header| == 1 && NalType(header[0]) == STAP_A && forall k :: 0 <= k < |units| ==> 1 <= |units[k]| < TWO_16
    case Fragments(whole, pieces) => whole != [] && pieces != [] && Flat(pieces) == whole[1..]
  }

  function FuPayload(header: byte, pieces: seq<seq<byte>>, k: nat): (payload: seq<byte>)
    requires k < |pieces|
    ensures |payload| == 2 + |pieces[k]|
  {
    var start, end := if k == 0 then 128 else 0, if k == |pieces| - 1 then 64 else 0;
    [header as int / 32 * 32 + FU_A, start + end + header as int % 32] + pieces[k]
  }

  function Payloads(c: Carrier): seq<seq<byte>>
    requires Fits(c)
  {
    match c
    case Single(nal) => [nal]
    case Aggregate(header, units) => [header + Body(units)]
    case Fragments(whole, pieces) => seq(|pieces|, k requires 0 <= k < |pieces| => FuPayload(whole[0], pieces, k))
  }

  predicate AllFit(cs: seq<Carrier>) { forall k :: 0 <= k < |cs| ==> Fits(cs[k]) }

  function AllPayloads(cs: seq<Carrier>): seq<seq<byte>>
    requires AllFit(cs)
  {
    if cs == [] then [] else Payloads(cs[0]) + AllPayloads(cs[1..])
  }

  predicate AllReadable(ps: seq<Packet>) { forall k :: 0 <= k < |ps| ==> Readable(ps[k].payload) }

  function Feed(sei: SeiTest, s: State, ps: seq<Packet>): State
    requires AllReadable(ps)
    decreases |ps|
  {
    if ps == [] then s else Feed(sei, OnRtp(sei, s, ps[0]), ps[1..])
  }

  lemma {:induction false} FeedConcat(sei: SeiTest, s: State, a: seq<Packet>, b: seq<Packet>)
    requires AllReadable(a) && AllReadable(b)
    ensures AllReadable(a + b) && Feed(sei, s, a + b) == Feed(sei, Feed(sei, s, a), b)
    decreases |a|
  {
    if a == [] {
      assert a + b == b;
    } else {
      assert (a + b)[1..] == a[1..] + b;
      FeedConcat(sei, OnRtp(sei, s, a[0]), a[1..], b);
    }
  }

  /** Ready for units of time stamp `pts`: no fragments pending, and the access unit is of that time. */
  predicate Ready(s: State, pts: int) {
    !s.fuOpen && s.fu == [] && (s.au == [] || s.pts == pts)
  }

  /** The state without the arrival stamp and the write-only copy of the fragment header. */
  function Core(s: State): State { s.(arrival := 0, fuHeader := 0) }

  lemma {:induction false} ConsumeAllCore(sei: SeiTest, s: State, s': State, nals: seq<seq<byte>>)
    requires NoneEmpty(nals) && Core(s) == Core(s')
    ensures Core(ConsumeAll(sei, s, nals)) == Core(ConsumeAll(sei, s', nals))
    decreases |nals|
  {
    if nals != [] { ConsumeAllCore(sei, Consume(sei, s, nals[0]), Consume(sei, s', nals[0]), nals[1..]); }
  }

  lemma {:induction false} UnitsOfBody(units: seq<seq<byte>>)
    requires forall k :: 0 <= k < |units| ==> |units[k]| < TWO_16
    ensures Units(Body(units)) == units
  {
    if units != [] {
      var body := Body(units);
      var n := |units[0]|;
      assert body[0] as int * 256 + body[1] as int == n;
      assert body[2..2 + n] == units[0] && body[2 + n..] == Body(units[1..]);
      UnitsOfBody(units[1..]);
    }
  }

  /** The units and what follows them make up the bytes. */
  predicate Parts(rest: seq<byte>, tail: seq<byte>) {
    && (forall k :: 0 <= k < |Units(rest)| ==> |Units(rest)[k]| < TWO_16)
    && rest == Body(Units(rest)) + tail
  }

  /** On every input the units of a STAP-A are exactly those that are there in full: their sizes and bytes are
      the beginning of the payload, and what remains is too short for a size or for the unit of that size. */
  lemma {:induction false} UnitsExact(rest: seq<byte>) returns (tail: seq<byte>)
    ensures Parts(rest, tail)
    ensures |tail| < 2 || 2 + U16(tail[0], tail[1]) > |tail|
    decreases |rest|
  {
    if |rest| < 2 || 2 + U16(rest[0], rest[1]) > |rest| {
      tail := rest;
      assert [] + rest == rest;
    } else {
      tail := UnitsExact(rest[2 + U16(rest[0], rest[1])..]);
      PartsGrow(rest, tail);
    }
  }

  /** One unit more in front. */
  lemma PartsGrow(rest: seq<byte>, tail: seq<byte>)
    requires |rest| >= 2 && 2 + U16(rest[0], rest[1]) <= |rest|
    requires Parts(rest[2 + U16(rest[0], rest[1])..], tail)
    ensures Parts(rest, tail)
  {
    hide Units, U16, Body;
    var n := U16(rest[0], rest[1]);
    UnitsUnfold(rest);
    BodyUnfold(rest[0], rest[1], rest[2..2 + n], Units(rest[2 + n..]), tail);
    assert rest == [rest[0], rest[1]] + rest[2..2 + n] + rest[2 + n..];
  }

  lemma UnitsUnfold(rest: seq<byte>)
    requires |rest| >= 2 && 2 + U16(rest[0], rest[1]) <= |rest|
    ensures var n := U16(rest[0], rest[1]); Units(rest) == [rest[2..2 + n]] + Units(rest[2 + n..])
  {
  }

  lemma BeginReady(s: State, p: Packet)
    requires Ready(s, p.pts)
    ensures Core(Begin(s, p)) == Core(s.(pts := p.pts))
  {
  }

  /** The bytes of fragment `k` say what they should. */
  lemma FuBytes(header: byte, pieces: seq<seq<byte>>, k: nat)
    requires k < |pieces|
    ensures var f := FuPayload(header, pieces, k);
            && NalType(f[0]) == FU_A && NalType(f[1]) == NalType(header)
            && (IsStart(f[1]) <==> k == 0) && (IsEnd(f[1]) <==> k == |pieces| - 1)
            && f[0] as int / 32 * 32 + f[1] as int % 32 == header as int
            && f[2..] == pieces[k]
  {
    var start, end := if k == 0 then 128 else 0, if k == |pieces| - 1 then 64 else 0;
    var t := header as int % 32;
    assert (start + end + t) % 32 == t;
    assert (start + end + t) / 64 == (if k == 0 then 2 else 0) + (if k == |pieces| - 1 then 1 else 0);
  }

  /** The state while the fragments of a unit with header byte `header` are coming in. */
  function Holding(s: State, pts: int, header: byte, got: seq<byte>): State {
    s.(pts := pts, fu := [header] + got, fuOpen := true, sawIdr := s.sawIdr || NalType(header) == IDR)
  }

  lemma StartCore(s: State, s': State, indicator: byte, header: byte)
    requires Core(s) == Core(s')
    ensures Core(StartFu(s, indicator, header)) == Core(StartFu(s', indicator, header))
  {
    hide NalType;
  }

  lemma FinishCore(sei: SeiTest, s: State, s': State, t: nat)
    requires Core(s) == Core(s')
    ensures Core(FinishFu(sei, s, t)) == Core(FinishFu(sei, s', t))
  {
    hide StartCoded;
  }

  lemma {:induction false} FragmentCore(sei: SeiTest, s: State, s': State, payload: seq<byte>)
    requires |payload| >= 2 && Core(s) == Core(s')
    ensures Core(Fragment(sei, s, payload)) == Core(Fragment(sei, s', payload))
  {
    hide NalType, IsStart, IsEnd, StartFu, FinishFu;
    var a, b := s, s';
    if IsStart(payload[1]) {
      StartCore(s, s', payload[0], payload[1]);
      a, b := StartFu(s, payload[0], payload[1]), StartFu(s', payload[0], payload[1]);
    }
    assert Core(a).fuOpen == a.fuOpen && Core(b).fuOpen == b.fuOpen && Core(a).fu == a.fu && Core(b).fu == b.fu;
    FinishCore(sei, a.(fu := a.fu + payload[2..]), b.(fu := b.fu + payload[2..]), NalType(payload[1]));
  }

  /** Fragment `k` of a unit, from the state that holds the fragments before it. */
  lemma FragmentAdds(sei: SeiTest, s: State, pts: int, header: byte, pieces: seq<seq<byte>>, k: nat)
    requires k < |pieces|
    ensures var before := if k == 0 then s.(pts := pts) else Holding(s, pts, header, Flat(pieces[..k]));
            var after := Holding(s, pts, header, Flat(pieces[..k + 1]));
            Core(Fragment(sei, before, FuPayload(header, pieces, k)))
            == Core(if k == |pieces| - 1 then FinishFu(sei, after, NalType(header)) else after)
  {
    hide FuPayload, IsStart, IsEnd, NalType, StartCoded;
    FuBytes(header, pieces, k);
    assert pieces[..k + 1][..k] == pieces[..k];
    assert [header] + Flat(pieces[..k]) + pieces[k] == [header] + (Flat(pieces[..k]) + pieces[k]);
    if k == 0 { assert Flat(pieces[..1]) == pieces[0]; }
  }

  lemma FragmentHeld(sei: SeiTest, s: State, s1: State, header: byte, pieces: seq<seq<byte>>, k: nat, p: Packet)
    requires k < |pieces| && p.payload == FuPayload(header, pieces, k) && !p.marker
    requires if k == 0 then s1 == s && Ready(s, p.pts) else Core(s1) == Core(Holding(s, p.pts, header, Flat(pieces[..k])))
    ensures Readable(p.payload)
    ensures var after := Holding(s, p.pts, header, Flat(pieces[..k + 1]));
            Core(OnRtp(sei, s1, p)) == Core(if k == |pieces| - 1 then FinishFu(sei, after, NalType(header)) else after)
  {
    hide FuPayload, NalType, Fragment, FinishFu;
    FuBytes(header, pieces, k);
    var before := if k == 0 then s.(pts := p.pts) else Holding(s, p.pts, header, Flat(pieces[..k]));
    assert Core(Begin(s1, p)) == Core(before);
    FragmentCore(sei, Begin(s1, p), before, p.payload);
    FragmentAdds(sei, s, p.pts, header, pieces, k);
  }

  lemma {:induction false} FragmentsArrive(sei: SeiTest, s: State, whole: seq<byte>,
          pieces: seq<seq<byte>>, ps: seq<Packet>, pts: int, k: nat)
    requires Fits(Fragments(whole, pieces)) && Bring(ps, Payloads(Fragments(whole, pieces)), pts)
    requires Ready(s, pts) && 1 <= k <= |pieces|
    ensures AllReadable(ps[..k])
    ensures k < |pieces| ==>
      Core(Feed(sei, s, ps[..k])) == Core(Holding(s, pts, whole[0], Flat(pieces[..k])))
    ensures k == |pieces| ==>
      Core(Feed(sei, s, ps[..k])) == Core(FinishFu(sei, Holding(s, pts, whole[0], whole[1..]), NalType(whole[0])))
  {
    hide FuPayload, Holding, FinishFu, OnRtp, Core, Ready;
    var p := ps[k - 1];
    FuBytes(whole[0], pieces, k - 1);
    var s1 := s;
    if k > 1 { FragmentsArrive(sei, s, whole, pieces, ps, pts, k - 1); s1 := Feed(sei, s, ps[..k - 1]); }
    assert ps[..k] == ps[..k - 1] + [p];
    assert Feed(sei, s, ps[..k - 1]) == s1;
    FeedConcat(sei, s, ps[..k - 1], [p]);
    assert Feed(sei, s1, [p]) == OnRtp(sei, s1, p);
    FragmentHeld(sei, s, s1, whole[0], pieces, k - 1, p);
    assert pieces[..|pieces|] == pieces;
  }

  lemma FinishIsConsume(sei: SeiTest, s: State, pts: int, whole: seq<byte>)
    requires whole != [] && Ready(s, pts)
    ensures FinishFu(sei, Holding(s, pts, whole[0], whole[1..]), NalType(whole[0])) == Consume(sei, s.(pts := pts), whole)
  {
    assert [whole[0]] + whole[1..] == whole;
  }

  lemma OnePacket(sei: SeiTest, s: State, p: Packet, nals: seq<seq<byte>>)
    requires p.payload != [] && !p.marker && Ready(s, p.pts) && NoneEmpty(nals)
    requires var t := NalType(p.payload[0]);
             (1 <= t <= 23 && nals == [p.payload]) || (t == STAP_A && nals == Units(p.payload[1..]))
    ensures AllReadable([p])
    ensures Core(Feed(sei, s, [p])) == Core(ConsumeAll(sei, s.(pts := p.pts), nals))
  {
    hide Consume, Units, Core, Ready, Begin;
    BeginReady(s, p);
    ConsumeAllCore(sei, Begin(s, p), s.(pts := p.pts), nals);
    assert Feed(sei, s, [p]) == OnRtp(sei, s, p);
    assert nals == [p.payload] ==> ConsumeAll(sei, Begin(s, p), nals) == Consume(sei, Begin(s, p), p.payload);
  }

  lemma CarrierArrives(sei: SeiTest, s: State, c: Carrier, ps: seq<Packet>, pts: int)
    requires Ready(s, pts) && Fits(c) && Bring(ps, Payloads(c), pts)
    ensures AllReadable(ps) && NoneEmpty(Carried(c))
    ensures Core(Feed(sei, s, ps)) == Core(ConsumeAll(sei, s.(pts := pts), Carried(c)))
  {
    hide Core, Ready, Consume, Feed, NalType;
    match c
    case Single(nal) =>
      assert ps == [ps[0]];
      OnePacket(sei, s, ps[0], [nal]);
    case Aggregate(header, units) =>
      assert ps == [ps[0]];
      UnitsOfBody(units);
      assert ps[0].payload[1..] == Body(units);
      OnePacket(sei, s, ps[0], units);
    case Fragments(whole, pieces) =>
      assert ps[..|pieces|] == ps;
      FragmentsArrive(sei, s, whole, pieces, ps, pts, |pieces|);
      FinishIsConsume(sei, s, pts, whole);
  }

  lemma ReadyAfter(sei: SeiTest, s: State, r: State, nals: seq<seq<byte>>, pts: int)
    requires Ready(s, pts) && NoneEmpty(nals) && Core(r) == Core(ConsumeAll(sei, s.(pts := pts), nals))
    ensures Ready(r, pts) && r.pts == pts
  {
    ConsumedAll(sei, s.(pts := pts), nals);
    assert Core(r).fu == r.fu && Core(r).fuOpen == r.fuOpen && Core(r).pts == r.pts;
  }

  lemma {:induction false} ConsumeAllConcat(sei: SeiTest, s: State, a: seq<seq<byte>>, b: seq<seq<byte>>)
    requires NoneEmpty(a) && NoneEmpty(b)
    ensures NoneEmpty(a + b) && ConsumeAll(sei, s, a + b) == ConsumeAll(sei, ConsumeAll(sei, s, a), b)
    decreases |a|
  {
    if a == [] {
      assert a + b == b;
    } else {
      assert (a + b)[1..] == a[1..] + b;
      ConsumeAllConcat(sei, Consume(sei, s, a[0]), a[1..], b);
    }
  }

  /**
   Packetization independence: with no fragments pending, packets of one time stamp have the effect of
   consuming their NAL units in order, however the units are put into packets: one by one, aggregated, or
   cut into fragments.  The access unit, the parameter sets and all flags are the same.
   */
  lemma {:induction false} PacketizationIndependent(sei: SeiTest, s: State, cs: seq<Carrier>, ps: seq<Packet>, pts: int)
    requires Ready(s, pts) && AllFit(cs) && Bring(ps, AllPayloads(cs), pts)
    ensures AllReadable(ps) && NoneEmpty(AllCarried(cs))
    ensures ps != [] ==> Core(Feed(sei, s, ps)) == Core(ConsumeAll(sei, s.(pts := pts), AllCarried(cs)))
    decreases |cs|
  {
    hide Core, Ready, Consume, Payloads, Carried, Fits;
    if cs != [] {
      var c, rest := cs[0], cs[1..];
      var n := |Payloads(c)|;
      var ps1, ps2 := ps[..n], ps[n..];
      assert ps == ps1 + ps2;
      assert AllPayloads(cs)[..n] == Payloads(c) && AllPayloads(cs)[n..] == AllPayloads(rest);
      SomePayload(c);
      CarrierArrives(sei, s, c, ps1, pts);
      var s1 := Feed(sei, s, ps1);
      ReadyAfter(sei, s, s1, Carried(c), pts);
      PacketizationIndependent(sei, s1, rest, ps2, pts);
      FeedConcat(sei, s, ps1, ps2);
      ConsumeAllConcat(sei, s.(pts := pts), Carried(c), AllCarried(rest));
      assert s1.(pts := pts) == s1;
      ConsumeAllCore(sei, s1, ConsumeAll(sei, s.(pts := pts), Carried(c)), AllCarried(rest));
      if ps2 == [] { NothingLeft(rest); }
    }
  }

  lemma SomePayload(c: Carrier)
    requires Fits(c)
    ensures Payloads(c) != []
  {
  }

  lemma NothingLeft(cs: seq<Carrier>)
    requires AllFit(cs) && AllPayloads(cs) == []
    ensures cs == []
  {
    if cs != [] { SomePayload(cs[0]); }
  }

  // ----- the access unit that comes out

  lemma MarkedFeed(sei: SeiTest, s: State, ps: seq<Packet>)
    requires ps != [] && AllReadable(ps)
    requires var p := ps[|ps| - 1]; !p.marker && p.payload != [] && !Truncated(p.payload)
    ensures AllReadable(Marked(ps))
    ensures var r := Feed(sei, s, ps);
            Feed(sei, s, Marked(ps)) == EmitAu(r, ps[|ps| - 1].pts, r.sawIdr)
  {
    hide Receive, Truncated, EmitAu, Readable;
    var p, init := ps[|ps| - 1], ps[..|ps| - 1];
    var p' := p.(marker := true);
    assert ps == init + [p];
    FeedConcat(sei, s, init, [p]);
    FeedConcat(sei, s, init, [p']);
    var s1 := Feed(sei, s, init);
    assert Feed(sei, s1, [p]) == OnRtp(sei, s1, p) && Feed(sei, s1, [p']) == OnRtp(sei, s1, p');
    assert Begin(s1, p) == Begin(s1, p');
  }

  lemma {:induction false} LastPayload(cs: seq<Carrier>)
    requires AllFit(cs) && cs != []
    ensures var all := AllPayloads(cs);
            all != [] && all[|all| - 1] != [] && !Truncated(all[|all| - 1])
    decreases |cs|
  {
    var c := cs[0];
    if |cs| > 1 {
      LastPayload(cs[1..]);
    } else {
      assert AllPayloads(cs) == Payloads(c);
      if c.Fragments? { FuBytes(c.whole[0], c.pieces, |c.pieces| - 1); }
    }
  }

  lemma {:induction false} ConsumedFlags(sei: SeiTest, s: State, nals: seq<seq<byte>>)
    requires NoneEmpty(nals)
    ensures var r := ConsumeAll(sei, s, nals);
            && r.sps == Latest(nals, SPS, s.sps) && r.pps == Latest(nals, PPS, s.pps)
            && (r.sawIdr <==> s.sawIdr || HasType(nals, IDR))
            && (r.sawRecovery <==> s.sawRecovery || Recovers(sei, nals))
    decreases |nals|
  {
    hide NalType;
    if nals != [] {
      var s1, rest := Consume(sei, s, nals[0]), nals[1..];
      ConsumedFlags(sei, s1, rest);
      assert forall k :: 0 <= k < |rest| ==> rest[k] == nals[k + 1];
      assert forall k :: 0 < k < |nals| ==> nals[k] == rest[k - 1];
    }
  }

  /** The parameter sets that go in front. */
  function FrontOf(anchor: bool, sps: seq<byte>, pps: seq<byte>): seq<seq<byte>> {
    if anchor && sps != [] && pps != [] then [sps, pps] else []
  }

  lemma NotNothing(nals: seq<seq<byte>>)
    requires nals != []
    ensures StartCoded(nals) != []
  {
  }

  lemma EmittedUnit(r: State, t: State, pts: int)
    requires Core(r) == Core(t) && t.au != []
    ensures var e := EmitAu(r, pts, r.sawIdr);
            && e.au == [] && |e.out| == |t.out| + 1 && e.out[..|t.out|] == t.out
            && e.refsLost == (t.refsLost && !t.sawIdr && !t.sawRecovery)
            && var unit := e.out[|t.out|];
               && unit.pts == pts && unit.bytes == StartCoded(FrontOf(t.sawIdr, t.sps, t.pps)) + t.au
               && unit.anchor == t.sawIdr && unit.recovery == t.sawRecovery && unit.refsLost == t.refsLost
  {
    hide StartCoded;
    assert Core(r).out == r.out && Core(r).au == r.au && Core(r).sps == r.sps && Core(r).pps == r.pps;
    assert Core(r).sawIdr == r.sawIdr && Core(r).sawRecovery == r.sawRecovery && Core(r).refsLost == r.refsLost;
  }

  /**
   From the sender's NAL units to the receiver's: with nothing collected before, however the units of one
   time stamp are put into packets, a marker on the last packet gives exactly one access unit.  Its bytes
   are the units, start-coded, in order, behind the latest parameter sets if it is an anchor; and if the
   units can be split at all, splitting returns them one by one.
   */
  lemma {:induction false} AccessUnitDelivered(sei: SeiTest, s: State, cs: seq<Carrier>, ps: seq<Packet>, pts: int)
    requires !s.fuOpen && s.fu == [] && s.au == []
    requires AllFit(cs) && AllCarried(cs) != [] && Bring(ps, AllPayloads(cs), pts)
    ensures ps != [] && AllReadable(Marked(ps)) && NoneEmpty(AllCarried(cs))
    ensures var nals := AllCarried(cs);
            var anchor := s.sawIdr || HasType(nals, IDR);
            var front := FrontOf(anchor, Latest(nals, SPS, s.sps), Latest(nals, PPS, s.pps));
            var r := Feed(sei, s, Marked(ps));
            && r.au == [] && |r.out| == |s.out| + 1 && r.out[..|s.out|] == s.out
            && r.refsLost == (s.refsLost && !r.out[|s.out|].anchor && !r.out[|s.out|].recovery)
            && var unit := r.out[|s.out|];
               && unit.pts == pts && unit.bytes == StartCoded(front + nals)
               && unit.anchor == anchor && unit.recovery == (s.sawRecovery || Recovers(sei, nals))
               && unit.refsLost == s.refsLost
               && ((forall k :: 0 <= k < |front + nals| ==> Splittable((front + nals)[k])) ==>
                     Split(unit.bytes) == front + nals)
  {
    hide Core, ConsumeAll, Feed, Splittable, Split, Latest, HasType, Recovers, Truncated, StartCoded,
         NalType, EmitAu, OnRtp;
    var nals := AllCarried(cs);
    NothingCarried(cs);
    LastPayload(cs);
    PacketizationIndependent(sei, s, cs, ps, pts);
    MarkedFeed(sei, s, ps);
    var t := ConsumeAll(sei, s.(pts := pts), nals);
    ConsumedAll(sei, s.(pts := pts), nals);
    ConsumedFlags(sei, s.(pts := pts), nals);
    NotNothing(nals);
    assert t.au == StartCoded(nals);
    EmittedUnit(Feed(sei, s, ps), t, pts);
    var front := FrontOf(t.sawIdr, t.sps, t.pps);
    StartCodedConcat(front, nals);
    SplitInvertsIff(front + nals);
  }

  // ----- lost references

  function TellOf(s: State): Told { Told(s.out, s.refsLost) }

  lemma EmitStaysLost(s: State, pts: int, withExtradata: bool)
    ensures StaysLost(TellOf(s), TellOf(EmitAu(s, pts, withExtradata)))
  {
    hide StartCoded, Front, StaysLost;
    NothingTold(TellOf(s));
    if s.au != [] { UnitTold(TellOf(s), EmitAu(s, pts, withExtradata).out[|s.out|]); }
  }

  lemma ReceiveStaysLost(sei: SeiTest, s: State, payload: seq<byte>)
    requires payload != [] && Readable(payload) && !Truncated(payload)
    ensures StaysLost(TellOf(s), TellOf(Receive(sei, s, payload)))
    ensures Classify(payload).Refused? ==> Receive(sei, s, payload) == s.(refsLost := true)
  {
    hide StartCoded, ConsumeAll, Units, StaysLost;
    NothingTold(TellOf(s));
    if NalType(payload[0]) == STAP_A { ConsumedAll(sei, s, Units(payload[1..])); }
  }

  lemma StepStaysLost(sei: SeiTest, s: State, e: Event)
    requires ReadableEvent(e)
    ensures StaysLost(TellOf(s), TellOf(Step(sei, s, e)))
  {
    hide EmitAu, Receive, Readable, Truncated, StaysLost;
    NothingTold(TellOf(s));
    if e.Rtp? && e.packet.payload != [] {
      var p := e.packet;
      EmitStaysLost(s, s.pts, false);
      var s2 := Begin(s, p);
      assert StaysLost(TellOf(s), TellOf(s2));
      if !Truncated(p.payload) {
        var s3 := Receive(sei, s2, p.payload);
        ReceiveStaysLost(sei, s2, p.payload);
        StaysLostTrans(TellOf(s), TellOf(s2), TellOf(s3));
        EmitStaysLost(s3, p.pts, s3.sawIdr);
        StaysLostTrans(TellOf(s), TellOf(s3), TellOf(EmitAu(s3, p.pts, s3.sawIdr)));
      }
    }
  }

  /** Once references are lost every access unit is marked, up to and including the next anchor, in every run. */
  lemma {:induction false} LossHolds(sei: SeiTest, s: State, es: seq<Event>)
    requires ReadableEvents(es)
    ensures StaysLost(TellOf(s), TellOf(Run(sei, s, es)))
    decreases |es|
  {
    hide StaysLost, Step, ReadableEvent;
    if es == [] {
      NothingTold(TellOf(s));
    } else {
      var s1 := Run(sei, s, es[..|es| - 1]);
      LossHolds(sei, s, es[..|es| - 1]);
      StepStaysLost(sei, s1, es[|es| - 1]);
      StaysLostTrans(TellOf(s), TellOf(s1), TellOf(Run(sei, s, es)));
    }
  }

  /** A loss: reported from outside, or a payload of a format that is not supported. */
  predicate Loses(e: Event) { e.ReferenceLost? || Classify(e.packet.payload).Refused? }

  /** How many access units are out when an event is looked at: a new time stamp has ended one before that. */
  function OutBefore(s: State, e: Event): nat { if e.Rtp? then |Flushed(s, e.packet).out| else |s.out| }

  lemma LossMarks(sei: SeiTest, s: State, e: Event)
    requires ReadableEvent(e) && Loses(e)
    ensures MarkedFrom(TellOf(Step(sei, s, e)), OutBefore(s, e))
  {
    hide EmitAu, Receive, Readable, StaysLost, MarkedFrom, Units;
    NothingTold(TellOf(MarkReferenceLost(s)));
    StaysMarked(TellOf(MarkReferenceLost(s)), TellOf(MarkReferenceLost(s)));
    if e.Rtp? {
      var begun := Begin(s, e.packet);
      var r := Receive(sei, begun, e.packet.payload);
      ReceiveStaysLost(sei, begun, e.packet.payload);
      EmitStaysLost(r, e.packet.pts, r.sawIdr);
      NothingTold(TellOf(r));
      StaysMarked(TellOf(r), TellOf(Step(sei, s, e)));
    }
  }

  /**
   After a loss, at any place of any run: every access unit emitted from then on is marked, up to and
   including the next anchor, and the state stays marked if none comes.
   */
  lemma LossAlwaysMarks(sei: SeiTest, s: State, es: seq<Event>, i: nat)
    requires ReadableEvents(es) && i < |es| && Loses(es[i])
    ensures MarkedFrom(TellOf(Run(sei, s, es)), OutBefore(Run(sei, s, es[..i]), es[i]))
  {
    hide MarkedFrom, Step, Loses, OutBefore, ReadableEvent, StaysLost;
    var before, after := es[..i], es[i + 1..];
    assert es == (before + [es[i]]) + after;
    RunSnoc(sei, s, before, es[i]);
    RunConcat(sei, s, before + [es[i]], after);
    LossMarks(sei, Run(sei, s, before), es[i]);
    LossHolds(sei, Run(sei, s, before + [es[i]]), after);
    MarkedOn(TellOf(Run(sei, s, before + [es[i]])), TellOf(Run(sei, s, es)), OutBefore(Run(sei, s, before), es[i]));
  }

  // ----- a new stream

  /** The same state, but for access units told earlier and the write-only copy of the fragment header. */
  predicate Alike(s: State, t: State, told: seq<AccessUnit>) {
    s.out == told + t.out && s.(out := [], fuHeader := 0) == t.(out := [], fuHeader := 0)
  }

  lemma {:induction false} ConsumeAlike(sei: SeiTest, s: State, t: State, told: seq<AccessUnit>, nals: seq<seq<byte>>)
    requires Alike(s, t, told) && NoneEmpty(nals)
    ensures Alike(ConsumeAll(sei, s, nals), ConsumeAll(sei, t, nals), told)
    decreases |nals|
  {
    hide StartCoded, NalType;
    if nals != [] { ConsumeAlike(sei, Consume(sei, s, nals[0]), Consume(sei, t, nals[0]), told, nals[1..]); }
  }

  lemma EmitAlike(s: State, t: State, told: seq<AccessUnit>, pts: int, withExtradata: bool)
    requires Alike(s, t, told)
    ensures Alike(EmitAu(s, pts, withExtradata), EmitAu(t, pts, withExtradata), told)
  {
    hide StartCoded;
    if s.au != [] {
      var unit := EmitAu(t, pts, withExtradata).out[|t.out|];
      assert told + (t.out + [unit]) == (told + t.out) + [unit];
    }
  }

  lemma ReceiveAlike(sei: SeiTest, s: State, t: State, told: seq<AccessUnit>, payload: seq<byte>)
    requires Alike(s, t, told) && payload != [] && Readable(payload) && !Truncated(payload)
    ensures Alike(Receive(sei, s, payload), Receive(sei, t, payload), told)
  {
    hide StartCoded, NalType, Units, ConsumeAll, Fragment;
    if NalType(payload[0]) == STAP_A { ConsumeAlike(sei, s, t, told, Units(payload[1..])); }
    if NalType(payload[0]) == FU_A { FragmentAlike(sei, s, t, told, payload); }
  }

  lemma FinishAlike(sei: SeiTest, s: State, t: State, told: seq<AccessUnit>, kind: nat)
    requires Alike(s, t, told)
    ensures Alike(FinishFu(sei, s, kind), FinishFu(sei, t, kind), told)
  {
    hide StartCoded;
  }

  lemma FragmentAlike(sei: SeiTest, s: State, t: State, told: seq<AccessUnit>, payload: seq<byte>)
    requires Alike(s, t, told) && |payload| >= 2
    ensures Alike(Fragment(sei, s, payload), Fragment(sei, t, payload), told)
  {
    hide NalType, IsStart, IsEnd, FinishFu;
    var s1 := if IsStart(payload[1]) then StartFu(s, payload[0], payload[1]) else s;
    var t1 := if IsStart(payload[1]) then StartFu(t, payload[0], payload[1]) else t;
    FinishAlike(sei, s1.(fu := s1.fu + payload[2..]), t1.(fu := t1.fu + payload[2..]), told, NalType(payload[1]));
  }

  lemma StepAlike(sei: SeiTest, s: State, t: State, told: seq<AccessUnit>, e: Event)
    requires Alike(s, t, told) && ReadableEvent(e)
    ensures Alike(Step(sei, s, e), Step(sei, t, e), told)
  {
    hide EmitAu, Receive, Readable, Truncated;
    if e.Rtp? && e.packet.payload != [] {
      var p := e.packet;
      EmitAlike(s, t, told, s.pts, false);
      assert Alike(Begin(s, p), Begin(t, p), told);
      if !Truncated(p.payload) {
        var s1, t1 := Receive(sei, Begin(s, p), p.payload), Receive(sei, Begin(t, p), p.payload);
        ReceiveAlike(sei, Begin(s, p), Begin(t, p), told, p.payload);
        EmitAlike(s1, t1, told, p.pts, s1.sawIdr);
      }
    }
  }

  lemma {:induction false} RunAlike(sei: SeiTest, s: State, t: State, told: seq<AccessUnit>, es: seq<Event>)
    requires Alike(s, t, told) && ReadableEvents(es)
    ensures Alike(Run(sei, s, es), Run(sei, t, es), told)
    decreases |es|
  {
    hide Alike, Step, ReadableEvent;
    if es != [] {
      RunAlike(sei, s, t, told, es[..|es| - 1]);
      StepAlike(sei, Run(sei, s, es[..|es| - 1]), Run(sei, t, es[..|es| - 1]), told, es[|es| - 1]);
    }
  }

  /** After a reset, in every state, everything is as in a new depacketizer that knows the same parameter
      sets; so all theorems on runs from the start speak of the next stream. */
  lemma ResetStartsOver(sei: SeiTest, s: State, es: seq<Event>)
    requires ReadableEvents(es)
    ensures Alike(Run(sei, Reset(s), es), Run(sei, Start(s.sps, s.pps), es), s.out)
  {
    assert s.out + [] == s.out;
    RunAlike(sei, Reset(s), Start(s.sps, s.pps), s.out, es);
  }

  // ----- anchors and IDR units

  predicate AnyTakes(arrivals: seq<Arrival>) { exists k :: 0 <= k < |arrivals| && TakesIdr(arrivals[k].packet.payload) }

  predicate AnyBegins(arrivals: seq<Arrival>) { exists k :: 0 <= k < |arrivals| && BeginsIdr(arrivals[k].packet.payload) }

  predicate AnyEnds(arrivals: seq<Arrival>) { exists k :: 0 <= k < |arrivals| && EndsIdr(arrivals[k]) }

  /** Unless it is a fragment, a packet completes what it says by itself. */
  predicate Consistent(a: Arrival) {
    a.packet.payload != [] && (NalType(a.packet.payload[0]) != FU_A ==> a.nals == Completed(Classify, [], a.packet.payload))
  }

  lemma {:induction false} LogConsistent(es: seq<Event>)
    ensures forall a :: a in Log(Classify, es) ==> Consistent(a)
    decreases |es|
  {
    hide Units, Begun;
    if es != [] { LogConsistent(es[..|es| - 1]); }
  }

  lemma {:induction false} PartInAll(parts: seq<Part>, k: nat)
    requires k < |parts|
    ensures forall a :: a in parts[k].arrivals ==> a in Joined(parts)
    decreases |parts|
  {
    if k < |parts| - 1 { PartInAll(parts[..|parts| - 1], k); }
  }

  lemma HasTypeAppend(x: seq<seq<byte>>, y: seq<seq<byte>>, t: nat)
    ensures HasType(x + y, t) <==> HasType(x, t) || HasType(y, t)
  {
    hide NalType;
    var both := x + y;
    assert forall k :: 0 <= k < |x| ==> both[k] == x[k];
    assert forall k :: 0 <= k < |y| ==> both[|x| + k] == y[k];
    assert forall k :: |x| <= k < |both| ==> both[k] == y[k - |x|];
  }

  /** A packet completes an IDR unit if it takes one whole or ends one. */
  lemma CompletesIdr(a: Arrival)
    requires Consistent(a)
    ensures HasType(a.nals, IDR) <==> TakesIdr(a.packet.payload) || EndsIdr(a)
  {
    hide Units;
    var payload := a.packet.payload;
    if NalType(payload[0]) != FU_A && NalType(payload[0]) != STAP_A {
      assert a.nals == [payload] || a.nals == [];
      assert a.nals == [payload] ==> a.nals[0] == payload;
    }
  }

  lemma {:induction false} UnitsHaveIdr(arrivals: seq<Arrival>)
    requires forall a :: a in arrivals ==> Consistent(a)
    ensures HasType(UnitsOf(arrivals), IDR) <==> AnyTakes(arrivals) || AnyEnds(arrivals)
    decreases |arrivals|
  {
    hide HasType, TakesIdr, EndsIdr, Consistent;
    if arrivals == [] {
      NoUnits();
    } else {
      var init, last := arrivals[..|arrivals| - 1], arrivals[|arrivals| - 1];
      assert forall a :: a in init ==> a in arrivals;
      UnitsHaveIdr(init);
      CompletesIdr(last);
      HasTypeAppend(UnitsOf(init), last.nals, IDR);
      assert forall k :: 0 <= k < |init| ==> init[k] == arrivals[k];
    }
  }

  lemma NoUnits()
    ensures !HasType([], IDR)
  {
  }

  lemma MarksAre(arrivals: seq<Arrival>)
    ensures AnyMarks(AnnouncesIdr, arrivals) <==> AnyTakes(arrivals) || AnyBegins(arrivals)
  {
    hide TakesIdr, BeginsIdr;
    assert forall k :: 0 <= k < |arrivals| ==>
      (AnnouncesIdr(arrivals[k]) <==> TakesIdr(arrivals[k].packet.payload) || BeginsIdr(arrivals[k].packet.payload));
  }

  /**
   When the anchor mark is honest, in every run: an access unit is an anchor if and only if, since the one
   before, an IDR unit was taken whole or the first fragment of one arrived.  So the mark says whether the
   access unit carries an IDR unit if and only if one was taken whole, or a series of fragments of one began
   exactly if one ended.
   */
  lemma AnchorHonestIff(sei: SeiTest, sps: seq<byte>, pps: seq<byte>, es: seq<Event>, k: nat)
    requires ReadableEvents(es) && k < |Run(sei, Start(sps, pps), es).out|
    ensures var unit := Run(sei, Start(sps, pps), es).out[k];
            var parts := LedgerOf(Format(sei, sps, pps), es).parts;
            && k < |parts|
            && (unit.anchor <==> AnyTakes(parts[k].arrivals) || AnyBegins(parts[k].arrivals))
            && ((unit.anchor <==> HasType(UnitsOf(parts[k].arrivals), IDR)) <==>
                AnyTakes(parts[k].arrivals) || (AnyBegins(parts[k].arrivals) <==> AnyEnds(parts[k].arrivals)))
  {
    hide Run, LedgerOf, Log, AnyTakes, AnyBegins, AnyEnds, HasType, Consistent, AnyMarks, StartCoded, Leading, LastStamp;
    var l := LedgerOf(Format(sei, sps, pps), es);
    AccessUnitsConserved(sei, sps, pps, es);
    LogConsistent(es);
    PartInAll(l.parts, k);
    assert forall a :: a in l.parts[k].arrivals ==> a in All(l);
    UnitsHaveIdr(l.parts[k].arrivals);
    MarksAre(l.parts[k].arrivals);
  }

  /** In every run in which the receive clock advances between packets, the arrival stamp of an access unit is
      that of the first packet since the one before if and only if that packet itself completed a unit. */
  lemma ArrivalIsFirstIff(sei: SeiTest, sps: seq<byte>, pps: seq<byte>, es: seq<Event>, k: nat)
    requires ReadableEvents(es) && k < |Run(sei, Start(sps, pps), es).out|
    ensures var parts := LedgerOf(Format(sei, sps, pps), es).parts;
            && k < |parts| && parts[k].arrivals != []
            && (Ticking(parts[k].arrivals) ==>
                  (Run(sei, Start(sps, pps), es).out[k].arrival == parts[k].arrivals[0].packet.arrival
                   <==> parts[k].arrivals[0].nals != []))
  {
    hide Run, LedgerOf, Log, AnyMarks, StartCoded, Leading, LastStamp, Ticking;
    var l := LedgerOf(Format(sei, sps, pps), es);
    AccessUnitsConserved(sei, sps, pps, es);
    if Ticking(l.parts[k].arrivals) { StampIsFirstIff(l.parts[k].arrivals); }
  }

  /** The first fragment of an IDR unit, not also the last. */
  predicate OnlyBegins(payload: seq<byte>) { BeginsIdr(payload) && !IsEnd(payload[1]) }

  predicate SingleUnit(payload: seq<byte>) { payload != [] && 1 <= NalType(payload[0]) <= 23 }

  /**
   The mark can be wrong one way: an IDR series that was begun and then abandoned makes the next access unit
   an anchor and ends the loss, whatever its time stamp, though it carries only the next unit.
   */
  lemma AbandonedIdrIsAnchor(sei: SeiTest, s: State, first: Packet, slice: Packet)
    requires s.au == [] && OnlyBegins(first.payload)
    requires SingleUnit(slice.payload) && slice.marker
    ensures var es := [Rtp(first), ReferenceLost, Rtp(slice)];
            && ReadableEvents(es)
            && var r := Run(sei, s, es);
               && |r.out| == |s.out| + 1 && !r.refsLost
               && r.out[|s.out|].anchor && r.out[|s.out|].pts == slice.pts
               && r.out[|s.out|].bytes == StartCoded(Front(Consume(sei, s, slice.payload), true)) + StartCoded([slice.payload])
               && (HasType([slice.payload], IDR) <==> NalType(slice.payload[0]) == IDR)
  {
    hide NalType, IsStart, IsEnd, StartCoded, Front, HasType;
    var es := [Rtp(first), ReferenceLost, Rtp(slice)];
    var s1 := OnRtp(sei, s, first);
    var s2 := MarkReferenceLost(s1);
    assert s1.au == [] && s1.sawIdr && s1.out == s.out && s1.sps == s.sps && s1.pps == s.pps;
    RunOfThree(sei, s, es, s1, s2);
    SliceAfter(sei, s2, slice);
    SameFront(Consume(sei, s2, slice.payload), Consume(sei, s, slice.payload));
    OneUnit(slice.payload);
  }

  lemma SameFront(s: State, s': State)
    requires s.sps == s'.sps && s.pps == s'.pps
    ensures Front(s, true) == Front(s', true)
  {
  }

  lemma SliceAfter(sei: SeiTest, s: State, slice: Packet)
    requires s.au == [] && s.sawIdr && SingleUnit(slice.payload) && slice.marker
    ensures var r := OnRtp(sei, s, slice);
            && |r.out| == |s.out| + 1 && !r.refsLost && r.out[|s.out|].anchor && r.out[|s.out|].pts == slice.pts
            && r.out[|s.out|].bytes == StartCoded(Front(Consume(sei, s, slice.payload), true)) + StartCoded([slice.payload])
  {
    hide StartCoded;
    NotNothing([slice.payload]);
    var s2 := Consume(sei, Begin(s, slice), slice.payload);
    SameFront(s2, Consume(sei, s, slice.payload));
    assert [] + StartCoded([slice.payload]) == StartCoded([slice.payload]);
  }

  /** A last fragment of a series, not also the first. */
  predicate OnlyEnds(payload: seq<byte>) {
    |payload| >= 2 && NalType(payload[0]) == FU_A && !IsStart(payload[1]) && IsEnd(payload[1])
  }

  /**
   And it can be wrong the other way: if an access unit is emitted between the first and the last fragment of
   an IDR unit, the access unit that carries the IDR unit is no anchor.
   */
  lemma StraddlingIdrIsNoAnchor(sei: SeiTest, s: State, first: Packet, slice: Packet, last: Packet)
    requires s.au == [] && OnlyBegins(first.payload) && !first.marker && OnlyEnds(last.payload) && last.marker
    requires SingleUnit(slice.payload) && slice.marker
    ensures var es := [Rtp(first), Rtp(slice), Rtp(last)];
            var whole := StartFu(s, first.payload[0], first.payload[1]).fu + first.payload[2..] + last.payload[2..];
            && ReadableEvents(es)
            && var r := Run(sei, s, es);
               && |r.out| == |s.out| + 2 && !r.out[|s.out| + 1].anchor
               && r.out[|s.out| + 1].bytes == StartCoded([whole]) && NalType(whole[0]) == IDR
  {
    hide StartCoded, Front, OnRtp, NalType, IsStart, IsEnd;
    var es := [Rtp(first), Rtp(slice), Rtp(last)];
    var s1 := OnRtp(sei, s, first);
    var s2 := OnRtp(sei, s1, slice);
    var s3 := OnRtp(sei, s2, last);
    RunOfThree(sei, s, es, s1, s2);
    BegunFu(sei, s, first);
    SliceBetween(sei, s1, slice);
    EndedFu(sei, s2, last);
  }

  lemma RunOfThree(sei: SeiTest, s: State, es: seq<Event>, s1: State, s2: State)
    requires |es| == 3 && ReadableEvents(es) && s1 == Step(sei, s, es[0]) && s2 == Step(sei, s1, es[1])
    ensures Run(sei, s, es) == Step(sei, s2, es[2])
  {
    hide Step;
    assert es[..2][..1] == es[..1] && es[..1][..0] == [] && es[..2][1] == es[1];
    assert Run(sei, s, es[..1]) == s1 && Run(sei, s, es[..2]) == s2;
  }

  lemma BegunFu(sei: SeiTest, s: State, first: Packet)
    requires s.au == [] && OnlyBegins(first.payload) && !first.marker
    ensures Readable(first.payload)
    ensures var r := OnRtp(sei, s, first);
            && r.au == [] && r.out == s.out && r.fuOpen && r.sawIdr
            && r.fu == StartFu(s, first.payload[0], first.payload[1]).fu + first.payload[2..] && NalType(r.fu[0]) == IDR
  {
    hide StartCoded;
  }

  lemma SliceBetween(sei: SeiTest, s: State, slice: Packet)
    requires s.au == [] && SingleUnit(slice.payload) && slice.marker
    ensures Readable(slice.payload)
    ensures var r := OnRtp(sei, s, slice);
            r.au == [] && |r.out| == |s.out| + 1 && !r.sawIdr && r.fu == s.fu && r.fuOpen == s.fuOpen
  {
    hide Front;
  }

  lemma EndedFu(sei: SeiTest, s: State, last: Packet)
    requires s.au == [] && s.fuOpen && !s.sawIdr && OnlyEnds(last.payload) && last.marker
    ensures Readable(last.payload)
    ensures var r := OnRtp(sei, s, last);
            && |r.out| == |s.out| + 1 && !r.out[|s.out|].anchor
            && r.out[|s.out|].bytes == StartCoded([s.fu + last.payload[2..]])
  {
    hide NalType, IsStart, IsEnd;
    var whole := s.fu + last.payload[2..];
    assert StartCoded([]) + ([] + StartCoded([whole])) == StartCoded([whole]);
  }
}
