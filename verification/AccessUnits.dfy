/** Access units, the account of which packets and NAL units each was made of, and the ways to put NAL units
    into packets: shared by both depacketizers. */
module AccessUnits {
  import opened Common
  import opened AnnexB

  /** What a depacketizer hands to its emit callback; `anchor` is has_idr or has_irap. */
  datatype AccessUnit = AccessUnit(
    pts: int, arrival: int, bytes: seq<byte>,
    anchor: bool, recovery: bool, refsLost: bool, paramsPresent: bool)

  /** One RTP payload with its time stamp, marker bit and arrival stamp. */
  datatype Packet = Packet(pts: int, marker: bool, payload: seq<byte>, arrival: int)

  /** What reaches a depacketizer between two resets. */
  datatype Event = Rtp(packet: Packet) | ReferenceLost

  /** append_annexb. */
  method AppendAnnexB(out: seq<byte>, nal: seq<byte>) returns (r: seq<byte>)
    ensures r == out + StartCoded([nal])
  {
    r := out + START_CODE;
    r := r + nal;
  }

  // ----- what a payload is

  /** What the grammar of a payload format makes of a payload. */
  datatype Effect =
    | Ignored                                                  // too short for anything, its stamps included
    | Whole(nals: seq<seq<byte>>)                              // complete units
    | First(header: seq<byte>, piece: seq<byte>, last: bool)   // the first fragment of a unit, perhaps also the last
    | More(piece: seq<byte>, last: bool)                       // a further fragment
    | Cut                                                      // a fragment without its header: only its stamps count
    | Refused                                                  // a format that is not supported

  type Reader = seq<byte> -> Effect

  predicate IsFirst(read: Reader, e: Event) { e.Rtp? && read(e.packet.payload).First? }

  predicate IsMore(read: Reader, e: Event) { e.Rtp? && read(e.packet.payload).More? }

  predicate IsLast(read: Reader, e: Event) {
    (IsFirst(read, e) || IsMore(read, e)) && read(e.packet.payload).last
  }

  /** The part of a unit that a packet carries. */
  function PieceOf(read: Reader, e: Event): seq<byte> {
    if IsFirst(read, e) || IsMore(read, e) then read(e.packet.payload).piece else []
  }

  function Pieces(read: Reader, es: seq<Event>): seq<byte> {
    if es == [] then [] else Pieces(read, es[..|es| - 1]) + PieceOf(read, es[|es| - 1])
  }

  /** Where the last first fragment is. */
  function LastFirst(read: Reader, es: seq<Event>): (at: Option<nat>)
    ensures at.Some? ==> at.value < |es| && IsFirst(read, es[at.value])
    ensures at.Some? ==> forall k :: at.value < k < |es| ==> !IsFirst(read, es[k])
    ensures at.None? ==> forall k :: 0 <= k < |es| ==> !IsFirst(read, es[k])
  {
    if es == [] then None
    else if IsFirst(read, es[|es| - 1]) then Some(|es| - 1)
    else LastFirst(read, es[..|es| - 1])
  }

  /** Since the first fragment at `i` no loss was reported, and no fragment was the last. */
  predicate Unbroken(read: Reader, es: seq<Event>, i: nat) {
    && (forall k :: i < k < |es| ==> !es[k].ReferenceLost?)
    && (forall k :: i <= k < |es| ==> !IsLast(read, es[k]))
  }

  /** The unit begun: the header of the last first fragment and all pieces since, unless it was broken off. */
  function Begun(read: Reader, es: seq<Event>): Option<seq<byte>> {
    match LastFirst(read, es)
    case None => None
    case Some(i) =>
      if Unbroken(read, es, i) then Some(read(es[i].packet.payload).header + Pieces(read, es[i..])) else None
  }

  /** The units that a payload completes after the events `es`. */
  function Completed(read: Reader, es: seq<Event>, payload: seq<byte>): seq<seq<byte>> {
    match read(payload)
    case Whole(nals) => nals
    case First(header, piece, last) => if last then [header + piece] else []
    case More(piece, last) => if last && Begun(read, es).Some? then [Begun(read, es).value + piece] else []
    case _ => []
  }

  /** What a last fragment that is not also the first completes. */
  lemma LastCompletes(read: Reader, es: seq<Event>, p: Packet, i: nat)
    requires IsMore(read, Rtp(p)) && IsLast(read, Rtp(p))
    requires i < |es| && IsFirst(read, es[i]) && forall k :: i < k < |es| ==> !IsFirst(read, es[k])
    ensures Completed(read, es, p.payload) ==
            if Unbroken(read, es, i) then
              [read(es[i].packet.payload).header + Pieces(read, es[i..]) + read(p.payload).piece]
            else []
  {
    hide Unbroken, Pieces;
    assert LastFirst(read, es) == Some(i);
  }

  lemma PiecesSnoc(read: Reader, es: seq<Event>, i: nat, e: Event)
    requires i <= |es|
    ensures Pieces(read, (es + [e])[i..]) == Pieces(read, es[i..]) + PieceOf(read, e)
  {
    assert (es + [e])[i..][..|es| - i] == es[i..];
  }

  lemma UnbrokenSnoc(read: Reader, es: seq<Event>, i: nat, e: Event)
    requires i < |es|
    ensures Unbroken(read, es + [e], i) <==> Unbroken(read, es, i) && !e.ReferenceLost? && !IsLast(read, e)
  {
    var all := es + [e];
    assert all[|es|] == e;
    assert forall k :: 0 <= k < |es| ==> all[k] == es[k];
  }

  /** One event later. */
  lemma BegunSnoc(read: Reader, es: seq<Event>, e: Event)
    ensures Begun(read, es + [e]) ==
      if e.ReferenceLost? then None
      else match read(e.packet.payload)
        case First(header, piece, last) => if last then None else Some(header + piece)
        case More(piece, last) =>
          if last || Begun(read, es).None? then None else Some(Begun(read, es).value + piece)
        case _ => Begun(read, es)
  {
    hide Pieces, Unbroken;
    var all := es + [e];
    assert all[..|es|] == es;
    if IsFirst(read, e) {
      PiecesSnoc(read, es, |es|, e);
      JustBegun(read, es, e);
    } else if LastFirst(read, es).Some? {
      var i := LastFirst(read, es).value;
      UnbrokenSnoc(read, es, i, e);
      PiecesSnoc(read, es, i, e);
      var header, before := read(es[i].packet.payload).header, Pieces(read, es[i..]);
      assert header + (before + PieceOf(read, e)) == (header + before) + PieceOf(read, e);
      assert (header + before) + [] == header + before;
    }
  }

  lemma JustBegun(read: Reader, es: seq<Event>, e: Event)
    requires IsFirst(read, e)
    ensures Unbroken(read, es + [e], |es|) <==> !IsLast(read, e)
    ensures Pieces(read, es[|es|..]) == [] && [] + PieceOf(read, e) == PieceOf(read, e)
  {
    assert (es + [e])[|es|] == e;
  }

  // ----- the account

  /** A packet that was taken in, and the NAL units it completed. */
  datatype Arrival = Arrival(packet: Packet, nals: seq<seq<byte>>)

  /** What arrived, in order. */
  function Log(read: Reader, es: seq<Event>): seq<Arrival> {
    if es == [] then []
    else
      var before, e := es[..|es| - 1], es[|es| - 1];
      Log(read, before) +
      (if e.ReferenceLost? || read(e.packet.payload).Ignored? then []
       else [Arrival(e.packet, Completed(read, before, e.packet.payload))])
  }

  function UnitsOf(arrivals: seq<Arrival>): seq<seq<byte>> {
    if arrivals == [] then [] else UnitsOf(arrivals[..|arrivals| - 1]) + arrivals[|arrivals| - 1].nals
  }

  /** The packets up to the first that completes a unit. */
  function Leading(arrivals: seq<Arrival>): (lead: seq<Arrival>)
    ensures lead <= arrivals
  {
    if arrivals == [] then []
    else if arrivals[0].nals != [] then [arrivals[0]]
    else [arrivals[0]] + Leading(arrivals[1..])
  }

  /** The last arrival stamp that is not zero; 0 if there is none. */
  function LastStamp(arrivals: seq<Arrival>): int {
    if arrivals == [] then 0
    else if arrivals[|arrivals| - 1].packet.arrival != 0 then arrivals[|arrivals| - 1].packet.arrival
    else LastStamp(arrivals[..|arrivals| - 1])
  }

  predicate AnyMarks(marks: Arrival -> bool, arrivals: seq<Arrival>) {
    exists k :: 0 <= k < |arrivals| && marks(arrivals[k])
  }

  /** What distinguishes the two formats: the grammar of payloads, which packets make an anchor and which a
      recovery point, the parameter sets known after what arrived (none if one is missing), and whether they
      go in front also when a new time stamp ends the access unit. */
  datatype Codec = Codec(read: Reader, marks: Arrival -> bool, recovers: Arrival -> bool,
                         sets: seq<Arrival> -> seq<seq<byte>>, frontAtNewStamp: bool)

  /** An access unit to be emitted: the parameter sets in front, whether there are any, whether references
      are lost, and what arrived since the one before. */
  datatype Part = Part(front: seq<seq<byte>>, present: bool, lost: bool, arrivals: seq<Arrival>)

  /** What arrived, divided at the emissions: a part for each access unit, and what came since the last. */
  datatype Ledger = Ledger(parts: seq<Part>, open: seq<Arrival>, lost: bool)

  const NO_LEDGER := Ledger([], [], true)

  predicate Refreshes(codec: Codec, arrivals: seq<Arrival>) {
    AnyMarks(codec.marks, arrivals) || AnyMarks(codec.recovers, arrivals)
  }

  /** The open part ends; `log` is everything that has arrived. */
  function Close(codec: Codec, log: seq<Arrival>, l: Ledger, withSets: bool): Ledger {
    var front := if withSets && AnyMarks(codec.marks, l.open) then codec.sets(log) else [];
    Ledger(l.parts + [Part(front, codec.sets(log) != [], l.lost, l.open)], [],
           l.lost && !Refreshes(codec, l.open))
  }

  /** A packet with a new time stamp ends the open part, if a unit was completed in it. */
  function AtStamp(codec: Codec, log: seq<Arrival>, l: Ledger, pts: int): Ledger {
    if UnitsOf(l.open) != [] && l.open[|l.open| - 1].packet.pts != pts then Close(codec, log, l, codec.frontAtNewStamp)
    else l
  }

  function Post(l: Ledger, a: Arrival): Ledger { l.(open := l.open + [a]) }

  /** The marker ends it behind the packet, a format that is not supported counts as a loss. */
  function PostPacket(codec: Codec, log: seq<Arrival>, l: Ledger, a: Arrival): Ledger {
    var posted := Post(AtStamp(codec, log, l, a.packet.pts), a);
    var judged := if codec.read(a.packet.payload).Refused? then posted.(lost := true) else posted;
    if a.packet.marker && !codec.read(a.packet.payload).Cut? && UnitsOf(judged.open) != []
    then Close(codec, log + [a], judged, true) else judged
  }

  /** The ledger of a run, from its events alone. */
  function LedgerOf(codec: Codec, es: seq<Event>): Ledger {
    if es == [] then NO_LEDGER
    else
      var before, e := es[..|es| - 1], es[|es| - 1];
      var l := LedgerOf(codec, before);
      if e.ReferenceLost? then l.(lost := true)
      else if codec.read(e.packet.payload).Ignored? then l
      else PostPacket(codec, Log(codec.read, before), l,
                      Arrival(e.packet, Completed(codec.read, before, e.packet.payload)))
  }

  /** Everything that arrived, in order. */
  function All(l: Ledger): seq<Arrival> { Joined(l.parts) + l.open }

  function Joined(parts: seq<Part>): seq<Arrival> {
    if parts == [] then [] else Joined(parts[..|parts| - 1]) + parts[|parts| - 1].arrivals
  }

  /** Closing a part moves it, and posting adds one: nothing else changes what arrived. */
  lemma AllClosed(codec: Codec, log: seq<Arrival>, l: Ledger, withSets: bool)
    ensures All(Close(codec, log, l, withSets)) == All(l)
  {
    var after := Close(codec, log, l, withSets);
    assert after.parts[..|l.parts|] == l.parts;
  }

  /** The parts of the ledger are what arrived, in order. */
  lemma {:induction false} AllIsLog(codec: Codec, es: seq<Event>)
    ensures All(LedgerOf(codec, es)) == Log(codec.read, es)
  {
    hide Close, Completed;
    if es != [] {
      var before, e := es[..|es| - 1], es[|es| - 1];
      var log, l := Log(codec.read, before), LedgerOf(codec, before);
      AllIsLog(codec, before);
      if e.Rtp? {
        var a := Arrival(e.packet, Completed(codec.read, before, e.packet.payload));
        var stamped := AtStamp(codec, log, l, a.packet.pts);
        AllClosed(codec, log, l, codec.frontAtNewStamp);
        assert All(Post(stamped, a)) == All(stamped) + [a];
        AllClosed(codec, log + [a], Post(stamped, a), true);
        AllClosed(codec, log + [a], Post(stamped, a).(lost := true), true);
      }
    }
  }

  /**
   The access unit is that of its part: the units completed, start-coded and in order, behind the parameter
   sets, each completed by a packet with its time stamp; an anchor or a recovery point if and only if one of
   the packets makes it one; and its arrival stamp is the last one up to the packet that first completed a unit.
   */
  predicate Carries(codec: Codec, unit: AccessUnit, part: Part) {
    && UnitsOf(part.arrivals) != []
    && unit.bytes == StartCoded(part.front) + StartCoded(UnitsOf(part.arrivals))
    && (forall a :: a in part.arrivals && a.nals != [] ==> a.packet.pts == unit.pts)
    && (unit.anchor <==> AnyMarks(codec.marks, part.arrivals))
    && (unit.recovery <==> AnyMarks(codec.recovers, part.arrivals))
    && unit.refsLost == part.lost && unit.paramsPresent == part.present
    && unit.arrival == LastStamp(Leading(part.arrivals))
  }

  /** What a depacketizer has emitted and what it has collected since. */
  datatype Collecting = Collecting(out: seq<AccessUnit>, au: seq<byte>, pts: int, anchor: bool, recovery: bool,
                                   lost: bool, arrival: int)

  ghost predicate Accounted(codec: Codec, c: Collecting, l: Ledger) {
    && |l.parts| == |c.out| && (forall k :: 0 <= k < |c.out| ==> Carries(codec, c.out[k], l.parts[k]))
    && c.au == StartCoded(UnitsOf(l.open))
    && (forall a :: a in l.open && a.nals != [] ==> a.packet.pts == c.pts)
    && (l.open != [] ==> l.open[|l.open| - 1].packet.pts == c.pts)
    && (c.anchor <==> AnyMarks(codec.marks, l.open)) && (c.recovery <==> AnyMarks(codec.recovers, l.open))
    && c.lost == l.lost
    && c.arrival == LastStamp(Leading(l.open))
  }

  lemma EmptyIffNone(nals: seq<seq<byte>>)
    ensures StartCoded(nals) == [] <==> nals == []
  {
  }

  lemma {:induction false} NoneCompleted(arrivals: seq<Arrival>, a: Arrival)
    requires UnitsOf(arrivals) == []
    ensures Leading(arrivals) == arrivals && Leading(arrivals + [a]) == arrivals + [a]
    ensures forall b :: b in arrivals ==> b.nals == []
    decreases |arrivals|
  {
    if arrivals != [] {
      var init, last := arrivals[..|arrivals| - 1], arrivals[|arrivals| - 1];
      NoneCompleted(init, last);
      assert arrivals == init + [last];
      LeadingAppend(init, last, a);
    }
  }

  /** With only packets that complete nothing before, the leading packets reach one further. */
  lemma {:induction false} LeadingAppend(init: seq<Arrival>, last: Arrival, a: Arrival)
    requires last.nals == [] && forall b :: b in init ==> b.nals == []
    ensures Leading(init + [last] + [a]) == init + [last] + [a] && Leading(init + [last]) == init + [last]
    decreases |init|
  {
    if init == [] {
      assert ([last] + [a])[1..] == [a] && [last][1..] == [];
      assert [] + [last] + [a] == [last] + [a] && [] + [last] == [last];
    } else {
      assert (init + [last] + [a])[1..] == init[1..] + [last] + [a];
      assert (init + [last])[1..] == init[1..] + [last];
      LeadingAppend(init[1..], last, a);
    }
  }

  /** Once a unit was completed, later packets do not count. */
  lemma {:induction false} LeadingStays(arrivals: seq<Arrival>, a: Arrival)
    requires exists b :: b in arrivals && b.nals != []
    ensures Leading(arrivals + [a]) == Leading(arrivals)
    decreases |arrivals|
  {
    if arrivals[0].nals == [] {
      var b :| b in arrivals && b.nals != [];
      assert b in arrivals[1..];
      assert (arrivals + [a])[1..] == arrivals[1..] + [a];
      LeadingStays(arrivals[1..], a);
    }
  }

  lemma {:induction false} SomeCompleted(arrivals: seq<Arrival>)
    requires UnitsOf(arrivals) != []
    ensures exists b :: b in arrivals && b.nals != []
    decreases |arrivals|
  {
    var init, last := arrivals[..|arrivals| - 1], arrivals[|arrivals| - 1];
    if last.nals == [] {
      SomeCompleted(init);
      assert forall b :: b in init ==> b in arrivals;
    } else {
      assert last in arrivals;
    }
  }

  lemma StampPosted(open: seq<Arrival>, a: Arrival)
    ensures LastStamp(Leading(open + [a])) ==
      if UnitsOf(open) == [] && a.packet.arrival != 0 then a.packet.arrival else LastStamp(Leading(open))
  {
    if UnitsOf(open) == [] {
      NoneCompleted(open, a);
      assert (open + [a])[..|open|] == open;
    } else {
      SomeCompleted(open);
      LeadingStays(open, a);
    }
  }

  /** A packet is taken in: its units join the access unit. */
  lemma AccountPosted(codec: Codec, c: Collecting, l: Ledger, a: Arrival)
    requires Accounted(codec, c, l) && (c.au != [] ==> a.packet.pts == c.pts)
    ensures Accounted(codec, c.(au := c.au + StartCoded(a.nals), pts := a.packet.pts,
                                anchor := c.anchor || codec.marks(a), recovery := c.recovery || codec.recovers(a),
                                arrival := if c.au == [] && a.packet.arrival != 0 then a.packet.arrival else c.arrival),
                      Post(l, a))
  {
    hide StartCoded, Leading, LastStamp, Carries;
    var open := l.open + [a];
    assert open[..|l.open|] == l.open;
    EmptyIffNone(UnitsOf(l.open));
    StampPosted(l.open, a);
    StartCodedConcat(UnitsOf(l.open), a.nals);
    if c.au == [] { NoneCompleted(l.open, a); }
    MarksPosted(codec.marks, l.open, a);
    MarksPosted(codec.recovers, l.open, a);
  }

  lemma MarksPosted(marks: Arrival -> bool, open: seq<Arrival>, a: Arrival)
    ensures AnyMarks(marks, open + [a]) <==> AnyMarks(marks, open) || marks(a)
  {
    var both := open + [a];
    assert both[|open|] == a;
    assert forall k :: 0 <= k < |open| ==> both[k] == open[k];
  }

  /** What has been collected is emitted. */
  lemma AccountEmitted(codec: Codec, c: Collecting, l: Ledger, log: seq<Arrival>, unit: AccessUnit, withSets: bool)
    requires Accounted(codec, c, l) && c.au != []
    requires unit.pts == c.pts && unit.anchor == c.anchor && unit.recovery == c.recovery
    requires unit.bytes == StartCoded(if withSets && c.anchor then codec.sets(log) else []) + c.au
    requires unit.refsLost == c.lost && unit.paramsPresent == (codec.sets(log) != []) && unit.arrival == c.arrival
    ensures Accounted(codec, Collecting(c.out + [unit], [], c.pts, false, false,
                                        c.lost && !c.anchor && !c.recovery, 0), Close(codec, log, l, withSets))
  {
    hide AnyMarks, Leading, LastStamp;
    EmptyIffNone(UnitsOf(l.open));
    NothingOpen(codec.marks);
    NothingOpen(codec.recovers);
  }

  lemma NothingOpen(marks: Arrival -> bool)
    ensures !AnyMarks(marks, []) && LastStamp(Leading([])) == 0 && StartCoded(UnitsOf([])) == []
  {
  }

  lemma LostAccounted(codec: Codec, c: Collecting, l: Ledger)
    requires Accounted(codec, c, l)
    ensures Accounted(codec, c.(lost := true), l.(lost := true))
  {
  }

  lemma NoLedgerBalanced(codec: Codec, pts: int)
    ensures Accounted(codec, Collecting([], [], pts, false, false, true, 0), NO_LEDGER)
  {
  }

  // ----- whose stamp it is

  /** Stamps from a clock that advances between packets. */
  predicate Ticking(arrivals: seq<Arrival>) {
    && (forall k :: 0 <= k < |arrivals| ==> arrivals[k].packet.arrival > 0)
    && (forall j, k :: 0 <= j < k < |arrivals| ==> arrivals[j].packet.arrival < arrivals[k].packet.arrival)
  }

  lemma {:induction false} LeadingLonger(arrivals: seq<Arrival>)
    requires arrivals != []
    ensures Leading(arrivals) != []
    ensures |Leading(arrivals)| == 1 <==> |arrivals| == 1 || arrivals[0].nals != []
  {
    if arrivals[0].nals == [] && |arrivals| > 1 { LeadingLonger(arrivals[1..]); }
  }

  /** The arrival stamp of an access unit is that of the first packet since the access unit before, if and
      only if that packet itself completes a unit. */
  lemma StampIsFirstIff(arrivals: seq<Arrival>)
    requires UnitsOf(arrivals) != [] && Ticking(arrivals)
    ensures LastStamp(Leading(arrivals)) == arrivals[0].packet.arrival <==> arrivals[0].nals != []
  {
    LeadingLonger(arrivals);
    var lead := Leading(arrivals);
    assert lead[|lead| - 1] == arrivals[|lead| - 1];
    if |arrivals| == 1 {
      assert arrivals[..0] == [];
    }
  }

  // ----- lost references

  /** What a depacketizer has told so far, and whether references are lost. */
  datatype Told = Told(out: seq<AccessUnit>, lost: bool)

  predicate IsAnchor(unit: AccessUnit) { unit.anchor || unit.recovery }

  /** From `s` to `r` access units were only added, and while references are lost they say so up to and
      including the first anchor; without an anchor the loss persists. */
  ghost predicate StaysLost(s: Told, r: Told) {
    && |s.out| <= |r.out| && r.out[..|s.out|] == s.out
    && (s.lost ==>
          && (r.lost || exists i :: |s.out| <= i < |r.out| && IsAnchor(r.out[i]))
          && forall j :: |s.out| <= j < |r.out| && (forall i :: |s.out| <= i < j ==> !IsAnchor(r.out[i])) ==> r.out[j].refsLost)
  }

  lemma StaysLostTrans(a: Told, b: Told, c: Told)
    requires StaysLost(a, b) && StaysLost(b, c)
    ensures StaysLost(a, c)
  {
    hide IsAnchor;
    assert forall i :: 0 <= i < |b.out| ==> c.out[i] == b.out[i];
  }

  lemma NothingTold(s: Told)
    ensures StaysLost(s, s) && StaysLost(s, s.(lost := true))
  {
  }

  /** An access unit is told; only an anchor ends the loss. */
  lemma UnitTold(s: Told, unit: AccessUnit)
    requires unit.refsLost == s.lost
    ensures StaysLost(s, Told(s.out + [unit], s.lost && !unit.anchor && !unit.recovery))
  {
    var r := Told(s.out + [unit], s.lost && !unit.anchor && !unit.recovery);
    assert r.out[|s.out|] == unit;
  }

  /** From access unit `n` on every one is marked, up to and including the next anchor; without one the loss
      persists. */
  ghost predicate MarkedFrom(r: Told, n: nat) {
    && n <= |r.out|
    && (r.lost || exists i :: n <= i < |r.out| && IsAnchor(r.out[i]))
    && forall j :: n <= j < |r.out| && (forall i :: n <= i < j ==> !IsAnchor(r.out[i])) ==> r.out[j].refsLost
  }

  lemma StaysMarked(s: Told, r: Told)
    requires s.lost && StaysLost(s, r)
    ensures MarkedFrom(r, |s.out|)
  {
  }

  lemma MarkedOn(s: Told, r: Told, n: nat)
    requires MarkedFrom(s, n) && StaysLost(s, r)
    ensures MarkedFrom(r, n)
  {
    hide IsAnchor;
    assert forall i :: 0 <= i < |s.out| ==> r.out[i] == s.out[i];
  }

  // ----- putting NAL units into packets

  function Flat(pieces: seq<seq<byte>>): seq<byte> {
    if pieces == [] then [] else Flat(pieces[..|pieces| - 1]) + pieces[|pieces| - 1]
  }

  /** How one packet, or one series of fragments, carries NAL units. */
  datatype Carrier =
    | Single(nal: seq<byte>)
    | Aggregate(header: seq<byte>, units: seq<seq<byte>>)
    | Fragments(whole: seq<byte>, pieces: seq<seq<byte>>)

  function Carried(c: Carrier): seq<seq<byte>> {
    match c
    case Single(nal) => [nal]
    case Aggregate(_, units) => units
    case Fragments(whole, _) => [whole]
  }

  function AllCarried(cs: seq<Carrier>): seq<seq<byte>> {
    if cs == [] then [] else Carried(cs[0]) + AllCarried(cs[1..])
  }

  /** Aggregated units, each behind its size. */
  function Body(units: seq<seq<byte>>): seq<byte>
    requires forall k :: 0 <= k < |units| ==> |units[k]| < TWO_16
  {
    if units == [] then [] else [|units[0]| / 256, |units[0]| % 256] + units[0] + Body(units[1..])
  }

  lemma BodyUnfold(high: byte, low: byte, nal: seq<byte>, units: seq<seq<byte>>, tail: seq<byte>)
    requires |nal| == U16(high, low) && forall k :: 0 <= k < |units| ==> |units[k]| < TWO_16
    ensures forall k :: 0 <= k < |[nal] + units| ==> |([nal] + units)[k]| < TWO_16
    ensures Body([nal] + units) + tail == [high, low] + nal + (Body(units) + tail)
  {
    assert |nal| / 256 == high as int && |nal| % 256 == low as int;
    assert ([nal] + units)[1..] == units;
  }

  /** The packets bring these payloads with one time stamp and no marker; arrival stamps are arbitrary. */
  predicate Bring(ps: seq<Packet>, payloads: seq<seq<byte>>, pts: int) {
    && |ps| == |payloads|
    && forall k :: 0 <= k < |ps| ==> ps[k].payload == payloads[k] && ps[k].pts == pts && !ps[k].marker
  }

  /** The same packets, the last one with the marker bit. */
  function Marked(ps: seq<Packet>): seq<Packet>
    requires ps != []
  {
    ps[..|ps| - 1] + [ps[|ps| - 1].(marker := true)]
  }

  lemma NothingCarried(cs: seq<Carrier>)
    requires AllCarried(cs) != []
    ensures cs != []
  {
  }
}
