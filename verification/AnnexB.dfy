/** Start-coded byte streams (Annex B of H.264): appending NAL units, and splitting them again. */
module AnnexB {
  import opened Common
  import opened Emulation

  const START_CODE: seq<byte> := [0, 0, 0, 1]

  /** append_annexb, over a list. */
  function StartCoded(nals: seq<seq<byte>>): seq<byte> {
    if nals == [] then [] else START_CODE + nals[0] + StartCoded(nals[1..])
  }

  lemma {:induction false} StartCodedConcat(a: seq<seq<byte>>, b: seq<seq<byte>>)
    ensures StartCoded(a + b) == StartCoded(a) + StartCoded(b)
  {
    if a == [] {
      assert a + b == b;
    } else {
      StartCodedConcat(a[1..], b);
      assert (a + b)[1..] == a[1..] + b;
    }
  }

  predicate StartsAt(d: seq<byte>, i: nat) {
    i + 2 < |d| && d[i] == 0 && d[i + 1] == 0 && d[i + 2] == 1
  }

  ghost predicate NoStartCode(d: seq<byte>) { forall i: nat :: !StartsAt(d, i) }

  /** find_start_code: the first 00 00 01 from `from` on, or the end. */
  method FindStartCode(d: seq<byte>, from: nat) returns (pos: nat)
    ensures pos == Find(d, from)
    ensures pos == |d| || (from <= pos && StartsAt(d, pos))
    ensures forall i: nat :: from <= i && StartsAt(d, i) ==> pos <= i
  {
    FindIsFirst(d, from);
    if |d| < 3 { return |d|; }
    var i := from;
    while i + 2 < |d|
      invariant from <= i
      invariant Find(d, i) == Find(d, from)
      decreases |d| - i
    {
      if d[i] == 0 && d[i + 1] == 0 && d[i + 2] == 1 { return i; }
      i := i + 1;
    }
    return |d|;
  }

  function Find(d: seq<byte>, from: nat): (pos: nat)
    ensures pos <= |d| && (pos < |d| ==> from <= pos && pos + 2 < |d|)
    decreases |d| - from
  {
    if from + 2 >= |d| then |d| else if StartsAt(d, from) then from else Find(d, from + 1)
  }

  lemma {:induction false} FindIsFirst(d: seq<byte>, from: nat)
    ensures var pos := Find(d, from);
            && (pos == |d| || (from <= pos && StartsAt(d, pos)))
            && (forall i: nat :: from <= i && StartsAt(d, i) ==> pos <= i)
    decreases |d| - from
  {
    if from + 2 < |d| && !StartsAt(d, from) { FindIsFirst(d, from + 1); }
  }

  /** Where the NAL unit that starts at `start` ends: before the next start code and the zero that
      belongs to it. */
  function NalEnd(au: seq<byte>, start: nat): (end: nat)
    requires start <= |au|
  {
    var next := Find(au, start);
    if next < |au| && next > 0 && au[next - 1] == 0 then next - 1 else next
  }

  /** The NAL unit that starts at `start`, unless it has less than two bytes. */
  function UnitAt(au: seq<byte>, start: nat): seq<seq<byte>>
    requires start <= |au|
  {
    if NalEnd(au, start) <= start + 1 then [] else [au[start..NalEnd(au, start)]]
  }

  /** The loop of on_au_h264 from the start code at `i` on. */
  function SplitFrom(au: seq<byte>, i: nat): seq<seq<byte>>
    requires i == |au| || i + 3 <= |au|
    decreases |au| - i
  {
    if i >= |au| then [] else UnitAt(au, i + 3) + SplitFrom(au, Find(au, i + 3))
  }

  function Split(au: seq<byte>): seq<seq<byte>> { SplitFrom(au, Find(au, 0)) }

  lemma SplitUnfold(au: seq<byte>, i: nat, done: seq<seq<byte>>)
    requires i + 3 <= |au|
    ensures done + SplitFrom(au, i) == (done + UnitAt(au, i + 3)) + SplitFrom(au, Find(au, i + 3))
  {
  }

  method SplitAccessUnit(au: seq<byte>) returns (nals: seq<seq<byte>>)
    ensures nals == Split(au)
  {
    hide Find, SplitFrom;
    nals := [];
    var i := FindStartCode(au, 0);
    while i < |au|
      invariant i == |au| || i + 3 <= |au|
      invariant nals + SplitFrom(au, i) == Split(au)
      decreases |au| - i
    {
      var nalStart := i + 3;
      var next := FindStartCode(au, nalStart);
      var end := next;
      if next < |au| && next > 0 && au[next - 1] == 0 { end := end - 1; }
      SplitUnfold(au, i, nals);
      if end <= nalStart + 1 {
        assert nals + UnitAt(au, nalStart) == nals;
        i := next;
        continue;
      }
      nals := nals + [au[nalStart..end]];
      i := next;
    }
    SplitEnds(au);
  }

  lemma SplitEnds(au: seq<byte>)
    ensures SplitFrom(au, |au|) == []
  {
  }

  // ----- the round trip

  /** What a NAL unit must be to survive: two bytes or more, and no start code inside. */
  ghost predicate Splittable(nal: seq<byte>) { |nal| >= 2 && NoStartCode(nal) }

  /** Searching and splitting do not look at what lies before. */
  lemma {:induction false} FindShifted(before: seq<byte>, d: seq<byte>, from: nat)
    ensures Find(before + d, |before| + from) == |before| + Find(d, from)
    decreases |d| - from
  {
    if from + 2 < |d| {
      var s := before + d;
      assert s[|before| + from] == d[from] && s[|before| + from + 1] == d[from + 1] && s[|before| + from + 2] == d[from + 2];
      if !StartsAt(d, from) { FindShifted(before, d, from + 1); }
    }
  }

  lemma UnitShifted(before: seq<byte>, d: seq<byte>, start: nat)
    requires 0 < start <= |d|
    ensures UnitAt(before + d, |before| + start) == UnitAt(d, start)
  {
    hide Find;
    FindShifted(before, d, start);
    var next := Find(d, start);
    if 0 < next { assert (before + d)[|before| + next - 1] == d[next - 1]; }
    var end := NalEnd(d, start);
    assert NalEnd(before + d, |before| + start) == |before| + end;
    if start <= end { assert (before + d)[|before| + start..|before| + end] == d[start..end]; }
  }

  lemma {:induction false} SplitShifted(before: seq<byte>, d: seq<byte>, i: nat)
    requires i == |d| || i + 3 <= |d|
    ensures SplitFrom(before + d, |before| + i) == SplitFrom(d, i)
    decreases |d| - i
  {
    hide Find, UnitAt;
    if i < |d| {
      FindShifted(before, d, i + 3);
      UnitShifted(before, d, i + 3);
      SplitShifted(before, d, Find(d, i + 3));
    }
  }

  /** The first start code after a NAL unit is the one that was appended. */
  lemma NextStartCode(nal: seq<byte>, after: seq<byte>)
    requires NoStartCode(nal)
    ensures Find(nal + (START_CODE + after), 0) == |nal| + 1
  {
    hide Find;
    var d := nal + (START_CODE + after);
    FindIsFirst(d, 0);
    forall i: nat | i <= |nal|
      ensures !StartsAt(d, i)
    {
      if i + 2 < |nal| {
        assert !StartsAt(nal, i);
        assert d[i] == nal[i] && d[i + 1] == nal[i + 1] && d[i + 2] == nal[i + 2];
      } else {
        assert d[i + 2] == START_CODE[i + 2 - |nal|];
      }
    }
    assert d[|nal| + 1] == 0 && d[|nal| + 2] == 0 && d[|nal| + 3] == 1;
    assert StartsAt(d, |nal| + 1);
  }

  lemma NoNextStartCode(nal: seq<byte>)
    requires NoStartCode(nal)
    ensures Find(nal, 0) == |nal|
  {
    FindIsFirst(nal, 0);
  }

  /** The unit after a start code is the one appended there, and the next search finds the next start code. */
  lemma FirstUnit(nal: seq<byte>, rest: seq<byte>)
    requires Splittable(nal) && (rest == [] || START_CODE <= rest)
    ensures var au := START_CODE + (nal + rest);
            && Find(au, 4) == 4 + |nal| + (if rest == [] then 0 else 1)
            && UnitAt(au, 4) == [nal]
  {
    hide Find;
    var d := nal + rest;
    var au := START_CODE + d;
    FindShifted(START_CODE, d, 0);
    if rest == [] {
      assert d == nal;
      NoNextStartCode(nal);
      assert au[4 + |nal| - 1] == nal[|nal| - 1];
      NotCutShort(nal);
    } else {
      assert rest == START_CODE + rest[4..];
      NextStartCode(nal, rest[4..]);
      assert au[4 + |nal|] == 0;
    }
    assert au[4..4 + |nal|] == nal;
  }

  /** At the end of the input nothing is cut off. */
  lemma NotCutShort(nal: seq<byte>)
    requires NoStartCode(nal)
    ensures NalEnd(START_CODE + nal, 4) == 4 + |nal|
  {
    hide Find;
    FindShifted(START_CODE, nal, 0);
    NoNextStartCode(nal);
  }

  lemma {:induction false} SplitAppended(nals: seq<seq<byte>>)
    requires nals != [] && forall k :: 0 <= k < |nals| ==> Splittable(nals[k])
    ensures SplitFrom(StartCoded(nals), 1) == nals
    decreases |nals|
  {
    hide Find, UnitAt;
    var nal, rest := nals[0], StartCoded(nals[1..]);
    var au := START_CODE + (nal + rest);
    assert StartCoded(nals) == au;
    FirstUnit(nal, rest);
    assert SplitFrom(au, 1) == [nal] + SplitFrom(au, Find(au, 4));
    if nals[1..] != [] {
      assert au == (START_CODE + nal) + rest;
      SplitShifted(START_CODE + nal, rest, 1);
      SplitAppended(nals[1..]);
    }
    assert nals == [nal] + nals[1..];
  }

  /** Every unit the loop yields has two bytes or more and contains no start code. */
  lemma {:induction false} PiecesSplittable(au: seq<byte>, i: nat, k: nat)
    requires i == |au| || i + 3 <= |au|
    requires k < |SplitFrom(au, i)|
    ensures Splittable(SplitFrom(au, i)[k])
    decreases |au| - i
  {
    hide Find, NoStartCode, StartsAt;
    if i < |au| {
      var start := i + 3;
      var next, end := Find(au, start), NalEnd(au, start);
      FindIsFirst(au, start);
      if end <= start + 1 {
        PiecesSplittable(au, next, k);
      } else if k > 0 {
        PiecesSplittable(au, next, k - 1);
      } else {
        NoCodeBefore(au, start, end, next);
      }
    }
  }

  /** Before the next start code there is none. */
  lemma NoCodeBefore(au: seq<byte>, start: nat, end: nat, next: nat)
    requires start <= end <= next <= |au|
    requires forall i: nat :: start <= i && StartsAt(au, i) ==> next <= i
    ensures NoStartCode(au[start..end])
  {
    forall j: nat
      ensures !StartsAt(au[start..end], j)
    {
      assert StartsAt(au[start..end], j) ==> StartsAt(au, start + j);
    }
  }

  /** The first start code of a start-coded list is at 1. */
  lemma FirstStartCode(nals: seq<seq<byte>>)
    requires nals != []
    ensures Find(StartCoded(nals), 0) == 1
  {
    hide Find;
    var au, rest := StartCoded(nals), nals[0] + StartCoded(nals[1..]);
    assert au == START_CODE + rest;
    assert !StartsAt(au, 0) && StartsAt(au, 1);
    FindIsFirst(au, 0);
  }

  /**
   Annex-B round trip: splitting the start-coded concatenation of a list of NAL units returns the list
   if and only if every unit has two bytes or more and contains no 00 00 01.  Units that end in zero
   bytes come back whole.
   */
  lemma {:induction false} SplitInvertsIff(nals: seq<seq<byte>>)
    ensures Split(StartCoded(nals)) == nals <==> forall k :: 0 <= k < |nals| ==> Splittable(nals[k])
  {
    hide Splittable, SplitFrom, Find, StartCoded;
    var au := StartCoded(nals);
    if forall k :: 0 <= k < |nals| ==> Splittable(nals[k]) {
      if nals == [] {
        NoneSplit();
      } else {
        FirstStartCode(nals);
        SplitAppended(nals);
      }
    } else if Split(au) == nals {
      forall k | 0 <= k < |nals|
        ensures Splittable(nals[k])
      {
        PiecesSplittable(au, Find(au, 0), k);
      }
    }
  }

  lemma NoneSplit()
    ensures Split(StartCoded([])) == []
  {
  }

  // ----- every input

  /** A unit behind a start code of four bytes, or of three. */
  datatype Coded = Coded(four: bool, nal: seq<byte>)

  function CodeOf(four: bool): seq<byte> { if four then [0, 0, 0, 1] else [0, 0, 1] }

  function Stream(cs: seq<Coded>): seq<byte> {
    if cs == [] then [] else CodeOf(cs[0].four) + (cs[0].nal + Stream(cs[1..]))
  }

  ghost predicate Plain(cs: seq<Coded>) { forall k :: 0 <= k < |cs| ==> NoStartCode(cs[k].nal) }

  /** In front of a start code of three bytes one zero at the end of a unit is taken for a part of the code. */
  function Trimmed(nal: seq<byte>, threeFollows: bool): seq<byte> {
    if threeFollows && nal != [] && nal[|nal| - 1] == 0 then nal[..|nal| - 1] else nal
  }

  /** What comes out: units that are left with less than two bytes do not. */
  function Survivors(cs: seq<Coded>): seq<seq<byte>> {
    if cs == [] then []
    else
      var nal := Trimmed(cs[0].nal, |cs| > 1 && !cs[1].four);
      (if |nal| >= 2 then [nal] else []) + Survivors(cs[1..])
  }

  function Lead(four: bool): nat { if four then 1 else 0 }

  /** No start code begins inside bytes that contain none, or in the zero before one of three bytes. */
  lemma NoEarlierCode(nal: seq<byte>, four: bool, after: seq<byte>, i: nat)
    requires NoStartCode(nal) && i < |nal| + Lead(four)
    ensures !StartsAt(nal + (CodeOf(four) + after), i)
  {
    var code := CodeOf(four) + after;
    var d := nal + code;
    if i + 2 < |nal| {
      assert !StartsAt(nal, i);
      assert d[i] == nal[i] && d[i + 1] == nal[i + 1] && d[i + 2] == nal[i + 2];
    } else {
      assert d[i + 2] == code[i + 2 - |nal|] == CodeOf(four)[i + 2 - |nal|];
    }
  }

  /** The first start code behind bytes that contain none. */
  lemma NextCode(nal: seq<byte>, four: bool, after: seq<byte>)
    requires NoStartCode(nal)
    ensures Find(nal + (CodeOf(four) + after), 0) == |nal| + Lead(four)
  {
    hide Find, StartsAt, NoStartCode;
    var d := nal + (CodeOf(four) + after);
    FindIsFirst(d, 0);
    forall i: nat | i < |nal| + Lead(four)
      ensures !StartsAt(d, i)
    {
      NoEarlierCode(nal, four, after, i);
    }
    CodeStarts(nal, four, after);
  }

  lemma CodeStarts(nal: seq<byte>, four: bool, after: seq<byte>)
    ensures StartsAt(nal + (CodeOf(four) + after), |nal| + Lead(four))
  {
    var code := CodeOf(four) + after;
    assert code[Lead(four)] == 0 && code[Lead(four) + 1] == 0 && code[Lead(four) + 2] == 1;
    assert forall k :: 0 <= k < |code| ==> (nal + code)[|nal| + k] == code[k];
  }

  /** The byte before the start code that follows a unit. */
  lemma ByteBefore(four: bool, nal: seq<byte>, nextFour: bool, after: seq<byte>)
    ensures var au, at := CodeOf(four) + (nal + (CodeOf(nextFour) + after)), |CodeOf(four)| + |nal| + Lead(nextFour);
            && at < |au|
            && au[at - 1] == if nextFour then 0 else if nal == [] then 1 else nal[|nal| - 1]
  {
    var code := CodeOf(nextFour) + after;
    var au := CodeOf(four) + (nal + code);
    assert forall k :: 0 <= k < |nal| ==> au[|CodeOf(four)| + k] == nal[k];
    assert au[|CodeOf(four)| + |nal|] == code[0] == 0;
    assert au[|CodeOf(four)| - 1] == 1;
  }

  lemma FirstEndBefore(four: bool, nal: seq<byte>, nextFour: bool, after: seq<byte>)
    requires NoStartCode(nal)
    ensures var au, start := CodeOf(four) + (nal + (CodeOf(nextFour) + after)), |CodeOf(four)|;
            && Find(au, start) == start + |nal| + Lead(nextFour)
            && NalEnd(au, start) == start + |Trimmed(nal, !nextFour)|
  {
    hide Find, NoStartCode, CodeOf;
    FindShifted(CodeOf(four), nal + (CodeOf(nextFour) + after), 0);
    NextCode(nal, nextFour, after);
    ByteBefore(four, nal, nextFour, after);
  }

  lemma FirstEndLast(four: bool, nal: seq<byte>)
    requires NoStartCode(nal)
    ensures var au, start := CodeOf(four) + nal, |CodeOf(four)|;
            Find(au, start) == |au| && NalEnd(au, start) == |au|
  {
    hide Find, NoStartCode, CodeOf;
    FindShifted(CodeOf(four), nal, 0);
    NoNextStartCode(nal);
  }

  /** Where the unit behind the first start code ends, and what the next search finds. */
  lemma FirstEnd(four: bool, nal: seq<byte>, next: seq<Coded>)
    requires NoStartCode(nal)
    ensures var au, start := CodeOf(four) + (nal + Stream(next)), |CodeOf(four)|;
            && Find(au, start) == start + |nal| + (if next == [] then 0 else Lead(next[0].four))
            && NalEnd(au, start) == start + |Trimmed(nal, next != [] && !next[0].four)|
  {
    hide Find, NoStartCode, CodeOf, NalEnd;
    if next == [] {
      assert nal + Stream(next) == nal;
      FirstEndLast(four, nal);
    } else {
      FirstEndBefore(four, nal, next[0].four, next[0].nal + Stream(next[1..]));
    }
  }

  lemma CutOut(before: seq<byte>, nal: seq<byte>, after: seq<byte>, n: nat)
    requires n <= |nal|
    ensures (before + (nal + after))[|before|..|before| + n] == nal[..n]
  {
  }

  /** The unit behind the first start code. */
  lemma FirstSurvivor(four: bool, nal: seq<byte>, next: seq<Coded>)
    requires NoStartCode(nal)
    ensures var au := CodeOf(four) + (nal + Stream(next));
            var t := Trimmed(nal, next != [] && !next[0].four);
            UnitAt(au, |CodeOf(four)|) == if |t| >= 2 then [t] else []
  {
    hide Find, NoStartCode, NalEnd, CodeOf, Stream;
    FirstEnd(four, nal, next);
    var t := Trimmed(nal, next != [] && !next[0].four);
    CutOut(CodeOf(four), nal, Stream(next), |t|);
    assert t == nal[..|t|];
  }

  lemma {:induction false} StreamSplits(cs: seq<Coded>)
    requires cs != [] && Plain(cs)
    ensures Lead(cs[0].four) + 3 <= |Stream(cs)|
    ensures SplitFrom(Stream(cs), Lead(cs[0].four)) == Survivors(cs)
    decreases |cs|
  {
    hide Find, UnitAt, Trimmed, NoStartCode, NalEnd;
    var c, next := cs[0], cs[1..];
    var au, rest := Stream(cs), Stream(next);
    FirstEnd(c.four, c.nal, next);
    FirstSurvivor(c.four, c.nal, next);
    assert SplitFrom(au, Lead(c.four)) == UnitAt(au, |CodeOf(c.four)|) + SplitFrom(au, Find(au, |CodeOf(c.four)|));
    if next != [] {
      StreamSplits(next);
      assert au == (CodeOf(c.four) + c.nal) + rest;
      SplitShifted(CodeOf(c.four) + c.nal, rest, Lead(next[0].four));
    } else {
      assert SplitFrom(au, |au|) == [];
    }
  }

  /**
   The splitter on every input: whatever comes before the first start code is skipped; of the units between
   start codes of three or four bytes those with two bytes or more come out in order, less one final zero in
   front of a start code of three bytes.
   */
  lemma SplitsAnything(junk: seq<byte>, cs: seq<Coded>)
    requires NoStartCode(junk) && Plain(cs)
    ensures Split(junk + Stream(cs)) == Survivors(cs)
  {
    hide Find, SplitFrom, NoStartCode;
    if cs == [] {
      assert junk + Stream(cs) == junk;
      NoNextStartCode(junk);
      SplitEnds(junk);
    } else {
      NextCode(junk, cs[0].four, cs[0].nal + Stream(cs[1..]));
      StreamSplits(cs);
      SplitShifted(junk, Stream(cs), Lead(cs[0].four));
    }
  }

  /** And every byte string is such an input. */
  lemma {:induction false} PiecesFrom(au: seq<byte>, i: nat) returns (cs: seq<Coded>)
    requires i == |au| || StartsAt(au, i)
    ensures Plain(cs) && au[i..] == Stream(cs)
    decreases |au| - i
  {
    hide Find, NoStartCode;
    if i == |au| {
      cs := [];
    } else {
      var next := Find(au, i + 3);
      FindIsFirst(au, i + 3);
      NoCodeBefore(au, i + 3, next, next);
      var rest := PiecesFrom(au, next);
      cs := [Coded(false, au[i + 3..next])] + rest;
      PiecePlain(cs[0], rest);
      CutAt(au, i, next);
    }
  }

  lemma PiecePlain(c: Coded, rest: seq<Coded>)
    requires NoStartCode(c.nal) && Plain(rest)
    ensures Plain([c] + rest) && Stream([c] + rest) == CodeOf(c.four) + (c.nal + Stream(rest))
  {
    hide NoStartCode;
    assert ([c] + rest)[1..] == rest;
  }

  lemma CutAt(au: seq<byte>, i: nat, next: nat)
    requires StartsAt(au, i) && i + 3 <= next <= |au|
    ensures au[i..] == CodeOf(false) + (au[i + 3..next] + au[next..])
  {
    assert au[i..i + 3] == CodeOf(false);
    assert au[i..] == au[i..i + 3] + (au[i + 3..next] + au[next..]);
  }

  lemma EveryInput(au: seq<byte>) returns (junk: seq<byte>, cs: seq<Coded>)
    ensures NoStartCode(junk) && Plain(cs) && au == junk + Stream(cs)
  {
    hide Find, NoStartCode;
    var first := Find(au, 0);
    FindIsFirst(au, 0);
    NoCodeBefore(au, 0, first, first);
    junk := au[0..first];
    cs := PiecesFrom(au, first);
    assert au == au[0..first] + au[first..];
  }

  /** A non-zero header byte and escaped contents form a NAL unit that survives. */
  lemma EscapedIsSplittable(header: byte, rbsp: seq<byte>)
    requires header != 0 && rbsp != []
    ensures Splittable([header] + Escape(rbsp))
  {
    EscapedIsClean(rbsp);
    var nal := [header] + Escape(rbsp);
    forall i: nat
      ensures !StartsAt(nal, i)
    {
      if i > 0 { assert NoPrefixAt(Escape(rbsp), i - 1); }
    }
  }

  /** The NAL units an encoder makes of the payloads. */
  function Encode(header: byte, payloads: seq<seq<byte>>): seq<seq<byte>> {
    seq(|payloads|, k requires 0 <= k < |payloads| => [header] + Escape(payloads[k]))
  }

  /** From payloads to the wire and back: escape, start-code, split, drop the header, extract.  Exactly the
      payloads that do not end in an odd number of zeros come back. */
  lemma PayloadsSurvive(header: byte, payloads: seq<seq<byte>>)
    requires header != 0 && forall k :: 0 <= k < |payloads| ==> payloads[k] != []
    ensures var nals := Split(StartCoded(Encode(header, payloads)));
            && |nals| == |payloads|
            && (forall k :: 0 <= k < |nals| ==> |nals[k]| >= 1 && nals[k][0] == header)
            && forall k :: 0 <= k < |nals| ==>
                 (Extract(nals[k][1..]) == payloads[k] <==> TrailingZeros(payloads[k]) % 2 == 0)
  {
    var nals := Encode(header, payloads);
    forall k | 0 <= k < |nals|
      ensures Splittable(nals[k])
      ensures Extract(nals[k][1..]) == payloads[k] <==> TrailingZeros(payloads[k]) % 2 == 0
    {
      EscapedIsSplittable(header, payloads[k]);
      ExtractUndoesEscapeIff(payloads[k]);
      assert nals[k][1..] == Escape(payloads[k]);
    }
    SplitInvertsIff(nals);
  }
}
