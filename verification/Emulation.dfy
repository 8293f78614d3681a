/** Emulation prevention (section 7.3.1 of H.264): the two removal loops and the encoder they undo. */
module Emulation {
  import opened Common

  /** rbsp_unescape: a counter of zeros decides which 03 bytes go. */
  function UnescapeFrom(ebsp: seq<byte>, zeros: nat): seq<byte> {
    if ebsp == [] then []
    else if zeros >= 2 && ebsp[0] == 3 then UnescapeFrom(ebsp[1..], 0)
    else [ebsp[0]] + UnescapeFrom(ebsp[1..], if ebsp[0] == 0 then zeros + 1 else 0)
  }

  method RbspUnescape(ebsp: seq<byte>) returns (out: seq<byte>)
    ensures out == UnescapeFrom(ebsp, 0)
  {
    out := [];
    var zeros: nat := 0;
    for i := 0 to |ebsp|
      invariant out + UnescapeFrom(ebsp[i..], zeros) == UnescapeFrom(ebsp, 0)
    {
      var b := ebsp[i];
      assert ebsp[i..][1..] == ebsp[i + 1..];
      if zeros >= 2 && b == 3 {
        zeros := 0;
        continue;
      }
      out := out + [b];
      zeros := if b == 0 then zeros + 1 else 0;
    }
  }

  /** extract_rbsp: the pattern 00 00 03 loses its last byte. */
  function Extract(ebsp: seq<byte>): seq<byte> {
    if ebsp == [] then []
    else if |ebsp| >= 3 && ebsp[0] == 0 && ebsp[1] == 0 && ebsp[2] == 3 then [0, 0] + Extract(ebsp[3..])
    else [ebsp[0]] + Extract(ebsp[1..])
  }

  lemma ExtractStep(ebsp: seq<byte>, i: nat)
    requires i < |ebsp|
    ensures Extract(ebsp[i..]) ==
      if i + 2 < |ebsp| && ebsp[i] == 0 && ebsp[i + 1] == 0 && ebsp[i + 2] == 3 then [0, 0] + Extract(ebsp[i + 3..])
      else [ebsp[i]] + Extract(ebsp[i + 1..])
  {
    assert ebsp[i..][1..] == ebsp[i + 1..];
    if i + 2 < |ebsp| { assert ebsp[i..][3..] == ebsp[i + 3..]; }
  }

  lemma ExtractDone(ebsp: seq<byte>)
    ensures Extract(ebsp[|ebsp|..]) == [] && ebsp[0..] == ebsp
  {
  }

  method ExtractRbsp(ebsp: seq<byte>) returns (out: seq<byte>)
    ensures out == Extract(ebsp)
  {
    hide Extract;
    out := [];
    var i := 0;
    ExtractDone(ebsp);
    while i < |ebsp|
      invariant 0 <= i <= |ebsp|
      invariant out + Extract(ebsp[i..]) == Extract(ebsp)
    {
      ExtractStep(ebsp, i);
      if i + 2 < |ebsp| && ebsp[i] == 0 && ebsp[i + 1] == 0 && ebsp[i + 2] == 3 {
        out := out + [0];
        out := out + [0];
        i := i + 3;
      } else {
        out := out + [ebsp[i]];
        i := i + 1;
      }
    }
  }

  lemma Associate(a: seq<byte>, b: seq<byte>, c: seq<byte>)
    ensures (a + b) + c == a + (b + c)
  {
  }

  /** The zeros a counter stands for, as far as they matter. */
  function Kept(zeros: nat): seq<byte> {
    if zeros == 0 then [] else if zeros == 1 then [0] else [0, 0]
  }

  /** The counter stands for that many zeros just kept. */
  lemma {:induction false} UnescapeAgrees(ebsp: seq<byte>, zeros: nat)
    ensures Kept(zeros) + UnescapeFrom(ebsp, zeros) == Extract(Kept(zeros) + ebsp)
  {
    hide Extract;
    if ebsp == [] {
      ExtractKept(zeros);
      assert Kept(zeros) + ebsp == Kept(zeros);
    } else {
      var b, rest := ebsp[0], ebsp[1..];
      assert ebsp == [b] + rest;
      if b == 0 {
        UnescapeAgrees(rest, zeros + 1);
        ZeroKept(rest, zeros);
        assert Kept(zeros) + ([0] + UnescapeFrom(rest, zeros + 1))
            == (if zeros >= 2 then [0] else []) + (Kept(zeros + 1) + UnescapeFrom(rest, zeros + 1));
      } else {
        UnescapeAgrees(rest, 0);
        assert [] + rest == rest && Kept(0) + UnescapeFrom(rest, 0) == UnescapeFrom(rest, 0);
        if zeros >= 2 && b == 3 { DroppedThree(rest); } else { OtherKept(b, rest, zeros); }
      }
    }
  }

  lemma ExtractKept(zeros: nat)
    ensures Extract(Kept(zeros)) == Kept(zeros)
  {
    assert [0, 0][1..] == [0] && [0][1..] == [];
  }

  lemma DroppedThree(rest: seq<byte>)
    ensures Extract([0, 0] + ([3] + rest)) == [0, 0] + Extract(rest)
  {
    assert ([0, 0] + ([3] + rest))[3..] == rest;
  }

  lemma ExtractCons(a: byte, s: seq<byte>)
    requires !(a == 0 && |s| >= 2 && s[0] == 0 && s[1] == 3)
    ensures Extract([a] + s) == [a] + Extract(s)
  {
    assert ([a] + s)[1..] == s;
  }

  /** One more zero: of three zeros in a row the first is kept as it is. */
  lemma ZeroKept(rest: seq<byte>, zeros: nat)
    ensures Extract(Kept(zeros) + ([0] + rest))
         == (if zeros >= 2 then [0] else []) + Extract(Kept(zeros + 1) + rest)
  {
    hide Extract;
    if zeros >= 2 {
      ExtractCons(0, [0, 0] + rest);
      assert [0, 0] + ([0] + rest) == [0] + ([0, 0] + rest);
    } else {
      assert Kept(zeros) + ([0] + rest) == Kept(zeros + 1) + rest;
      assert [] + Extract(Kept(zeros + 1) + rest) == Extract(Kept(zeros + 1) + rest);
    }
  }

  /** A byte that completes no pattern is kept after the zeros. */
  lemma OtherKept(b: byte, rest: seq<byte>, zeros: nat)
    requires b != 0 && (zeros >= 2 ==> b != 3)
    ensures Extract(Kept(zeros) + ([b] + rest)) == Kept(zeros) + ([b] + Extract(rest))
  {
    hide Extract;
    ExtractCons(b, rest);
    if zeros == 0 {
      assert [] + ([b] + rest) == [b] + rest;
    } else {
      ExtractCons(0, [b] + rest);
      if zeros >= 2 {
        ExtractCons(0, [0] + ([b] + rest));
        assert [0, 0] + ([b] + rest) == [0] + ([0] + ([b] + rest));
        Associate([0], [0], [b] + Extract(rest));
      }
    }
  }

  /** The two removal loops agree on every input. */
  lemma RemovalLoopsAgree(ebsp: seq<byte>)
    ensures UnescapeFrom(ebsp, 0) == Extract(ebsp)
  {
    UnescapeAgrees(ebsp, 0);
    assert [] + ebsp == ebsp;
  }

  /** A 03 behind two zeros. */
  predicate Prevention(s: seq<byte>, i: nat) { 2 <= i < |s| && s[i] == 3 && s[i - 1] == 0 && s[i - 2] == 0 }

  /** The bytes from `i` on, but for those. */
  function Without(s: seq<byte>, i: nat): seq<byte>
    requires i <= |s|
    decreases |s| - i
  {
    if i == |s| then [] else (if Prevention(s, i) then [] else [s[i]]) + Without(s, i + 1)
  }

  lemma {:induction false} UnescapeIsWithout(s: seq<byte>, i: nat, zeros: nat)
    requires i <= |s|
    requires zeros >= 1 <==> i >= 1 && s[i - 1] == 0
    requires zeros >= 2 <==> i >= 2 && s[i - 1] == 0 && s[i - 2] == 0
    ensures UnescapeFrom(s[i..], zeros) == Without(s, i)
    decreases |s| - i
  {
    if i < |s| {
      assert s[i..][0] == s[i] && s[i..][1..] == s[i + 1..];
      UnescapeIsWithout(s, i + 1, if zeros >= 2 && s[i] == 3 then 0 else if s[i] == 0 then zeros + 1 else 0);
    }
  }

  /** On every input, exactly the 03 bytes behind two zeros are removed, by either loop. */
  lemma RemovesExactly(s: seq<byte>)
    ensures UnescapeFrom(s, 0) == Without(s, 0) && Extract(s) == Without(s, 0)
  {
    assert s[0..] == s;
    UnescapeIsWithout(s, 0, 0);
    RemovalLoopsAgree(s);
  }

  // ----- the encoder

  /** The encoder's count of zeros after byte `b`. */
  function Count(zeros: nat, b: byte): nat { if b != 0 then 0 else if zeros >= 2 then 1 else zeros + 1 }

  /** Section 7.3.1: after two zeros, a byte of 0 to 3 is preceded by 03. */
  function Coded(zeros: nat, b: byte): seq<byte> { if zeros >= 2 && b <= 3 then [3, b] else [b] }

  function EscapeFrom(rbsp: seq<byte>, zeros: nat): seq<byte> {
    if rbsp == [] then [] else Coded(zeros, rbsp[0]) + EscapeFrom(rbsp[1..], Count(zeros, rbsp[0]))
  }

  /** Section 7.4.1: contents that end in 00 are followed by a final 03, so that a unit never ends in 00. */
  function Escape(rbsp: seq<byte>): seq<byte> {
    EscapeFrom(rbsp, 0) + (if rbsp != [] && rbsp[|rbsp| - 1] == 0 then [3] else [])
  }

  /** The encoder's count of zeros at the end. */
  function FinalCount(rbsp: seq<byte>, zeros: nat): nat {
    if rbsp == [] then zeros else FinalCount(rbsp[1..], Count(zeros, rbsp[0]))
  }

  /** Whatever comes behind the escaped bytes is read with the encoder's own count of zeros. */
  lemma {:induction false} UnescapeUndoes(rbsp: seq<byte>, zeros: nat, tail: seq<byte>)
    ensures UnescapeFrom(EscapeFrom(rbsp, zeros) + tail, zeros) == rbsp + UnescapeFrom(tail, FinalCount(rbsp, zeros))
    decreases |rbsp|
  {
    hide UnescapeFrom, Coded, Count;
    if rbsp == [] {
      assert EscapeFrom(rbsp, zeros) + tail == tail && rbsp + UnescapeFrom(tail, zeros) == UnescapeFrom(tail, zeros);
    } else {
      var b, rest := rbsp[0], rbsp[1..];
      var escaped := EscapeFrom(rest, Count(zeros, b));
      UnescapeUndoes(rest, Count(zeros, b), tail);
      UnescapeOne(b, escaped + tail, zeros);
      Associate(Coded(zeros, b), escaped, tail);
      Associate([b], rest, UnescapeFrom(tail, FinalCount(rbsp, zeros)));
      assert rbsp == [b] + rest;
    }
  }

  /** One byte of the encoder's output. */
  lemma UnescapeOne(b: byte, kept: seq<byte>, zeros: nat)
    ensures UnescapeFrom(Coded(zeros, b) + kept, zeros) == [b] + UnescapeFrom(kept, Count(zeros, b))
  {
    assert ([b] + kept)[1..] == kept;
    assert ([3, b] + kept)[1..] == [b] + kept;
  }

  /** How many zeros the contents end in. */
  function TrailingZeros(rbsp: seq<byte>): nat {
    if rbsp == [] || rbsp[|rbsp| - 1] != 0 then 0 else 1 + TrailingZeros(rbsp[..|rbsp| - 1])
  }

  lemma {:induction false} FinalCountSnoc(rbsp: seq<byte>, b: byte, zeros: nat)
    ensures FinalCount(rbsp + [b], zeros) == Count(FinalCount(rbsp, zeros), b)
    decreases |rbsp|
  {
    if rbsp == [] {
      assert [] + [b] == [b] && [b][1..] == [];
    } else {
      FinalCountSnoc(rbsp[1..], b, Count(zeros, rbsp[0]));
      assert (rbsp + [b])[1..] == rbsp[1..] + [b];
    }
  }

  /** The count alternates between 1 and 2 along a run of zeros. */
  lemma {:induction false} FinalCountIs(rbsp: seq<byte>)
    ensures var n := TrailingZeros(rbsp); FinalCount(rbsp, 0) == if n == 0 then 0 else if n % 2 == 1 then 1 else 2
  {
    if rbsp != [] {
      var init, b := rbsp[..|rbsp| - 1], rbsp[|rbsp| - 1];
      FinalCountIs(init);
      FinalCountSnoc(init, b, 0);
      assert rbsp == init + [b];
    }
  }

  lemma FinalThree(zeros: nat)
    ensures UnescapeFrom([3], zeros) == if zeros >= 2 then [] else [3]
  {
    assert [3][1..] == [];
    assert UnescapeFrom([], 0) == [];
  }

  /**
   Removal undoes escaping, with either loop, if and only if the contents do not end in an odd number of
   zeros; then the final 03 is left behind.  Contents of the standard end in pairs of zeros, if in any.
   */
  lemma ExtractUndoesEscapeIff(rbsp: seq<byte>)
    ensures Extract(Escape(rbsp)) == UnescapeFrom(Escape(rbsp), 0)
         == if TrailingZeros(rbsp) % 2 == 0 then rbsp else rbsp + [3]
  {
    hide UnescapeFrom, EscapeFrom, FinalCount, Extract, TrailingZeros;
    EndsInZero(rbsp);
    var tail: seq<byte> := if rbsp != [] && rbsp[|rbsp| - 1] == 0 then [3] else [];
    UnescapeUndoes(rbsp, 0, tail);
    FinalCountIs(rbsp);
    FinalThree(FinalCount(rbsp, 0));
    NothingLeft(FinalCount(rbsp, 0));
    assert rbsp + [] == rbsp;
    RemovalLoopsAgree(Escape(rbsp));
  }

  lemma EndsInZero(rbsp: seq<byte>)
    ensures TrailingZeros(rbsp) == 0 <==> !(rbsp != [] && rbsp[|rbsp| - 1] == 0)
  {
  }

  lemma NothingLeft(zeros: nat)
    ensures UnescapeFrom([], zeros) == []
  {
  }

  /** Two zeros at `i` are followed by something other than 00, 01 and 02. */
  predicate NoPrefixAt(s: seq<byte>, i: nat) {
    i + 2 < |s| && s[i] == 0 && s[i + 1] == 0 ==> s[i + 2] > 2
  }

  /** No three bytes of `s` are 00 00 00, 00 00 01 or 00 00 02. */
  ghost predicate NoPrefix(s: seq<byte>) { forall i: nat :: NoPrefixAt(s, i) }

  lemma ConsNoPrefix(a: byte, s: seq<byte>)
    requires NoPrefix(s) && NoPrefixAt([a] + s, 0)
    ensures NoPrefix([a] + s)
  {
    forall i: nat
      ensures NoPrefixAt([a] + s, i)
    {
      if i > 0 { assert NoPrefixAt(s, i - 1); }
    }
  }

  lemma KeptNoPrefix(zeros: nat)
    ensures NoPrefix(Kept(zeros))
  {
  }

  /** Zeros before a byte other than zero. */
  lemma KeptBefore(zeros: nat, b: byte, s: seq<byte>)
    requires b != 0 && (zeros >= 2 ==> b > 2) && NoPrefix([b] + s)
    ensures NoPrefix(Kept(zeros) + ([b] + s))
  {
    if zeros == 0 {
      assert [] + ([b] + s) == [b] + s;
    } else {
      ConsNoPrefix(0, [b] + s);
      if zeros >= 2 {
        ConsNoPrefix(0, [0] + ([b] + s));
        assert [0, 0] + ([b] + s) == [0] + ([0] + ([b] + s));
      }
    }
  }

  /** Escaped output contains no start code, also together with the zeros kept just before it. */
  lemma {:induction false} EscapeHasNoPrefix(rbsp: seq<byte>, zeros: nat)
    requires zeros <= 2
    ensures NoPrefix(Kept(zeros) + EscapeFrom(rbsp, zeros))
  {
    hide NoPrefix;
    if rbsp == [] {
      KeptNoPrefix(zeros);
      assert Kept(zeros) + EscapeFrom(rbsp, zeros) == Kept(zeros);
    } else {
      var b, rest := rbsp[0], rbsp[1..];
      var escaped := zeros == 2 && b <= 3;
      var next := Count(zeros, b);
      EscapeHasNoPrefix(rest, next);
      StepHasNoPrefix(b, EscapeFrom(rest, next), zeros, escaped, next);
    }
  }

  /** One byte of the encoder. */
  lemma StepHasNoPrefix(b: byte, tail: seq<byte>, zeros: nat, escaped: bool, next: nat)
    requires zeros <= 2 && escaped == (zeros == 2 && b <= 3)
    requires next == (if b != 0 then 0 else if escaped then 1 else zeros + 1)
    requires NoPrefix(Kept(next) + tail)
    ensures NoPrefix(Kept(zeros) + ((if escaped then [3, b] else [b]) + tail))
  {
    var kept := [b] + tail;
    if b == 0 && !escaped {
      assert Kept(zeros) + kept == Kept(next) + tail;
    } else {
      if b == 0 {
        assert kept == Kept(next) + tail;
      } else {
        assert Kept(0) + tail == tail;
        ConsNoPrefix(b, tail);
      }
      if escaped {
        ConsNoPrefix(3, kept);
        KeptBefore(2, 3, kept);
        assert [3, b] + tail == [3] + kept;
      } else {
        KeptBefore(zeros, b, tail);
      }
    }
  }

  /** A unit's contents, escaped: no start code in them, and no zero at the end. */
  lemma EscapedIsClean(rbsp: seq<byte>)
    ensures NoPrefix(Escape(rbsp))
    ensures Escape(rbsp) != [] ==> Escape(rbsp)[|Escape(rbsp)| - 1] != 0
  {
    var escaped := EscapeFrom(rbsp, 0);
    EscapeHasNoPrefix(rbsp, 0);
    assert [] + escaped == escaped;
    if rbsp != [] { LastEscaped(rbsp, 0); }
    forall i: nat
      ensures NoPrefixAt(Escape(rbsp), i)
    {
      assert NoPrefixAt(escaped, i);
    }
  }

  lemma {:induction false} LastEscaped(rbsp: seq<byte>, zeros: nat)
    requires rbsp != []
    ensures EscapeFrom(rbsp, zeros) != []
    ensures EscapeFrom(rbsp, zeros)[|EscapeFrom(rbsp, zeros)| - 1] == rbsp[|rbsp| - 1]
    decreases |rbsp|
  {
    if |rbsp| > 1 { LastEscaped(rbsp[1..], Count(zeros, rbsp[0])); }
  }
}
