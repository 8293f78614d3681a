/** Bit strings, the codes of section 9.1 of H.264, and the bit reader of dxva_h264.cpp in functional form. */
module Bits {
  import opened Arithmetic
  import opened Common

  type bit = b: int | 0 <= b < 2

  /** Bit `k` of a byte, most significant first. */
  function BitOfByte(b: byte, k: nat): bit
    requires k < 8
  {
    (b / Pow2(7 - k)) % 2
  }

  function BitAt(data: seq<byte>, pos: nat): bit
    requires pos < 8 * |data|
  {
    BitOfByte(data[pos / 8], pos % 8)
  }

  function BitsOf(data: seq<byte>): (bits: seq<bit>)
    ensures |bits| == 8 * |data|
  {
    seq(8 * |data|, i requires 0 <= i < 8 * |data| => BitAt(data, i))
  }

  /** The number written by a bit string. */
  function Value(s: seq<bit>): nat {
    if s == [] then 0 else 2 * Value(s[..|s| - 1]) + s[|s| - 1]
  }

  /** The low `n` bits of `v`. */
  function Binary(v: nat, n: nat): (s: seq<bit>)
    ensures |s| == n
  {
    if n == 0 then [] else Binary(v / 2, n - 1) + [v % 2]
  }

  lemma {:induction false} ValueOfBinary(v: nat, n: nat)
    requires v < Pow2(n)
    ensures Value(Binary(v, n)) == v
  {
    if n > 0 {
      ValueOfBinary(v / 2, n - 1);
      assert Binary(v, n)[..n - 1] == Binary(v / 2, n - 1);
    }
  }

  lemma {:induction false} ValueBound(s: seq<bit>)
    ensures Value(s) < Pow2(|s|)
  {
    if s != [] { ValueBound(s[..|s| - 1]); }
  }

  function ZeroBits(n: nat): (s: seq<bit>)
    ensures |s| == n && forall i :: 0 <= i < n ==> s[i] == 0
  {
    if n == 0 then [] else [0] + ZeroBits(n - 1)
  }

  // ----- the reader: the bits still to come, and whether an error occurred

  datatype Reader = Reader(rem: seq<bit>, bad: bool)

  /** A read of no bits, or beyond the end, yields 0 and sets the error flag to whether it is beyond the end. */
  function ReadBits(r: Reader, n: nat): (nat, Reader) {
    if n == 0 || n > |r.rem| then (0, Reader(r.rem, n > |r.rem|))
    else (Value(r.rem[..n]) % TWO_32, Reader(r.rem[n..], r.bad))
  }

  /** The zeros before the first one, at most 32 of them, and what follows. */
  function ScanZeros(rem: seq<bit>, lz: nat): (nat, seq<bit>) {
    if lz >= 32 || rem == [] then (lz, rem)
    else if rem[0] == 1 then (lz, rem[1..])
    else ScanZeros(rem[1..], lz + 1)
  }

  /** ue(v) */
  function ReadUe(r: Reader): (nat, Reader) {
    var (lz, rem) := ScanZeros(r.rem, 0);
    if lz >= 32 || r.bad then (0, Reader(rem, true))
    else
      var (suffix, after) := if lz == 0 then (0, Reader(rem, r.bad)) else ReadBits(Reader(rem, r.bad), lz);
      (Pow2(lz) - 1 + suffix, after)
  }

  /** The signed number a code number stands for (section 9.1.1). */
  function Signed(k: nat): int { if k % 2 == 1 then (k + 1) / 2 else -(k / 2) }

  function ReadSe(r: Reader): (int, Reader) {
    var (k, after) := ReadUe(r);
    (Signed(k), after)
  }

  /** more_rbsp_data: a one still comes after the next bit. */
  predicate MoreData(r: Reader) { exists j :: 0 < j < |r.rem| && r.rem[j] == 1 }

  // ----- the codes

  function Log2(x: nat): nat
    requires x > 0
  {
    if x == 1 then 0 else 1 + Log2(x / 2)
  }

  lemma {:induction false} Log2Bounds(x: nat)
    requires x > 0
    ensures Pow2(Log2(x)) <= x < 2 * Pow2(Log2(x))
  {
    if x > 1 { Log2Bounds(x / 2); }
  }

  lemma {:induction false} Pow2Monotone(a: nat, b: nat)
    ensures a <= b ==> Pow2(a) <= Pow2(b)
    decreases b
  {
    if a < b { Pow2Monotone(a, b - 1); }
  }

  lemma Pow2Of32()
    ensures Pow2(32) == TWO_32 && Pow2(8) == 256
  {
    assert Pow2(8) == 256;
    assert Pow2(16) == TWO_16;
    assert Pow2(24) == 0x100_0000;
  }

  /** The code of code number `k`: as many zeros as `k + 1` has bits after its first, then `k + 1`. */
  function UeBits(k: nat): seq<bit> {
    var lz := Log2(k + 1);
    ZeroBits(lz) + ([1] + Binary(k + 1 - Suffixless(k), lz))
  }

  /** The leading one of `k + 1`, as a number. */
  function Suffixless(k: nat): (p: nat)
    ensures p <= k + 1 < 2 * p
  {
    Log2Bounds(k + 1);
    Pow2(Log2(k + 1))
  }

  function SeBits(v: int): seq<bit> { UeBits(if v > 0 then 2 * v - 1 else -2 * v) }

  lemma {:induction false} ScanCountsZeros(n: nat, rest: seq<bit>, lz: nat)
    requires lz + n < 32
    ensures ScanZeros(ZeroBits(n) + ([1] + rest), lz) == (lz + n, rest)
    decreases n
  {
    var s := ZeroBits(n) + ([1] + rest);
    if n == 0 {
      assert s == [1] + rest && s[1..] == rest;
    } else {
      assert s[1..] == ZeroBits(n - 1) + ([1] + rest);
      ScanCountsZeros(n - 1, rest, lz + 1);
    }
  }

  /** read_bits returns the bits that were written. */
  lemma {:induction false} ReadBitsInverts(v: nat, n: nat, rest: seq<bit>)
    requires 0 < n <= 32 && v < Pow2(n)
    ensures ReadBits(Reader(Binary(v, n) + rest, false), n) == (v, Reader(rest, false))
  {
    hide Value, Binary, Pow2;
    var s := Binary(v, n) + rest;
    assert s[..n] == Binary(v, n) && s[n..] == rest;
    ValueOfBinary(v, n);
    Pow2Monotone(n, 32);
    Pow2Of32();
  }

  /** The largest code number that fits the reader. */
  const MAX_CODE: nat := TWO_32 - 2

  lemma Log2Of32(k: nat)
    requires k <= MAX_CODE
    ensures Log2(k + 1) < 32
  {
    Log2Bounds(k + 1);
    Pow2Of32();
    Pow2Monotone(32, Log2(k + 1));
  }

  /** read_ue inverts the code of every code number up to 2^32-2. */
  lemma ReadUeInverts(k: nat, rest: seq<bit>)
    requires k <= MAX_CODE
    ensures ReadUe(Reader(UeBits(k) + rest, false)) == (k, Reader(rest, false))
  {
    hide Log2, Pow2, Value, ScanZeros;
    var lz, suffix := Log2(k + 1), k + 1 - Suffixless(k);
    Log2Of32(k);
    var tail := Binary(suffix, lz) + rest;
    assert UeBits(k) + rest == ZeroBits(lz) + ([1] + tail);
    ScanCountsZeros(lz, tail, 0);
    if lz == 0 {
      assert tail == rest;
      PowZero();
    } else {
      ReadBitsInverts(suffix, lz, rest);
    }
  }

  lemma PowZero()
    ensures Pow2(0) == 1
  {
  }

  /** read_se inverts the signed codes. */
  lemma {:induction false} ReadSeInverts(v: int, rest: seq<bit>)
    requires -0x7FFF_FFFF <= v <= 0x7FFF_FFFF
    ensures ReadSe(Reader(SeBits(v) + rest, false)) == (v, Reader(rest, false))
  {
    hide UeBits, ReadUe;
    ReadUeInverts(if v > 0 then 2 * v - 1 else -2 * v, rest);
  }

  lemma ReadFlagInverts(b: bit, rest: seq<bit>)
    ensures ReadBits(Reader([b] + rest, false), 1) == (b, Reader(rest, false))
  {
    assert ([b] + rest)[..1] == [b] && ([b] + rest)[1..] == rest;
    assert [b][..0] == [];
    assert Value([b]) == b;
  }

  /** The stop bit and the alignment zeros. */
  function Trailing(pad: nat): seq<bit> { [1] + ZeroBits(pad) }

  /** more_rbsp_data is true exactly while payload bits remain before the stop bit. */
  lemma MoreDataExact(payload: seq<bit>, pad: nat)
    ensures MoreData(Reader(payload + Trailing(pad), false)) <==> payload != []
  {
    var rem := payload + Trailing(pad);
    if payload != [] {
      assert rem[|payload|] == 1;
    } else {
      assert rem == Trailing(pad);
    }
  }

  // ----- bytes

  /** Bit `k` of the number a bit string writes is its `k`-th bit. */
  lemma {:induction false} ValueBit(s: seq<bit>, k: nat)
    requires k < |s|
    ensures (Value(s) / Pow2(|s| - 1 - k)) % 2 == s[k]
  {
    if k < |s| - 1 {
      var init := s[..|s| - 1];
      ValueBit(init, k);
      Halve(Value(init), s[|s| - 1], Pow2(|s| - 2 - k));
    }
  }

  lemma {:induction false} Halve(v: nat, b: bit, p: nat)
    requires p > 0
    ensures (2 * v + b) / (2 * p) == v / p
  {
    var q, r := v / p, v % p;
    assert v == q * p + r;
    assert 2 * v + b == q * (2 * p) + (2 * r + b);
    DivUnique(2 * v + b, 2 * p, q, 2 * r + b);
  }

  /** Whole bytes, most significant bit first. */
  function Pack(bits: seq<bit>): (data: seq<byte>)
    requires |bits| % 8 == 0
    ensures 8 * |data| == |bits|
  {
    if bits == [] then [] else [PackByte(bits[..8])] + Pack(bits[8..])
  }

  function PackByte(s: seq<bit>): byte
    requires |s| == 8
  {
    ValueBound(s);
    Pow2Of32();
    Value(s)
  }

  lemma {:induction false} UnpackPacked(bits: seq<bit>)
    requires |bits| % 8 == 0
    ensures BitsOf(Pack(bits)) == bits
  {
    if bits != [] {
      var data := Pack(bits);
      UnpackPacked(bits[8..]);
      forall i | 0 <= i < |bits|
        ensures BitAt(data, i) == bits[i]
      {
        if i < 8 {
          ValueBit(bits[..8], i);
        } else {
          assert BitAt(data, i) == BitAt(Pack(bits[8..]), i - 8);
          assert BitsOf(Pack(bits[8..]))[i - 8] == bits[8..][i - 8];
        }
      }
    }
  }

  // ----- codes that are cut short

  /** Nothing more can be read, or an error has occurred. */
  predicate Exhausted(r: Reader) { r.bad || r.rem == [] }

  lemma {:induction false} ScanKeepsEmpty(rem: seq<bit>, lz: nat)
    ensures rem == [] ==> ScanZeros(rem, lz) == (lz, [])
  {
  }

  /** Then it stays so; and reading some bits is an error. */
  lemma ExhaustedStays(r: Reader, n: nat)
    requires Exhausted(r) && n > 0
    ensures ReadBits(r, n).1.bad && Exhausted(ReadUe(r).1) && Exhausted(ReadSe(r).1)
    ensures r.bad ==> ReadUe(r).1.bad && ReadSe(r).1.bad
  {
    hide Value, Pow2;
    ScanKeepsEmpty(r.rem, 0);
  }

  /** At the end of the data read_ue returns 0 and reports no error. */
  lemma UeAtEnd(bad: bool)
    ensures ReadUe(Reader([], bad)) == (0, Reader([], bad))
  {
    assert Pow2(0) == 1;
  }

  /** A run of 32 zeros is an error, whatever follows. */
  lemma {:induction false} TooManyZeros(rest: seq<bit>)
    ensures ReadUe(Reader(ZeroBits(32) + rest, false)) == (0, Reader(rest, true))
  {
    ScanAllZeros(32, rest, 0);
  }

  lemma {:induction false} ScanAllZeros(n: nat, rest: seq<bit>, lz: nat)
    requires lz + n == 32
    ensures ScanZeros(ZeroBits(n) + rest, lz) == (32, rest)
    decreases n
  {
    var s := ZeroBits(n) + rest;
    if n == 0 {
      assert s == rest;
    } else {
      assert s[1..] == ZeroBits(n - 1) + rest && s[0] == 0;
      ScanAllZeros(n - 1, rest, lz + 1);
    }
  }

  /** Zeros with nothing behind them. */
  lemma {:induction false} ScanOnlyZeros(n: nat, lz: nat)
    requires lz + n < 32
    ensures ScanZeros(ZeroBits(n), lz) == (lz + n, [])
    decreases n
  {
    if n > 0 {
      assert ZeroBits(n)[1..] == ZeroBits(n - 1) && ZeroBits(n)[0] == 0;
      ScanOnlyZeros(n - 1, lz + 1);
    }
  }

  lemma {:induction false} ZeroPrefix(n: nat, m: nat)
    requires m <= n
    ensures ZeroBits(n)[..m] == ZeroBits(m)
    decreases n
  {
    if m > 0 { ZeroPrefix(n - 1, m - 1); assert ZeroBits(n)[..m] == [0] + ZeroBits(n - 1)[..m - 1]; }
  }

  /** Of a code cut short nothing is left, or an error is reported. */
  lemma UeCutShort(k: nat, m: nat)
    requires k <= MAX_CODE && m < |UeBits(k)|
    ensures Exhausted(ReadUe(Reader(UeBits(k)[..m], false)).1)
  {
    hide Log2, Pow2, Value, ScanZeros, Binary;
    var lz := Log2(k + 1);
    Log2Of32(k);
    var code := UeBits(k);
    var s := code[..m];
    if m <= lz {
      assert s == ZeroBits(lz)[..m];
      ZeroPrefix(lz, m);
      ScanOnlyZeros(m, 0);
    } else {
      var tail := Binary(k + 1 - Suffixless(k), lz)[..m - lz - 1];
      assert s == ZeroBits(lz) + ([1] + tail);
      ScanCountsZeros(lz, tail, 0);
    }
  }

  /** Reading a code from the first `m` bits of what was written. */
  lemma UeCut(k: nat, rest: seq<bit>, m: nat)
    requires k <= MAX_CODE && m <= |UeBits(k) + rest|
    ensures var r := Reader((UeBits(k) + rest)[..m], false);
            if m < |UeBits(k)| then Exhausted(ReadUe(r).1) else ReadUe(r) == (k, Reader(rest[..m - |UeBits(k)|], false))
  {
    hide UeBits, ReadUe;
    if m < |UeBits(k)| {
      assert (UeBits(k) + rest)[..m] == UeBits(k)[..m];
      UeCutShort(k, m);
    } else {
      assert (UeBits(k) + rest)[..m] == UeBits(k) + rest[..m - |UeBits(k)|];
      ReadUeInverts(k, rest[..m - |UeBits(k)|]);
    }
  }

  lemma SeCut(v: int, rest: seq<bit>, m: nat)
    requires -0x7FFF_FFFF <= v <= 0x7FFF_FFFF && m <= |SeBits(v) + rest|
    ensures var r := Reader((SeBits(v) + rest)[..m], false);
            if m < |SeBits(v)| then Exhausted(ReadSe(r).1) else ReadSe(r) == (v, Reader(rest[..m - |SeBits(v)|], false))
  {
    hide UeBits, ReadUe;
    UeCut(if v > 0 then 2 * v - 1 else -2 * v, rest, m);
    if m >= |SeBits(v)| {
      assert (SeBits(v) + rest)[..m] == SeBits(v) + rest[..m - |SeBits(v)|];
      ReadSeInverts(v, rest[..m - |SeBits(v)|]);
    }
  }

  /** The same for `n` bits. */
  lemma BitsCut(v: nat, n: nat, rest: seq<bit>, m: nat)
    requires 0 < n <= 32 && v < Pow2(n) && m <= n + |rest|
    ensures var r := Reader((Binary(v, n) + rest)[..m], false);
            if m < n then ReadBits(r, n).1.bad else ReadBits(r, n) == (v, Reader(rest[..m - n], false))
  {
    hide Binary, Value, Pow2;
    if m >= n {
      assert (Binary(v, n) + rest)[..m] == Binary(v, n) + rest[..m - n];
      ReadBitsInverts(v, n, rest[..m - n]);
    }
  }

  lemma FlagCut(b: bit, rest: seq<bit>, m: nat)
    requires m <= 1 + |rest|
    ensures var r := Reader(([b] + rest)[..m], false);
            if m < 1 then ReadBits(r, 1).1.bad else ReadBits(r, 1) == (b, Reader(rest[..m - 1], false))
  {
    hide Value;
    if m >= 1 {
      assert ([b] + rest)[..m] == [b] + rest[..m - 1];
      ReadFlagInverts(b, rest[..m - 1]);
    }
  }
}
