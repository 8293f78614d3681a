/** The bit reader of dxva_h264.cpp: a position in a byte buffer and an error flag. */
module BitReader {
  import opened Arithmetic
  import opened Common
  import opened Bits

  lemma BitsOfAt(data: seq<byte>, pos: nat)
    requires pos < 8 * |data|
    ensures BitsOf(data)[pos] == BitOfByte(data[pos / 8], pos % 8)
  {
  }

  lemma BitInByte(data: seq<byte>, byteIndex: nat, k: nat)
    requires byteIndex < |data| && k < 8
    ensures BitsOf(data)[8 * byteIndex + k] == BitOfByte(data[byteIndex], k)
  {
    assert (8 * byteIndex + k) / 8 == byteIndex && (8 * byteIndex + k) % 8 == k;
  }

  lemma ValueUnfold(all: seq<bit>, start: nat, end: nat)
    requires start <= end < |all|
    ensures Value(all[start..end + 1]) == 2 * Value(all[start..end]) + all[end]
  {
    assert all[start..end + 1][..end - start] == all[start..end];
  }

  lemma ModDouble(v: nat, b: bit)
    ensures (2 * v + b) % TWO_32 == (2 * (v % TWO_32) + b) % TWO_32
  {
    var low := 2 * (v % TWO_32) + b;
    DivUnique(2 * v + b, TWO_32, 2 * (v / TWO_32) + low / TWO_32, low % TWO_32);
  }

  /** One more bit, in 32-bit arithmetic. */
  lemma ValueSnoc(all: seq<bit>, start: nat, end: nat)
    requires start <= end < |all|
    ensures Value(all[start..end + 1]) % TWO_32 == (2 * (Value(all[start..end]) % TWO_32) + all[end]) % TWO_32
  {
    hide Value;
    ValueUnfold(all, start, end);
    ModDouble(Value(all[start..end]), all[end]);
  }

  lemma ReadSlice(all: seq<bit>, start: nat, n: nat, bad: bool)
    requires 0 < n && start + n <= |all|
    ensures ReadBits(Reader(all[start..], bad), n) == (Value(all[start..start + n]) % TWO_32, Reader(all[start + n..], bad))
  {
    assert all[start..][..n] == all[start..start + n] && all[start..][n..] == all[start + n..];
  }

  lemma OneBit(r: Reader)
    requires r.rem != []
    ensures ReadBits(r, 1) == (r.rem[0], Reader(r.rem[1..], r.bad))
  {
    var b: bit := r.rem[0];
    assert r.rem[..1] == [b] && [b][..0] == [];
    assert Value([b]) == 2 * Value([]) + b;
  }

  /** One round of the search for the first one. */
  lemma ScanStep(rem: seq<bit>, lz: nat)
    ensures lz >= 32 || rem == [] ==> ScanZeros(rem, lz) == (lz, rem)
    ensures lz < 32 && rem != [] && rem[0] == 1 ==> ScanZeros(rem, lz) == (lz, rem[1..])
    ensures lz < 32 && rem != [] && rem[0] == 0 ==> ScanZeros(rem, lz) == ScanZeros(rem[1..], lz + 1)
  {
  }

  lemma NoneSetInZero(all: seq<bit>, pos: nat, bad: bool)
    requires pos <= |all| && forall j: nat :: j < |all| ==> all[j] == 0
    ensures !MoreData(Reader(all[pos..], bad))
  {
  }

  lemma LastOne(all: seq<bit>, pos: nat, last: nat, bad: bool)
    requires pos <= |all| && last < |all| && all[last] == 1
    requires forall j: nat :: last < j < |all| ==> all[j] == 0
    ensures MoreData(Reader(all[pos..], bad)) <==> pos < last
  {
    if pos < last { assert all[pos..][last - pos] == 1; }
  }

  class BitReader {
    const data: seq<byte>
    const bits: nat
    var pos: nat
    var bad: bool

    ghost predicate Valid()
      reads this
    {
      bits == 8 * |data| && pos <= bits
    }

    /** The bits still to come. */
    ghost function Abs(): Reader
      reads this
      requires Valid()
    {
      Reader(BitsOf(data)[pos..], bad)
    }

    constructor (d: seq<byte>)
      ensures Valid() && data == d && Abs() == Reader(BitsOf(d), false)
    {
      data := d;
      bits := 8 * |d|;
      pos := 0;
      bad := false;
    }

    method ReadBits(n: nat) returns (v: nat)
      requires Valid()
      modifies this
      ensures Valid() && (v, Abs()) == Bits.ReadBits(old(Abs()), n)
    {
      hide BitsOf, BitOfByte, Value, Bits.ReadBits;
      ReadRefused(Abs(), n);
      if n == 0 || pos + n > bits {
        bad := pos + n > bits;
        return 0;
      }
      ghost var start, all := pos, BitsOf(data);
      ReadSlice(all, start, n, bad);
      v := 0;
      EmptyValue(all, start);
      for i := 0 to n
        invariant Valid() && pos == start + i && bad == old(bad)
        invariant v == Value(all[start..start + i]) % TWO_32
      {
        var byteIndex := pos / 8;
        BitsOfAt(data, pos);
        ValueSnoc(all, start, start + i);
        v := (2 * v + BitOfByte(data[byteIndex], pos % 8)) % TWO_32;
        pos := pos + 1;
      }
    }

    static lemma ReadRefused(r: Reader, n: nat)
      ensures n == 0 || n > |r.rem| ==> Bits.ReadBits(r, n) == (0, r.(bad := n > |r.rem|))
    {
    }

    static lemma EmptyValue(all: seq<bit>, start: nat)
      requires start <= |all|
      ensures Value(all[start..start]) == 0
    {
    }

    method ReadUe() returns (v: nat)
      requires Valid()
      modifies this
      ensures Valid() && (v, Abs()) == Bits.ReadUe(old(Abs()))
    {
      hide BitsOf, ScanZeros, Bits.ReadBits;
      var lz := 0;
      while true
        invariant Valid() && bad == old(bad) && 0 <= lz <= 32
        invariant ScanZeros(Abs().rem, lz) == ScanZeros(old(Abs()).rem, 0)
        decreases 32 - lz
      {
        ScanStep(Abs().rem, lz);
        if lz >= 32 || pos >= bits { break; }
        OneBit(Abs());
        var b := ReadBits(1);
        if b == 1 { break; }
        lz := lz + 1;
      }
      assert (lz, Abs().rem) == ScanZeros(old(Abs()).rem, 0);
      if lz >= 32 || bad {
        bad := true;
        return 0;
      }
      var suffix := 0;
      if lz != 0 { suffix := ReadBits(lz); }
      v := Pow2(lz) - 1 + suffix;
    }

    method ReadSe() returns (v: int)
      requires Valid()
      modifies this
      ensures Valid() && (v, Abs()) == Bits.ReadSe(old(Abs()))
    {
      hide Bits.ReadUe;
      var k := ReadUe();
      v := Signed(k);
    }

    /** The last one of a byte, if it has one; `BitsOf(data)` is zero behind it within the byte. */
    method LastSetInByte(byteIndex: nat) returns (last: Option<nat>)
      requires Valid() && byteIndex < |data|
      ensures last.Some? ==> 8 * byteIndex <= last.value < 8 * byteIndex + 8 && BitsOf(data)[last.value] == 1
      ensures forall j: nat :: (if last.Some? then last.value + 1 else 8 * byteIndex) <= j < 8 * byteIndex + 8 ==> BitsOf(data)[j] == 0
    {
      hide BitsOf, Pow2;
      var b := 0;
      while b < 8
        invariant 0 <= b <= 8
        invariant forall j: nat :: 8 * byteIndex + 8 - b <= j < 8 * byteIndex + 8 ==> BitsOf(data)[j] == 0
      {
        BitInByte(data, byteIndex, 7 - b);
        if (data[byteIndex] / Pow2(b)) % 2 == 1 { return Some(byteIndex * 8 + (7 - b)); }
        b := b + 1;
      }
      return None;
    }

    /** more_rbsp_data: look for the last one of the buffer, byte by byte from the end. */
    method MoreRbspData() returns (more: bool)
      requires Valid()
      ensures more == MoreData(Abs())
    {
      hide BitsOf, MoreData;
      ghost var all := BitsOf(data);
      if pos >= bits {
        NothingLeft(Abs());
        return false;
      }
      var b := |data|;
      while b > 0
        invariant 0 <= b <= |data|
        invariant forall j: nat :: 8 * b <= j < bits ==> all[j] == 0
      {
        var last := LastSetInByte(b - 1);
        if last.Some? {
          LastOne(all, pos, last.value, bad);
          return pos < last.value;
        }
        b := b - 1;
      }
      NoneSetInZero(all, pos, bad);
      return false;
    }

    static lemma NothingLeft(r: Reader)
      requires r.rem == []
      ensures !MoreData(r)
    {
    }
  }
}
