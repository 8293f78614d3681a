/** The driver's bitstream buffer: collecting the slices of a picture and committing them. */
module DriverBuffer {
  import opened Common

  /** A slice control entry: where the slice is, and how many bytes it has. */
  datatype Slice = Slice(loc: nat, size: nat)

  const PREFIX: seq<byte> := [0, 0, 1]

  const ALIGN: nat := 128

  // ----- collecting the slices of a picture

  /** The raw NAL units one after the other, and an entry for each. */
  function Collected(nals: seq<seq<byte>>): (seq<byte>, seq<Slice>) {
    if nals == [] then ([], [])
    else
      var (bytes, slices) := Collected(nals[..|nals| - 1]);
      var nal := nals[|nals| - 1];
      (bytes + nal, slices + [Slice(|bytes|, |nal|)])
  }

  /** Every entry lies inside the buffer. */
  predicate Inside(bytes: seq<byte>, slices: seq<Slice>) {
    forall k :: 0 <= k < |slices| ==> slices[k].loc + slices[k].size <= |bytes|
  }

  function Raw(bytes: seq<byte>, s: Slice): seq<byte>
    requires s.loc + s.size <= |bytes|
  {
    bytes[s.loc..s.loc + s.size]
  }

  /** The entries find exactly the units collected, also once the buffer has been padded. */
  lemma {:induction false} CollectedFinds(nals: seq<seq<byte>>, padding: seq<byte>, k: nat)
    requires k < |nals|
    ensures var (bytes, slices) := Collected(nals);
            && |slices| == |nals| && Inside(bytes + padding, slices)
            && Raw(bytes + padding, slices[k]) == nals[k]
  {
    var init, nal := nals[..|nals| - 1], nals[|nals| - 1];
    var (before, slices) := Collected(init);
    var (bytes, all) := Collected(nals);
    forall j | 0 <= j < |init|
      ensures |slices| == |init| && all[j].loc + all[j].size <= |bytes + padding|
      ensures Raw(bytes + padding, all[j]) == nals[j]
    {
      CollectedFinds(init, nal + padding, j);
      assert bytes + padding == before + (nal + padding);
    }
    CollectedLength(init);
    assert (bytes + padding)[|before|..|before| + |nal|] == nal;
  }

  lemma {:induction false} CollectedLength(nals: seq<seq<byte>>)
    ensures |Collected(nals).1| == |nals|
  {
    if nals != [] { CollectedLength(nals[..|nals| - 1]); }
  }

  // ----- committing

  /** Where the `k`-th slice begins in the driver's buffer. */
  function Offset(slices: seq<Slice>, k: nat): nat
    requires k <= |slices|
  {
    if k == 0 then 0 else Offset(slices, k - 1) + |PREFIX| + slices[k - 1].size
  }

  lemma {:induction false} OffsetMonotone(slices: seq<Slice>, j: nat, k: nat)
    requires j <= k <= |slices|
    ensures Offset(slices, j) <= Offset(slices, k)
    decreases k - j
  {
    if j < k { OffsetMonotone(slices, j, k - 1); }
  }

  /** The first `k` slices, each behind a start code. */
  function Layout(bytes: seq<byte>, slices: seq<Slice>, k: nat): (s: seq<byte>)
    requires Inside(bytes, slices) && k <= |slices|
    ensures |s| == Offset(slices, k)
  {
    if k == 0 then [] else Layout(bytes, slices, k - 1) + PREFIX + Raw(bytes, slices[k - 1])
  }

  function Padding(used: nat, avail: nat): nat
    requires used <= avail
  {
    var p := (ALIGN - used % ALIGN) % ALIGN;
    if p > avail - used then avail - used else p
  }

  function Zeros(n: nat): (s: seq<byte>)
    ensures |s| == n && forall i :: 0 <= i < n ==> s[i] == 0
  {
    if n == 0 then [] else [0] + Zeros(n - 1)
  }

  /** The entries after the commit of the first `k`: their new places, with the start codes counted. */
  function Moved(slices: seq<Slice>, k: nat): (s: seq<Slice>)
    requires k <= |slices|
    ensures |s| == |slices|
  {
    seq(|slices|, j requires 0 <= j < |slices| =>
      if j < k then Slice(Offset(slices, j), |PREFIX| + slices[j].size) else slices[j])
  }

  /** The entries after a whole commit: the last slice also has the padding. */
  function Committed(slices: seq<Slice>, pad: nat): seq<Slice> {
    var n := |slices|;
    if n == 0 then []
    else Moved(slices, n)[n - 1 := Slice(Offset(slices, n - 1), |PREFIX| + slices[n - 1].size + pad)]
  }

  /** Copies `src` right behind what has been written. */
  method Append(buf: array<byte>, ghost done: seq<byte>, ghost orig: seq<byte>, src: seq<byte>, current: nat)
    requires current == |done| && |done| + |src| <= |orig|
    requires buf[..] == done + orig[|done|..]
    modifies buf
    ensures buf[..] == (done + src) + orig[|done| + |src|..]
  {
    for i := 0 to |src|
      invariant buf[..] == done + src[..i] + orig[|done| + i..]
    {
      buf[current + i] := src[i];
    }
  }

  /** A start code and a slice. */
  method AppendSlice(buf: array<byte>, ghost done: seq<byte>, ghost orig: seq<byte>, raw: seq<byte>, current: nat)
    requires current == |done| && |done| + |PREFIX| + |raw| <= |orig|
    requires buf[..] == done + orig[|done|..]
    modifies buf
    ensures buf[..] == (done + PREFIX + raw) + orig[|done| + |PREFIX| + |raw|..]
  {
    Append(buf, done, orig, PREFIX, current);
    Append(buf, done + PREFIX, orig, raw, current + |PREFIX|);
  }

  /** One slice more in the layout. */
  lemma LayoutStep(bytes: seq<byte>, slices: seq<Slice>, k: nat)
    requires Inside(bytes, slices) && k < |slices|
    ensures slices[k].loc + slices[k].size <= |bytes|
    ensures Layout(bytes, slices, k + 1) == (Layout(bytes, slices, k) + PREFIX) + Raw(bytes, slices[k])
    ensures Offset(slices, k + 1) == Offset(slices, k) + |PREFIX| + slices[k].size
  {
  }

  lemma MovedStep(slices: seq<Slice>, k: nat)
    requires k < |slices|
    ensures Moved(slices, k)[k] == slices[k]
    ensures Moved(slices, k)[k := Slice(Offset(slices, k), |PREFIX| + slices[k].size)] == Moved(slices, k + 1)
    ensures Moved(slices, k + 1)[k] == Slice(Offset(slices, k), |PREFIX| + slices[k].size)
  {
    hide Offset;
  }

  lemma NothingDone(bytes: seq<byte>, slices: seq<Slice>, orig: seq<byte>)
    requires Inside(bytes, slices)
    ensures Offset(slices, 0) == 0 && Layout(bytes, slices, 0) + orig[0..] == orig
    ensures Moved(slices, 0) == slices
  {
  }

  /** How much of the driver's buffer a whole commit takes. */
  function Used(slices: seq<Slice>, avail: nat): (used: nat)
    requires Offset(slices, |slices|) <= avail
    ensures Offset(slices, |slices|) <= used <= avail
  {
    var total := Offset(slices, |slices|);
    if slices == [] then total else total + Padding(total, avail)
  }

  lemma PaddingAligns(used: nat, avail: nat)
    requires used <= avail
    ensures (used + Padding(used, avail)) % ALIGN == 0 || used + Padding(used, avail) == avail
    ensures Padding(used, avail) < ALIGN
  {
    var r := used % ALIGN;
    assert used == ALIGN * (used / ALIGN) + r;
    assert (ALIGN - r) % ALIGN == if r == 0 then 0 else ALIGN - r;
  }

  /** A commit ends on a multiple of 128, or at the end of the buffer, and pads by less than 128 bytes. */
  lemma UsedAligns(slices: seq<Slice>, avail: nat)
    requires Offset(slices, |slices|) <= avail
    ensures Used(slices, avail) % ALIGN == 0 || Used(slices, avail) == avail
    ensures Used(slices, avail) < Offset(slices, |slices|) + ALIGN
  {
    hide Offset;
    if slices == [] { NothingDone([], slices, []); } else { PaddingAligns(Offset(slices, |slices|), avail); }
  }

  /** The commit ended before slice `k`, which does not fit any more. */
  predicate Stopped(before: seq<Slice>, avail: nat, after: seq<Slice>, used: nat, k: nat) {
    k < |before| && after == Moved(before, k) && used == Offset(before, k) <= avail < Offset(before, k + 1)
  }

  /** The commit loop: each slice goes behind a start code, and its entry is rewritten to its new place. */
  method PlaceSlices(bytes: seq<byte>, slices: array<Slice>, buf: array<byte>) returns (overflow: bool, current: nat)
    requires Inside(bytes, slices[..])
    modifies slices, buf
    ensures overflow <==> Offset(old(slices[..]), slices.Length) > buf.Length
    ensures overflow ==> exists k :: Stopped(old(slices[..]), buf.Length, slices[..], current, k)
    ensures !overflow ==> current == Offset(old(slices[..]), slices.Length)
    ensures !overflow ==> slices[..] == Moved(old(slices[..]), slices.Length)
    ensures !overflow ==> buf[..] == Layout(bytes, old(slices[..]), slices.Length) + old(buf[..])[current..]
  {
    hide Layout, Moved, Offset, Raw, Inside;
    ghost var before, orig := slices[..], buf[..];
    var k := 0;
    current := 0;
    NothingDone(bytes, before, orig);
    while k < slices.Length
      invariant 0 <= k <= slices.Length
      invariant current == Offset(before, k) <= buf.Length
      invariant buf[..] == Layout(bytes, before, k) + orig[current..]
      invariant slices[..] == Moved(before, k)
    {
      ghost var done := Layout(bytes, before, k);
      var s := slices[k];
      MovedStep(before, k);
      LayoutStep(bytes, before, k);
      assert s == slices[..][k];
      if |PREFIX| + s.size > buf.Length - current {
        OffsetMonotone(before, k + 1, slices.Length);
        assert Stopped(before, buf.Length, slices[..], current, k);
        return true, current;
      }
      AppendSlice(buf, done, orig, Raw(bytes, s), current);
      slices[k] := Slice(current, |PREFIX| + s.size);
      assert slices[..] == Moved(before, k)[k := Slice(current, |PREFIX| + s.size)];
      current := current + |PREFIX| + s.size;
      assert buf[..] == Layout(bytes, before, k + 1) + orig[current..];
      k := k + 1;
    }
    overflow := false;
  }

  /**
   The whole commit: slices are placed one after the other, and the last one is padded.  It overflows
   exactly when the slices do not fit.
   */
  method Commit(bytes: seq<byte>, slices: array<Slice>, buf: array<byte>) returns (overflow: bool, used: nat)
    requires Inside(bytes, slices[..])
    modifies slices, buf
    ensures overflow <==> Offset(old(slices[..]), slices.Length) > buf.Length
    ensures overflow ==> exists k :: Stopped(old(slices[..]), buf.Length, slices[..], used, k)
    ensures !overflow ==> used == Used(old(slices[..]), buf.Length)
    ensures !overflow ==> slices[..] == Committed(old(slices[..]), used - Offset(old(slices[..]), slices.Length))
    ensures !overflow ==>
      buf[..] == Layout(bytes, old(slices[..]), slices.Length)
               + Zeros(used - Offset(old(slices[..]), slices.Length)) + old(buf[..])[used..]
  {
    hide Layout, Moved, Offset, Inside, Zeros;
    ghost var before, orig := slices[..], buf[..];
    overflow, used := PlaceSlices(bytes, slices, buf);
    if !overflow && slices.Length > 0 {
      var n := slices.Length;
      var pad := Padding(used, buf.Length);
      Append(buf, Layout(bytes, before, n), orig, Zeros(pad), used);
      MovedStep(before, n - 1);
      assert slices[n - 1] == slices[..][n - 1];
      slices[n - 1] := Slice(slices[n - 1].loc, slices[n - 1].size + pad);
      used := used + pad;
    }
  }

  // ----- what the driver sees

  lemma {:induction false} LayoutAt(bytes: seq<byte>, slices: seq<Slice>, n: nat, k: nat)
    requires Inside(bytes, slices) && k < n <= |slices|
    ensures Offset(slices, k) + |PREFIX| + slices[k].size <= Offset(slices, n)
    ensures Layout(bytes, slices, n)[Offset(slices, k)..Offset(slices, k) + |PREFIX| + slices[k].size]
         == PREFIX + Raw(bytes, slices[k])
    decreases n
  {
    hide Raw, Inside;
    var inner, all := Layout(bytes, slices, n - 1), Layout(bytes, slices, n);
    var from, to := Offset(slices, k), Offset(slices, k) + |PREFIX| + slices[k].size;
    LayoutStep(bytes, slices, n - 1);
    if k < n - 1 {
      LayoutAt(bytes, slices, n - 1, k);
      assert all[..|inner|] == inner;
      assert all[from..to] == inner[from..to];
    }
  }

  /** Where the rewritten entry `k` is, and how long. */
  lemma {:induction false} CommittedAt(slices: seq<Slice>, pad: nat, k: nat)
    requires k < |slices|
    ensures |Committed(slices, pad)| == |slices|
    ensures Committed(slices, pad)[k]
         == Slice(Offset(slices, k), |PREFIX| + slices[k].size + (if k == |slices| - 1 then pad else 0))
  {
    hide Offset;
  }

  /**
   The rewritten ranges tile the used part of the buffer in order, and each holds a start code and the
   bytes of its NAL unit, the last one followed by the padding.
   */
  lemma {:induction false} RangesTile(bytes: seq<byte>, slices: seq<Slice>, pad: nat, k: nat)
    requires Inside(bytes, slices) && k < |slices|
    ensures var n := |slices|;
            var buf := Layout(bytes, slices, n) + Zeros(pad);
            var out := Committed(slices, pad);
            && |out| == n
            && out[k].loc == (if k == 0 then 0 else out[k - 1].loc + out[k - 1].size)
            && out[k].loc + out[k].size <= |buf|
            && (k == n - 1 ==> out[k].loc + out[k].size == |buf|)
            && buf[out[k].loc..out[k].loc + out[k].size]
               == PREFIX + Raw(bytes, slices[k]) + (if k == n - 1 then Zeros(pad) else [])
  {
    hide Committed, Layout;
    var n := |slices|;
    var all := Layout(bytes, slices, n);
    CommittedAt(slices, pad, k);
    if k > 0 { CommittedAt(slices, pad, k - 1); }
    LayoutAt(bytes, slices, n, k);
    var from, to := Offset(slices, k), Offset(slices, k) + |PREFIX| + slices[k].size;
    assert (all + Zeros(pad))[from..to] == all[from..to];
    if k == n - 1 {
      assert (all + Zeros(pad))[from..to + pad] == all[from..to] + Zeros(pad);
    }
  }

  /** After a commit of `slices` with `pad` zeros at the end, entry `k` is a start code and unit `k`. */
  predicate Reaches(nals: seq<seq<byte>>, bytes: seq<byte>, slices: seq<Slice>, pad: nat, k: nat)
    requires k < |nals|
  {
    && |slices| == |nals| && Inside(bytes, slices)
    && var buf := Layout(bytes, slices, |slices|) + Zeros(pad);
       var out := Committed(slices, pad);
       && |out| == |nals| && out[k].loc + out[k].size <= |buf|
       && buf[out[k].loc..out[k].loc + out[k].size]
          == PREFIX + nals[k] + (if k == |nals| - 1 then Zeros(pad) else [])
  }

  /** From the NAL units of a picture to the driver, whatever padding the collected bytes got. */
  lemma {:induction false} PictureReachesDriver(nals: seq<seq<byte>>, padding: seq<byte>, pad: nat, k: nat)
    requires k < |nals|
    ensures Reaches(nals, Collected(nals).0 + padding, Collected(nals).1, pad, k)
  {
    hide Collected, Layout, Committed, Raw, Inside, Zeros;
    var (bytes, slices) := Collected(nals);
    CollectedFinds(nals, padding, k);
    RangesTile(bytes + padding, slices, pad, k);
  }
}
