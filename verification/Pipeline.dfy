/** From the packets of one picture to the driver's bitstream buffer: depacketizer, Annex-B splitter and
    buffer layout together. */
module Pipeline {
  import opened Common
  import opened AnnexB
  import opened AccessUnits
  import opened DepackH264
  import opened H264Packets
  import opened DriverBuffer

  const SLICE: nat := 1

  predicate IsSlice(nal: seq<byte>) {
    nal != [] && (NalType(nal[0]) == SLICE || NalType(nal[0]) == IDR)
  }

  /** The slices among the units, in order. */
  function Slices(nals: seq<seq<byte>>): seq<seq<byte>> {
    if nals == [] then []
    else
      var init, nal := Slices(nals[..|nals| - 1]), nals[|nals| - 1];
      if IsSlice(nal) then init + [nal] else init
  }

  /** Exactly the units of types 1 and 5 are slices, each as often as it is there. */
  lemma {:induction false} SlicesExactly(nals: seq<seq<byte>>, nal: seq<byte>)
    ensures multiset(Slices(nals))[nal] ==
            if nal != [] && (nal[0] as int % 32 == 1 || nal[0] as int % 32 == 5) then multiset(nals)[nal] else 0
    decreases |nals|
  {
    if nals != [] {
      SlicesExactly(nals[..|nals| - 1], nal);
      assert nals == nals[..|nals| - 1] + [nals[|nals| - 1]];
    }
  }

  /** The slice bytes, padded with zeros to a multiple of 128. */
  function Aligned(bytes: seq<byte>): seq<byte> {
    bytes + Zeros((ALIGN - |bytes| % ALIGN) % ALIGN)
  }

  /** The slice branch of on_au_h264, for the units of one picture: raw bytes behind each other, an entry
      for each slice, and padding at the end of the access unit. */
  method CollectSlices(nals: seq<seq<byte>>) returns (bytes: seq<byte>, slices: seq<Slice>)
    ensures slices == Collected(Slices(nals)).1
    ensures bytes == Aligned(Collected(Slices(nals)).0)
  {
    bytes, slices := [], [];
    for k := 0 to |nals|
      invariant (bytes, slices) == Collected(Slices(nals[..k]))
    {
      assert nals[..k + 1][..k] == nals[..k];
      if IsSlice(nals[k]) {
        ghost var before := Slices(nals[..k]);
        assert Slices(nals[..k + 1])[..|before|] == before;
        slices := slices + [Slice(|bytes|, |nals[k]|)];
        bytes := bytes + nals[k];
      }
    }
    assert nals[..|nals|] == nals;
    var pad := (ALIGN - |bytes| % ALIGN) % ALIGN;
    bytes := bytes + Zeros(pad);
  }

  lemma {:induction false} SlicesBehindFront(front: seq<seq<byte>>, nals: seq<seq<byte>>)
    requires forall k :: 0 <= k < |front| ==> !IsSlice(front[k])
    ensures Slices(front + nals) == Slices(nals)
    decreases |front| + |nals|
  {
    hide IsSlice;
    var all := front + nals;
    if nals != [] {
      assert all[..|all| - 1] == front + nals[..|nals| - 1];
      SlicesBehindFront(front, nals[..|nals| - 1]);
    } else if front != [] {
      assert all[..|all| - 1] == front[..|front| - 1] + [];
      SlicesBehindFront(front[..|front| - 1], []);
    }
  }

  /** The cached parameter sets are what they should be. */
  predicate Typed(s: State) {
    && (s.sps != [] ==> NalType(s.sps[0]) == SPS)
    && (s.pps != [] ==> NalType(s.pps[0]) == PPS)
  }

  lemma {:induction false} LatestIsTyped(nals: seq<seq<byte>>, t: nat, otherwise: seq<byte>)
    requires NoneEmpty(nals) && (otherwise != [] ==> NalType(otherwise[0]) == t)
    ensures var r := Latest(nals, t, otherwise);
            r != [] ==> NalType(r[0]) == t
    decreases |nals|
  {
    hide NalType;
    if nals != [] {
      LatestIsTyped(nals[1..], t, if NalType(nals[0][0]) == t then nals[0] else otherwise);
    }
  }

  /** What the splitter makes of the access unit of the packets of one time stamp. */
  lemma {:induction false} DeliveredSplits(sei: SeiTest, s: State, cs: seq<Carrier>, ps: seq<Packet>, pts: int)
    returns (front: seq<seq<byte>>)
    requires !s.fuOpen && s.fu == [] && s.au == [] && Typed(s)
    requires AllFit(cs) && AllCarried(cs) != [] && Bring(ps, AllPayloads(cs), pts)
    requires forall j :: 0 <= j < |AllCarried(cs)| ==> Splittable(AllCarried(cs)[j])
    requires (s.sps != [] ==> Splittable(s.sps)) && (s.pps != [] ==> Splittable(s.pps))
    ensures ps != [] && AllReadable(Marked(ps)) && |Feed(sei, s, Marked(ps)).out| == |s.out| + 1
    ensures Split(Feed(sei, s, Marked(ps)).out[|s.out|].bytes) == front + AllCarried(cs)
    ensures forall j :: 0 <= j < |front| ==> !IsSlice(front[j])
  {
    hide Splittable, Split, Latest, HasType, Recovers, StartCoded, NalType, Feed, IsSlice, FrontOf,
         Bring, AllFit, AllCarried, AllPayloads;
    var nals := AllCarried(cs);
    AccessUnitDelivered(sei, s, cs, ps, pts);
    front := FrontOf(s.sawIdr || HasType(nals, IDR), Latest(nals, SPS, s.sps), Latest(nals, PPS, s.pps));
    FrontSplits(s, nals);
  }

  /**
   End to end for one picture: however its NAL units were put into packets, the driver gets exactly its
   slices, in order: entry `k` of the committed slice table points at a start code followed by the `k`-th
   slice the sender sent.  Parameter sets put in front, and other units, do not get there.
   */
  lemma {:induction false} SlicesReachDriver(sei: SeiTest, s: State, cs: seq<Carrier>, ps: seq<Packet>,
          pts: int, pad: nat, k: nat)
    requires !s.fuOpen && s.fu == [] && s.au == [] && Typed(s)
    requires AllFit(cs) && AllCarried(cs) != [] && Bring(ps, AllPayloads(cs), pts)
    requires forall j :: 0 <= j < |AllCarried(cs)| ==> Splittable(AllCarried(cs)[j])
    requires (s.sps != [] ==> Splittable(s.sps)) && (s.pps != [] ==> Splittable(s.pps))
    requires k < |Slices(AllCarried(cs))|
    ensures ps != [] && AllReadable(Marked(ps)) && |Feed(sei, s, Marked(ps)).out| == |s.out| + 1
    ensures var (raw, slices) := Collected(Slices(Split(Feed(sei, s, Marked(ps)).out[|s.out|].bytes)));
            Reaches(Slices(AllCarried(cs)), Aligned(raw), slices, pad, k)
  {
    hide Splittable, Split, StartCoded, NalType, Feed, IsSlice, Slices, Reaches, Bring, AllFit,
         AllCarried, AllPayloads, Collected;
    var nals := AllCarried(cs);
    var front := DeliveredSplits(sei, s, cs, ps, pts);
    SlicesBehindFront(front, nals);
    var raw := Collected(Slices(nals)).0;
    PictureReachesDriver(Slices(nals), Zeros((ALIGN - |raw| % ALIGN) % ALIGN), pad, k);
  }

  /** The parameter sets in front can be split off again, and are no slices. */
  lemma FrontSplits(s: State, nals: seq<seq<byte>>)
    requires Typed(s) && NoneEmpty(nals) && forall j :: 0 <= j < |nals| ==> Splittable(nals[j])
    requires (s.sps != [] ==> Splittable(s.sps)) && (s.pps != [] ==> Splittable(s.pps))
    ensures var front := FrontOf(s.sawIdr || HasType(nals, IDR), Latest(nals, SPS, s.sps), Latest(nals, PPS, s.pps));
            forall j :: 0 <= j < |front| ==> Splittable(front[j]) && !IsSlice(front[j])
  {
    hide Splittable, NalType, HasType;
    LatestIsTyped(nals, SPS, s.sps);
    LatestIsTyped(nals, PPS, s.pps);
    LatestSplittable(nals, SPS, s.sps);
    LatestSplittable(nals, PPS, s.pps);
  }

  lemma {:induction false} LatestSplittable(nals: seq<seq<byte>>, t: nat, otherwise: seq<byte>)
    requires NoneEmpty(nals) && (forall j :: 0 <= j < |nals| ==> Splittable(nals[j]))
    requires otherwise != [] ==> Splittable(otherwise)
    ensures Latest(nals, t, otherwise) != [] ==> Splittable(Latest(nals, t, otherwise))
    decreases |nals|
  {
    hide Splittable, NalType;
    if nals != [] {
      LatestSplittable(nals[1..], t, if NalType(nals[0][0]) == t then nals[0] else otherwise);
    }
  }
}
