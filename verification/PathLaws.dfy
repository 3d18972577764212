/**
 What reversal means for the decoded path: segments, interfaces and expiry.
 */
module PathLaws {
  import opened Words
  import opened ScionPath
  import opened PathReversal

  // ---- Reversing a decoded path ----

  function FlipInfo(info: InfoField): InfoField {
    info.(flags := ToggleLow(info.flags))
  }

  function ReverseSegment(s: Segment): Segment {
    Segment(FlipInfo(s.info), Reverse(s.hops))
  }

  function ReverseSegments(segs: seq<Segment>): (r: seq<Segment>)
    ensures |r| == |segs|
  {
    if segs == [] then [] else ReverseSegments(segs[1..]) + [ReverseSegment(segs[0])]
  }

  function TotalHops(segs: seq<Segment>): nat {
    if segs == [] then 0 else |segs[0].hops| + TotalHops(segs[1..])
  }

  /** The path walked the other way, standing at the same hop. */
  function ReversePath(p: Path): Path
    requires p.currInf < |p.segments| && p.currHf < TotalHops(p.segments)
  {
    Path(|p.segments| - 1 - p.currInf, TotalHops(p.segments) - 1 - p.currHf, ReverseSegments(p.segments))
  }

  function FlipInfos(infos: seq<InfoField>): (r: seq<InfoField>)
    ensures |r| == |infos|
    ensures forall i :: 0 <= i < |infos| ==> r[i] == FlipInfo(infos[i])
  {
    seq(|infos|, i requires 0 <= i < |infos| => FlipInfo(infos[i]))
  }

  lemma {:induction false} SegmentsSnoc(infos: seq<InfoField>, lens: seq<nat>, hops: seq<HopField>, x: InfoField, hs: seq<HopField>)
    requires |infos| == |lens| && Sum(lens) == |hops|
    ensures Sum(lens + [|hs|]) == |hops + hs|
    ensures Segments(infos + [x], lens + [|hs|], hops + hs) == Segments(infos, lens, hops) + [Segment(x, hs)]
  {
    SumConcat(lens, [|hs|]);
    if lens == [] {
      assert infos + [x] == [x] && lens + [|hs|] == [|hs|] && hops + hs == hs;
      assert hs[..|hs|] == hs;
      assert Segments([x][1..], [|hs|][1..], hs[|hs|..]) == [];
    } else {
      SegmentsSnoc(infos[1..], lens[1..], hops[lens[0]..], x, hs);
      SnocTails(infos, lens, hops, x, hs);
      hide Segments;
      FirstSegment(infos, lens, hops);
      FirstSegment(infos + [x], lens + [|hs|], hops + hs);
    }
  }

  lemma FirstSegment(infos: seq<InfoField>, lens: seq<nat>, hops: seq<HopField>)
    requires |infos| == |lens| > 0 && Sum(lens) == |hops|
    ensures lens[0] <= |hops| && Sum(lens[1..]) == |hops[lens[0]..]|
    ensures Segments(infos, lens, hops)
         == [Segment(infos[0], hops[..lens[0]])] + Segments(infos[1..], lens[1..], hops[lens[0]..])
  {
  }

  lemma SnocTails(infos: seq<InfoField>, lens: seq<nat>, hops: seq<HopField>, x: InfoField, hs: seq<HopField>)
    requires |infos| == |lens| > 0 && lens[0] <= |hops|
    ensures (infos + [x])[1..] == infos[1..] + [x] && (infos + [x])[0] == infos[0]
    ensures (lens + [|hs|])[1..] == lens[1..] + [|hs|] && (lens + [|hs|])[0] == lens[0]
    ensures (hops + hs)[lens[0]..] == hops[lens[0]..] + hs && (hops + hs)[..lens[0]] == hops[..lens[0]]
  {
  }

  lemma {:induction false} SumReverse(lens: seq<nat>)
    ensures Sum(Reverse(lens)) == Sum(lens)
  {
    if lens != [] {
      SumReverse(lens[1..]);
      assert Reverse(lens) == Reverse(lens[1..]) + [lens[0]];
      SumConcat(Reverse(lens[1..]), [lens[0]]);
    }
  }

  /** Dealing mirrored hop fields to mirrored segments mirrors the segments. */
  lemma {:induction false} SegmentsReverse(infos: seq<InfoField>, lens: seq<nat>, hops: seq<HopField>)
    requires |infos| == |lens| && Sum(lens) == |hops|
    ensures Sum(Reverse(lens)) == |hops|
    ensures Segments(FlipInfos(Reverse(infos)), Reverse(lens), Reverse(hops))
         == ReverseSegments(Segments(infos, lens, hops))
  {
    SumReverse(lens);
    if lens != [] {
      var n := lens[0];
      SumReverse(lens[1..]);
      SegmentsReverse(infos[1..], lens[1..], hops[n..]);
      MirroredFront(infos, lens, hops, n);
      SegmentsSnoc(FlipInfos(Reverse(infos[1..])), Reverse(lens[1..]), Reverse(hops[n..]), FlipInfo(infos[0]), Reverse(hops[..n]));
    }
  }

  lemma MirroredFront(infos: seq<InfoField>, lens: seq<nat>, hops: seq<HopField>, n: nat)
    requires infos != [] && lens != [] && n <= |hops|
    ensures FlipInfos(Reverse(infos)) == FlipInfos(Reverse(infos[1..])) + [FlipInfo(infos[0])]
    ensures Reverse(lens) == Reverse(lens[1..]) + [lens[0]]
    ensures Reverse(hops) == Reverse(hops[n..]) + Reverse(hops[..n])
  {
  }

  lemma {:induction false} SegmentsSize(infos: seq<InfoField>, lens: seq<nat>, hops: seq<HopField>)
    requires |infos| == |lens| && Sum(lens) == |hops|
    ensures |Segments(infos, lens, hops)| == |lens| && TotalHops(Segments(infos, lens, hops)) == |hops|
  {
    if lens != [] { SegmentsSize(infos[1..], lens[1..], hops[lens[0]..]); }
  }

  // ---- The meta header ----

  /** The meta header of the reversed path. */
  function ReverseMeta(m: PathMeta): PathMeta
    requires m.Accepted()
  {
    var inf, hop := m.SegmentCount() - 1 - m.currInf, m.HopFieldCount() - 1 - m.currHf;
    if m.seg1 == 0 then PathMeta(inf, hop, m.seg0, 0, 0)
    else if m.seg2 == 0 then PathMeta(inf, hop, m.seg1, m.seg0, 0)
    else PathMeta(inf, hop, m.seg2, m.seg1, m.seg0)
  }

  /** On a header the reader accepts, every field of the new word is what one expects. */
  lemma ReversedMeta(w: u32)
    requires MetaOfWord(w).Accepted() && MetaOfWord(w).HopFieldCount() <= 64
    ensures MetaOfWord(ReversedMetaWord(w)) == ReverseMeta(MetaOfWord(w))
    ensures ReservedBits(ReversedMetaWord(w)) == ReservedBits(w)
  {
    hide MetaOfWord, ReservedBits, ReversedMetaWord, ReverseMeta;
    var r := ReverseMeta(MetaOfWord(w));
    ReversedWord(w);
    PackedFields(ReversedMetaWord(w), r.seg2, r.seg1, r.seg0, ReservedBits(w), r.currHf, r.currInf);
  }

  /** The new word as the sum of the mirrored fields. */
  lemma ReversedWord(w: u32)
    requires MetaOfWord(w).Accepted() && MetaOfWord(w).HopFieldCount() <= 64
    ensures var r := ReverseMeta(MetaOfWord(w));
            && r.seg0 < 64 && r.seg1 < 64 && r.seg2 < 64 && r.currHf < 64 && r.currInf < 4 && ReservedBits(w) < 64
            && ReversedMetaWord(w) == r.seg2 + 0x40 * r.seg1 + 0x1000 * r.seg0 + 0x4_0000 * ReservedBits(w)
                                      + 0x100_0000 * r.currHf + 0x4000_0000 * r.currInf
  {
    MetaBounds(w);
    hide MetaOfWord, OrByte, ReservedBits, Or;
    var m := MetaOfWord(w);
    var r := ReverseMeta(m);
    MirrorSmall(m.HopFieldCount(), m.currHf);
    MirrorSmall(m.SegmentCount(), m.currInf);
    MergedIndices(r.currHf, r.currInf);
  }

  lemma MirrorSmall(n: nat, k: nat)
    requires k < n <= 64
    ensures Mirror32(n, k) == n - 1 - k
  {
  }

  lemma MergedIndices(hop: nat, inf: nat)
    requires hop < 64 && inf < 3
    ensures OrByte(hop, 0x40 * inf) == hop + 0x40 * inf
  {
    assert Pow2(6) == 64;
    OrDisjoint(hop, inf, 6);
  }

  lemma ReverseMetaLaws(m: PathMeta)
    requires m.Accepted()
    ensures var r := ReverseMeta(m);
            && r.Accepted() && r.SegmentCount() == m.SegmentCount() && r.HopFieldCount() == m.HopFieldCount()
            && r.currInf == m.SegmentCount() - 1 - m.currInf && r.currHf == m.HopFieldCount() - 1 - m.currHf
            && ReverseMeta(r) == m
            && SegmentLengths(r) == Reverse(SegmentLengths(m))
            && (InCurrentSegment(r) <==> InCurrentSegment(m))
  {
  }

  /** Six fields packed into a word are read back. */
  lemma PackedFields(w: u32, s2: nat, s1: nat, s0: nat, res: nat, hf: nat, inf: nat)
    requires s2 < 64 && s1 < 64 && s0 < 64 && res < 64 && hf < 64 && inf < 4
    requires w == s2 + 0x40 * s1 + 0x1000 * s0 + 0x4_0000 * res + 0x100_0000 * hf + 0x4000_0000 * inf
    ensures MetaOfWord(w) == PathMeta(inf, hf, s0, s1, s2) && ReservedBits(w) == res
  {
    var w1 := s1 + 0x40 * s0 + 0x1000 * res + 0x4_0000 * hf + 0x100_0000 * inf;
    var w2 := s0 + 0x40 * res + 0x1000 * hf + 0x4_0000 * inf;
    var w3 := res + 0x40 * hf + 0x1000 * inf;
    var w4 := hf + 0x40 * inf;
    DivModUnique(w, 0x40, w1, s2);
    DivModUnique(w1, 0x40, w2, s1);
    DivModUnique(w, 0x1000, w2, s2 + 0x40 * s1);
    DivModUnique(w2, 0x40, w3, s0);
    DivModUnique(w, 0x4_0000, w3, s2 + 0x40 * s1 + 0x1000 * s0);
    DivModUnique(w3, 0x40, w4, res);
    DivModUnique(w, 0x100_0000, w4, s2 + 0x40 * s1 + 0x1000 * s0 + 0x4_0000 * res);
    DivModUnique(w4, 0x40, inf, hf);
    DivModUnique(w, 0x4000_0000, inf, s2 + 0x40 * s1 + 0x1000 * s0 + 0x4_0000 * res + 0x100_0000 * hf);
  }

  lemma Quotients(w: nat, d: nat)
    requires d > 0
    ensures w / d == w / (64 * d) * 64 + w / d % 64
  {
    DivDiv(w, d, 64);
  }

  /** The word is made of its fields. */
  lemma WordOfFields(w: u32)
    ensures var m := MetaOfWord(w);
            w == m.seg2 + 0x40 * m.seg1 + 0x1000 * m.seg0 + 0x4_0000 * ReservedBits(w)
                 + 0x100_0000 * m.currHf + 0x4000_0000 * m.currInf
  {
    Quotients(w, 1);
    Quotients(w, 0x40);
    Quotients(w, 0x1000);
    Quotients(w, 0x4_0000);
    Quotients(w, 0x100_0000);
  }

  lemma MetaBounds(w: u32)
    ensures var m := MetaOfWord(w); m.seg0 < 64 && m.seg1 < 64 && m.seg2 < 64 && m.currHf < 64 && m.currInf < 4
    ensures ReservedBits(w) < 64
  {
  }

  /** The current hop field belongs to the current segment. */
  predicate InCurrentSegment(m: PathMeta) {
    m.SegmentBegin(m.currInf) <= m.currHf < m.SegmentBegin(m.currInf + 1)
  }

  /** Reversal keeps the current hop field inside the current segment, and never puts it there. */
  lemma CurrentSegmentKept(w: u32)
    requires MetaOfWord(w).Accepted() && MetaOfWord(w).HopFieldCount() <= 64
    ensures InCurrentSegment(MetaOfWord(ReversedMetaWord(w))) <==> InCurrentSegment(MetaOfWord(w))
  {
    ReversedMeta(w);
    ReverseMetaLaws(MetaOfWord(w));
  }

  // ---- Main results on reversal ----

  /** A shortest well-formed path: one segment of two hop fields. */
  lemma ShortestPath()
    ensures WellFormed([0, 0, 0x20, 0] + ZeroBytes(32))
  {
    var b := [0, 0, 0x20, 0] + ZeroBytes(32);
    assert b[..4] == [0, 0, 0x20, 0];
    assert MetaWord(b) == 0x2000;
  }

  /** The reversed bytes decode to the reversed path, and are well formed again. */
  lemma ReversalDecodes(b: seq<byte>, c: seq<byte>)
    requires WellFormed(b) && IsReversal(b, c)
    ensures WellFormed(c)
    ensures var p := Decode(b);
            p.currInf < |p.segments| && p.currHf < TotalHops(p.segments) && Decode(c) == ReversePath(p)
    ensures ReservedBits(MetaWord(c)) == ReservedBits(MetaWord(b))
  {
    hide MetaOfWord, ReversedMetaWord, Reversible, ReverseMeta, InfoFields, HopFields, FlipInfos, Segments, ReverseSegments, TotalHops, SegmentLengths;
    ReversibleSize(b);
    var m, n, h := Meta(b), Meta(b).SegmentCount(), Meta(b).HopFieldCount();
    ReversedMeta(MetaWord(b));
    ReverseMetaLaws(m);
    ReversibleSize(c);
    InfosReverse(b, c, n, h);
    HopsReverse(b, c, n, h);
    SegmentsReverse(InfoFields(b, n), SegmentLengths(m), HopFields(b, n, h));
    SegmentsSize(InfoFields(b, n), SegmentLengths(m), HopFields(b, n, h));
  }

  lemma ReversibleSize(b: seq<byte>)
    ensures Reversible(b) ==> |b| >= META_SIZE && 2 <= Meta(b).HopFieldCount() <= 64
    ensures Reversible(b) ==> |b| == HopsBegin(Meta(b).SegmentCount()) + HF_SIZE * Meta(b).HopFieldCount()
    ensures (|b| >= META_SIZE && Meta(b).SegmentCount() >= 1 && 2 <= Meta(b).HopFieldCount() <= 64
             && |b| == HopsBegin(Meta(b).SegmentCount()) + HF_SIZE * Meta(b).HopFieldCount()) ==> Reversible(b)
  {
  }

  lemma InfosReverse(b: seq<byte>, c: seq<byte>, n: nat, h: nat)
    requires |b| == |c| == HopsBegin(n) + HF_SIZE * h
    requires forall i :: 0 <= i < n ==> InfoBlock(c, i) == Flip(InfoBlock(b, n - 1 - i))
    ensures InfoFields(c, n) == FlipInfos(Reverse(InfoFields(b, n)))
  {
    forall i | 0 <= i < n ensures InfoFields(c, n)[i] == FlipInfos(Reverse(InfoFields(b, n)))[i] {
      FlipDecodes(InfoBlock(b, n - 1 - i));
    }
  }

  lemma FlipDecodes(s: seq<byte>)
    requires |s| == INF_SIZE
    ensures InfoOf(Flip(s)) == FlipInfo(InfoOf(s))
  {
    assert Flip(s)[2..4] == s[2..4] && Flip(s)[4..8] == s[4..8];
  }

  lemma HopsReverse(b: seq<byte>, c: seq<byte>, n: nat, h: nat)
    requires |b| == |c| == HopsBegin(n) + HF_SIZE * h
    requires forall i :: 0 <= i < h ==> HopBlock(c, n, i) == HopBlock(b, n, h - 1 - i)
    ensures HopFields(c, n, h) == Reverse(HopFields(b, n, h))
  {
  }

  /** Reversing twice restores every byte. */
  lemma ReversalInvolution(b: seq<byte>, c: seq<byte>, d: seq<byte>)
    requires WellFormed(b) && IsReversal(b, c) && Reversible(c) && IsReversal(c, d)
    ensures d == b
  {
    hide MetaOfWord, ReversedMetaWord, Reversible, InfoBlock, HopBlock, Flip, ReverseMeta;
    ReversibleSize(b);
    var n, h := Meta(b).SegmentCount(), Meta(b).HopFieldCount();
    ReversedMeta(MetaWord(b));
    ReverseMetaLaws(Meta(b));
    MetaTwice(MetaWord(b));
    forall i | 0 <= i < n ensures InfoBlock(d, i) == InfoBlock(b, i) {
      FlipTwice(InfoBlock(b, i));
      assert InfoBlock(d, i) == Flip(InfoBlock(c, n - 1 - i));
    }
    forall i | 0 <= i < h ensures HopBlock(d, n, i) == HopBlock(b, n, i) {
      assert HopBlock(d, n, i) == HopBlock(c, n, h - 1 - i);
    }
    SameBlocks(b, d, n, h);
  }

  lemma FlipTwice(s: seq<byte>)
    requires |s| == INF_SIZE
    ensures Flip(Flip(s)) == s
  {
  }

  /** The meta word is determined by its fields and the reserved bits. */
  lemma MetaTwice(w: u32)
    requires MetaOfWord(w).Accepted() && MetaOfWord(w).HopFieldCount() <= 64
    ensures ReversedMetaWord(ReversedMetaWord(w)) == w
  {
    hide MetaOfWord, ReversedMetaWord, ReservedBits;
    ReversedMeta(w);
    ReverseMetaLaws(MetaOfWord(w));
    ReversedMeta(ReversedMetaWord(w));
    SameMeta(ReversedMetaWord(ReversedMetaWord(w)), w);
  }

  lemma SameMeta(u: u32, w: u32)
    requires MetaOfWord(u) == MetaOfWord(w) && ReservedBits(u) == ReservedBits(w)
    ensures u == w
  {
    WordOfFields(u);
    WordOfFields(w);
  }

  lemma SameBlocks(b: seq<byte>, d: seq<byte>, n: nat, h: nat)
    requires |b| == |d| == HopsBegin(n) + HF_SIZE * h
    requires MetaWord(b) == MetaWord(d)
    requires forall i :: 0 <= i < n ==> InfoBlock(d, i) == InfoBlock(b, i)
    requires forall i :: 0 <= i < h ==> HopBlock(d, n, i) == HopBlock(b, n, i)
    ensures d == b
  {
    hide InfoBlock, HopBlock;
    assert b[..4] == d[..4] by { SameWord(b[..4], d[..4]); }
    forall k | 0 <= k < |b| ensures d[k] == b[k] {
      if k < 4 {
        assert b[k] == b[..4][k] && d[k] == d[..4][k];
      } else if k < HopsBegin(n) {
        var i, j := (k - 4) / 8, (k - 4) % 8;
        InfoByte(b, i, j);
        InfoByte(d, i, j);
      } else {
        var i, j := (k - HopsBegin(n)) / 12, (k - HopsBegin(n)) % 12;
        HopByte(b, n, i, j);
        HopByte(d, n, i, j);
      }
    }
  }

  lemma InfoByte(b: seq<byte>, i: nat, j: nat)
    requires HopsBegin(i + 1) <= |b| && j < 8
    ensures b[4 + 8 * i + j] == InfoBlock(b, i)[j]
  {
  }

  lemma HopByte(b: seq<byte>, n: nat, i: nat, j: nat)
    requires HopsBegin(n) + HF_SIZE * (i + 1) <= |b| && j < 12
    ensures b[HopsBegin(n) + 12 * i + j] == HopBlock(b, n, i)[j]
  {
  }

  lemma SameWord(s: seq<byte>, t: seq<byte>)
    requires |s| == |t| == 4 && BE32(s) == BE32(t)
    ensures s == t
  {
    WordBytes(s);
    WordBytes(t);
  }

  lemma WordBytes(s: seq<byte>)
    requires |s| == 4
    ensures s == BigEndian(BE32(s), 4)
  {
    FromBigEndian4(s);
    FromBigEndianBits(s);
    BigEndianBits(BE32(s), 4);
    BitsInjective(s, BigEndian(BE32(s), 4));
  }

  // ---- Interfaces ----

  /** Ingress and egress interface of a hop in the direction of travel. */
  function Pass(info: InfoField, hop: HopField): (u16, u16) {
    if info.ConsDir() then (hop.consIngress, hop.consEgress) else (hop.consEgress, hop.consIngress)
  }

  function Passes(info: InfoField, hops: seq<HopField>): (r: seq<(u16, u16)>)
    ensures |r| == |hops|
    ensures forall i :: 0 <= i < |hops| ==> r[i] == Pass(info, hops[i])
  {
    seq(|hops|, i requires 0 <= i < |hops| => Pass(info, hops[i]))
  }

  /** The interface pairs met along the path. */
  function Interfaces(segs: seq<Segment>): seq<(u16, u16)> {
    if segs == [] then [] else Passes(segs[0].info, segs[0].hops) + Interfaces(segs[1..])
  }

  /** The walk backwards: last pair first, in and out exchanged. */
  function Backwards(s: seq<(u16, u16)>): (r: seq<(u16, u16)>)
    ensures |r| == |s|
    ensures forall i :: 0 <= i < |s| ==> r[i] == (s[|s| - 1 - i].1, s[|s| - 1 - i].0)
  {
    seq(|s|, i requires 0 <= i < |s| => (s[|s| - 1 - i].1, s[|s| - 1 - i].0))
  }

  lemma {:induction false} InterfacesConcat(a: seq<Segment>, b: seq<Segment>)
    ensures Interfaces(a + b) == Interfaces(a) + Interfaces(b)
  {
    if a == [] {
      assert a + b == b;
    } else {
      assert (a + b)[1..] == a[1..] + b;
      InterfacesConcat(a[1..], b);
    }
  }

  /** The reversed path meets the same interfaces, backwards. */
  lemma {:induction false} InterfacesReverse(segs: seq<Segment>)
    ensures Interfaces(ReverseSegments(segs)) == Backwards(Interfaces(segs))
  {
    if segs != [] {
      var s := segs[0];
      InterfacesReverse(segs[1..]);
      InterfacesConcat(ReverseSegments(segs[1..]), [ReverseSegment(s)]);
      assert Interfaces([ReverseSegment(s)]) == Passes(FlipInfo(s.info), Reverse(s.hops)) + Interfaces([]);
      assert Passes(FlipInfo(s.info), Reverse(s.hops)) == Backwards(Passes(s.info, s.hops));
    }
  }

  // ---- Expiry ----

  /** Absolute expiry in seconds, in the 32-bit arithmetic of the header fields. */
  function ExpiresAt(info: InfoField, hop: HopField): u32 {
    (info.timestamp + hop.RelativeExpiry()) % 0x1_0000_0000
  }

  datatype Expiry = Never | At(seconds: nat)

  function Earlier(a: Expiry, b: Expiry): Expiry {
    if a.Never? then b else if b.Never? then a else if a.seconds <= b.seconds then a else b
  }

  function Expiries(info: InfoField, hops: seq<HopField>): (r: seq<nat>)
    ensures |r| == |hops|
    ensures forall i :: 0 <= i < |hops| ==> r[i] == ExpiresAt(info, hops[i])
  {
    seq(|hops|, i requires 0 <= i < |hops| => ExpiresAt(info, hops[i]))
  }

  /** Every hop's own expiry, with the timestamp of the hop's own segment. */
  function HopExpiries(segs: seq<Segment>): seq<nat> {
    if segs == [] then [] else Expiries(segs[0].info, segs[0].hops) + HopExpiries(segs[1..])
  }

  function Minimum(s: seq<nat>): Expiry {
    if s == [] then Never else Earlier(Minimum(s[..|s| - 1]), At(s[|s| - 1]))
  }

  lemma {:induction false} MinimumIsLeast(s: seq<nat>)
    ensures s == [] <==> Minimum(s).Never?
    ensures s != [] ==> Minimum(s).seconds in s && forall x :: x in s ==> Minimum(s).seconds <= x
  {
    if s != [] {
      MinimumIsLeast(s[..|s| - 1]);
      assert s == s[..|s| - 1] + [s[|s| - 1]];
    }
  }

  lemma SameElementsSameMinimum(s: seq<nat>, t: seq<nat>)
    requires forall x :: x in s <==> x in t
    ensures Minimum(s) == Minimum(t)
  {
    MinimumIsLeast(s);
    MinimumIsLeast(t);
    if s != [] { assert s[0] in t; }
    if t != [] { assert t[0] in s; }
  }

  lemma {:induction false} HopExpiriesConcat(a: seq<Segment>, b: seq<Segment>)
    ensures HopExpiries(a + b) == HopExpiries(a) + HopExpiries(b)
  {
    if a == [] {
      assert a + b == b;
    } else {
      assert (a + b)[1..] == a[1..] + b;
      HopExpiriesConcat(a[1..], b);
    }
  }

  lemma {:induction false} HopExpiriesReverse(segs: seq<Segment>)
    ensures HopExpiries(ReverseSegments(segs)) == Reverse(HopExpiries(segs))
  {
    hide ExpiresAt;
    if segs != [] {
      var s := segs[0];
      HopExpiriesReverse(segs[1..]);
      HopExpiriesConcat(ReverseSegments(segs[1..]), [ReverseSegment(s)]);
      assert HopExpiries([ReverseSegment(s)]) == Expiries(FlipInfo(s.info), Reverse(s.hops)) + HopExpiries([]);
      SameExpiries(s.info, s.hops);
    }
  }

  lemma SameExpiries(info: InfoField, hops: seq<HopField>)
    ensures Expiries(FlipInfo(info), Reverse(hops)) == Reverse(Expiries(info, hops))
  {
  }

  /** Reversal does not move the expiry time: every hop keeps its info field. */
  lemma ExpiryUnchanged(segs: seq<Segment>)
    ensures Minimum(HopExpiries(ReverseSegments(segs))) == Minimum(HopExpiries(segs))
  {
    HopExpiriesReverse(segs);
    var s := HopExpiries(segs);
    forall x ensures x in s <==> x in Reverse(s) {
      if x in s {
        var i :| 0 <= i < |s| && s[i] == x;
        assert Reverse(s)[|s| - 1 - i] == x;
      }
    }
    SameElementsSameMinimum(s, Reverse(s));
  }
}
