/**
 Path headers: the meta header, info fields and hop fields, and the path they spell out.
 */
module ScionPath {
  import opened Words
  import opened BitStream

  // ---- Header records ----

  datatype PathMeta = PathMeta(currInf: nat, currHf: nat, seg0: nat, seg1: nat, seg2: nat) {
    function SegmentCount(): nat {
      (if seg0 > 0 then 1 else 0) + (if seg1 > 0 then 1 else 0) + (if seg2 > 0 then 1 else 0)
    }

    function HopFieldCount(): nat {
      seg0 + seg1 + seg2
    }

    /** Index of the first hop field of a segment; past the third, the total. */
    function SegmentBegin(segment: nat): nat {
      if segment == 0 then 0
      else if segment == 1 then seg0
      else if segment == 2 then seg0 + seg1
      else seg0 + seg1 + seg2
    }

    /** What a reader insists on: no gaps between segments, both indices in range. */
    predicate Accepted() {
      && !(seg2 > 0 && seg1 == 0) && !(seg1 > 0 && seg0 == 0)
      && currInf < SegmentCount()
      && currHf < HopFieldCount()
    }
  }

  /** The six-bit fields of the meta header from the low end of the word; bits 18 to 23 are reserved. */
  function MetaOfWord(w: u32): PathMeta {
    PathMeta(w / 0x4000_0000 % 4, w / 0x100_0000 % 64, w / 0x1000 % 64, w / 0x40 % 64, w % 64)
  }

  function ReservedBits(w: u32): nat {
    w / 0x4_0000 % 64
  }

  datatype InfoField = InfoField(flags: byte, segid: u16, timestamp: u32) {
    predicate ConsDir() { flags % 2 == 1 }
  }

  datatype HopField = HopField(flags: byte, expTime: byte, consIngress: u16, consEgress: u16, mac: seq<byte>) {
    /** Seconds after the timestamp of the segment. */
    function RelativeExpiry(): nat {
      (1 + expTime) * 24 * 60 * 60 / 256
    }
  }

  const META_SIZE := 4
  const INF_SIZE := 8
  const HF_SIZE := 12

  function BE16(s: seq<byte>): u16
    requires |s| == 2
  {
    256 * (s[0] as int) + s[1]
  }

  function BE32(s: seq<byte>): u32
    requires |s| == 4
  {
    0x100_0000 * (s[0] as int) + 0x1_0000 * (s[1] as int) + 0x100 * (s[2] as int) + s[3]
  }

  function InfoOf(s: seq<byte>): InfoField
    requires |s| == INF_SIZE
  {
    InfoField(s[0], BE16(s[2..4]), BE32(s[4..8]))
  }

  function HopOf(s: seq<byte>): HopField
    requires |s| == HF_SIZE
  {
    HopField(s[0], s[1], BE16(s[2..4]), BE16(s[4..6]), s[6..12])
  }

  lemma FromBigEndian2(s: seq<byte>)
    requires |s| == 2
    ensures FromBigEndian(s) == BE16(s)
  {
    SingleByte(s[..1]);
  }

  lemma FromBigEndian4(s: seq<byte>)
    requires |s| == 4
    ensures FromBigEndian(s) == BE32(s)
  {
    FromBigEndian2(s[..2]);
    assert s[..3][..2] == s[..2];
  }

  // ---- Reading the records ----

  /** The next `k` of the `n` bits of `w`, as the reader returns them. */
  lemma TakeField(w: nat, n: nat, k: nat, r: seq<bool>, v: nat, r': seq<bool>, d: nat, m: nat)
    requires k <= n && BitsOf(w, n) <= r && r == BitsOf(v, k) + r' && v < Pow2(k)
    requires d == Pow2(n - k) && m == Pow2(k)
    ensures v == w / d % m
    ensures BitsOf(w, n - k) <= r'
  {
    BitsOfSplit(w, k, n - k);
    assert BitsOf(w, n)[..k] == r[..k] == BitsOf(v, k);
    assert BitsOf(w, n)[k..] == BitsOf(w, n - k);
    assert r[k..] == r';
    SameBits(v, ShiftRight(w, n - k), k);
    ShiftRightIsDivision(w, n - k);
    ShiftRightIsDivision(ShiftRight(w, n - k), k);
  }

  /** The meta header is one 32-bit word of the stream. */
  method ReadPathMeta(rs: ReadStream) returns (ok: bool, meta: PathMeta)
    requires rs.Valid()
    modifies rs`byteIter, rs`bitPos
    ensures rs.Valid()
    ensures ok <==> |old(rs.Rest())| >= 32 && MetaOfWord(WordAhead(old(rs.Rest()))).Accepted()
    ensures ok ==> meta == MetaOfWord(WordAhead(old(rs.Rest()))) && rs.Pos() == old(rs.Pos()) + 32
  {
    hide Bits, BitsOf, Pow2, Val, MetaOfWord;
    meta := PathMeta(0, 0, 0, 0, 0);
    ghost var r0 := rs.Rest();
    ghost var w := if |r0| < 32 then 0 else WordAhead(r0);
    if |r0| >= 32 { WordAheadBits(r0); }
    var o1, currInf := rs.SerializeBits(8, 2);
    if !o1 { return false, meta; }
    ghost var r1 := rs.Rest();
    var o2, currHf := rs.SerializeBits(8, 6);
    if !o2 { return false, meta; }
    ghost var r2 := rs.Rest();
    var o3 := rs.AdvanceBits(6);
    if !o3 { return false, meta; }
    ghost var r3 := rs.Rest();
    var o4, seg0 := rs.SerializeBits(8, 6);
    if !o4 { return false, meta; }
    ghost var r4 := rs.Rest();
    var o5, seg1 := rs.SerializeBits(8, 6);
    if !o5 { return false, meta; }
    ghost var r5 := rs.Rest();
    var o6, seg2 := rs.SerializeBits(8, 6);
    if !o6 { return false, meta; }
    MetaFields(w, r0, currInf, r1, currHf, r2, r3, seg0, r4, seg1, r5, seg2, rs.Rest());
    MetaOfFields(w, currInf, currHf, seg0, seg1, seg2);
    meta := PathMeta(currInf, currHf, seg0, seg1, seg2);
    if (seg2 > 0 && seg1 == 0) || (seg1 > 0 && seg0 == 0) { return false, meta; }
    if currInf >= meta.SegmentCount() { return false, meta; }
    if currHf >= meta.HopFieldCount() { return false, meta; }
    return true, meta;
  }

  /** The five values read in turn are the fields of the word. */
  lemma MetaFields(w: u32, r0: seq<bool>, currInf: nat, r1: seq<bool>, currHf: nat, r2: seq<bool>, r3: seq<bool>,
                   seg0: nat, r4: seq<bool>, seg1: nat, r5: seq<bool>, seg2: nat, r6: seq<bool>)
    requires BitsOf(w, 32) <= r0
    requires r0 == BitsOf(currInf, 2) + r1 && currInf < Pow2(2)
    requires r1 == BitsOf(currHf, 6) + r2 && currHf < Pow2(6)
    requires |r2| >= 6 && r3 == r2[6..]
    requires r3 == BitsOf(seg0, 6) + r4 && seg0 < Pow2(6)
    requires r4 == BitsOf(seg1, 6) + r5 && seg1 < Pow2(6)
    requires r5 == BitsOf(seg2, 6) + r6 && seg2 < Pow2(6)
    ensures currInf == w / 0x4000_0000 % 4 && currHf == w / 0x100_0000 % 64
    ensures seg0 == w / 0x1000 % 64 && seg1 == w / 64 % 64 && seg2 == w % 64
  {
    hide *;
    PowersOfTwo();
    TakeField(w, 32, 2, r0, currInf, r1, 0x4000_0000, 4);
    TakeField(w, 30, 6, r1, currHf, r2, 0x100_0000, 64);
    SkipField(w, 24, 6, r2, r3);
    TakeField(w, 18, 6, r3, seg0, r4, 0x1000, 64);
    TakeField(w, 12, 6, r4, seg1, r5, 64, 64);
    TakeField(w, 6, 6, r5, seg2, r6, 1, 64);
  }

  lemma MetaOfFields(w: u32, currInf: nat, currHf: nat, seg0: nat, seg1: nat, seg2: nat)
    requires currInf == w / 0x4000_0000 % 4 && currHf == w / 0x100_0000 % 64
    requires seg0 == w / 0x1000 % 64 && seg1 == w / 64 % 64 && seg2 == w % 64
    ensures MetaOfWord(w) == PathMeta(currInf, currHf, seg0, seg1, seg2)
  {
  }

  function WordAhead(r: seq<bool>): u32
    requires |r| >= 32
  {
    ValBound(r[..32]);
    PowersOfTwo();
    Val(r[..32])
  }

  lemma WordAheadBits(r: seq<bool>)
    requires |r| >= 32
    ensures BitsOf(WordAhead(r), 32) <= r
  {
    BitsOfVal(r[..32]);
  }

  lemma SkipField(w: nat, n: nat, k: nat, r: seq<bool>, r': seq<bool>)
    requires k <= n && BitsOf(w, n) <= r && r' == r[k..]
    ensures BitsOf(w, n - k) <= r'
  {
    BitsOfSplit(w, k, n - k);
    assert BitsOf(w, n)[k..] == BitsOf(w, n - k);
  }

  lemma PowersOfTwo()
    ensures Pow2(0) == 1 && Pow2(2) == 4 && Pow2(6) == 64 && Pow2(12) == 0x1000
    ensures Pow2(18) == 0x4_0000 && Pow2(24) == 0x100_0000 && Pow2(30) == 0x4000_0000
    ensures Pow2(32) == 0x1_0000_0000
  {
    assert Pow2(6) == 64;
    Pow2Sum(6, 6);
    Pow2Sum(12, 6);
    Pow2Sum(18, 6);
    Pow2Sum(24, 6);
    Pow2Sum(30, 2);
  }

  lemma SubSlice(data: seq<byte>, at: nat, n: nat, i: nat, j: nat)
    requires at + n <= |data| && i <= j <= n
    ensures data[at..at + n][i..j] == data[at + i..at + j]
  {
    var s := data[at..at + n];
    assert forall k :: i <= k < j ==> s[i..j][k - i] == s[k] == data[at + k];
  }

  /** Info fields are read at a byte boundary, eight bytes each. */
  method ReadInfoField(rs: ReadStream) returns (ok: bool, info: InfoField)
    requires rs.Valid() && rs.bitPos == 0
    modifies rs`byteIter, rs`bitPos
    ensures rs.Valid() && rs.bitPos == 0
    ensures ok <==> old(rs.byteIter) + INF_SIZE <= |rs.data|
    ensures ok ==> rs.byteIter == old(rs.byteIter) + INF_SIZE
    ensures ok ==> info == InfoOf(rs.data[old(rs.byteIter)..old(rs.byteIter) + INF_SIZE])
  {
    hide Bits, BitsOf, Pow2, FromBigEndian;
    info := InfoField(0, 0, 0);
    ghost var at := rs.byteIter;
    var o1, flags := rs.SerializeByte();
    if !o1 { return false, info; }
    var o2 := rs.AdvanceBytes(1);
    if !o2 { return false, info; }
    var o3, segid := rs.SerializeUint16();
    if !o3 { return false, info; }
    FromBigEndian2(rs.data[at + 2..at + 4]);
    var o4, timestamp := rs.SerializeUint32();
    if !o4 { return false, info; }
    FromBigEndian4(rs.data[at + 4..at + 8]);
    SubSlice(rs.data, at, INF_SIZE, 2, 4);
    SubSlice(rs.data, at, INF_SIZE, 4, 8);
    return true, InfoField(flags, segid, timestamp);
  }

  method ReadHopField(rs: ReadStream) returns (ok: bool, hop: HopField)
    requires rs.Valid() && rs.bitPos == 0
    modifies rs`byteIter, rs`bitPos
    ensures rs.Valid() && rs.bitPos == 0
    ensures ok <==> old(rs.byteIter) + HF_SIZE <= |rs.data|
    ensures ok ==> rs.byteIter == old(rs.byteIter) + HF_SIZE
    ensures ok ==> hop == HopOf(rs.data[old(rs.byteIter)..old(rs.byteIter) + HF_SIZE])
  {
    hide Bits, BitsOf, Pow2, FromBigEndian;
    hop := HopField(0, 0, 0, 0, []);
    ghost var at := rs.byteIter;
    var o1, flags := rs.SerializeByte();
    if !o1 { return false, hop; }
    var o2, expTime := rs.SerializeByte();
    if !o2 { return false, hop; }
    var o3, ingress := rs.SerializeUint16();
    if !o3 { return false, hop; }
    FromBigEndian2(rs.data[at + 2..at + 4]);
    var o4, egress := rs.SerializeUint16();
    if !o4 { return false, hop; }
    FromBigEndian2(rs.data[at + 4..at + 6]);
    var o5, mac := rs.SerializeBytes(6);
    if !o5 { return false, hop; }
    SubSlice(rs.data, at, HF_SIZE, 2, 4);
    SubSlice(rs.data, at, HF_SIZE, 4, 6);
    SubSlice(rs.data, at, HF_SIZE, 6, 12);
    return true, HopField(flags, expTime, ingress, egress, mac);
  }
}
