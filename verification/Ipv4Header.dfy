/**
 The IPv4 header without options: written with a zero checksum field that is patched
 afterwards, and read only if the checksum over all twenty bytes comes out as all ones.
 */
module Ipv4Header {
  import opened Words
  import opened BitStream
  import opened ScionPath
  import opened Checksum

  const SIZE := 20

  datatype IPv4 = IPv4(flags: byte, tos: byte, ttl: byte, proto: byte, len: u16, id: u16, frag: u16, src: u32, dst: u32) {
    /** Fields fit their width on the wire; the reserved top flag is off. */
    predicate InRange() {
      flags < 4 && frag < 0x2000
    }
  }

  /** Flags and fragment offset share a word: three and thirteen bits. */
  function FlagsAndFrag(h: IPv4): u16 {
    0x2000 * ((h.flags % 8) as int) + h.frag % 0x2000
  }

  /** The twenty bytes of a header with checksum field `c`. */
  function HeaderBytes(h: IPv4, c: u16): (s: seq<byte>)
    ensures |s| == SIZE
  {
    [0x45, h.tos] + BigEndian(h.len, 2) + BigEndian(h.id, 2) + BigEndian(FlagsAndFrag(h), 2)
    + [h.ttl, h.proto] + BigEndian(c, 2) + BigEndian(h.src, 4) + BigEndian(h.dst, 4)
  }

  /** The checksum the writer computes. */
  function ChecksumOf(h: IPv4): u16
  {
    InternetChecksum(HeaderBytes(h, 0), 0)
  }

  function WrittenBytes(h: IPv4): (s: seq<byte>)
    ensures |s| == SIZE
  {
    HeaderBytes(h, ChecksumOf(h))
  }

  /** What a reader accepts. */
  predicate Accepted(s: seq<byte>)
    requires |s| == SIZE
  {
    ChecksumSpec(s, 0) == 0xffff && s[0] == 0x45 && s[6] < 0x80
  }

  function Decode(s: seq<byte>): IPv4
    requires |s| == SIZE
  {
    IPv4(s[6] / 32, s[1], s[8], s[9], BE16(s[2..4]), BE16(s[4..6]), BE16(s[6..8]) % 0x2000, BE32(s[12..16]), BE32(s[16..20]))
  }

  // ---- Laws ----

  lemma Be16Of(v: u16)
    ensures BE16(BigEndian(v, 2)) == v && BigEndian(v, 2)[0] == v / 256
  {
    assert BigEndian(v, 2) == BigEndian(v / 256, 1) + [v % 256] && BigEndian(v / 256, 1) == [] + [v / 256 % 256];
  }

  lemma Be32Of(v: u32)
    ensures BE32(BigEndian(v, 4)) == v
  {
    PowersOfTwo();
    FromBigEndianOf(v, 4);
    FromBigEndian4(BigEndian(v, 4));
  }

  lemma DecodeEncode(h: IPv4, c: u16)
    requires h.InRange()
    ensures Decode(HeaderBytes(h, c)) == h
  {
    hide BigEndian, BE16, BE32;
    var s := HeaderBytes(h, c);
    var fl := FlagsAndFrag(h);
    HeaderParts(h, c);
    Be16Of(h.len);
    Be16Of(h.id);
    Be16Of(fl);
    Be32Of(h.src);
    Be32Of(h.dst);
    FlagByte(h);
    assert s[6] == s[6..8][0];
  }

  lemma HeaderParts(h: IPv4, c: u16)
    ensures var s := HeaderBytes(h, c);
            && s[2..4] == BigEndian(h.len, 2) && s[4..6] == BigEndian(h.id, 2) && s[6..8] == BigEndian(FlagsAndFrag(h), 2)
            && s[10..12] == BigEndian(c, 2) && s[12..16] == BigEndian(h.src, 4) && s[16..20] == BigEndian(h.dst, 4)
  {
    hide BigEndian;
  }

  lemma FlagByte(h: IPv4)
    requires h.InRange()
    ensures BigEndian(FlagsAndFrag(h), 2)[0] / 32 == h.flags && FlagsAndFrag(h) % 0x2000 == h.frag
    ensures BigEndian(FlagsAndFrag(h), 2)[0] < 0x80
  {
    hide BigEndian;
    Be16Of(FlagsAndFrag(h));
    FlagsOnTop(h.flags, h.frag);
  }

  lemma FlagsOnTop(flags: nat, frag: nat)
    requires flags < 4 && frag < 0x2000
    ensures (0x2000 * flags + frag) / 256 / 32 == flags && (0x2000 * flags + frag) % 0x2000 == frag
    ensures (0x2000 * flags + frag) / 256 < 0x80
  {
  }

  /** The checksum field adds its own value to the word sum. */
  lemma SumWithChecksum(h: IPv4, c: u16)
    ensures WordSum(HeaderBytes(h, c)) == WordSum(HeaderBytes(h, 0)) + c
  {
    hide WordSum, BigEndian;
    var s, z := HeaderBytes(h, c), HeaderBytes(h, 0);
    SplitAtChecksum(s);
    SplitAtChecksum(z);
    HeaderParts(h, c);
    HeaderParts(h, 0);
    assert s[..10] == z[..10] && s[12..] == z[12..];
    TwoBytes(c);
    TwoBytes(0);
  }

  lemma SplitAtChecksum(s: seq<byte>)
    requires |s| == SIZE
    ensures WordSum(s) == WordSum(s[..10]) + WordSum(s[10..12]) + WordSum(s[12..])
  {
    assert s == s[..12] + s[12..] && s[..12] == s[..10] + s[10..12];
    WordSumConcat(s[..12], s[12..]);
    WordSumConcat(s[..10], s[10..12]);
  }

  lemma TwoBytes(c: u16)
    ensures WordSum(BigEndian(c, 2)) == c
  {
    Be16Of(c);
    assert BigEndian(c, 2)[2..] == [];
  }

  /** The word sum of a header whose checksum field is zero, from its fields. */
  function FieldSum(h: IPv4): (r: nat)
    ensures r < 0xa_0000
  {
    0x4500 + h.tos + h.len + h.id + FlagsAndFrag(h) + (0x100 * (h.ttl as int) + h.proto)
    + h.src / 0x1_0000 + h.src % 0x1_0000 + h.dst / 0x1_0000 + h.dst % 0x1_0000
  }

  lemma HeaderSum(h: IPv4)
    ensures WordSum(HeaderBytes(h, 0)) == FieldSum(h)
  {
    hide WordSum, BigEndian, FlagsAndFrag;
    var b0 := [0x45, h.tos];
    var b1 := b0 + BigEndian(h.len, 2);
    var b2 := b1 + BigEndian(h.id, 2);
    var b3 := b2 + BigEndian(FlagsAndFrag(h), 2);
    var b4 := b3 + [h.ttl, h.proto];
    var b5 := b4 + BigEndian(0, 2);
    var b6 := b5 + BigEndian(h.src, 4);
    WordSumConcat(b0, BigEndian(h.len, 2));
    WordSumConcat(b1, BigEndian(h.id, 2));
    WordSumConcat(b2, BigEndian(FlagsAndFrag(h), 2));
    WordSumConcat(b3, [h.ttl, h.proto]);
    WordSumConcat(b4, BigEndian(0, 2));
    WordSumConcat(b5, BigEndian(h.src, 4));
    WordSumConcat(b6, BigEndian(h.dst, 4));
    TwoBytes(h.len); TwoBytes(h.id); TwoBytes(FlagsAndFrag(h)); TwoBytes(0);
    OneWord(0x45, h.tos); OneWord(h.ttl, h.proto);
    FourBytes(h.src); FourBytes(h.dst);
    assert HeaderBytes(h, 0) == b6 + BigEndian(h.dst, 4);
  }

  lemma OneWord(x: byte, y: byte)
    ensures WordSum([x, y]) == 256 * (x as int) + y
  {
    assert [x, y][2..] == [];
  }

  lemma FourBytes(v: u32)
    ensures WordSum(BigEndian(v, 4)) == v / 0x1_0000 + v % 0x1_0000
  {
    var s := BigEndian(v, 4);
    assert s == BigEndian(v / 0x1_0000, 2) + BigEndian(v % 0x1_0000, 2) by {
      BigEndianSplit(v);
    }
    WordSumConcat(BigEndian(v / 0x1_0000, 2), BigEndian(v % 0x1_0000, 2));
    TwoBytes(v / 0x1_0000);
    TwoBytes(v % 0x1_0000);
  }

  /**
   A written header is accepted by the reader exactly when one carry fold of its word sum
   stays within 16 bits, and what is read is the header that was written.
   */
  lemma SelfChecksum(h: IPv4)
    requires h.InRange()
    ensures Accepted(WrittenBytes(h)) <==> FoldsCleanly(FieldSum(h))
    ensures Decode(WrittenBytes(h)) == h
  {
    hide HeaderBytes, WordSum, Decode, Fold, FieldSum;
    HeaderSum(h);
    SumWithChecksum(h, ChecksumOf(h));
    ChecksumVerifies(FieldSum(h));
    DecodeEncode(h, ChecksumOf(h));
    FirstByteAndFlags(h, ChecksumOf(h));
  }

  lemma FirstByteAndFlags(h: IPv4, c: u16)
    requires h.InRange()
    ensures HeaderBytes(h, c)[0] == 0x45 && HeaderBytes(h, c)[6] < 0x80
  {
    FlagByte(h);
    HeaderParts(h, c);
    assert HeaderBytes(h, c)[6] == HeaderBytes(h, c)[6..8][0];
  }

  /** A header whose fold loses a carry: the reader refuses what the writer wrote. */
  lemma RefusedHeader()
    ensures var h := IPv4(0, 0, 0, 0, 0xbaff, 0xffff, 0, 1, 0); h.InRange() && !Accepted(WrittenBytes(h))
  {
    hide WrittenBytes, Accepted, Decode;
    SelfChecksum(IPv4(0, 0, 0, 0, 0xbaff, 0xffff, 0, 1, 0));
  }

  // ---- Writing ----

  lemma ByteBits(v: byte)
    ensures Bits([v]) == BitsOf(v, 8)
  {
    BitsSnoc([], v);
  }

  lemma Nibbles()
    ensures BitsOf(4, 4) + BitsOf(5, 4) == Bits([0x45])
  {
    assert Pow2(4) == 16;
    JoinFields(4, 5, 4, 4, 16);
    ByteBits(0x45);
  }

  lemma FlagBits(h: IPv4)
    ensures BitsOf(h.flags, 3) + BitsOf(h.frag, 13) == Bits(BigEndian(FlagsAndFrag(h), 2))
  {
    hide Pow2, Bits, BitsOf, BigEndian, Low;
    FlagWidths();
    ShiftRightIsDivision(h.flags, 3);
    ShiftRightIsDivision(h.frag, 13);
    BitsOfLow(h.flags, 3, 3);
    BitsOfLow(h.frag, 13, 13);
    JoinFields(h.flags % 8, h.frag % 0x2000, 3, 13, 0x2000);
    BigEndianBits(FlagsAndFrag(h), 2);
  }

  lemma FlagWidths()
    ensures Pow2(3) == 8 && Pow2(13) == 0x2000
  {
    Pow2At8();
    Pow2Sum(8, 5);
    assert Pow2(5) == 32;
  }

  /** Version and header length. */
  method WriteNibbles(ws: WriteStream) returns (ok: bool)
    requires ws.Valid() && ws.bitPos == 0
    modifies ws`byteIter, ws`bitPos, ws.data
    ensures ws.Valid()
    ensures ok <==> old(ws.byteIter) + 1 <= ws.data.Length
    ensures ok ==> ws.byteIter == old(ws.byteIter) + 1 && ws.bitPos == 0
    ensures ok ==> ws.data[..] == Image(old(ws.data[..]), old(ws.byteIter), [0x45])
  {
    hide Bits, BitsOf, TailZero, Image;
    ghost var w := ws.Written();
    ok := ws.SerializeBits(4, 8, 4);
    if !ok { return; }
    ok := ws.SerializeBits(5, 8, 4);
    if !ok { return; }
    Nibbles();
    AppendTwo(w, BitsOf(4, 4), BitsOf(5, 4));
    WroteBytes(old(ws.data[..]), ws.data[..], old(ws.byteIter), [0x45]);
  }

  method WriteFlags(ws: WriteStream, h: IPv4) returns (ok: bool)
    requires ws.Valid() && ws.bitPos == 0
    modifies ws`byteIter, ws`bitPos, ws.data
    ensures ws.Valid()
    ensures ok <==> old(ws.byteIter) + 2 <= ws.data.Length
    ensures ok ==> ws.byteIter == old(ws.byteIter) + 2 && ws.bitPos == 0
    ensures ok ==> ws.data[..] == Image(old(ws.data[..]), old(ws.byteIter), BigEndian(FlagsAndFrag(h), 2))
  {
    hide Bits, BitsOf, TailZero, Image, FlagsAndFrag, BigEndian;
    ghost var w := ws.Written();
    ok := ws.SerializeBits(h.flags, 8, 3);
    if !ok { return; }
    ok := ws.SerializeBits(h.frag, 16, 13);
    if !ok { return; }
    FlagBits(h);
    AppendTwo(w, BitsOf(h.flags, 3), BitsOf(h.frag, 13));
    WroteBytes(old(ws.data[..]), ws.data[..], old(ws.byteIter), BigEndian(FlagsAndFrag(h), 2));
  }

  lemma AppendTwo(w: seq<bool>, a: seq<bool>, b: seq<bool>)
    ensures w + a + b == w + (a + b)
  {
  }

  function FirstHalf(h: IPv4): (s: seq<byte>)
    ensures |s| == 8
  {
    HeaderBytes(h, 0)[..8]
  }

  function SecondHalf(h: IPv4): (s: seq<byte>)
    ensures |s| == 12
  {
    HeaderBytes(h, 0)[8..]
  }

  lemma Halves(h: IPv4)
    ensures FirstHalf(h) + SecondHalf(h) == HeaderBytes(h, 0)
  {
    assert HeaderBytes(h, 0) == HeaderBytes(h, 0)[..8] + HeaderBytes(h, 0)[8..];
  }

  lemma FirstHalfIs(h: IPv4, done: seq<byte>)
    requires done == [0x45] + [h.tos] + BigEndian(h.len, 2) + BigEndian(h.id, 2) + BigEndian(FlagsAndFrag(h), 2)
    ensures done == FirstHalf(h)
  {
  }

  lemma SecondHalfIs(h: IPv4, done: seq<byte>)
    requires done == [] + [h.ttl] + [h.proto] + BigEndian(0, 2) + BigEndian(h.src, 4) + BigEndian(h.dst, 4)
    ensures done == SecondHalf(h)
  {
  }

  method WriteFirstHalf(ws: WriteStream, h: IPv4) returns (ok: bool)
    requires ws.Valid() && ws.bitPos == 0
    modifies ws`byteIter, ws`bitPos, ws.data
    ensures ws.Valid()
    ensures ok <==> old(ws.byteIter) + 8 <= ws.data.Length
    ensures ok ==> ws.byteIter == old(ws.byteIter) + 8 && ws.bitPos == 0
    ensures ok ==> ws.data[..] == Image(old(ws.data[..]), old(ws.byteIter), FirstHalf(h))
  {
    hide Bits, BitsOf, TailZero, BigEndian, FlagsAndFrag, HeaderBytes, FirstHalf, SecondHalf, Image;
    ghost var orig, at, done := ws.data[..], ws.byteIter, [];
    ok := WriteNibbles(ws);
    if !ok { return; }
    done := [0x45];
    ok := ws.SerializeByte(h.tos);
    if !ok { return; }
    ImageStep(orig, at, done, [h.tos]);
    done := done + [h.tos];
    ok := ws.SerializeUint16(h.len);
    if !ok { return; }
    ImageStep(orig, at, done, BigEndian(h.len, 2));
    done := done + BigEndian(h.len, 2);
    ok := ws.SerializeUint16(h.id);
    if !ok { return; }
    ImageStep(orig, at, done, BigEndian(h.id, 2));
    done := done + BigEndian(h.id, 2);
    ok := WriteFlags(ws, h);
    if !ok { return; }
    ImageStep(orig, at, done, BigEndian(FlagsAndFrag(h), 2));
    done := done + BigEndian(FlagsAndFrag(h), 2);
    FirstHalfIs(h, done);
  }

  method WriteProtocol(ws: WriteStream, h: IPv4) returns (ok: bool)
    requires ws.Valid() && ws.bitPos == 0
    modifies ws`byteIter, ws`bitPos, ws.data
    ensures ws.Valid()
    ensures ok <==> old(ws.byteIter) + 4 <= ws.data.Length
    ensures ok ==> ws.byteIter == old(ws.byteIter) + 4 && ws.bitPos == 0
    ensures ok ==> ws.data[..] == Image(old(ws.data[..]), old(ws.byteIter), [] + [h.ttl] + [h.proto] + BigEndian(0, 2))
  {
    hide Bits, BitsOf, TailZero, BigEndian, FlagsAndFrag, HeaderBytes, FirstHalf, SecondHalf, Image;
    ghost var orig, at, done := ws.data[..], ws.byteIter, [];
    ImageNone(orig, at);
    ok := ws.SerializeByte(h.ttl);
    if !ok { return; }
    ImageStep(orig, at, done, [h.ttl]);
    done := done + [h.ttl];
    ok := ws.SerializeByte(h.proto);
    if !ok { return; }
    ImageStep(orig, at, done, [h.proto]);
    done := done + [h.proto];
    ok := ws.SerializeUint16(0);
    if !ok { return; }
    ImageStep(orig, at, done, BigEndian(0, 2));
  }

  method WriteSecondHalf(ws: WriteStream, h: IPv4) returns (ok: bool)
    requires ws.Valid() && ws.bitPos == 0
    modifies ws`byteIter, ws`bitPos, ws.data
    ensures ws.Valid()
    ensures ok <==> old(ws.byteIter) + 12 <= ws.data.Length
    ensures ok ==> ws.byteIter == old(ws.byteIter) + 12 && ws.bitPos == 0
    ensures ok ==> ws.data[..] == Image(old(ws.data[..]), old(ws.byteIter), SecondHalf(h))
  {
    hide Bits, BitsOf, TailZero, BigEndian, FlagsAndFrag, HeaderBytes, FirstHalf, SecondHalf, Image;
    ghost var orig, at, done := ws.data[..], ws.byteIter, [] + [h.ttl] + [h.proto] + BigEndian(0, 2);
    ok := WriteProtocol(ws, h);
    if !ok { return; }
    ok := ws.SerializeUint32(h.src);
    if !ok { return; }
    ImageStep(orig, at, done, BigEndian(h.src, 4));
    done := done + BigEndian(h.src, 4);
    ok := ws.SerializeUint32(h.dst);
    if !ok { return; }
    ImageStep(orig, at, done, BigEndian(h.dst, 4));
    done := done + BigEndian(h.dst, 4);
    SecondHalfIs(h, done);
  }

  method WriteUnchecked(ws: WriteStream, h: IPv4) returns (ok: bool)
    requires ws.Valid() && ws.bitPos == 0
    modifies ws`byteIter, ws`bitPos, ws.data
    ensures ws.Valid()
    ensures ok <==> old(ws.byteIter) + SIZE <= ws.data.Length
    ensures ok ==> ws.byteIter == old(ws.byteIter) + SIZE && ws.bitPos == 0
    ensures ok ==> ws.data[..] == Image(old(ws.data[..]), old(ws.byteIter), HeaderBytes(h, 0))
  {
    hide Image, FirstHalf, SecondHalf, HeaderBytes, TailZero, Bits;
    ghost var orig, at := ws.data[..], ws.byteIter;
    ok := WriteFirstHalf(ws, h);
    if !ok { return; }
    ok := WriteSecondHalf(ws, h);
    if !ok { return; }
    ImageStep(orig, at, FirstHalf(h), SecondHalf(h));
    Halves(h);
  }

  /** Writes the header with a zero checksum, then patches the checksum of what it sees behind it. */
  method WriteIPv4(ws: WriteStream, h: IPv4) returns (ok: bool)
    requires ws.Valid() && ws.bitPos == 0
    modifies ws`byteIter, ws`bitPos, ws.data
    ensures ws.Valid()
    ensures ok <==> old(ws.byteIter) + SIZE <= ws.data.Length
    ensures ok ==> ws.byteIter == old(ws.byteIter) + SIZE && ws.bitPos == 0
    ensures ok ==> ws.data[..] == Image(old(ws.data[..]), old(ws.byteIter), WrittenBytes(h))
  {
    hide Bits, HeaderBytes, TailZero, BigEndian;
    ok := WriteUnchecked(ws, h);
    if !ok { return; }
    ghost var plain := ws.data[..];
    ImageAt(old(ws.data[..]), old(ws.byteIter), HeaderBytes(h, 0));
    var seen, hdr := ws.Lookback(SIZE);
    assert hdr == HeaderBytes(h, 0);
    var sum := OnesComplementChecksumScalar(hdr, 0);
    var chksum := 0xffff - sum;
    ok := ws.UpdateChksum(chksum, 8);
    Patched(old(ws.data[..]), old(ws.byteIter), h, plain, ws.data[..], chksum);
  }

  lemma Patched(before: seq<byte>, at: nat, h: IPv4, plain: seq<byte>, after: seq<byte>, c: u16)
    requires at + SIZE <= |before|
    requires plain == Image(before, at, HeaderBytes(h, 0))
    requires after == Image(plain, at + 10, BigEndian(c, 2))
    ensures after == Image(before, at, HeaderBytes(h, c))
  {
    hide BigEndian;
    var z, s := HeaderBytes(h, 0), HeaderBytes(h, c);
    assert s == z[..10] + BigEndian(c, 2) + z[12..];
  }

  // ---- Reading ----

  /** Splitting the word ahead into two fields. */
  method ReadPair(rs: ReadStream, m: nat, n: nat, ghost w: nat, ghost p: nat, ghost q: nat) returns (ok: bool, a: nat, b: nat)
    requires rs.Valid() && m <= 8 && n <= 16
    requires BitsOf(w, m + n) <= rs.Rest() && p == Pow2(n) && q == Pow2(m)
    modifies rs`byteIter, rs`bitPos
    ensures rs.Valid() && ok && rs.Pos() == old(rs.Pos()) + m + n
    ensures a == w / p % q && b == w % p
  {
    hide Bits, BitsOf, Pow2;
    ghost var r0 := rs.Rest();
    ok, a := rs.SerializeBits(8, m);
    ghost var r1 := rs.Rest();
    TakeField(w, m + n, m, r0, a, r1, p, q);
    ok, b := rs.SerializeBits(16, n);
    assert Pow2(0) == 1 by { PowersOfTwo(); }
    TakeField(w, n, n, r1, b, rs.Rest(), 1, p);
  }

  /** The bytes ahead, as the bits of one word. */
  lemma BytesAhead(data: seq<byte>, at: nat, n: nat)
    requires at + n <= |data|
    ensures BitsOf(FromBigEndian(data[at..at + n]), 8 * n) <= Bits(data)[8 * at..]
  {
    BitsSlice(data, at, at + n);
    FromBigEndianBits(data[at..at + n]);
    assert Bits(data)[8 * at..][..8 * n] == Bits(data)[8 * at..8 * at + 8 * n];
  }

  /** Type of service, length and identification. */
  method ReadFront(rs: ReadStream) returns (tos: byte, len: u16, id: u16)
    requires rs.Valid() && rs.bitPos == 0 && rs.byteIter + 5 <= |rs.data|
    modifies rs`byteIter, rs`bitPos
    ensures rs.Valid() && rs.bitPos == 0 && rs.byteIter == old(rs.byteIter) + 5
    ensures tos == rs.data[old(rs.byteIter)]
    ensures len == BE16(rs.data[old(rs.byteIter) + 1..old(rs.byteIter) + 3])
    ensures id == BE16(rs.data[old(rs.byteIter) + 3..old(rs.byteIter) + 5])
  {
    hide Bits, BitsOf, Pow2, FromBigEndian, BE16;
    ghost var at := rs.byteIter;
    var o1, o2, o3, l, i, t;
    HeaderPowers();
    o1, t := rs.SerializeByte();
    o2, l := rs.SerializeUint16();
    o3, i := rs.SerializeUint16();
    FromBigEndian2(rs.data[at + 1..at + 3]);
    FromBigEndian2(rs.data[at + 3..at + 5]);
    return t, l, i;
  }

  /** Everything behind the fragment word. */
  method ReadBack(rs: ReadStream) returns (ttl: byte, proto: byte, src: u32, dst: u32)
    requires rs.Valid() && rs.bitPos == 0 && rs.byteIter + 12 <= |rs.data|
    modifies rs`byteIter, rs`bitPos
    ensures rs.Valid() && rs.bitPos == 0 && rs.byteIter == old(rs.byteIter) + 12
    ensures ttl == rs.data[old(rs.byteIter)] && proto == rs.data[old(rs.byteIter) + 1]
    ensures src == BE32(rs.data[old(rs.byteIter) + 4..old(rs.byteIter) + 8])
    ensures dst == BE32(rs.data[old(rs.byteIter) + 8..old(rs.byteIter) + 12])
  {
    hide Bits, BitsOf, Pow2, FromBigEndian, BE32;
    ghost var at := rs.byteIter;
    var o1, o2, o3, o4, o5, t, p, chksum, s, d;
    o1, t := rs.SerializeByte();
    o2, p := rs.SerializeByte();
    o3, chksum := rs.SerializeUint16();
    o4, s := rs.SerializeUint32();
    o5, d := rs.SerializeUint32();
    FromBigEndian4(rs.data[at + 4..at + 8]);
    FromBigEndian4(rs.data[at + 8..at + 12]);
    return t, p, s, d;
  }

  method ReadIPv4(rs: ReadStream) returns (ok: bool, h: IPv4)
    requires rs.Valid() && rs.bitPos == 0
    modifies rs`byteIter, rs`bitPos
    ensures rs.Valid()
    ensures ok <==>
      old(rs.byteIter) + SIZE <= |rs.data| && Accepted(rs.data[old(rs.byteIter)..old(rs.byteIter) + SIZE])
    ensures ok ==> h == Decode(rs.data[old(rs.byteIter)..old(rs.byteIter) + SIZE])
    ensures ok ==> rs.byteIter == old(rs.byteIter) + SIZE && rs.bitPos == 0
  {
    hide Bits, BitsOf, Pow2, FromBigEndian, ChecksumSpec, Decode, BE16, BE32;
    h := IPv4(0, 0, 0, 0, 0, 0, 0, 0, 0);
    ghost var at := rs.byteIter;
    var seen, hdr := rs.Lookahead(SIZE);
    if !seen { return false, h; }
    var c := OnesComplementChecksumScalar(hdr, 0);
    if c != 0xffff { return false, h; }
    HeaderPowers();
    BytesAhead(rs.data, at, 1);
    SingleByte(rs.data[at..at + 1]);
    var o1, ver, hdrLen := ReadPair(rs, 4, 4, rs.data[at], 16, 16);
    if ver != 4 { return false, h; }
    if hdrLen < 5 { return false, h; }
    if hdrLen > 5 { return false, h; }
    var tos, len, id := ReadFront(rs);
    BytesAhead(rs.data, at + 6, 2);
    FromBigEndian2(rs.data[at + 6..at + 8]);
    ghost var w := BE16(rs.data[at + 6..at + 8]);
    FlagWord(rs.data, at);
    var o2, flags, frag := ReadPair(rs, 3, 13, w, 0x2000, 8);
    if flags / 4 % 2 == 1 { return false, h; }
    var ttl, proto, src, dst := ReadBack(rs);
    h := IPv4(flags, tos, ttl, proto, len, id, frag, src, dst);
    DecodedFields(rs.data, at, h);
    return true, h;
  }

  lemma HeaderPowers()
    ensures Pow2(4) == 16 && Pow2(3) == 8 && Pow2(13) == 0x2000
  {
    PowersOfTwo();
    assert Pow2(4) == 16;
    Pow2Sum(12, 1);
    assert Pow2(1) == 2;
  }

  lemma FlagWord(data: seq<byte>, at: nat)
    requires at + SIZE <= |data|
    ensures var w := BE16(data[at + 6..at + 8]);
            w / 0x2000 % 8 == data[at + 6] / 32 && (w / 0x2000 % 8 / 4 % 2 == 1 <==> data[at + 6] >= 0x80)
  {
    DivModUnique(BE16(data[at + 6..at + 8]), 256, data[at + 6], data[at + 7]);
  }

  lemma DecodedFields(data: seq<byte>, at: nat, h: IPv4)
    requires at + SIZE <= |data|
    requires h.flags == data[at + 6] / 32 && h.tos == data[at + 1] && h.ttl == data[at + 8] && h.proto == data[at + 9]
    requires h.len == BE16(data[at + 2..at + 4]) && h.id == BE16(data[at + 4..at + 6])
    requires h.frag == BE16(data[at + 6..at + 8]) % 0x2000
    requires h.src == BE32(data[at + 12..at + 16]) && h.dst == BE32(data[at + 16..at + 20])
    ensures h == Decode(data[at..at + SIZE])
  {
    hide BE16, BE32;
    SubSlice(data, at, SIZE, 2, 4);
    SubSlice(data, at, SIZE, 4, 6);
    SubSlice(data, at, SIZE, 6, 8);
    SubSlice(data, at, SIZE, 12, 16);
    SubSlice(data, at, SIZE, 16, 20);
  }

  /** Write a header anywhere, read it back: accepted exactly when the fold was clean, and then equal. */
  method RoundTripIPv4(buffer: array<byte>, h: IPv4) returns (ok: bool, r: IPv4)
    requires h.InRange() && buffer.Length >= SIZE
    modifies buffer
    ensures ok <==> FoldsCleanly(FieldSum(h))
    ensures ok ==> r == h
  {
    hide Image, WrittenBytes, Accepted, Decode, FieldSum, Bits;
    var ws := new WriteStream(buffer);
    ok := WriteIPv4(ws, h);
    ImageAt(old(buffer[..]), 0, WrittenBytes(h));
    SelfChecksum(h);
    var rs := new ReadStream(buffer[..]);
    ok, r := ReadIPv4(rs);
  }
}
