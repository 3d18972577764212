/**
 The raw path buffer: expiry and reversal on the stored bytes.
 */
module RawPaths {
  import opened Words
  import opened BitStream
  import opened ScionPath
  import opened PathReversal
  import opened PathLaws

  const MAX_SIZE := 984

  // ---- The expiry the code computes, on any buffer ----

  /** Which info field the expiry loop takes for hop field `i`. */
  function InfoIndex(m: PathMeta, i: nat): nat {
    if i < m.seg0 then 0 else if i < m.seg0 + m.seg1 then 1 else 2
  }

  /** Hop fields that can be read before the buffer ends. */
  function HopsInBuffer(b: seq<byte>): nat
    requires |b| >= META_SIZE && HopsBegin(Meta(b).SegmentCount()) <= |b|
  {
    var room := (|b| - HopsBegin(Meta(b).SegmentCount())) / HF_SIZE;
    if Meta(b).HopFieldCount() <= room then Meta(b).HopFieldCount() else room
  }

  function ExpiryOfHop(b: seq<byte>, i: nat): u32
    requires |b| >= META_SIZE && Meta(b).Accepted() && i < Meta(b).HopFieldCount()
    requires HopsBegin(Meta(b).SegmentCount()) + HF_SIZE * (i + 1) <= |b|
  {
    var m := Meta(b);
    ExpiresAt(InfoOf(InfoBlock(b, InfoIndex(m, i))), HopOf(HopBlock(b, m.SegmentCount(), i)))
  }

  /** Expiries of the first `k` hop fields. */
  function BufferExpiries(b: seq<byte>, k: nat): (r: seq<nat>)
    requires |b| >= META_SIZE && Meta(b).Accepted() && k <= Meta(b).HopFieldCount()
    requires HopsBegin(Meta(b).SegmentCount()) + HF_SIZE * k <= |b|
    ensures |r| == k
    ensures forall i :: 0 <= i < k ==> r[i] == ExpiryOfHop(b, i)
  {
    seq(k, i requires 0 <= i < k => ExpiryOfHop(b, i))
  }

  function BufferExpiry(b: seq<byte>): Expiry {
    if |b| < META_SIZE || !Meta(b).Accepted() || |b| < HopsBegin(Meta(b).SegmentCount()) then Never
    else Minimum(BufferExpiries(b, HopsInBuffer(b)))
  }

  // ---- The expiry of a path ----

  function SegmentOf(lens: seq<nat>, i: nat): (k: nat)
    requires i < Sum(lens)
    ensures k < |lens|
  {
    if i < lens[0] then 0 else 1 + SegmentOf(lens[1..], i - lens[0])
  }

  lemma {:induction false} HopExpiriesByIndex(infos: seq<InfoField>, lens: seq<nat>, hops: seq<HopField>, i: nat)
    requires |infos| == |lens| && i < Sum(lens) == |hops|
    ensures |HopExpiries(Segments(infos, lens, hops))| == |hops|
    ensures HopExpiries(Segments(infos, lens, hops))[i] == ExpiresAt(infos[SegmentOf(lens, i)], hops[i])
  {
    HopExpiriesSize(infos, lens, hops);
    HopExpiriesSize(infos[1..], lens[1..], hops[lens[0]..]);
    if i >= lens[0] { HopExpiriesByIndex(infos[1..], lens[1..], hops[lens[0]..], i - lens[0]); }
  }

  lemma {:induction false} HopExpiriesSize(infos: seq<InfoField>, lens: seq<nat>, hops: seq<HopField>)
    requires |infos| == |lens| && Sum(lens) == |hops|
    ensures |HopExpiries(Segments(infos, lens, hops))| == |hops|
  {
    if lens != [] { HopExpiriesSize(infos[1..], lens[1..], hops[lens[0]..]); }
  }

  lemma InfoIndexIsSegment(m: PathMeta, i: nat)
    requires m.Accepted() && i < m.HopFieldCount()
    ensures SegmentOf(SegmentLengths(m), i) == InfoIndex(m, i) < m.SegmentCount()
  {
    var lens := SegmentLengths(m);
    assert lens == [m.seg0, m.seg1, m.seg2][..m.SegmentCount()];
  }

  /** On a well-formed path the loop finds the minimum over all hops of the decoded path. */
  lemma ExpiryIsMinimum(buffer: seq<byte>, size: nat)
    requires size <= |buffer| && WellFormed(buffer[..size])
    ensures BufferExpiry(buffer) == Minimum(HopExpiries(DecodeSegments(buffer[..size])))
  {
    hide MetaOfWord, Reversible, SegmentLengths, ExpiresAt;
    var b := buffer[..size];
    ReversibleSize(b);
    var m, n, h := Meta(b), Meta(b).SegmentCount(), Meta(b).HopFieldCount();
    assert buffer[..4] == b[..4];
    var infos, hops := InfoFields(b, n), HopFields(b, n, h);
    var segs := DecodeSegments(b);
    HopExpiriesSize(infos, SegmentLengths(m), hops);
    forall i | 0 <= i < h ensures HopExpiries(segs)[i] == ExpiryOfHop(buffer, i) {
      HopExpiriesByIndex(infos, SegmentLengths(m), hops, i);
      InfoIndexIsSegment(m, i);
      SamePrefixBlocks(buffer, size, n, InfoIndex(m, i), i);
    }
    assert HopsInBuffer(buffer) == h;
    assert HopExpiries(segs) == BufferExpiries(buffer, h);
  }

  lemma SamePrefixBlocks(buffer: seq<byte>, size: nat, n: nat, k: nat, i: nat)
    requires size <= |buffer| && k < n && HopsBegin(n) + HF_SIZE * (i + 1) <= size
    ensures InfoBlock(buffer, k) == InfoBlock(buffer[..size], k)
    ensures HopBlock(buffer, n, i) == HopBlock(buffer[..size], n, i)
  {
  }

  /** The info fields behind the meta header. */
  method ReadInfoFields(rs: ReadStream, n: nat) returns (ok: bool, ifs: seq<InfoField>)
    requires rs.Valid() && rs.bitPos == 0 && rs.byteIter == META_SIZE
    modifies rs`byteIter, rs`bitPos
    ensures rs.Valid() && rs.bitPos == 0
    ensures ok <==> HopsBegin(n) <= |rs.data|
    ensures ok ==> rs.byteIter == HopsBegin(n) && ifs == InfoFields(rs.data, n)
  {
    hide InfoOf, Bits;
    ifs := [];
    var i := 0;
    while i < n
      invariant 0 <= i <= n && |ifs| == i
      invariant rs.Valid() && rs.bitPos == 0 && rs.byteIter == HopsBegin(i) <= |rs.data|
      invariant forall k :: 0 <= k < i ==> ifs[k] == InfoOf(InfoBlock(rs.data, k))
    {
      var res, info := ReadInfoField(rs);
      if !res { return false, ifs; }
      ifs := ifs + [info];
      i := i + 1;
    }
    ok := true;
  }

  /** The loop over all hop fields, keeping a running minimum. */
  method ComputeExpiry(b: seq<byte>) returns (expiry: Expiry)
    ensures expiry == BufferExpiry(b)
  {
    hide Bits, BitsOf, Pow2, MetaOfWord, ExpiresAt, Minimum, InfoOf, HopOf, BufferExpiries, WordAhead, InfoFields, InfoBlock, HopBlock, HopsInBuffer;
    expiry := Never;
    var rs := new ReadStream(b);
    MetaAhead(b);
    var ok, meta := ReadPathMeta(rs);
    if !ok { return; }
    var segments := meta.SegmentCount();
    var read, ifs := ReadInfoFields(rs, segments);
    if !read { return; }
    var hops := meta.HopFieldCount();
    var i := 0;
    MinimumOfNone(b);
    while i < hops
      invariant 0 <= i <= hops
      invariant rs.Valid() && rs.bitPos == 0 && rs.byteIter == HopsBegin(segments) + HF_SIZE * i
      invariant HopsBegin(segments) + HF_SIZE * i <= |b|
      invariant expiry == Minimum(BufferExpiries(b, i))
    {
      var res, hop := ReadHopField(rs);
      if !res {
        HopsRead(b, i);
        return;
      }
      InfoIndexIsSegment(meta, i);
      InfoAt(b, segments, InfoIndex(meta, i));
      if i < meta.seg0 {
        expiry := Earlier(expiry, At((ifs[0].timestamp + hop.RelativeExpiry()) % 0x1_0000_0000));
      } else if i < meta.seg0 + meta.seg1 {
        expiry := Earlier(expiry, At((ifs[1].timestamp + hop.RelativeExpiry()) % 0x1_0000_0000));
      } else {
        expiry := Earlier(expiry, At((ifs[2].timestamp + hop.RelativeExpiry()) % 0x1_0000_0000));
      }
      HopAt(b, segments, i);
      NextMinimum(b, i, ifs[InfoIndex(meta, i)], hop);
      i := i + 1;
    }
    HopsRead(b, i);
  }

  // ---- The buffer object ----

  class RawPath {
    var source: u64
    var destination: u64
    var pathType: PathType
    var size: nat
    const path: array<byte>

    ghost predicate Valid()
      reads this
    {
      path.Length == MAX_SIZE && size <= MAX_SIZE
    }

    constructor (buffer: array<byte>)
      requires buffer.Length == MAX_SIZE
      ensures Valid() && path == buffer && pathType == Empty && size == 0
    {
      source, destination, pathType, size := 0, 0, Empty, 0;
      path := buffer;
    }

    /** Overwrites the front of the buffer; what was behind it stays. */
    /** Takes over a path, or refuses one that is longer than any path can be. */
    method Assign(src: u64, dst: u64, t: PathType, data: seq<byte>) returns (ok: bool)
      requires Valid()
      modifies this, path
      ensures Valid() && (ok <==> |data| <= MAX_SIZE)
      ensures ok ==> source == src && destination == dst && pathType == t && size == |data|
                     && path[..] == data + old(path[..])[|data|..]
      ensures !ok ==> source == old(source) && destination == old(destination) && pathType == old(pathType)
                      && size == old(size) && path[..] == old(path[..])
    {
      if |data| > MAX_SIZE { return false; }
      source, destination, pathType, size := src, dst, t, |data|;
      Memcpy(path, MAX_SIZE, 0, data);
      assert path[..MAX_SIZE] == path[..];
      ok := true;
    }

    method Expiry() returns (expiry: Expiry)
      requires Valid()
      ensures expiry == if pathType == SCION then BufferExpiry(path[..]) else Never
      ensures pathType == SCION && WellFormed(path[..size]) ==>
                expiry == Minimum(HopExpiries(DecodeSegments(path[..size])))
    {
      hide MetaOfWord, Reversible, Minimum, HopExpiries, DecodeSegments, BufferExpiry;
      if pathType != SCION { return Never; }
      expiry := ComputeExpiry(path[..]);
      if WellFormed(path[..size]) {
        assert path[..size] == path[..][..size];
        ExpiryIsMinimum(path[..], size);
      }
    }

    /** Turns the path around; a well-formed path keeps its expiry and stays well formed. */
    method ReverseInPlace() returns (err: ErrorCode)
      requires Valid()
      modifies this, path
      ensures Valid() && pathType == old(pathType) && size == old(size)
      ensures err == Ok ==> source == old(destination) && destination == old(source)
      ensures err != Ok ==> source == old(source) && destination == old(destination) && path[..] == old(path[..])
      ensures err == Ok <==> pathType == Empty || (pathType == SCION && Reversible(old(path[..size])))
      ensures pathType == SCION && WellFormed(old(path[..size])) ==>
                && WellFormed(path[..size])
                && old(Decode(path[..size])).currInf < |old(Decode(path[..size])).segments|
                && old(Decode(path[..size])).currHf < TotalHops(old(Decode(path[..size])).segments)
                && Decode(path[..size]) == ReversePath(old(Decode(path[..size])))
                && BufferExpiry(path[..]) == BufferExpiry(old(path[..]))
    {
      hide IsReversal, Reversible, Segments, MetaOfWord, BufferExpiry;
      ghost var before, was := path[..], path[..size];
      assert was == before[..size];
      err := ReversePathInPlace(pathType, path, size);
      ghost var after := path[..];
      assert before == was + before[size..] && after == path[..size] + path[size..];
      if err != Ok { return; }
      if pathType == SCION && WellFormed(was) {
        ReversalDecodes(was, path[..size]);
        assert after[..size] == path[..size];
        ExpiryIsMinimum(before, size);
        ExpiryIsMinimum(after, size);
        ExpiryUnchanged(Decode(was).segments);
      }
      source, destination := destination, source;
    }
  }

  lemma InfoAt(b: seq<byte>, n: nat, k: nat)
    requires k < n && HopsBegin(n) <= |b|
    ensures InfoFields(b, n)[k] == InfoOf(InfoBlock(b, k))
  {
  }

  lemma HopAt(b: seq<byte>, n: nat, i: nat)
    requires HopsBegin(n) + HF_SIZE * (i + 1) <= |b|
    ensures HopBlock(b, n, i) == b[HopsBegin(n) + HF_SIZE * i..HopsBegin(n) + HF_SIZE * i + HF_SIZE]
  {
  }

  /** The loop stops after the last hop field, or after the last that fits. */
  lemma HopsRead(b: seq<byte>, i: nat)
    requires |b| >= META_SIZE && i <= Meta(b).HopFieldCount()
    requires HopsBegin(Meta(b).SegmentCount()) + HF_SIZE * i <= |b|
    requires i < Meta(b).HopFieldCount() ==> |b| < HopsBegin(Meta(b).SegmentCount()) + HF_SIZE * (i + 1)
    ensures HopsInBuffer(b) == i
  {
    hide MetaOfWord;
  }

  lemma MetaAhead(b: seq<byte>)
    ensures |Bits(b)| >= 32 <==> |b| >= META_SIZE
    ensures |b| >= META_SIZE ==> WordAhead(Bits(b)) == MetaWord(b)
  {
    if |b| >= META_SIZE {
      BitsSlice(b, 0, 4);
      assert b[0..4] == b[..4] && Bits(b)[0..32] == Bits(b)[..32];
      FromBigEndianVal(b[..4]);
      FromBigEndian4(b[..4]);
    }
  }

  lemma MinimumOfNone(b: seq<byte>)
    requires |b| >= META_SIZE && Meta(b).Accepted() && HopsBegin(Meta(b).SegmentCount()) <= |b|
    ensures Minimum(BufferExpiries(b, 0)) == Never
  {
  }

  lemma NextMinimum(b: seq<byte>, i: nat, info: InfoField, hop: HopField)
    requires |b| >= META_SIZE && Meta(b).Accepted() && i < Meta(b).HopFieldCount()
    requires HopsBegin(Meta(b).SegmentCount()) + HF_SIZE * (i + 1) <= |b|
    requires info == InfoOf(InfoBlock(b, InfoIndex(Meta(b), i)))
    requires hop == HopOf(HopBlock(b, Meta(b).SegmentCount(), i))
    ensures Minimum(BufferExpiries(b, i + 1))
         == Earlier(Minimum(BufferExpiries(b, i)), At((info.timestamp + hop.RelativeExpiry()) % 0x1_0000_0000))
  {
    hide MetaOfWord, InfoOf, HopOf, InfoBlock, HopBlock;
    assert BufferExpiries(b, i + 1)[..i] == BufferExpiries(b, i);
  }
}
