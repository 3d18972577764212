/**
 Reversing a path inside its packed bytes, and the expiry time read from the same bytes.

 `ReversePathInPlace` decodes the meta word by hand and moves blocks of an array. Its result is
 compared with reversing the path the header reader decodes: segments, hops and direction flags.
 */
module PathReversal {
  import opened Words
  import opened ScionPath

  datatype PathType = Empty | SCION | OneHop | EPIC | Colibri
  datatype ErrorCode = Ok | NotImplemented | InvalidArgument

  // ---- The decoded path ----

  datatype Segment = Segment(info: InfoField, hops: seq<HopField>)

  datatype Path = Path(currInf: nat, currHf: nat, segments: seq<Segment>)

  function Sum(lens: seq<nat>): nat {
    if lens == [] then 0 else lens[0] + Sum(lens[1..])
  }

  /** Hop fields dealt out to the segments. */
  function Segments(infos: seq<InfoField>, lens: seq<nat>, hops: seq<HopField>): seq<Segment>
    requires |infos| == |lens| && Sum(lens) == |hops|
  {
    if lens == [] then []
    else [Segment(infos[0], hops[..lens[0]])] + Segments(infos[1..], lens[1..], hops[lens[0]..])
  }

  function SegmentLengths(m: PathMeta): (lens: seq<nat>)
    ensures |lens| == m.SegmentCount() && Sum(lens) == m.HopFieldCount()
  {
    var l0 := if m.seg0 > 0 then [m.seg0] else [];
    var l1 := if m.seg1 > 0 then [m.seg1] else [];
    var l2 := if m.seg2 > 0 then [m.seg2] else [];
    SumConcat(l0, l1);
    SumConcat(l0 + l1, l2);
    l0 + l1 + l2
  }

  lemma {:induction false} SumConcat(a: seq<nat>, b: seq<nat>)
    ensures Sum(a + b) == Sum(a) + Sum(b)
  {
    if a == [] {
      assert a + b == b;
    } else {
      assert (a + b)[1..] == a[1..] + b;
      SumConcat(a[1..], b);
    }
  }

  // ---- The bytes ----

  function MetaWord(b: seq<byte>): u32
    requires |b| >= META_SIZE
  {
    BE32(b[..4])
  }

  function Meta(b: seq<byte>): PathMeta
    requires |b| >= META_SIZE
  {
    MetaOfWord(MetaWord(b))
  }

  function HopsBegin(numInf: nat): nat { META_SIZE + INF_SIZE * numInf }

  function InfoBlock(b: seq<byte>, i: nat): (r: seq<byte>)
    requires HopsBegin(i + 1) <= |b|
    ensures |r| == INF_SIZE
  {
    b[4 + 8 * i..12 + 8 * i]
  }

  function HopBlock(b: seq<byte>, numInf: nat, i: nat): (r: seq<byte>)
    requires HopsBegin(numInf) + HF_SIZE * (i + 1) <= |b|
    ensures |r| == HF_SIZE
  {
    b[HopsBegin(numInf) + 12 * i..HopsBegin(numInf) + 12 * i + 12]
  }

  function PathSize(m: PathMeta): nat {
    META_SIZE + m.SegmentCount() * INF_SIZE + m.HopFieldCount() * HF_SIZE
  }

  /** What the in-place reversal insists on. */
  predicate Reversible(b: seq<byte>) {
    && |b| >= META_SIZE
    && Meta(b).SegmentCount() >= 1
    && 2 <= Meta(b).HopFieldCount() <= 64
    && |b| == PathSize(Meta(b))
  }

  /** ... and the header reader accepts the meta header as well. */
  predicate WellFormed(b: seq<byte>) {
    Reversible(b) && Meta(b).Accepted()
  }

  function InfoFields(b: seq<byte>, n: nat): (r: seq<InfoField>)
    requires HopsBegin(n) <= |b|
    ensures |r| == n
  {
    seq(n, i requires 0 <= i < n => InfoOf(InfoBlock(b, i)))
  }

  function HopFields(b: seq<byte>, numInf: nat, n: nat): (r: seq<HopField>)
    requires HopsBegin(numInf) + HF_SIZE * n <= |b|
    ensures |r| == n
  {
    seq(n, i requires 0 <= i < n => HopOf(HopBlock(b, numInf, i)))
  }

  /** The path the header readers see in the bytes. */
  function Decode(b: seq<byte>): Path
    requires Reversible(b)
  {
    var m := Meta(b);
    Path(m.currInf, m.currHf, DecodeSegments(b))
  }

  function DecodeSegments(b: seq<byte>): seq<Segment>
    requires Reversible(b)
  {
    var m := Meta(b);
    var n := m.SegmentCount();
    Segments(InfoFields(b, n), SegmentLengths(m), HopFields(b, n, m.HopFieldCount()))
  }

  // ---- Reversal of bytes ----

  function ToggleLow(x: byte): byte {
    if x % 2 == 0 then x + 1 else x - 1
  }

  /** An info field with only the direction flag flipped. */
  function Flip(s: seq<byte>): (r: seq<byte>)
    requires |s| == INF_SIZE
    ensures |r| == INF_SIZE
  {
    [ToggleLow(s[0])] + s[1..]
  }

  /** `1u << 32` arithmetic of the new indices: `count - index - 1`. */
  function Mirror32(count: nat, index: nat): nat {
    (count as int - index - 1) % 0x1_0000_0000
  }

  function OrByte(a: byte, b: byte): (r: byte) {
    Pow2At8();
    OrBound(a, b, 8);
    Or(a, b)
  }

  /** Segment lengths change places, the indices are mirrored, the reserved bits stay. */
  function ReversedMetaWord(w: u32): (r: nat)
    ensures r < 0x1_0000_0000
  {
    var m := MetaOfWord(w);
    var n := m.SegmentCount();
    var (s0, s1, s2) :=
      if n == 2 then (m.seg1, m.seg0, m.seg2) else if n == 3 then (m.seg2, m.seg1, m.seg0) else (m.seg0, m.seg1, m.seg2);
    s2 + 0x40 * s1 + 0x1000 * s0 + 0x4_0000 * ReservedBits(w)
    + 0x100_0000 * OrByte(Mirror32(m.HopFieldCount(), m.currHf) % 256, 0x40 * (Mirror32(n, m.currInf) % 4))
  }

  /** `c` is `b` with the blocks mirrored and the direction flags flipped. */
  ghost predicate IsReversal(b: seq<byte>, c: seq<byte>)
    requires Reversible(b)
  {
    var n, h := Meta(b).SegmentCount(), Meta(b).HopFieldCount();
    && |c| == |b|
    && MetaWord(c) == ReversedMetaWord(MetaWord(b))
    && (forall i :: 0 <= i < n ==> InfoBlock(c, i) == Flip(InfoBlock(b, n - 1 - i)))
    && (forall i :: 0 <= i < h ==> HopBlock(c, n, i) == HopBlock(b, n, h - 1 - i))
  }

  // ---- The algorithm ----

  // A span is the first `len` bytes of an array; the bytes behind it stay untouched.

  method Memcpy(a: array<byte>, len: nat, at: nat, src: seq<byte>)
    requires at + |src| <= len <= a.Length
    modifies a
    ensures a[..len] == old(a[..len])[..at] + src + old(a[..len])[at + |src|..]
    ensures a[len..] == old(a[len..])
  {
    var i := 0;
    while i < |src|
      invariant 0 <= i <= |src|
      invariant a[..len] == old(a[..len])[..at] + src[..i] + old(a[..len])[at + i..]
      invariant a[len..] == old(a[len..])
    {
      a[at + i] := src[i];
      i := i + 1;
    }
    assert src[..|src|] == src;
  }

  /** Two disjoint blocks of `n` bytes changed places. */
  function Swapped(s: seq<byte>, x: nat, y: nat, n: nat): (r: seq<byte>)
    requires x + n <= y && y + n <= |s|
    ensures |r| == |s|
  {
    s[..x] + s[y..y + n] + s[x + n..y] + s[x..x + n] + s[y + n..]
  }

  method SwapBlocks(a: array<byte>, len: nat, x: nat, y: nat, n: nat)
    requires x + n <= y && y + n <= len <= a.Length
    modifies a
    ensures a[..len] == Swapped(old(a[..len]), x, y, n)
    ensures a[len..] == old(a[len..])
  {
    hide Swapped;
    ghost var s := a[..len];
    var temp := a[x..x + n];
    var other := a[y..y + n];
    PartOf(a[..], len, x, n);
    PartOf(a[..], len, y, n);
    Memcpy(a, len, x, other);
    ghost var t := a[..len];
    Memcpy(a, len, y, temp);
    SwapInTwo(s, x, y, n, t);
  }

  lemma PartOf(a: seq<byte>, len: nat, x: nat, n: nat)
    requires x + n <= len <= |a|
    ensures a[..len][x..x + n] == a[x..x + n]
  {
  }

  lemma SwapInTwo(s: seq<byte>, x: nat, y: nat, n: nat, t: seq<byte>)
    requires x + n <= y && y + n <= |s|
    requires t == s[..x] + s[y..y + n] + s[x + n..]
    ensures t[..y] + s[x..x + n] + t[y + n..] == Swapped(s, x, y, n)
  {
    assert t[..y] == s[..x] + s[y..y + n] + s[x + n..y];
    assert t[y + n..] == s[y + n..];
  }

  lemma SwappedOutside(s: seq<byte>, x: nat, y: nat, n: nat, p: nat, q: nat)
    requires x + n <= y && y + n <= |s| && p <= q <= |s|
    requires q <= x || (x + n <= p && q <= y) || y + n <= p
    ensures Swapped(s, x, y, n)[p..q] == s[p..q]
  {
    assert forall k :: p <= k < q ==> Swapped(s, x, y, n)[k] == s[k];
  }

  lemma SwappedInside(s: seq<byte>, x: nat, y: nat, n: nat)
    requires x + n <= y && y + n <= |s|
    ensures Swapped(s, x, y, n)[x..x + n] == s[y..y + n]
    ensures Swapped(s, x, y, n)[y..y + n] == s[x..x + n]
  {
    Middle(s[..x], s[y..y + n], s[x + n..y] + s[x..x + n] + s[y + n..]);
    Middle(s[..x] + s[y..y + n] + s[x + n..y], s[x..x + n], s[y + n..]);
    assert Swapped(s, x, y, n) == s[..x] + s[y..y + n] + (s[x + n..y] + s[x..x + n] + s[y + n..]);
  }

  lemma Middle(a: seq<byte>, b: seq<byte>, c: seq<byte>)
    ensures (a + b + c)[|a|..|a| + |b|] == b
  {
  }

  method ReversePathInPlace(pathType: PathType, path: array<byte>, len: nat) returns (err: ErrorCode)
    requires len <= path.Length
    modifies path
    ensures pathType == Empty ==> err == Ok && path[..len] == old(path[..len])
    ensures pathType != Empty && pathType != SCION ==> err == NotImplemented && path[..len] == old(path[..len])
    ensures pathType == SCION && !Reversible(old(path[..len])) ==> err == InvalidArgument && path[..len] == old(path[..len])
    ensures pathType == SCION && Reversible(old(path[..len])) ==> err == Ok && IsReversal(old(path[..len]), path[..len])
    ensures path[len..] == old(path[len..])
  {
    hide Or, ShiftLeft, ByteSwap, LoadWord, StoreWord, Swapped, InfoBlock, HopBlock, Flip, MetaOfWord, IsReversal, ReversedMetaWord, Mirror32;
    if pathType == Empty { return Ok; }
    if pathType != SCION { return NotImplemented; }
    if len < 4 { return InvalidArgument; }

    ghost var was := path[..len];
    var pathMeta := ByteSwap(LoadWord(path[..META_SIZE]), 4);
    assert path[..META_SIZE] == was[..META_SIZE];
    LoadMetaWord(was);
    MetaParts(pathMeta);
    var seg2 := pathMeta % 64;
    var seg1 := pathMeta / 0x40 % 64;
    var seg0 := pathMeta / 0x1000 % 64;
    var res := pathMeta / 0x4_0000 % 64;
    var currHop := pathMeta / 0x100_0000 % 64;
    var currInf := pathMeta / 0x4000_0000 % 4;

    var numInf := (if seg0 > 0 then 1 else 0) + (if seg1 > 0 then 1 else 0) + (if seg2 > 0 then 1 else 0);
    var numHop := seg0 + seg1 + seg2;
    if numInf < 1 { return InvalidArgument; }
    if numHop < 2 || numHop > 64 { return InvalidArgument; }
    if len != META_SIZE + numInf * INF_SIZE + numHop * HF_SIZE { return InvalidArgument; }

    if numInf > 1 {
      SwapBlocks(path, len, META_SIZE, META_SIZE + (numInf - 1) * INF_SIZE, INF_SIZE);
    }
    ghost var swapped := path[..len];
    FlipDirections(path, len, numInf, numHop);
    ghost var flipped := path[..len];
    ReverseHops(path, len, numInf, numHop);
    ghost var moved := path[..len];

    currInf := Mirror32(numInf, currInf);
    currHop := Mirror32(numHop, currHop);
    if numInf == 2 {
      seg0, seg1 := seg1, seg0;
    } else if numInf == 3 {
      seg0, seg2 := seg2, seg0;
    }
    ghost var word := pathMeta;
    pathMeta := Or(Or(Or(Or(Or(seg2, ShiftLeft(seg1, 6, 32)), ShiftLeft(seg0, 12, 32)), ShiftLeft(res, 18, 32)),
                      ShiftLeft(currHop, 24, 32)), ShiftLeft(currInf, 30, 32));
    NewWord(word, seg0, seg1, seg2, res, currHop, currInf);
    Memcpy(path, len, 0, StoreWord(ByteSwap(pathMeta, 4), 4));
    Compose(was, swapped, flipped, moved, path[..len], numInf, numHop, pathMeta);
    return Ok;
  }

  lemma MetaParts(w: u32)
    ensures var m := MetaOfWord(w);
            && m.seg2 == w % 64 && m.seg1 == w / 0x40 % 64 && m.seg0 == w / 0x1000 % 64
            && m.currHf == w / 0x100_0000 % 64 && m.currInf == w / 0x4000_0000 % 4
  {
  }

  /** The three passes over the blocks and the new meta word make a reversal. */
  lemma Compose(b: seq<byte>, swapped: seq<byte>, flipped: seq<byte>, moved: seq<byte>, c: seq<byte>,
                n: nat, h: nat, w: nat)
    requires Reversible(b) && n == Meta(b).SegmentCount() && h == Meta(b).HopFieldCount()
    requires |swapped| == |flipped| == |moved| == |b|
    requires swapped == if n > 1 then Swapped(b, META_SIZE, META_SIZE + (n - 1) * INF_SIZE, INF_SIZE) else b
    requires forall i :: 0 <= i < n ==> InfoBlock(flipped, i) == Flip(InfoBlock(swapped, i))
    requires forall i :: 0 <= i < h ==> HopBlock(flipped, n, i) == HopBlock(swapped, n, i)
    requires forall i :: 0 <= i < n ==> InfoBlock(moved, i) == InfoBlock(flipped, i)
    requires forall i :: 0 <= i < h ==> HopBlock(moved, n, i) == HopBlock(flipped, n, h - 1 - i)
    requires w == ReversedMetaWord(MetaWord(b)) && w < 0x1_0000_0000
    requires c == moved[..0] + StoreWord(ByteSwap(w, 4), 4) + moved[4..]
    ensures IsReversal(b, c)
  {
    hide InfoBlock, HopBlock, Swapped, Flip, StoreWord, ByteSwap, ReversedMetaWord, MetaOfWord;
    InfosMirrored(b, swapped, n, h);
    NewMeta(moved, w, c, n, h);
  }

  lemma LoadMetaWord(b: seq<byte>)
    requires |b| >= 4
    ensures ByteSwap(LoadWord(b[..4]), 4) == MetaWord(b)
  {
    ByteSwapOfLoad(b[..4]);
    FromBigEndian4(b[..4]);
  }

  /** Swapping the outer two of up to three info fields mirrors them. */
  lemma InfosMirrored(b: seq<byte>, c: seq<byte>, n: nat, h: nat)
    requires 1 <= n <= 3 && |b| == HopsBegin(n) + HF_SIZE * h
    requires c == if n > 1 then Swapped(b, 4, 4 + (n - 1) * 8, 8) else b
    ensures forall i :: 0 <= i < n ==> InfoBlock(c, i) == InfoBlock(b, n - 1 - i)
    ensures forall i :: 0 <= i < h ==> HopBlock(c, n, i) == HopBlock(b, n, i)
  {
    if n > 1 {
      var y := 4 + (n - 1) * 8;
      SwappedInside(b, 4, y, 8);
      if n == 3 { SwappedOutside(b, 4, y, 8, 12, 20); }
      forall i | 0 <= i < h ensures HopBlock(c, n, i) == HopBlock(b, n, i) {
        SwappedOutside(b, 4, y, 8, HopsBegin(n) + 12 * i, HopsBegin(n) + 12 * i + 12);
      }
    }
  }

  method FlipDirections(path: array<byte>, len: nat, numInf: nat, ghost numHop: nat)
    requires path.Length >= len == HopsBegin(numInf) + HF_SIZE * numHop
    modifies path
    ensures path[len..] == old(path[len..])
    ensures forall i :: 0 <= i < numInf ==> InfoBlock(path[..len], i) == Flip(InfoBlock(old(path[..len]), i))
    ensures forall i :: 0 <= i < numHop ==> HopBlock(path[..len], numInf, i) == HopBlock(old(path[..len]), numInf, i)
  {
    hide InfoBlock, HopBlock, Flip, ToggleLow;
    var i := 0;
    while i < numInf
      invariant 0 <= i <= numInf
      invariant path[len..] == old(path[len..])
      invariant forall k :: 0 <= k < numInf ==>
        InfoBlock(path[..len], k) == if k < i then Flip(InfoBlock(old(path[..len]), k)) else InfoBlock(old(path[..len]), k)
      invariant forall k :: 0 <= k < numHop ==> HopBlock(path[..len], numInf, k) == HopBlock(old(path[..len]), numInf, k)
    {
      ghost var was := path[..len];
      path[META_SIZE + i * INF_SIZE] := ToggleLow(path[META_SIZE + i * INF_SIZE]);
      FlipOne(was, i, numInf, numHop);
      i := i + 1;
    }
  }

  lemma FlipOne(b: seq<byte>, i: nat, numInf: nat, numHop: nat)
    requires i < numInf && |b| == HopsBegin(numInf) + HF_SIZE * numHop
    ensures var c := b[4 + 8 * i := ToggleLow(b[4 + 8 * i])];
            && InfoBlock(c, i) == Flip(InfoBlock(b, i))
            && (forall k :: 0 <= k < numInf && k != i ==> InfoBlock(c, k) == InfoBlock(b, k))
            && (forall k :: 0 <= k < numHop ==> HopBlock(c, numInf, k) == HopBlock(b, numInf, k))
  {
  }

  /** The first and last `i` hop fields have changed places, nothing else moved. */
  ghost predicate HalfReversed(b: seq<byte>, c: seq<byte>, numInf: nat, numHop: nat, i: nat)
    requires |b| == |c| == HopsBegin(numInf) + HF_SIZE * numHop
  {
    && (forall k :: 0 <= k < numInf ==> InfoBlock(c, k) == InfoBlock(b, k))
    && (forall k :: 0 <= k < numHop ==>
         HopBlock(c, numInf, k) == HopBlock(b, numInf, if k < i || k > numHop - 1 - i then numHop - 1 - k else k))
  }

  method ReverseHops(path: array<byte>, len: nat, numInf: nat, numHop: nat)
    requires numHop > 0 && path.Length >= len == HopsBegin(numInf) + HF_SIZE * numHop
    modifies path
    ensures path[len..] == old(path[len..])
    ensures forall i :: 0 <= i < numInf ==> InfoBlock(path[..len], i) == InfoBlock(old(path[..len]), i)
    ensures forall i :: 0 <= i < numHop ==>
      HopBlock(path[..len], numInf, i) == HopBlock(old(path[..len]), numInf, numHop - 1 - i)
  {
    hide InfoBlock, HopBlock, Swapped, HalfReversed;
    var i, j := 0, numHop - 1;
    HalfReversedStart(path[..len], numInf, numHop);
    while i < j
      invariant 0 <= i <= j + 1 && j == numHop - 1 - i
      invariant path[len..] == old(path[len..])
      invariant HalfReversed(old(path[..len]), path[..len], numInf, numHop, i)
    {
      ghost var was := path[..len];
      SwapBlocks(path, len, HopsBegin(numInf) + i * HF_SIZE, HopsBegin(numInf) + j * HF_SIZE, HF_SIZE);
      HalfReversedStep(old(path[..len]), was, numInf, numHop, i);
      i, j := i + 1, j - 1;
    }
    HalfReversedEnd(old(path[..len]), path[..len], numInf, numHop, i);
  }

  lemma HalfReversedStart(b: seq<byte>, numInf: nat, numHop: nat)
    requires |b| == HopsBegin(numInf) + HF_SIZE * numHop
    ensures HalfReversed(b, b, numInf, numHop, 0)
  {
    hide InfoBlock, HopBlock;
  }

  lemma HalfReversedStep(b: seq<byte>, c: seq<byte>, numInf: nat, numHop: nat, i: nat)
    requires |b| == |c| == HopsBegin(numInf) + HF_SIZE * numHop && i < numHop - 1 - i
    requires HalfReversed(b, c, numInf, numHop, i)
    ensures HalfReversed(b, Swapped(c, HopsBegin(numInf) + i * HF_SIZE, HopsBegin(numInf) + (numHop - 1 - i) * HF_SIZE, HF_SIZE),
                         numInf, numHop, i + 1)
  {
    hide InfoBlock, HopBlock, Swapped;
    SwapHops(c, numInf, numHop, i, numHop - 1 - i);
  }

  lemma HalfReversedEnd(b: seq<byte>, c: seq<byte>, numInf: nat, numHop: nat, i: nat)
    requires |b| == |c| == HopsBegin(numInf) + HF_SIZE * numHop && numHop - 1 - i <= i <= numHop - i
    requires HalfReversed(b, c, numInf, numHop, i)
    ensures forall k :: 0 <= k < numInf ==> InfoBlock(c, k) == InfoBlock(b, k)
    ensures forall k :: 0 <= k < numHop ==> HopBlock(c, numInf, k) == HopBlock(b, numInf, numHop - 1 - k)
  {
    hide InfoBlock, HopBlock;
  }

  lemma SwapHops(b: seq<byte>, numInf: nat, numHop: nat, i: nat, j: nat)
    requires i < j < numHop && |b| == HopsBegin(numInf) + HF_SIZE * numHop
    ensures var c := Swapped(b, HopsBegin(numInf) + i * HF_SIZE, HopsBegin(numInf) + j * HF_SIZE, HF_SIZE);
            && (forall k :: 0 <= k < numInf ==> InfoBlock(c, k) == InfoBlock(b, k))
            && (forall k :: 0 <= k < numHop ==>
                 HopBlock(c, numInf, k) == HopBlock(b, numInf, if k == i then j else if k == j then i else k))
  {
    hide InfoBlock, HopBlock, Swapped;
    var h := HopsBegin(numInf);
    var c := Swapped(b, h + i * HF_SIZE, h + j * HF_SIZE, HF_SIZE);
    forall k | 0 <= k < numInf ensures InfoBlock(c, k) == InfoBlock(b, k) {
      SwapKeepsInfo(b, numInf, numHop, i, j, k);
    }
    forall k | 0 <= k < numHop
      ensures HopBlock(c, numInf, k) == HopBlock(b, numInf, if k == i then j else if k == j then i else k)
    {
      SwapMovesHop(b, numInf, numHop, i, j, k);
    }
  }

  lemma SwapKeepsInfo(b: seq<byte>, numInf: nat, numHop: nat, i: nat, j: nat, k: nat)
    requires i < j < numHop && |b| == HopsBegin(numInf) + HF_SIZE * numHop && k < numInf
    ensures InfoBlock(Swapped(b, HopsBegin(numInf) + i * HF_SIZE, HopsBegin(numInf) + j * HF_SIZE, HF_SIZE), k)
         == InfoBlock(b, k)
  {
    hide Swapped;
    SwappedOutside(b, HopsBegin(numInf) + i * HF_SIZE, HopsBegin(numInf) + j * HF_SIZE, HF_SIZE, 4 + 8 * k, 12 + 8 * k);
  }

  lemma SwapMovesHop(b: seq<byte>, numInf: nat, numHop: nat, i: nat, j: nat, k: nat)
    requires i < j < numHop && |b| == HopsBegin(numInf) + HF_SIZE * numHop && k < numHop
    ensures HopBlock(Swapped(b, HopsBegin(numInf) + i * HF_SIZE, HopsBegin(numInf) + j * HF_SIZE, HF_SIZE), numInf, k)
         == HopBlock(b, numInf, if k == i then j else if k == j then i else k)
  {
    hide Swapped;
    var h := HopsBegin(numInf);
    var x, y := h + i * HF_SIZE, h + j * HF_SIZE;
    if k == i || k == j {
      SwappedInside(b, x, y, HF_SIZE);
    } else {
      SwappedOutside(b, x, y, HF_SIZE, h + HF_SIZE * k, h + HF_SIZE * k + HF_SIZE);
    }
  }

  // ---- The meta word ----

  lemma OrStep(a: nat, x: nat, y: nat)
    ensures Or(a + 2 * x, 2 * y) == 2 * Or(a / 2 + x, y) + a % 2
  {
    assert (a + 2 * x) / 2 == a / 2 + x && (a + 2 * x) % 2 == a % 2;
  }

  lemma Double(x: nat, p: nat)
    ensures x * (2 * p) == 2 * (x * p)
  {
  }

  /** OR above a common low part. */
  lemma {:induction false} OrHigh(a: nat, x: nat, y: nat, k: nat)
    requires a < Pow2(k)
    ensures Or(a + x * Pow2(k), y * Pow2(k)) == a + Or(x, y) * Pow2(k)
  {
    hide Or;
    if k > 0 {
      var p := Pow2(k - 1);
      Double(x, p);
      Double(y, p);
      Double(Or(x, y), p);
      OrHigh(a / 2, x, y, k - 1);
      OrStep(a, x * p, y * p);
    }
  }

  lemma {:induction false} LowOfTimes(v: nat, k: nat, room: nat)
    ensures Low(v * Pow2(k), k + room) == Low(v, room) * Pow2(k)
  {
    if k > 0 {
      var x := v * Pow2(k - 1);
      Double(v, Pow2(k - 1));
      LowOfTimes(v, k - 1, room);
      Double(Low(v, room), Pow2(k - 1));
    }
  }

  /** A field shifted left in a 32-bit word keeps only what fits. */
  lemma ShiftField(v: nat, k: nat, room: nat, p: nat, q: nat)
    requires k + room == 32 && p == Pow2(k) && q == Pow2(room)
    ensures ShiftLeft(v, k, 32) == v % q * p
  {
    hide Low, Pow2;
    LowOfTimes(v, k, room);
    ShiftRightIsDivision(v, room);
  }

  lemma PackMeta(seg0: nat, seg1: nat, seg2: nat, res: nat, hop: nat, inf: nat)
    requires seg0 < 64 && seg1 < 64 && seg2 < 64 && res < 64
    ensures Or(Or(Or(Or(Or(seg2, ShiftLeft(seg1, 6, 32)), ShiftLeft(seg0, 12, 32)), ShiftLeft(res, 18, 32)),
                  ShiftLeft(hop, 24, 32)), ShiftLeft(inf, 30, 32))
         == seg2 + 0x40 * seg1 + 0x1000 * seg0 + 0x4_0000 * res + 0x100_0000 * Or(hop % 256, 0x40 * (inf % 4))
  {
    hide Or, ShiftLeft, Pow2;
    PowersOfTwo();
    assert Pow2(26) == 0x400_0000 && Pow2(20) == 0x10_0000 && Pow2(14) == 0x4000 && Pow2(8) == 256 by {
      Pow2At8();
      Pow2Sum(8, 6);
      Pow2Sum(14, 6);
      Pow2Sum(20, 6);
    }
    ShiftField(seg1, 6, 26, 64, 0x400_0000);
    ShiftField(seg0, 12, 20, 0x1000, 0x10_0000);
    ShiftField(res, 18, 14, 0x4_0000, 0x4000);
    ShiftField(hop, 24, 8, 0x100_0000, 256);
    ShiftField(inf, 30, 2, 0x4000_0000, 4);
    JoinMeta(seg0, seg1, seg2, res, hop % 256, inf % 4);
  }

  /** The fields one after the other; only the two indices overlap. */
  lemma JoinMeta(seg0: nat, seg1: nat, seg2: nat, res: nat, hop: nat, inf: nat)
    requires seg0 < 64 && seg1 < 64 && seg2 < 64 && res < 64
    ensures Or(Or(Or(Or(Or(seg2, 64 * seg1), 0x1000 * seg0), 0x4_0000 * res), 0x100_0000 * hop), 0x4000_0000 * inf)
         == seg2 + 0x40 * seg1 + 0x1000 * seg0 + 0x4_0000 * res + 0x100_0000 * Or(hop, 0x40 * inf)
  {
    hide Or, Pow2;
    PowersOfTwo();
    OrDisjoint(seg2, seg1, 6);
    OrDisjoint(seg2 + 64 * seg1, seg0, 12);
    OrDisjoint(seg2 + 64 * seg1 + 0x1000 * seg0, res, 18);
    var low := seg2 + 64 * seg1 + 0x1000 * seg0 + 0x4_0000 * res;
    OrDisjoint(low, hop, 24);
    OrHigh(low, hop, 64 * inf, 24);
  }

  lemma NewWord(w: u32, seg0: nat, seg1: nat, seg2: nat, res: nat, hop: nat, inf: nat)
    requires var m := MetaOfWord(w); var n := m.SegmentCount();
             && (seg0, seg1, seg2) == (if n == 2 then (m.seg1, m.seg0, m.seg2)
                  else if n == 3 then (m.seg2, m.seg1, m.seg0) else (m.seg0, m.seg1, m.seg2))
             && hop == Mirror32(m.HopFieldCount(), m.currHf) && inf == Mirror32(n, m.currInf)
    requires res == w / 0x4_0000 % 64
    ensures Or(Or(Or(Or(Or(seg2, ShiftLeft(seg1, 6, 32)), ShiftLeft(seg0, 12, 32)), ShiftLeft(res, 18, 32)),
                  ShiftLeft(hop, 24, 32)), ShiftLeft(inf, 30, 32)) == ReversedMetaWord(w)
  {
    hide Or, ShiftLeft;
    PackMeta(seg0, seg1, seg2, res, hop, inf);
  }

  /** Storing the new word changes nothing else. */
  lemma NewMeta(b: seq<byte>, w: nat, c: seq<byte>, numInf: nat, numHop: nat)
    requires w < 0x1_0000_0000 && |b| == HopsBegin(numInf) + HF_SIZE * numHop
    requires c == b[..0] + StoreWord(ByteSwap(w, 4), 4) + b[4..]
    ensures MetaWord(c) == w
    ensures forall i :: 0 <= i < numInf ==> InfoBlock(c, i) == InfoBlock(b, i)
    ensures forall i :: 0 <= i < numHop ==> HopBlock(c, numInf, i) == HopBlock(b, numInf, i)
  {
    hide Pow2, StoreWord, ByteSwap, BigEndian, FromBigEndian;
    StoreOfByteSwap(w, 4);
    PowersOfTwo();
    ByteSwapInvolution(w, 4);
    ByteSwapOfLoad(BigEndian(w, 4));
    FromBigEndianOf(w, 4);
    FromBigEndian4(BigEndian(w, 4));
    assert c[..4] == BigEndian(w, 4);
    assert forall k :: 4 <= k < |c| ==> c[k] == b[k];
  }
}
