/**
 The two bit streams. A stream is a cursor (byteIter, bitPos) over a byte buffer; fields of up
 to 57 bits pass through one 64-bit word that is shifted, byte-swapped and copied.

 The abstraction has no words in it. `Written()` is the bit sequence a writer has produced,
 `Rest()` the bit sequence a reader has not consumed; writing appends, reading removes.
 */
module BitStream {
  import opened Words

  /** Largest field the streams accept: a 64-bit word less the 7 bits a cursor may be off. */
  const MAX_FIELD := 57

  /** The byte count that asks for everything there is. */
  const NPOS := 0xffff_ffff_ffff_ffff

  function Ceil8(bits: nat): nat { (bits + 7) / 8 }

  /** What a 16- or 32-bit access puts on the wire: off a byte boundary the bytes come out swapped. */
  function WireOrder(v: nat, n: nat, aligned: bool): nat {
    if aligned then v else ByteSwap(v, n)
  }

  /** A buffer after `s` has been copied to the offset `at`. */
  function Image(buf: seq<byte>, at: nat, s: seq<byte>): (r: seq<byte>)
    requires at + |s| <= |buf|
    ensures |r| == |buf|
  {
    buf[..at] + s + buf[at + |s|..]
  }

  lemma ImageNone(buf: seq<byte>, at: nat)
    requires at <= |buf|
    ensures Image(buf, at, []) == buf
  {
  }

  lemma ImageAt(buf: seq<byte>, at: nat, s: seq<byte>)
    requires at + |s| <= |buf|
    ensures Image(buf, at, s)[at..at + |s|] == s
  {
  }

  /** Two copies in a row are one. */
  lemma ImageStep(buf: seq<byte>, at: nat, s: seq<byte>, t: seq<byte>)
    requires at + |s| + |t| <= |buf|
    ensures Image(Image(buf, at, s), at + |s|, t) == Image(buf, at, s + t)
  {
  }

  // ---- The word of one field ----

  /** A field of `bits` bits, shifted below `bitPos` occupied bits and merged with them. */
  function FieldWord(value: nat, bits: nat, bitPos: nat, occupied: byte): nat
    requires bits <= 64
  {
    var word := ShiftLeft(value, 64 - bits, 64);
    if bitPos == 0 then word
    else Or(ShiftRight(word, bitPos), ShiftLeft(occupied, 56, 64))
  }

  lemma ShiftedField(value: nat, bits: nat, bitPos: nat)
    requires bits + bitPos <= 64
    ensures BitsOf(ShiftRight(ShiftLeft(value, 64 - bits, 64), bitPos), 64)
         == Zeros(bitPos) + BitsOf(value, bits) + Zeros(64 - bits - bitPos)
  {
    var word := ShiftLeft(value, 64 - bits, 64);
    ShiftLeftBits(value, 64 - bits, 64);
    BitsOfSplit(value, 64 - bits, bits);
    LowShift(value * Pow2(64 - bits), 64);
    ShiftRightBits(word, bitPos, 64);
    assert (BitsOf(value, bits) + Zeros(64 - bits))[..64 - bitPos]
        == BitsOf(value, bits) + Zeros(64 - bits - bitPos);
  }

  /** The OR-merge is exact when the unwritten bits of the current byte are zero. */
  lemma FieldWordBits(value: nat, bits: nat, bitPos: nat, occupied: byte)
    requires bits + bitPos <= 64 && bitPos < 8
    requires bitPos > 0 ==> BitsOf(occupied, 8)[bitPos..] == Zeros(8 - bitPos)
    ensures BitsOf(FieldWord(value, bits, bitPos, occupied), 64)
         == BitsOf(occupied, 8)[..bitPos] + BitsOf(value, bits) + Zeros(64 - bits - bitPos)
  {
    ShiftedField(value, bits, bitPos);
    if bitPos > 0 {
      ShiftLeftBits(occupied, 56, 64);
      BitsOfSplit(occupied, 56, 8);
      var a := ShiftRight(ShiftLeft(value, 64 - bits, 64), bitPos);
      var b := ShiftLeft(occupied, 56, 64);
      OrOnBits(a, b, 64);
      assert BitsOf(b, 64) == BitsOf(occupied, 8) + Zeros(56);
      MergeBits(BitsOf(occupied, 8), BitsOf(value, bits), bitPos, 64 - bits - bitPos);
    }
  }

  lemma MergeBits(occ: seq<bool>, v: seq<bool>, k: nat, rest: nat)
    requires |occ| == 8 && k <= 8 && occ[k..] == Zeros(8 - k)
    requires k + |v| + rest == 64
    ensures OrBits(Zeros(k) + v + Zeros(rest), occ + Zeros(56)) == occ[..k] + v + Zeros(rest)
  {
    assert forall i :: k <= i < 8 ==> occ[i] == occ[k..][i - k];
  }

  // ---- Buffers ----

  /** Bits `from` up to the next byte boundary are zero. */
  ghost predicate TailZero(buf: seq<byte>, pos: nat)
    requires pos <= 8 * |buf|
  {
    Bits(buf)[pos..8 * Ceil8(pos)] == Zeros(8 * Ceil8(pos) - pos)
  }

  lemma BitsParts(pre: seq<byte>, mid: seq<byte>, post: seq<byte>)
    ensures Bits(pre + mid + post) == Bits(pre) + Bits(mid) + Bits(post)
  {
    BitsConcat(pre + mid, post);
    BitsConcat(pre, mid);
  }

  /** The word of a field, stored and cut to the bytes it touches. */
  function FieldBytes(value: nat, bits: nat, bitPos: nat, occupied: byte): (s: seq<byte>)
    requires bitPos < 8 && 0 < bits <= MAX_FIELD
    ensures |s| == Ceil8(bits + bitPos)
  {
    StoreWord(ByteSwap(FieldWord(value, bits, bitPos, occupied), 8), 8)[..Ceil8(bits + bitPos)]
  }

  lemma FieldBytesBits(value: nat, bits: nat, bitPos: nat, occupied: byte)
    requires bitPos < 8 && 0 < bits <= MAX_FIELD
    requires bitPos > 0 ==> BitsOf(occupied, 8)[bitPos..] == Zeros(8 - bitPos)
    ensures Bits(FieldBytes(value, bits, bitPos, occupied))
         == BitsOf(occupied, 8)[..bitPos] + BitsOf(value, bits) + Zeros(8 * Ceil8(bits + bitPos) - bits - bitPos)
  {
    hide Bits, BitsOf, StoreWord, BigEndian, FieldWord, ByteSwap;
    var word, n := FieldWord(value, bits, bitPos, occupied), Ceil8(bits + bitPos);
    StoreOfByteSwap(word, 8);
    BigEndianBits(word, 8);
    FieldWordBits(value, bits, bitPos, occupied);
    BitsSlice(BigEndian(word, 8), 0, n);
    var v := BitsOf(occupied, 8)[..bitPos] + BitsOf(value, bits);
    assert (v + Zeros(64 - bits - bitPos))[0..8 * n] == v + Zeros(8 * n - bits - bitPos);
  }

  lemma CursorMoved(at: nat, k: nat, bits: nat)
    requires k < 8
    ensures 8 * (at + (k + bits) / 8) + (k + bits) % 8 == 8 * at + k + bits
    ensures Ceil8(8 * at + k + bits) == at + Ceil8(k + bits)
  {
  }

  /** The bits of one byte in front of others. */
  lemma FirstByte(s: seq<byte>)
    requires s != []
    ensures Bits(s)[..8] == BitsOf(s[0], 8)
  {
  }

  /** Mid-byte, the invariant speaks about the current byte. */
  lemma OccupiedByte(pre: seq<byte>, mid: seq<byte>, post: seq<byte>, bitPos: nat)
    requires 0 < bitPos < 8 && mid != []
    requires TailZero(pre + mid + post, 8 * |pre| + bitPos)
    ensures BitsOf(mid[0], 8)[bitPos..] == Zeros(8 - bitPos)
  {
    hide Bits, BitsOf, Zeros;
    BitsParts(pre, mid, post);
    FirstByte(mid);
    CeilBehind(|pre|, bitPos);
    assert 8 * Ceil8(8 * |pre| + bitPos) == |Bits(pre)| + 8;
    MiddleZeros(Bits(pre), Bits(mid), Bits(post), bitPos);
  }

  /** Bytes `mem` that keep the occupied bits, add `v` and end in zeros append `v`. */
  lemma PutField(pre: seq<byte>, mid: seq<byte>, post: seq<byte>, mem: seq<byte>, bitPos: nat, v: seq<bool>)
    requires bitPos < 8 && 0 < |v| <= MAX_FIELD && |mid| == |mem| == Ceil8(|v| + bitPos)
    requires Bits(mem) == BitsOf(mid[0], 8)[..bitPos] + v + Zeros(8 * |mem| - |v| - bitPos)
    ensures Bits(pre + mem + post)[..8 * |pre| + bitPos + |v|] == Bits(pre + mid + post)[..8 * |pre| + bitPos] + v
    ensures TailZero(pre + mem + post, 8 * |pre| + bitPos + |v|)
  {
    hide Bits, BitsOf, Zeros;
    BitsParts(pre, mid, post);
    BitsParts(pre, mem, post);
    FirstByte(mid);
    SpliceField(Bits(pre), Bits(mid), Bits(post), bitPos, v, Bits(mem));
    CeilBehind(|pre|, bitPos + |v|);
    assert 8 * Ceil8(8 * |pre| + bitPos + |v|) == |Bits(pre)| + |Bits(mem)|;
  }

  lemma CeilBehind(bytes: nat, bits: nat)
    ensures Ceil8(8 * bytes + bits) == bytes + Ceil8(bits)
  {
  }

  /** `now` is `was` with the bits `v` appended at `pos`, and zeros up to the next byte boundary. */
  ghost predicate BitsAppended(was: seq<byte>, now: seq<byte>, pos: nat, v: seq<bool>) {
    && |now| == |was| && pos + |v| <= 8 * |was|
    && Bits(now)[..pos + |v|] == Bits(was)[..pos] + v
    && TailZero(now, pos + |v|)
  }

  lemma WriteFieldParts(pre: seq<byte>, mid: seq<byte>, post: seq<byte>, bitPos: nat, value: nat, bits: nat)
    requires bitPos < 8 && 0 < bits <= MAX_FIELD && |mid| == Ceil8(bits + bitPos)
    requires TailZero(pre + mid + post, 8 * |pre| + bitPos)
    ensures BitsAppended(pre + mid + post, pre + FieldBytes(value, bits, bitPos, mid[0]) + post,
                         8 * |pre| + bitPos, BitsOf(value, bits))
  {
    hide Bits, BitsOf, FieldBytes, TailZero;
    if bitPos > 0 { OccupiedByte(pre, mid, post, bitPos); }
    FieldBytesBits(value, bits, bitPos, mid[0]);
    PutField(pre, mid, post, FieldBytes(value, bits, bitPos, mid[0]), bitPos, BitsOf(value, bits));
  }

  /** PutField on a whole buffer. */
  lemma WriteField(was: seq<byte>, at: nat, bitPos: nat, value: nat, bits: nat, now: seq<byte>)
    requires bitPos < 8 && 0 < bits <= MAX_FIELD && at + Ceil8(bits + bitPos) <= |was|
    requires TailZero(was, 8 * at + bitPos)
    requires now == Image(was, at, FieldBytes(value, bits, bitPos, was[at]))
    ensures BitsAppended(was, now, 8 * at + bitPos, BitsOf(value, bits))
    ensures now[at + Ceil8(bits + bitPos)..] == was[at + Ceil8(bits + bitPos)..]
  {
    hide Bits, BitsOf, FieldBytes, TailZero, Image, BitsAppended;
    var n := Ceil8(bits + bitPos);
    var mem := FieldBytes(value, bits, bitPos, was[at]);
    var pre, mid, post := Cut(was, at, n, mem, now);
    WriteFieldParts(pre, mid, post, bitPos, value, bits);
    LastThird(pre, mem, post, at + n);
    LastThird(pre, mid, post, at + n);
  }

  /** A buffer in three parts, of which the middle one was replaced. */
  lemma Cut(was: seq<byte>, at: nat, n: nat, mem: seq<byte>, now: seq<byte>) returns (pre: seq<byte>, mid: seq<byte>, post: seq<byte>)
    requires 0 < n == |mem| && at + n <= |was| && now == Image(was, at, mem)
    ensures |pre| == at && |mid| == n && mid[0] == was[at]
    ensures was == pre + mid + post && now == pre + mem + post
  {
    pre, mid, post := was[..at], was[at..at + n], was[at + n..];
  }

  lemma LastThird(pre: seq<byte>, mem: seq<byte>, post: seq<byte>, k: nat)
    requires k == |pre| + |mem|
    ensures (pre + mem + post)[k..] == post
  {
  }

  lemma MiddleZeros(a: seq<bool>, m: seq<bool>, z: seq<bool>, k: nat)
    requires k <= 8 <= |m|
    requires (a + m + z)[|a| + k..|a| + 8] == Zeros(8 - k)
    ensures m[..8][k..] == Zeros(8 - k)
  {
    assert m[..8][k..] == (a + m + z)[|a| + k..|a| + 8];
  }

  lemma SpliceField(a: seq<bool>, m: seq<bool>, z: seq<bool>, k: nat, v: seq<bool>, w: seq<bool>)
    requires k + |v| <= |w| == |m| && k < 8 <= |m|
    requires w == m[..8][..k] + v + Zeros(|w| - |v| - k)
    ensures (a + w + z)[..|a| + k + |v|] == (a + m + z)[..|a| + k] + v
    ensures (a + w + z)[|a| + k + |v|..|a| + |w|] == Zeros(|w| - k - |v|)
  {
    assert m[..8][..k] == m[..k];
    assert (a + m + z)[..|a| + k] == a + m[..k];
    assert w[..k + |v|] == m[..k] + v;
    assert (a + w + z)[..|a| + k + |v|] == a + w[..k + |v|];
    assert (a + w + z)[|a| + k + |v|..|a| + |w|] == w[k + |v|..];
  }

  /** Bytes copied at a byte boundary append their bits. */
  lemma PutBytes(pre: seq<byte>, mid: seq<byte>, post: seq<byte>, mem: seq<byte>)
    requires |mid| == |mem|
    ensures Bits(pre + mem + post)[..8 * (|pre| + |mem|)] == Bits(pre + mid + post)[..8 * |pre|] + Bits(mem)
    ensures TailZero(pre + mem + post, 8 * (|pre| + |mem|))
  {
    hide Bits, BitsOf;
    BitsParts(pre, mid, post);
    BitsParts(pre, mem, post);
    var a, m, z := Bits(pre), Bits(mem), Bits(post);
    assert (a + m + z)[..|a| + |m|] == a + m;
    assert (a + Bits(mid) + z)[..|a|] == a;
    WholeCeil(|pre| + |mem|);
  }

  lemma WholeCeil(n: nat)
    ensures Ceil8(8 * n) == n
  {
  }

  /** PutBytes on a whole buffer. */
  lemma CopiedBits(was: seq<byte>, at: nat, mem: seq<byte>)
    requires at + |mem| <= |was|
    ensures var now, end := Image(was, at, mem), 8 * (at + |mem|);
            && end <= |Bits(now)| && 8 * at <= |Bits(was)|
            && Bits(now)[..end] == Bits(was)[..8 * at] + Bits(mem) && TailZero(now, end)
            && now[at + |mem|..] == was[at + |mem|..]
  {
    hide Bits, TailZero;
    var pre, mid, post := was[..at], was[at..at + |mem|], was[at + |mem|..];
    assert was == pre + mid + post;
    PutBytes(pre, mid, post, mem);
  }

  /** A window of at most eight bytes, loaded into a zeroed word and swapped. */
  function WindowWord(window: seq<byte>): nat
    requires |window| <= 8
  {
    ByteSwap(LoadWord(window + ZeroBytes(8 - |window|)), 8)
  }

  lemma WindowBits(window: seq<byte>)
    requires |window| <= 8
    ensures BitsOf(WindowWord(window), 64)[..8 * |window|] == Bits(window)
  {
    var mem := window + ZeroBytes(8 - |window|);
    ByteSwapOfLoad(mem);
    FromBigEndianBits(mem);
    BitsConcat(window, ZeroBytes(8 - |window|));
  }

  /** Shifting left then right cuts a field out of a word. */
  lemma Extract(word: nat, k: nat, bits: nat)
    requires k + bits <= 64
    ensures var value := ShiftRight(ShiftLeft(word, k, 64), 64 - bits);
            BitsOf(value, bits) == BitsOf(word, 64)[k..k + bits] && value < Pow2(bits)
  {
    hide *;
    var shifted := ShiftLeft(word, k, 64);
    ShiftLeftBits(word, k, 64);
    ShiftLeftBound(word, k);
    BitsOfSplit(shifted, bits, 64 - bits);
    ShiftRightBound(shifted, bits, 64 - bits);
    FrontOfRest(BitsOf(word, 64), k, bits, Zeros(k));
  }

  lemma ShiftLeftBound(word: nat, k: nat)
    ensures ShiftLeft(word, k, 64) < Pow2(64)
  {
    LowShift(word * Pow2(k), 64);
  }

  lemma FrontOfRest(b: seq<bool>, k: nat, n: nat, z: seq<bool>)
    requires k + n <= |b|
    ensures (b[k..] + z)[..n] == b[k..k + n]
  {
  }

  /** The word a reader extracts holds the bits under the cursor. */
  lemma GetField(pre: seq<byte>, window: seq<byte>, post: seq<byte>, bitPos: nat, bits: nat)
    requires bitPos < 8 && 0 < bits <= MAX_FIELD && |window| == Ceil8(bits + bitPos)
    ensures |window| <= 8
    ensures var value := ShiftRight(ShiftLeft(WindowWord(window), bitPos, 64), 64 - bits);
            var b, pos := Bits(pre + window + post), 8 * |pre| + bitPos;
            b[pos..] == BitsOf(value, bits) + b[pos + bits..] && value < Pow2(bits)
  {
    hide BitsOf, WindowWord, Pow2, ShiftLeft, ShiftRight, Bits;
    Extract(WindowWord(window), bitPos, bits);
    WindowBits(window);
    BitsParts(pre, window, post);
    CutField(Bits(pre), Bits(window), Bits(post), bitPos, bits, BitsOf(WindowWord(window), 64));
  }

  /** GetField on a whole buffer. */
  lemma ReadField(data: seq<byte>, at: nat, bitPos: nat, bits: nat)
    requires bitPos < 8 && 0 < bits <= MAX_FIELD && at + Ceil8(bits + bitPos) <= |data|
    ensures var window := data[at..at + Ceil8(bits + bitPos)];
            && |window| <= 8
            && var value := ShiftRight(ShiftLeft(WindowWord(window), bitPos, 64), 64 - bits);
               Bits(data)[8 * at + bitPos..] == BitsOf(value, bits) + Bits(data)[8 * at + bitPos + bits..]
               && value < Pow2(bits)
  {
    var n := Ceil8(bits + bitPos);
    assert data == data[..at] + data[at..at + n] + data[at + n..];
    GetField(data[..at], data[at..at + n], data[at + n..], bitPos, bits);
  }

  lemma CutField(a: seq<bool>, m: seq<bool>, z: seq<bool>, k: nat, n: nat, w: seq<bool>)
    requires k + n <= |m| <= |w| && w[..|m|] == m
    ensures (a + m + z)[|a| + k..] == w[k..k + n] + (a + m + z)[|a| + k + n..]
  {
    assert (a + m + z)[|a| + k..] == m[k..] + z;
    assert (a + m + z)[|a| + k + n..] == m[k + n..] + z;
    assert m[k..] == m[k..k + n] + m[k + n..];
    assert w[..|m|][k..k + n] == w[k..k + n];
  }

  lemma {:induction false} ShiftRightBound(w: nat, m: nat, k: nat)
    requires w < Pow2(m + k)
    ensures ShiftRight(w, k) < Pow2(m)
  {
    if k > 0 { ShiftRightBound(w / 2, m, k - 1); }
  }

  // ---- Reading ----

  class ReadStream {
    const data: seq<byte>
    var byteIter: nat
    var bitPos: nat

    ghost predicate Valid()
      reads this
    {
      bitPos < 8 && byteIter <= |data| && (bitPos > 0 ==> byteIter < |data|)
    }

    ghost function Pos(): nat
      reads this
    {
      8 * byteIter + bitPos
    }

    /** The bits not yet consumed. */
    ghost function Rest(): seq<bool>
      requires Valid()
      reads this
    {
      Bits(data)[Pos()..]
    }

    constructor (buffer: seq<byte>)
      ensures Valid() && data == buffer && byteIter == 0 && bitPos == 0 && Rest() == Bits(buffer)
      ensures Pos() == 0
    {
      data := buffer;
      byteIter, bitPos := 0, 0;
    }

    /** A read of `bits` bits into a variable of `valueBits` bits. */
    method SerializeBits(valueBits: nat, bits: nat) returns (ok: bool, value: nat)
      requires Valid()
      modifies this`byteIter, this`bitPos
      ensures Valid()
      ensures ok <==> bits == 0 || (bits <= MAX_FIELD && bits <= valueBits && bits <= |old(Rest())|)
      ensures ok ==> old(Rest()) == BitsOf(value, bits) + Rest() && value < Pow2(bits)
      ensures ok ==> Pos() == old(Pos()) + bits
      ensures !ok ==> Pos() == old(Pos())
    {
      hide Bits, BitsOf, ByteSwap, Pow2, LoadWord, ShiftLeft, ShiftRight;
      if bits == 0 {
        assert BitsOf(0, 0) + Rest() == Rest();
        return true, 0;
      }
      if bits > MAX_FIELD || bits > valueBits { return false, 0; }
      var nBytes := (bits + bitPos + 7) / 8;
      if |data| - byteIter < nBytes { return false, 0; }
      var window := data[byteIter..byteIter + nBytes];
      ReadField(data, byteIter, bitPos, bits);
      var word := LoadWord(window + ZeroBytes(8 - nBytes));
      word := ByteSwap(word, 8);
      word := ShiftLeft(word, bitPos, 64);
      value := ShiftRight(word, 64 - bits);
      CursorMoved(byteIter, bitPos, bits);
      byteIter, bitPos := byteIter + (bitPos + bits) / 8, (bitPos + bits) % 8;
      ok := true;
    }

    method AdvanceBits(bits: nat) returns (ok: bool)
      requires Valid()
      modifies this`byteIter, this`bitPos
      ensures Valid()
      ensures ok <==> bits <= |old(Rest())|
      ensures Pos() == old(Pos()) + if ok then bits else 0
    {
      var bytesTouched := (bits + bitPos + 7) / 8;
      if |data| - byteIter < bytesTouched { return false; }
      var i := 0;
      while i < bits / 32
        invariant 0 <= i <= bits / 32
        invariant Valid() && Pos() == old(Pos()) + 32 * i
      {
        var res, _ := SerializeBits(32, 32);
        if !res { return false; }
        i := i + 1;
      }
      var last;
      ok, last := SerializeBits(32, bits % 32);
    }

    /** Off a byte boundary the cursor moves by twice the distance. */
    method AdvanceBytes(bytes: nat) returns (ok: bool)
      requires Valid()
      modifies this`byteIter, this`bitPos
      ensures old(bitPos) == 0 ==> Valid() && bitPos == 0
      ensures old(bitPos) == 0 ==> (ok <==> 8 * bytes <= |old(Rest())|)
      ensures old(bitPos) == 0 ==> Pos() == old(Pos()) + if ok then 8 * bytes else 0
      ensures old(bitPos) != 0 ==> bitPos == old(bitPos) && (Valid() <==> byteIter < |data|)
      ensures old(bitPos) != 0 ==> (ok <==> old(byteIter) + 2 * bytes <= |data|)
      ensures old(bitPos) != 0 ==>
                byteIter == old(byteIter) + if ok then 2 * bytes else if 8 * bytes <= |old(Rest())| then bytes else 0
    {
      hide Bits;
      if bitPos != 0 {
        ok := AdvanceBits(8 * bytes);
        if !ok { return; }
      }
      if |data| - byteIter < bytes { return false; }
      byteIter := byteIter + bytes;
      ok := true;
    }

    /** Shared shape of the aligned accesses: load `n` bytes and swap. */
    method LoadAligned(n: nat) returns (ok: bool, word: nat)
      requires Valid() && bitPos == 0
      modifies this`byteIter
      ensures Valid()
      ensures ok <==> 8 * n <= |old(Rest())|
      ensures ok ==> old(Rest()) == BitsOf(ByteSwap(word, n), 8 * n) + Rest()
      ensures ok ==> word < Pow2(8 * n) && ByteSwap(word, n) < Pow2(8 * n)
      ensures ok ==> byteIter == old(byteIter) + n && ByteSwap(word, n) == FromBigEndian(data[old(byteIter)..byteIter])
      ensures Pos() == old(Pos()) + if ok then 8 * n else 0
    {
      hide Bits, BitsOf, ByteSwap, LoadWord, FromBigEndian, Pow2;
      if |data| - byteIter < n { return false, 0; }
      var window := data[byteIter..byteIter + n];
      word := LoadWord(window);
      LoadBound(window);
      ByteSwapOfLoad(window);
      FromBigEndianBits(window);
      FromBigEndianBound(window);
      BitsSlice(data, byteIter, byteIter + n);
      CutFront(Bits(data), 8 * byteIter, 8 * n);
      byteIter := byteIter + n;
      ok := true;
    }

    method SerializeByte() returns (ok: bool, value: nat)
      requires Valid()
      modifies this`byteIter, this`bitPos
      ensures Valid() && bitPos == old(bitPos)
      ensures ok <==> 8 <= |old(Rest())|
      ensures ok ==> old(Rest()) == BitsOf(value, 8) + Rest() && value < 256
      ensures ok && bitPos == 0 ==> byteIter == old(byteIter) + 1 && value == data[old(byteIter)]
      ensures Pos() == old(Pos()) + if ok then 8 else 0
    {
      Pow2At8();
      if bitPos != 0 {
        ok, value := SerializeBits(32, 8);
      } else {
        ok, value := LoadAligned(1);
        if ok { SwapByte(value); SingleByte(data[old(byteIter)..byteIter]); }
      }
    }

    method SerializeUint16() returns (ok: bool, value: nat)
      requires Valid()
      modifies this`byteIter, this`bitPos
      ensures Valid() && bitPos == old(bitPos)
      ensures ok <==> 16 <= |old(Rest())|
      ensures ok ==> old(Rest()) == BitsOf(WireOrder(value, 2, bitPos == 0), 16) + Rest()
      ensures ok ==> value < Pow2(16)
      ensures ok && bitPos == 0 ==> byteIter == old(byteIter) + 2 && value == FromBigEndian(data[old(byteIter)..byteIter])
      ensures Pos() == old(Pos()) + if ok then 16 else 0
    {
      hide Bits, BitsOf, ByteSwap, Pow2, LoadWord;
      if bitPos != 0 {
        ok, value := SerializeBits(32, 16);
      } else {
        ok, value := LoadAligned(2);
      }
      if ok {
        ByteSwapInvolution(value, 2);
        ByteSwapBound(value, 2);
      }
      value := ByteSwap(value, 2);
    }

    method SerializeUint32() returns (ok: bool, value: nat)
      requires Valid()
      modifies this`byteIter, this`bitPos
      ensures Valid() && bitPos == old(bitPos)
      ensures ok <==> 32 <= |old(Rest())|
      ensures ok ==> old(Rest()) == BitsOf(WireOrder(value, 4, bitPos == 0), 32) + Rest()
      ensures ok ==> value < Pow2(32)
      ensures ok && bitPos == 0 ==> byteIter == old(byteIter) + 4 && value == FromBigEndian(data[old(byteIter)..byteIter])
      ensures Pos() == old(Pos()) + if ok then 32 else 0
    {
      hide Bits, BitsOf, ByteSwap, Pow2, LoadWord;
      if bitPos != 0 {
        ok, value := SerializeBits(32, 32);
      } else {
        ok, value := LoadAligned(4);
      }
      if ok {
        ByteSwapInvolution(value, 4);
        ByteSwapBound(value, 4);
      }
      value := ByteSwap(value, 4);
    }

    method SerializeUint64() returns (ok: bool, value: nat)
      requires Valid()
      modifies this`byteIter, this`bitPos
      ensures Valid() && bitPos == old(bitPos)
      ensures ok <==> old(bitPos) == 0 && 64 <= |old(Rest())|
      ensures ok ==> old(Rest()) == BitsOf(value, 64) + Rest() && value < Pow2(64)
      ensures ok ==> byteIter == old(byteIter) + 8 && value == FromBigEndian(data[old(byteIter)..byteIter])
      ensures Pos() == old(Pos()) + if ok then 64 else 0
    {
      if bitPos != 0 { return false, 0; }
      ok, value := LoadAligned(8);
      value := ByteSwap(value, 8);
    }

    method SerializeBytes(n: nat) returns (ok: bool, bytes: seq<byte>)
      requires Valid()
      modifies this`byteIter, this`bitPos
      ensures Valid() && bitPos == old(bitPos)
      ensures ok <==> old(bitPos) == 0 && 8 * n <= |old(Rest())|
      ensures ok ==> |bytes| == n && old(Rest()) == Bits(bytes) + Rest()
      ensures ok ==> byteIter == old(byteIter) + n && bytes == data[old(byteIter)..byteIter]
      ensures Pos() == old(Pos()) + if ok then 8 * n else 0
    {
      hide Bits;
      if bitPos != 0 || |data| - byteIter < n { return false, []; }
      bytes := data[byteIter..byteIter + n];
      BitsSlice(data, byteIter, byteIter + n);
      CutFront(Bits(data), 8 * byteIter, 8 * n);
      byteIter := byteIter + n;
      ok := true;
    }

    /** A view of the next `n` bytes, or of all of them, without moving. */
    method Lookahead(n: nat) returns (ok: bool, view: seq<byte>)
      requires Valid()
      ensures ok <==> bitPos == 0 && (n == NPOS || 8 * n <= |Rest()|)
      ensures ok && n == NPOS ==> view == data[byteIter..] && Bits(view) == Rest()
      ensures ok && n != NPOS ==> |view| == n && view == data[byteIter..byteIter + n] && Bits(view) == Rest()[..8 * n]
    {
      hide Bits;
      if n == NPOS {
        if bitPos != 0 { return false, []; }
        BitsSlice(data, byteIter, |data|);
        assert data[byteIter..|data|] == data[byteIter..] && Bits(data)[8 * byteIter..8 * |data|] == Bits(data)[8 * byteIter..];
        return true, data[byteIter..];
      }
      if bitPos != 0 || |data| - byteIter < n { return false, []; }
      view := data[byteIter..byteIter + n];
      BitsSlice(data, byteIter, byteIter + n);
      ok := true;
    }

    /** More data to read. */
    method More() returns (more: bool)
      requires Valid()
      ensures bitPos == 0 ==> (more <==> Rest() != [])
    {
      more := byteIter != |data|;
    }
  }

  /** What is unchanged behind one position is unchanged behind a later one. */
  lemma Later(now: seq<byte>, before: seq<byte>, orig: seq<byte>, i: nat, j: nat)
    requires i <= j <= |now| == |before| == |orig| && before[i..] == orig[i..] && now[j..] == before[j..]
    ensures now[j..] == orig[j..]
  {
    assert before[j..] == before[i..][j - i..] && orig[j..] == orig[i..][j - i..];
  }

  lemma CutFront(b: seq<bool>, p: nat, n: nat)
    requires p + n <= |b|
    ensures b[p..] == b[p..p + n] + b[p + n..]
  {
  }

  lemma NoZeros(a: seq<bool>)
    ensures a + Zeros(0) == a
  {
  }

  lemma MoreZeros(a: seq<bool>, m: nat, n: nat)
    ensures a + Zeros(m) + Zeros(n) == a + Zeros(m + n)
  {
  }

  lemma NoBytes(buf: seq<byte>, at: nat)
    requires at <= |buf|
    ensures ZeroBytes(0) == [] && Image(buf, at, ZeroBytes(0)) == buf
  {
    ImageNone(buf, at);
  }

  /** Zero bits up to the middle of a byte, and zero bytes from that byte on. */
  lemma ZerosTwice(first: seq<byte>, at: nat, n: nat, start: seq<bool>, k: nat)
    requires 0 < k < 8 && 0 < n <= at && at + n <= |first| && 8 * at + k <= 8 * |first|
    requires |start| == 8 * (at - n) + k && Bits(first)[..8 * at + k] == start + Zeros(8 * n)
    ensures Bits(Image(first, at, ZeroBytes(n)))[..8 * (at + n)] == start + Zeros(16 * n - k)
  {
    hide *;
    ImagePrefix(first, at, ZeroBytes(n), 8 * at, 8 * (at + n));
    BitsZeroBytes(n);
    FewerZeros(Bits(first), 8 * at, start, 8 * n, k);
    ZerosJoined(start, 8 * n - k, 8 * n, 16 * n - k);
  }

  /** The second of two moves, over a buffer that the first one has changed up to the cursor byte. */
  lemma SecondMove(first: seq<byte>, orig: seq<byte>, at: nat, n: nat, start: seq<bool>, k: nat)
    requires 0 < k < 8 && 0 < n <= at && at + n <= |first| == |orig| && 8 * at + k <= 8 * |first|
    requires |start| == 8 * (at - n) + k && Bits(first)[..8 * at + k] == start + Zeros(8 * n)
    requires first[Ceil8(8 * at + k)..] == orig[Ceil8(8 * at + k)..]
    ensures var now := Image(first, at, ZeroBytes(n));
            && Bits(now)[..8 * (at + n)] == start + Zeros(16 * n - k)
            && now[at + n..] == orig[at + n..]
  {
    hide Bits, Zeros, ZeroBytes;
    ZerosTwice(first, at, n, start, k);
    Later(first, first, orig, at + 1, at + n);
  }

  lemma ZerosJoined(start: seq<bool>, m: nat, n: nat, t: nat)
    requires m + n == t
    ensures start + Zeros(m) + Zeros(n) == start + Zeros(t)
  {
  }

  /** The bits up to the end of what was copied. */
  lemma ImagePrefix(buf: seq<byte>, at: nat, s: seq<byte>, p: nat, e: nat)
    requires at + |s| <= |buf| && p == 8 * at && e == 8 * (at + |s|)
    ensures e <= |Bits(Image(buf, at, s))| && p <= |Bits(buf)|
    ensures Bits(Image(buf, at, s))[..e] == Bits(buf)[0..p] + Bits(s)
  {
    hide Bits;
    BitsSlice(buf, 0, at);
    BitsConcat(buf[..at], s);
    BitsConcat(buf[..at] + s, buf[at + |s|..]);
    assert buf[0..at] == buf[..at];
  }

  lemma FewerZeros(b: seq<bool>, p: nat, start: seq<bool>, n: nat, k: nat)
    requires k <= n && p == |start| + n - k && p + k <= |b| && b[..p + k] == start + Zeros(n)
    ensures b[0..p] == start + Zeros(n - k)
  {
    assert b[0..p] == b[..p + k][..p];
  }

  lemma SingleByte(s: seq<byte>)
    requires |s| == 1
    ensures FromBigEndian(s) == s[0]
  {
    assert FromBigEndian(s[..0]) == 0;
  }

  lemma SwapByte(v: nat)
    requires v < 256
    ensures ByteSwap(v, 1) == v
  {
    assert BigEndian(v, 1) == BigEndian(v / 256, 0) + [v % 256] == [v];
    assert LoadWord([v]) == v + 256 * LoadWord([v][1..]);
  }

  lemma ByteSwapBound(w: nat, n: nat)
    ensures ByteSwap(w, n) < Pow2(8 * n)
  {
    LoadBound(BigEndian(w, n));
  }

  // ---- Writing ----

  lemma StoredWord(v: nat, n: nat)
    ensures StoreWord(ByteSwap(v, n), n) == BigEndian(v, n)
    ensures Bits(StoreWord(ByteSwap(v, n), n)) == BitsOf(v, 8 * n)
  {
    StoreOfByteSwap(v, n);
    BigEndianBits(v, n);
  }

  lemma StoredByte(v: byte)
    ensures StoreWord(v, 1) == [v] && Bits([v]) == BitsOf(v, 8)
  {
    assert StoreWord(v, 1) == [v];
    BitsSnoc([], v);
  }

  /** Moving by whole bytes keeps the place in the byte. */
  lemma SamePlace(at: nat, k: nat, now: nat, l: nat, n: nat)
    requires k < 8 && l < 8 && 8 * now + l == 8 * at + k + 8 * n
    ensures l == k && now == at + n
  {
  }

  class WriteStream {
    const data: array<byte>
    var byteIter: nat
    var bitPos: nat

    ghost function Pos(): nat
      reads this
    {
      8 * byteIter + bitPos
    }

    /** In range, and mid-byte the rest of the current byte is zero. */
    ghost predicate Valid()
      reads this, data
    {
      && bitPos < 8
      && Pos() <= 8 * data.Length
      && TailZero(data[..], Pos())
    }

    /** The bits written so far. */
    ghost function Written(): seq<bool>
      requires Valid()
      reads this, data
    {
      Bits(data[..])[..Pos()]
    }

    /** Bytes touched so far; the buffer beyond is untouched. */
    ghost function End(): nat
      reads this
    {
      Ceil8(Pos())
    }

    constructor (buffer: array<byte>)
      ensures Valid() && data == buffer && byteIter == 0 && bitPos == 0 && Written() == []
    {
      data := buffer;
      byteIter, bitPos := 0, 0;
    }

    method SerializeBits(value: nat, valueBits: nat, bits: nat) returns (ok: bool)
      requires Valid()
      modifies this`byteIter, this`bitPos, data
      ensures Valid()
      ensures ok <==> bits == 0 || (bits <= MAX_FIELD && bits <= valueBits && old(Pos()) + bits <= 8 * data.Length)
      ensures ok ==> Written() == old(Written()) + BitsOf(value, bits)
      ensures data[End()..] == old(data[..])[End()..]
      ensures Pos() == old(Pos()) + if ok then bits else 0
      ensures !ok ==> data[..] == old(data[..])
    {
      hide Bits, BitsOf, ByteSwap, BigEndian, StoreWord, Or, ShiftLeft, ShiftRight, TailZero;
      if bits == 0 {
        assert Written() + BitsOf(value, 0) == Written();
        return true;
      }
      if bits > MAX_FIELD || bits > valueBits { return false; }
      var nBytes := (bits + bitPos + 7) / 8;
      if data.Length - byteIter < nBytes { return false; }
      ghost var was := data[..];
      var word := ShiftLeft(value, 64 - bits, 64);
      if bitPos != 0 {
        word := ShiftRight(word, bitPos);
        word := Or(word, ShiftLeft(data[byteIter], 56, 64));
      }
      word := ByteSwap(word, 8);
      CopyIn(byteIter, StoreWord(word, 8)[..nBytes]);
      ghost var now := data[..];
      WriteField(was, byteIter, bitPos, value, bits, now);
      assert 8 * (byteIter + (bitPos + bits) / 8) + (bitPos + bits) % 8 == Pos() + bits;
      assert Ceil8(Pos() + bits) == byteIter + nBytes;
      byteIter, bitPos := byteIter + (bitPos + bits) / 8, (bitPos + bits) % 8;
      assert data[..] == now;
      ok := true;
    }

    /** `std::copy` of `mem` to the position `at`. */
    method CopyIn(at: nat, mem: seq<byte>)
      requires at + |mem| <= data.Length
      modifies data
      ensures data[..] == Image(old(data[..]), at, mem)
    {
      var i := 0;
      while i < |mem|
        invariant 0 <= i <= |mem|
        invariant data[..] == old(data[..])[..at] + mem[..i] + old(data[..])[at + i..]
      {
        data[at + i] := mem[i];
        i := i + 1;
      }
      assert mem[..|mem|] == mem;
    }

    /** Copy to the cursor and step over it. */
    method AppendBytes(mem: seq<byte>)
      requires byteIter + |mem| <= data.Length
      modifies this`byteIter, data
      ensures byteIter == old(byteIter) + |mem| && data[..] == Image(old(data[..]), old(byteIter), mem)
      ensures data[byteIter..] == old(data[..])[byteIter..]
      ensures bitPos == 0 ==> Valid() && Written() == old(Bits(data[..]))[..old(Pos())] + Bits(mem)
    {
      hide Bits, TailZero, Image;
      ghost var was := data[..];
      CopyIn(byteIter, mem);
      CopiedBits(was, byteIter, mem);
      byteIter := byteIter + |mem|;
    }

    method AdvanceBits(bits: nat) returns (ok: bool)
      requires Valid()
      modifies this`byteIter, this`bitPos, data
      ensures Valid()
      ensures ok <==> old(Pos()) + bits <= 8 * data.Length
      ensures ok ==> Written() == old(Written()) + Zeros(bits)
      ensures data[End()..] == old(data[..])[End()..]
      ensures Pos() == old(Pos()) + if ok then bits else 0
      ensures !ok ==> data[..] == old(data[..])
    {
      hide Bits, BitsOf, ByteSwap, BigEndian, Zeros, TailZero;
      var bytesTouched := (bits + bitPos + 7) / 8;
      if data.Length - byteIter < bytesTouched { return false; }
      var i := 0;
      ghost var start, orig := Written(), data[..];
      NoZeros(start);
      while i < bits / 32
        invariant 0 <= i <= bits / 32
        invariant Valid() && Pos() == old(Pos()) + 32 * i
        invariant Written() == start + Zeros(32 * i)
        invariant data[End()..] == orig[End()..]
      {
        ghost var before, end := data[..], End();
        var res := SerializeBits(0, 32, 32);
        BitsOfZero(32);
        MoreZeros(start, 32 * i, 32);
        Later(data[..], before, orig, end, End());
        i := i + 1;
      }
      ghost var before, end := data[..], End();
      ok := SerializeBits(0, 32, bits % 32);
      BitsOfZero(bits % 32);
      MoreZeros(start, 32 * i, bits % 32);
      Later(data[..], before, orig, end, End());
    }

    /** Off a byte boundary the zeros are written twice over. */
    method AdvanceBytes(bytes: nat) returns (ok: bool)
      requires Valid()
      modifies this`byteIter, this`bitPos, data
      ensures old(bitPos) == 0 ==> Valid() && bitPos == 0
      ensures old(bitPos) == 0 ==> (ok <==> old(Pos()) + 8 * bytes <= 8 * data.Length)
      ensures old(bitPos) == 0 && ok ==> Written() == old(Written()) + Zeros(8 * bytes)
      ensures old(bitPos) == 0 && ok ==> data[..] == Image(old(data[..]), old(byteIter), ZeroBytes(bytes))
      ensures old(bitPos) == 0 ==> data[End()..] == old(data[..])[End()..]
      ensures old(bitPos) == 0 ==> Pos() == old(Pos()) + if ok then 8 * bytes else 0
      ensures old(bitPos) == 0 && !ok ==> data[..] == old(data[..])
      ensures old(bitPos) != 0 ==> bitPos == old(bitPos)
      ensures old(bitPos) != 0 ==> (ok <==> old(byteIter) + 2 * bytes <= data.Length)
      ensures old(bitPos) != 0 ==> byteIter == old(byteIter) + if ok then 2 * bytes
                else if old(Pos()) + 8 * bytes <= 8 * data.Length then bytes else 0
      ensures old(bitPos) != 0 && ok && bytes > 0 ==>
                Bits(data[..])[..8 * byteIter] == old(Written()) + Zeros(16 * bytes - bitPos)
      ensures old(bitPos) != 0 && ok && bytes > 0 ==> data[byteIter..] == old(data[..])[byteIter..]
      ensures old(bitPos) != 0 && (if ok then bytes == 0 else old(Pos()) + 8 * bytes <= 8 * data.Length) ==>
                Valid() && Written() == old(Written()) + Zeros(8 * bytes) && data[End()..] == old(data[..])[End()..]
      ensures old(bitPos) != 0 && !ok && old(Pos()) + 8 * bytes > 8 * data.Length ==> data[..] == old(data[..])
    {
      if bitPos != 0 {
        ok := AdvanceTwice(bytes);
        return;
      }
      if data.Length - byteIter < bytes { return false; }
      AppendBytes(ZeroBytes(bytes));
      BitsZeroBytes(bytes);
      ok := true;
    }

    /** The two moves off a byte boundary: bits first, and then the bytes once more. */
    method AdvanceTwice(bytes: nat) returns (ok: bool)
      requires Valid() && bitPos != 0
      modifies this`byteIter, this`bitPos, data
      ensures bitPos == old(bitPos)
      ensures ok <==> old(byteIter) + 2 * bytes <= data.Length
      ensures byteIter == old(byteIter) + if ok then 2 * bytes
                else if old(Pos()) + 8 * bytes <= 8 * data.Length then bytes else 0
      ensures ok && bytes > 0 ==> Bits(data[..])[..8 * byteIter] == old(Written()) + Zeros(16 * bytes - bitPos)
      ensures ok && bytes > 0 ==> data[byteIter..] == old(data[..])[byteIter..]
      ensures (if ok then bytes == 0 else old(Pos()) + 8 * bytes <= 8 * data.Length) ==>
                Valid() && Written() == old(Written()) + Zeros(8 * bytes) && data[End()..] == old(data[..])[End()..]
      ensures !ok && old(Pos()) + 8 * bytes > 8 * data.Length ==> data[..] == old(data[..])
    {
      hide Bits, Zeros, ZeroBytes, Image, TailZero, Ceil8;
      ghost var start, orig := Written(), data[..];
      ok := AdvanceBits(8 * bytes);
      if !ok { return; }
      ghost var first, at := data[..], byteIter;
      ok := MoveOn(bytes);
      if ok {
        if bytes == 0 {
          NoBytes(first, at);
        } else {
          SecondMove(first, orig, at, bytes, start, bitPos);
        }
      }
    }

    /** The move by whole bytes, wherever the cursor is. */
    method MoveOn(bytes: nat) returns (ok: bool)
      requires byteIter <= data.Length
      modifies this`byteIter, data
      ensures ok <==> old(byteIter) + bytes <= data.Length
      ensures ok ==> byteIter == old(byteIter) + bytes
                     && data[..] == Image(old(data[..]), old(byteIter), ZeroBytes(bytes))
      ensures !ok ==> byteIter == old(byteIter) && data[..] == old(data[..])
    {
      if data.Length - byteIter < bytes { return false; }
      CopyIn(byteIter, ZeroBytes(bytes));
      byteIter := byteIter + bytes;
      ok := true;
    }

    /** Shared shape of the aligned accesses: the memory image of `word` is copied. */
    method StoreAligned(word: nat, n: nat) returns (ok: bool)
      requires Valid() && bitPos == 0
      modifies this`byteIter, data
      ensures Valid()
      ensures ok <==> old(Pos()) + 8 * n <= 8 * data.Length
      ensures ok ==> Written() == old(Written()) + Bits(StoreWord(word, n))
      ensures ok ==> data[..] == Image(old(data[..]), old(byteIter), StoreWord(word, n)) && byteIter == old(byteIter) + n
      ensures data[End()..] == old(data[..])[End()..]
      ensures Pos() == old(Pos()) + if ok then 8 * n else 0
      ensures !ok ==> data[..] == old(data[..])
    {
      if data.Length - byteIter < n { return false; }
      AppendBytes(StoreWord(word, n));
      ok := true;
    }

    method SerializeByte(value: byte) returns (ok: bool)
      requires Valid()
      modifies this`byteIter, this`bitPos, data
      ensures Valid() && bitPos == old(bitPos)
      ensures ok <==> old(Pos()) + 8 <= 8 * data.Length
      ensures ok ==> Written() == old(Written()) + BitsOf(value, 8)
      ensures ok && bitPos == 0 ==> data[..] == Image(old(data[..]), old(byteIter), [value])
      ensures data[End()..] == old(data[..])[End()..]
      ensures Pos() == old(Pos()) + if ok then 8 else 0
      ensures !ok ==> data[..] == old(data[..])
    {
      hide Bits, BitsOf, TailZero, Ceil8, Written, StoreWord, Pow2, Image;
      if bitPos != 0 {
        ghost var at, k := byteIter, bitPos;
        ok := SerializeBits(value, 8, 8);
        SamePlace(at, k, byteIter, bitPos, if ok then 1 else 0);
      } else {
        ok := StoreAligned(value, 1);
        StoredByte(value);
      }
    }

    method SerializeUint16(value: u16) returns (ok: bool)
      requires Valid()
      modifies this`byteIter, this`bitPos, data
      ensures Valid() && bitPos == old(bitPos)
      ensures ok <==> old(Pos()) + 16 <= 8 * data.Length
      ensures ok ==> Written() == old(Written()) + BitsOf(WireOrder(value, 2, bitPos == 0), 16)
      ensures ok && bitPos == 0 ==> data[..] == Image(old(data[..]), old(byteIter), BigEndian(value, 2))
      ensures data[End()..] == old(data[..])[End()..]
      ensures Pos() == old(Pos()) + if ok then 16 else 0
      ensures !ok ==> data[..] == old(data[..])
    {
      hide Bits, BitsOf, ByteSwap, StoreWord, BigEndian, TailZero, Ceil8, Written, Image;
      var swapped := ByteSwap(value, 2);
      if bitPos != 0 {
        ghost var at, k := byteIter, bitPos;
        ok := SerializeBits(swapped, 16, 16);
        SamePlace(at, k, byteIter, bitPos, if ok then 2 else 0);
      } else {
        ok := StoreAligned(swapped, 2);
        StoredWord(value, 2);
      }
    }

    method SerializeUint32(value: u32) returns (ok: bool)
      requires Valid()
      modifies this`byteIter, this`bitPos, data
      ensures Valid() && bitPos == old(bitPos)
      ensures ok <==> old(Pos()) + 32 <= 8 * data.Length
      ensures ok ==> Written() == old(Written()) + BitsOf(WireOrder(value, 4, bitPos == 0), 32)
      ensures ok && bitPos == 0 ==> data[..] == Image(old(data[..]), old(byteIter), BigEndian(value, 4))
      ensures data[End()..] == old(data[..])[End()..]
      ensures Pos() == old(Pos()) + if ok then 32 else 0
      ensures !ok ==> data[..] == old(data[..])
    {
      hide Bits, BitsOf, ByteSwap, StoreWord, BigEndian, TailZero, Ceil8, Written, Image;
      var swapped := ByteSwap(value, 4);
      if bitPos != 0 {
        ghost var at, k := byteIter, bitPos;
        ok := SerializeBits(swapped, 32, 32);
        SamePlace(at, k, byteIter, bitPos, if ok then 4 else 0);
      } else {
        ok := StoreAligned(swapped, 4);
        StoredWord(value, 4);
      }
    }

    /** Off a byte boundary only the low 32 bits of the swapped value are written. */
    method SerializeUint64(value: u64) returns (ok: bool)
      requires Valid()
      modifies this`byteIter, this`bitPos, data
      ensures Valid() && bitPos == old(bitPos)
      ensures ok <==> old(Pos()) + (if old(bitPos) == 0 then 64 else 32) <= 8 * data.Length
      ensures ok ==> Written() == old(Written())
                     + if bitPos == 0 then BitsOf(value, 64) else BitsOf(ByteSwap(value, 8), 32)
      ensures ok && bitPos == 0 ==> data[..] == Image(old(data[..]), old(byteIter), BigEndian(value, 8))
      ensures data[End()..] == old(data[..])[End()..]
      ensures Pos() == old(Pos()) + if !ok then 0 else if bitPos == 0 then 64 else 32
      ensures !ok ==> data[..] == old(data[..])
    {
      hide Bits, BitsOf, ByteSwap, StoreWord, BigEndian, TailZero, Ceil8, Written, Image;
      var swapped := ByteSwap(value, 8);
      if bitPos != 0 {
        ghost var at, k := byteIter, bitPos;
        ok := SerializeBits(swapped, 64, 32);
        SamePlace(at, k, byteIter, bitPos, if ok then 4 else 0);
      } else {
        ok := StoreAligned(swapped, 8);
        StoredWord(value, 8);
      }
    }

    method SerializeBytes(bytes: seq<byte>) returns (ok: bool)
      requires Valid()
      modifies this`byteIter, this`bitPos, data
      ensures Valid() && bitPos == old(bitPos)
      ensures ok <==> old(bitPos) == 0 && old(Pos()) + 8 * |bytes| <= 8 * data.Length
      ensures ok ==> Written() == old(Written()) + Bits(bytes)
      ensures ok ==> data[..] == Image(old(data[..]), old(byteIter), bytes)
      ensures data[End()..] == old(data[..])[End()..]
      ensures Pos() == old(Pos()) + if ok then 8 * |bytes| else 0
      ensures !ok ==> data[..] == old(data[..])
    {
      if bitPos != 0 || data.Length - byteIter < |bytes| { return false; }
      AppendBytes(bytes);
      ok := true;
    }

    /** A view of the last `n` bytes written. */
    method Lookback(n: nat) returns (ok: bool, view: seq<byte>)
      requires Valid()
      ensures ok <==> bitPos == 0 && (n == NPOS || n <= byteIter)
      ensures ok ==> view == if n == NPOS then data[..byteIter] else data[byteIter - n..byteIter]
    {
      if n == NPOS {
        if bitPos != 0 { return false, []; }
        return true, data[..byteIter];
      }
      if bitPos != 0 || byteIter < n { return false, []; }
      return true, data[byteIter - n..byteIter];
    }

    /** Overwrites two bytes that end `offset` bytes back; nothing else changes, not even the cursor. */
    method UpdateChksum(chksum: u16, offset: nat) returns (ok: bool)
      requires Valid()
      modifies this`byteIter, this`bitPos, data
      ensures Valid() && byteIter == old(byteIter) && bitPos == old(bitPos)
      ensures ok <==> bitPos == 0 && offset + 2 <= byteIter
      ensures ok ==> data[..] == Image(old(data[..]), byteIter - offset - 2, BigEndian(chksum, 2))
      ensures !ok ==> data[..] == old(data[..])
    {
      hide Bits, BitsOf, ByteSwap, BigEndian;
      if bitPos != 0 { return false; }
      var back := offset + 2;
      if byteIter < back { return false; }
      var oldByteIter := byteIter;
      byteIter := byteIter - back;
      // serializeUint16 at the earlier position: the memory image of the swapped word
      CopyIn(byteIter, StoreWord(ByteSwap(chksum, 2), 2));
      StoreOfByteSwap(chksum, 2);
      byteIter := oldByteIter;
      assert Ceil8(Pos()) == byteIter;
      ok := true;
    }
  }

  /** Appending the bits of `s` at a byte boundary put the bytes `s` there. */
  lemma WroteBytes(before: seq<byte>, after: seq<byte>, at: nat, s: seq<byte>)
    requires |before| == |after| && at + |s| <= |before|
    requires Bits(after)[..8 * (at + |s|)] == Bits(before)[..8 * at] + Bits(s)
    requires after[at + |s|..] == before[at + |s|..]
    ensures after == Image(before, at, s)
  {
    hide Bits;
    BitsSlice(after, 0, at + |s|);
    BitsSlice(before, 0, at);
    BitsConcat(before[..at], s);
    assert after[0..at + |s|] == after[..at + |s|] && before[0..at] == before[..at];
    BitsInjective(after[..at + |s|], before[..at] + s);
    assert after == after[..at + |s|] + after[at + |s|..];
  }

  // ---- Lists of fields ----

  /** A value held in a variable of `valueBits` bits, of which `width` bits go on the wire. */
  datatype Field = Field(value: u64, valueBits: nat, width: nat)

  predicate Serializable(fs: seq<Field>) {
    forall i :: 0 <= i < |fs| ==> fs[i].width <= MAX_FIELD && fs[i].width <= fs[i].valueBits
  }

  function TotalWidth(fs: seq<Field>): nat {
    if fs == [] then 0 else TotalWidth(fs[..|fs| - 1]) + fs[|fs| - 1].width
  }

  /** Big-endian concatenation of the fields. */
  function FieldBits(fs: seq<Field>): (b: seq<bool>)
    ensures |b| == TotalWidth(fs)
  {
    if fs == [] then [] else FieldBits(fs[..|fs| - 1]) + BitsOf(fs[|fs| - 1].value, fs[|fs| - 1].width)
  }

  /** What each field holds once it has been cut to its width. */
  function Truncated(fs: seq<Field>): (vs: seq<nat>)
    ensures |vs| == |fs|
    ensures forall i :: 0 <= i < |fs| ==> vs[i] == Low(fs[i].value, fs[i].width)
  {
    seq(|fs|, i requires 0 <= i < |fs| => Low(fs[i].value, fs[i].width))
  }

  method WriteFields(ws: WriteStream, fs: seq<Field>) returns (ok: bool)
    requires ws.Valid() && Serializable(fs)
    requires ws.Pos() + TotalWidth(fs) <= 8 * ws.data.Length
    modifies ws`byteIter, ws`bitPos, ws.data
    ensures ok && ws.Valid()
    ensures ws.Written() == old(ws.Written()) + FieldBits(fs)
    ensures ws.Pos() == old(ws.Pos()) + TotalWidth(fs)
    ensures ws.data[ws.End()..] == old(ws.data[..])[ws.End()..]
  {
    hide Bits, BitsOf, FieldBits, TotalWidth, TailZero;
    var i := 0;
    NoFields(fs);
    while i < |fs|
      invariant 0 <= i <= |fs|
      invariant ws.Valid()
      invariant ws.Written() == old(ws.Written()) + FieldBits(fs[..i])
      invariant ws.Pos() == old(ws.Pos()) + TotalWidth(fs[..i])
      invariant ws.data[ws.End()..] == old(ws.data[..])[ws.End()..]
    {
      FieldStep(fs, i);
      WidthPrefix(fs, i + 1);
      var res := ws.SerializeBits(fs[i].value, fs[i].valueBits, fs[i].width);
      i := i + 1;
    }
    assert fs[..|fs|] == fs;
    ok := true;
  }

  lemma FieldStep(fs: seq<Field>, i: nat)
    requires i < |fs|
    ensures FieldBits(fs[..i + 1]) == FieldBits(fs[..i]) + BitsOf(fs[i].value, fs[i].width)
    ensures TotalWidth(fs[..i + 1]) == TotalWidth(fs[..i]) + fs[i].width
  {
    var next := fs[..i + 1];
    assert next[..i] == fs[..i] && next[i] == fs[i];
  }

  lemma {:induction false} WidthPrefix(fs: seq<Field>, i: nat)
    requires i <= |fs|
    ensures TotalWidth(fs[..i]) <= TotalWidth(fs)
  {
    if i < |fs| {
      assert fs[..|fs| - 1][..i] == fs[..i];
      WidthPrefix(fs[..|fs| - 1], i);
    } else {
      assert fs[..i] == fs;
    }
  }

  method ReadFields(rs: ReadStream, fs: seq<Field>) returns (ok: bool, vs: seq<nat>)
    requires rs.Valid() && Serializable(fs)
    requires FieldBits(fs) <= rs.Rest()
    modifies rs`byteIter, rs`bitPos
    ensures ok && rs.Valid()
    ensures vs == Truncated(fs)
    ensures rs.Pos() == old(rs.Pos()) + TotalWidth(fs)
  {
    hide Bits, BitsOf, FieldBits, TotalWidth, Low, Pow2;
    vs := [];
    var i := 0;
    ghost var all := rs.Rest();
    NoFields(fs);
    while i < |fs|
      invariant 0 <= i <= |fs| && |vs| == i
      invariant rs.Valid() && rs.Pos() == old(rs.Pos()) + TotalWidth(fs[..i])
      invariant forall j :: 0 <= j < i ==> vs[j] == Low(fs[j].value, fs[j].width)
      invariant all == FieldBits(fs[..i]) + rs.Rest()
    {
      ghost var before := rs.Rest();
      NextField(fs, i, all, before);
      var res, v := rs.SerializeBits(fs[i].valueBits, fs[i].width);
      SplitUnique(before, BitsOf(fs[i].value, fs[i].width), BitsOf(v, fs[i].width), rs.Rest());
      SameBits(v, fs[i].value, fs[i].width);
      MoveSplit(FieldBits(fs[..i]), BitsOf(v, fs[i].width), rs.Rest());
      vs := vs + [v];
      i := i + 1;
    }
    assert fs[..|fs|] == fs;
    ok := true;
  }

  lemma NoFields(fs: seq<Field>)
    ensures FieldBits(fs[..0]) == [] && TotalWidth(fs[..0]) == 0
  {
  }

  lemma MoveSplit(a: seq<bool>, v: seq<bool>, rest: seq<bool>)
    ensures a + (v + rest) == (a + v) + rest
  {
  }

  lemma SplitUnique(b: seq<bool>, x: seq<bool>, y: seq<bool>, rest: seq<bool>)
    requires x <= b && b == y + rest && |x| == |y|
    ensures x == y
  {
    assert b[..|x|] == x;
  }

  /** With `i` fields consumed, the next one stands at the front. */
  lemma NextField(fs: seq<Field>, i: nat, all: seq<bool>, rest: seq<bool>)
    requires i < |fs| && FieldBits(fs) <= all && all == FieldBits(fs[..i]) + rest
    ensures BitsOf(fs[i].value, fs[i].width) <= rest
    ensures FieldBits(fs[..i + 1]) == FieldBits(fs[..i]) + BitsOf(fs[i].value, fs[i].width)
    ensures TotalWidth(fs[..i + 1]) == TotalWidth(fs[..i]) + fs[i].width
  {
    FieldStep(fs, i);
    FieldBitsPrefix(fs, i + 1);
    PrefixCut(FieldBits(fs[..i]), BitsOf(fs[i].value, fs[i].width), FieldBits(fs), rest);
  }

  lemma PrefixCut(a: seq<bool>, v: seq<bool>, whole: seq<bool>, rest: seq<bool>)
    requires a + v <= whole <= a + rest
    ensures v <= rest
  {
    assert (a + rest)[|a|..|a| + |v|] == rest[..|v|];
    assert (a + v)[|a|..] == v;
  }

  lemma {:induction false} FieldBitsPrefix(fs: seq<Field>, i: nat)
    requires i <= |fs|
    ensures FieldBits(fs[..i]) <= FieldBits(fs)
  {
    if i < |fs| {
      assert fs[..|fs| - 1][..i] == fs[..i];
      FieldBitsPrefix(fs[..|fs| - 1], i);
    } else {
      assert fs[..i] == fs;
    }
  }

  /** A value below 2^n with the same n bits is the truncation. */
  lemma SameBits(v: nat, w: nat, n: nat)
    requires v < Pow2(n) && BitsOf(v, n) == BitsOf(w, n)
    ensures v == Low(w, n)
  {
    ValBitsOf(v, n);
    ValBitsOf(w, n);
    LowOfSmall(v, n);
  }

  /**
   Any finite list of fields, written into a fresh buffer that is large enough and read back
   with the same widths, returns every value modulo two to its width; the buffer starts with
   the big-endian concatenation and both cursors end at the total width.
   */
  method RoundTrip(buffer: array<byte>, fs: seq<Field>)
    returns (vs: seq<nat>, wpos: (nat, nat), rpos: (nat, nat))
    requires Serializable(fs) && TotalWidth(fs) <= 8 * buffer.Length
    modifies buffer
    ensures |vs| == |fs| && forall i :: 0 <= i < |fs| ==> vs[i] == fs[i].value % Pow2(fs[i].width)
    ensures Bits(buffer[..])[..TotalWidth(fs)] == FieldBits(fs)
    ensures buffer[Ceil8(TotalWidth(fs))..] == old(buffer[..])[Ceil8(TotalWidth(fs))..]
    ensures wpos == rpos == (TotalWidth(fs) / 8, TotalWidth(fs) % 8)
  {
    hide *;
    var ws := new WriteStream(buffer);
    WriterAt(ws);
    NothingYet(FieldBits(fs));
    var w := WriteFields(ws, fs);
    wpos := (ws.byteIter, ws.bitPos);
    WriterAt(ws);
    PrefixOfAll(Bits(buffer[..]), FieldBits(fs));
    var rs := new ReadStream(buffer[..]);
    WholeRest(rs);
    var r;
    r, vs := ReadFields(rs, fs);
    rpos := (rs.byteIter, rs.bitPos);
    ReaderAt(rs);
    TruncatedIsModulo(fs);
  }

  lemma WriterAt(ws: WriteStream)
    requires ws.Valid()
    ensures ws.byteIter == ws.Pos() / 8 && ws.bitPos == ws.Pos() % 8 && ws.End() == Ceil8(ws.Pos())
    ensures ws.Pos() <= 8 * ws.data.Length && ws.Written() == Bits(ws.data[..])[..ws.Pos()]
  {
    hide Bits, TailZero;
  }

  lemma ReaderAt(rs: ReadStream)
    requires rs.Valid()
    ensures rs.byteIter == rs.Pos() / 8 && rs.bitPos == rs.Pos() % 8
  {
    hide Bits;
  }

  lemma WholeRest(rs: ReadStream)
    requires rs.Valid() && rs.Pos() == 0
    ensures rs.Rest() == Bits(rs.data)[0..]
  {
    hide Bits;
  }

  lemma NothingYet(b: seq<bool>)
    ensures [] + b == b
  {
  }

  lemma PrefixOfAll(all: seq<bool>, b: seq<bool>)
    requires |b| <= |all| && all[..|b|] == b
    ensures b <= all[0..]
  {
  }

  lemma TruncatedIsModulo(fs: seq<Field>)
    ensures forall i :: 0 <= i < |fs| ==> Truncated(fs)[i] == fs[i].value % Pow2(fs[i].width)
  {
    hide Pow2, Low;
    forall i | 0 <= i < |fs| ensures Truncated(fs)[i] == fs[i].value % Pow2(fs[i].width) {
      ShiftRightIsDivision(fs[i].value, fs[i].width);
    }
  }
}
