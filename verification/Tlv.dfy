/**
 Type-length-value options on the streams: reads and writes stated by bit offset, padding.
 */
module Tlv {
  import opened Words
  import opened BitStream

  // ---- Reading at offsets ----

  /** The `w` bits at offset `k` as a number. */
  function Peek(b: seq<bool>, k: nat, w: nat): (v: nat)
    requires k + w <= |b|
    ensures v < Pow2(w)
  {
    ValBound(b[k..k + w]);
    Val(b[k..k + w])
  }

  function PeekByte(b: seq<bool>, k: nat, w: nat): (v: byte)
    requires k + w <= |b| && w <= 8
    ensures v == Peek(b, k, w)
  {
    PowerGrows(w, 8);
    Pow2At8();
    Peek(b, k, w)
  }

  function PeekBytes(b: seq<bool>, k: nat, n: nat): (s: seq<byte>)
    requires k + 8 * n <= |b|
    ensures |s| == n
  {
    if n == 0 then [] else PeekBytes(b, k, n - 1) + [PeekByte(b, k + 8 * (n - 1), 8)]
  }

  lemma {:induction false} PowerGrows(m: nat, n: nat)
    requires m <= n
    ensures Pow2(m) <= Pow2(n)
  {
    if m < n { PowerGrows(m, n - 1); }
  }

  /** A field found at the head of the remaining bits. */
  lemma FieldAhead(b: seq<bool>, k: nat, w: nat, v: nat, rest: seq<bool>)
    requires k <= |b| && v < Pow2(w) && b[k..] == BitsOf(v, w) + rest
    ensures k + w <= |b| && v == Peek(b, k, w) && rest == b[k + w..]
  {
    hide BitsOf, Val, Pow2;
    assert b[k..k + w] == b[k..][..w] == BitsOf(v, w);
    assert b[k + w..] == b[k..][w..] == rest;
    ValBitsOf(v, w);
    LowOfSmall(v, w);
  }

  lemma {:induction false} BytesAhead(b: seq<bool>, k: nat, s: seq<byte>)
    requires k + 8 * |s| <= |b| && b[k..k + 8 * |s|] == Bits(s)
    ensures s == PeekBytes(b, k, |s|)
  {
    if s != [] {
      hide Bits, BitsOf, Val, Pow2, PeekBytes, PeekByte;
      var n := |s| - 1;
      BitsSnoc(s[..n], s[n]);
      assert s == s[..n] + [s[n]];
      LastByteAhead(b, k, n, Bits(s[..n]), BitsOf(s[n], 8));
      BytesAhead(b, k, s[..n]);
      ByteAhead(b, k + 8 * n, s[n]);
      PeekMore(b, k, n);
    }
  }

  lemma PeekMore(b: seq<bool>, k: nat, n: nat)
    requires k + 8 * (n + 1) <= |b|
    ensures PeekBytes(b, k, n + 1) == PeekBytes(b, k, n) + [PeekByte(b, k + 8 * n, 8)]
  {
    hide Val, Pow2;
  }

  lemma LastByteAhead(b: seq<bool>, k: nat, n: nat, x: seq<bool>, y: seq<bool>)
    requires |x| == 8 * n && |y| == 8 && k + 8 * n + 8 <= |b| && b[k..k + 8 * n + 8] == x + y
    ensures b[k..k + 8 * n] == x && b[k + 8 * n..k + 8 * n + 8] == y
  {
    assert b[k..k + 8 * n] == (x + y)[..8 * n];
    assert b[k + 8 * n..k + 8 * n + 8] == (x + y)[8 * n..];
  }

  lemma ByteAhead(b: seq<bool>, k: nat, v: byte)
    requires k + 8 <= |b| && b[k..k + 8] == BitsOf(v, 8)
    ensures PeekByte(b, k, 8) == v
  {
    hide BitsOf, Val, Pow2;
    Pow2At8();
    ValBitsOf(v, 8);
    LowOfSmall(v, 8);
  }

  /** The reader stands `k` bits behind the byte boundary `p`, where `b` lay ahead. */
  ghost predicate Ahead(rs: ReadStream, b: seq<bool>, k: nat, p: nat)
    reads rs
  {
    rs.Valid() && k <= |b| && rs.Rest() == b[k..] && rs.Pos() == p + k && p % 8 == 0
  }

  method TakeBits(rs: ReadStream, valueBits: nat, w: nat, ghost b: seq<bool>, ghost k: nat, ghost p: nat)
    returns (ok: bool, v: nat)
    requires Ahead(rs, b, k, p) && 0 < w <= MAX_FIELD && w <= valueBits
    modifies rs`byteIter, rs`bitPos
    ensures rs.Valid() && (ok <==> k + w <= |b|)
    ensures ok ==> v == Peek(b, k, w) && v < Pow2(w) && Ahead(rs, b, k + w, p)
  {
    hide BitsOf, Val, Pow2, Bits;
    ok, v := rs.SerializeBits(valueBits, w);
    if ok { FieldAhead(b, k, w, v, rs.Rest()); }
  }

  method TakeByte(rs: ReadStream, ghost b: seq<bool>, ghost k: nat, ghost p: nat) returns (ok: bool, v: byte)
    requires Ahead(rs, b, k, p)
    modifies rs`byteIter, rs`bitPos
    ensures rs.Valid() && (ok <==> k + 8 <= |b|)
    ensures ok ==> v == PeekByte(b, k, 8) && Ahead(rs, b, k + 8, p)
  {
    hide BitsOf, Val, Pow2, Bits;
    v := 0;
    var value;
    ok, value := rs.SerializeByte();
    Pow2At8();
    if ok {
      FieldAhead(b, k, 8, value, rs.Rest());
      v := value;
    }
  }

  /** Two, four or eight bytes at a byte boundary. */
  method TakeWord(rs: ReadStream, n: nat, ghost b: seq<bool>, ghost k: nat, ghost p: nat) returns (ok: bool, v: nat)
    requires Ahead(rs, b, k, p) && k % 8 == 0 && n in {2, 4, 8}
    modifies rs`byteIter, rs`bitPos
    ensures rs.Valid() && (ok <==> k + 8 * n <= |b|)
    ensures ok ==> v == Peek(b, k, 8 * n) && v < Pow2(8 * n) && Ahead(rs, b, k + 8 * n, p)
  {
    hide BitsOf, Val, Pow2, Bits, ByteSwap, Peek;
    WholeBytes(p, k);
    NoBitsOver(rs.byteIter, rs.bitPos);
    if n == 2 {
      ok, v := rs.SerializeUint16();
    } else if n == 4 {
      ok, v := rs.SerializeUint32();
    } else {
      ok, v := rs.SerializeUint64();
    }
    if ok { FieldAhead(b, k, 8 * n, v, rs.Rest()); }
  }

  method TakeBytes(rs: ReadStream, n: nat, ghost b: seq<bool>, ghost k: nat, ghost p: nat) returns (ok: bool, s: seq<byte>)
    requires Ahead(rs, b, k, p) && k % 8 == 0
    modifies rs`byteIter, rs`bitPos
    ensures rs.Valid() && (ok <==> k + 8 * n <= |b|)
    ensures ok ==> s == PeekBytes(b, k, n) && Ahead(rs, b, k + 8 * n, p)
  {
    hide BitsOf, Val, Pow2, Bits;
    ok, s := rs.SerializeBytes(n);
    if ok {
      PartsAhead(b, k, Bits(s), rs.Rest());
      BytesAhead(b, k, s);
    }
  }

  lemma PartsAhead(b: seq<bool>, k: nat, x: seq<bool>, rest: seq<bool>)
    requires k <= |b| && b[k..] == x + rest
    ensures k + |x| <= |b| && b[k..k + |x|] == x && b[k + |x|..] == rest
  {
    assert b[k..k + |x|] == b[k..][..|x|];
    assert b[k + |x|..] == b[k..][|x|..];
  }

  method Skip(rs: ReadStream, bits: nat, ghost b: seq<bool>, ghost k: nat, ghost p: nat) returns (ok: bool)
    requires Ahead(rs, b, k, p)
    modifies rs`byteIter, rs`bitPos
    ensures rs.Valid() && (ok <==> k + bits <= |b|)
    ensures ok ==> Ahead(rs, b, k + bits, p)
  {
    hide Bits;
    ok := rs.AdvanceBits(bits);
    if ok { RestMoved(rs.data, p + k, bits, b, k); }
  }

  lemma RestMoved(data: seq<byte>, pos: nat, bits: nat, b: seq<bool>, k: nat)
    requires pos + bits <= |Bits(data)| && k + bits <= |b| && Bits(data)[pos..] == b[k..]
    ensures Bits(data)[pos + bits..] == b[k + bits..]
  {
    assert Bits(data)[pos + bits..] == Bits(data)[pos..][bits..];
    assert b[k + bits..] == b[k..][bits..];
  }

  method SkipBytes(rs: ReadStream, bytes: nat, ghost b: seq<bool>, ghost k: nat, ghost p: nat) returns (ok: bool)
    requires Ahead(rs, b, k, p) && k % 8 == 0
    modifies rs`byteIter, rs`bitPos
    ensures rs.Valid() && (ok <==> k + 8 * bytes <= |b|)
    ensures ok ==> Ahead(rs, b, k + 8 * bytes, p)
    ensures rs.bitPos == 0 && (!ok ==> rs.Pos() == p + k)
  {
    hide Bits;
    ok := rs.AdvanceBytes(bytes);
    if ok { RestMoved(rs.data, p + k, 8 * bytes, b, k); }
  }

  // ---- Appending ----

  /** The writer has appended the bits `e` to `start`, and nothing behind the cursor changed since `orig`. */
  ghost predicate Behind(ws: WriteStream, start: seq<bool>, e: seq<bool>, orig: seq<byte>)
    reads ws, ws.data
  {
    && ws.Valid() && ws.Written() == start + e && |start| % 8 == 0
    && |orig| == ws.data.Length && ws.data[ws.End()..] == orig[ws.End()..]
  }

  lemma WholeBytes(m: nat, n: nat)
    requires m % 8 == 0 && n % 8 == 0
    ensures (m + n) % 8 == 0
  {
  }

  lemma Appended(start: seq<bool>, e: seq<bool>, x: seq<bool>)
    ensures start + e + x == start + (e + x)
  {
  }

  /** A whole number of bytes behind a byte boundary is a byte boundary. */
  lemma AtByte(ws: WriteStream, start: seq<bool>, e: seq<bool>, orig: seq<byte>)
    requires Behind(ws, start, e, orig) && |e| % 8 == 0
    ensures ws.bitPos == 0 && ws.Pos() == |start| + |e|
  {
    hide Bits, TailZero;
    assert |ws.Written()| == ws.Pos();
    WholeBytes(|start|, |e|);
    NoBitsOver(ws.byteIter, ws.bitPos);
  }

  lemma NoBitsOver(bytes: nat, bits: nat)
    requires bits < 8 && (8 * bytes + bits) % 8 == 0
    ensures bits == 0
  {
  }

  method PutBits(ws: WriteStream, v: nat, valueBits: nat, w: nat,
                 ghost start: seq<bool>, ghost e: seq<bool>, ghost orig: seq<byte>)
    returns (ok: bool)
    requires Behind(ws, start, e, orig) && 0 < w <= MAX_FIELD && w <= valueBits
    modifies ws`byteIter, ws`bitPos, ws.data
    ensures ws.Valid() && (ok <==> |start| + |e| + w <= 8 * ws.data.Length)
    ensures ok ==> Behind(ws, start, e + BitsOf(v, w), orig)
  {
    hide BitsOf, Bits, Pow2, Image, Zeros;
    ghost var before, i := ws.data[..], ws.End();
    ok := ws.SerializeBits(v, valueBits, w);
    if ok {
      Later(ws.data[..], before, orig, i, ws.End());
      Appended(start, e, BitsOf(v, w));
    }
  }

  method PutByte(ws: WriteStream, v: byte, ghost start: seq<bool>, ghost e: seq<bool>, ghost orig: seq<byte>)
    returns (ok: bool)
    requires Behind(ws, start, e, orig)
    modifies ws`byteIter, ws`bitPos, ws.data
    ensures ws.Valid() && (ok <==> |start| + |e| + 8 <= 8 * ws.data.Length)
    ensures ok ==> Behind(ws, start, e + BitsOf(v, 8), orig)
  {
    hide BitsOf, Bits, Pow2, Image, Zeros;
    ghost var before, i := ws.data[..], ws.End();
    ok := ws.SerializeByte(v);
    if ok {
      Later(ws.data[..], before, orig, i, ws.End());
      Appended(start, e, BitsOf(v, 8));
    }
  }

  /** Two, four or eight bytes at a byte boundary. */
  method PutWord(ws: WriteStream, v: u64, n: nat, ghost start: seq<bool>, ghost e: seq<bool>, ghost orig: seq<byte>)
    returns (ok: bool)
    requires Behind(ws, start, e, orig) && |e| % 8 == 0
    requires (n == 2 && v < 0x1_0000) || (n == 4 && v < 0x1_0000_0000) || n == 8
    modifies ws`byteIter, ws`bitPos, ws.data
    ensures ws.Valid() && (ok <==> |start| + |e| + 8 * n <= 8 * ws.data.Length)
    ensures ok ==> Behind(ws, start, e + BitsOf(v, 8 * n), orig)
  {
    hide BitsOf, Bits, Pow2, ByteSwap, BigEndian, Image, Zeros;
    ghost var before, i := ws.data[..], ws.End();
    AtByte(ws, start, e, orig);
    if n == 2 {
      ok := ws.SerializeUint16(v);
    } else if n == 4 {
      ok := ws.SerializeUint32(v);
    } else {
      ok := ws.SerializeUint64(v);
    }
    if ok {
      Later(ws.data[..], before, orig, i, ws.End());
      Appended(start, e, BitsOf(v, 8 * n));
    }
  }

  method PutByteString(ws: WriteStream, s: seq<byte>, ghost start: seq<bool>, ghost e: seq<bool>, ghost orig: seq<byte>)
    returns (ok: bool)
    requires Behind(ws, start, e, orig) && |e| % 8 == 0
    modifies ws`byteIter, ws`bitPos, ws.data
    ensures ws.Valid() && (ok <==> |start| + |e| + 8 * |s| <= 8 * ws.data.Length)
    ensures ok ==> Behind(ws, start, e + Bits(s), orig)
  {
    hide Bits, Image, Zeros, ZeroBytes;
    ghost var before, i := ws.data[..], ws.End();
    AtByte(ws, start, e, orig);
    ok := ws.SerializeBytes(s);
    if ok {
      Later(ws.data[..], before, orig, i, ws.End());
      Appended(start, e, Bits(s));
    }
  }

  method PutZeros(ws: WriteStream, bits: nat, ghost start: seq<bool>, ghost e: seq<bool>, ghost orig: seq<byte>)
    returns (ok: bool)
    requires Behind(ws, start, e, orig)
    modifies ws`byteIter, ws`bitPos, ws.data
    ensures ws.Valid() && (ok <==> |start| + |e| + bits <= 8 * ws.data.Length)
    ensures ok ==> Behind(ws, start, e + Zeros(bits), orig)
  {
    hide Bits, Image, Zeros, ZeroBytes;
    ghost var before, i := ws.data[..], ws.End();
    ok := ws.AdvanceBits(bits);
    if ok {
      Later(ws.data[..], before, orig, i, ws.End());
      Appended(start, e, Zeros(bits));
    }
  }

  method PutZeroBytes(ws: WriteStream, bytes: nat, ghost start: seq<bool>, ghost e: seq<bool>, ghost orig: seq<byte>)
    returns (ok: bool)
    requires Behind(ws, start, e, orig) && |e| % 8 == 0
    modifies ws`byteIter, ws`bitPos, ws.data
    ensures ws.Valid() && (ok <==> |start| + |e| + 8 * bytes <= 8 * ws.data.Length)
    ensures ok ==> Behind(ws, start, e + Zeros(8 * bytes), orig)
  {
    hide Bits, Image, Zeros, ZeroBytes;
    ghost var before, i := ws.data[..], ws.End();
    AtByte(ws, start, e, orig);
    ok := ws.AdvanceBytes(bytes);
    if ok {
      Later(ws.data[..], before, orig, i, ws.End());
      Appended(start, e, Zeros(8 * bytes));
    }
  }

  // ---- Padding ----

  const PAD_1: byte := 0
  const PAD_N: byte := 1

  /** Bytes missing until `n` is a multiple of `align` less `offset`. */
  function Padding(n: nat, align: nat, offset: nat): (r: nat)
    requires align > 0
    ensures r < align && (n + offset + r) % align == 0
  {
    var r := (-((n + offset) as int)) % align;
    Complement(n + offset, align);
    r
  }

  lemma Complement(m: nat, a: nat)
    requires a > 0
    ensures (m + (-(m as int)) % a) % a == 0
  {
    var r := (-(m as int)) % a;
    var q := (-(m as int)) / a;
    assert -(m as int) == q * a + r;
    assert m + r == (-q) * a;
    MultipleOf(-q, a);
  }

  lemma MultipleOf(q: int, a: nat)
    requires a > 0 && q * a >= 0
    ensures q * a % a == 0
  {
    if q < 0 { Gap(q, a); }
    DivModUnique(q * a, a, q, 0);
  }

  /** A padding option that takes up `n` bytes; the length byte holds `n - 2` cut to eight bits. */
  function PaddingBits(n: nat): seq<bool> {
    if n == 0 then []
    else if n == 1 then BitsOf(PAD_1, 8)
    else BitsOf(PAD_N, 8) + BitsOf((n - 2) % 256, 8) + Zeros(8 * ((n - 2) % 256))
  }

  /** More than 257 bytes do not fit into one padding option. */
  lemma PaddingSize(n: nat)
    ensures |PaddingBits(n)| == 8 * n <==> n <= 257
    ensures |PaddingBits(n)| % 8 == 0 && |PaddingBits(n)| <= 8 * n
  {
    hide BitsOf;
    if n >= 2 {
      var d := (n - 2) % 256;
      assert |PaddingBits(n)| == 16 + 8 * d;
      LowByte(n - 2);
    }
  }

  lemma LowByte(m: nat)
    ensures m % 256 <= m && (m % 256 == m <==> m <= 255)
  {
  }

  method InsertPadding(ws: WriteStream, n: nat, ghost start: seq<bool>, ghost e: seq<bool>, ghost orig: seq<byte>)
    returns (ok: bool)
    requires Behind(ws, start, e, orig) && |e| % 8 == 0
    modifies ws`byteIter, ws`bitPos, ws.data
    ensures ws.Valid() && (ok <==> |start| + |e| + |PaddingBits(n)| <= 8 * ws.data.Length)
    ensures ok ==> Behind(ws, start, e + PaddingBits(n), orig)
  {
    hide BitsOf, Bits;
    if n == 0 {
      assert e + [] == e;
      return true;
    }
    if n == 1 {
      ok := PutByte(ws, PAD_1, start, e, orig);
    } else {
      ok := PutPadN(ws, (n - 2) % 256, start, e, orig);
    }
  }

  method PutPadN(ws: WriteStream, dataLen: byte, ghost start: seq<bool>, ghost e: seq<bool>, ghost orig: seq<byte>)
    returns (ok: bool)
    requires Behind(ws, start, e, orig) && |e| % 8 == 0
    modifies ws`byteIter, ws`bitPos, ws.data
    ensures ws.Valid() && (ok <==> |start| + |e| + 16 + 8 * dataLen <= 8 * ws.data.Length)
    ensures ok ==> Behind(ws, start, e + (BitsOf(PAD_N, 8) + BitsOf(dataLen, 8) + Zeros(8 * dataLen)), orig)
  {
    hide BitsOf, Bits, Behind, Zeros;
    ghost var e1 := e + BitsOf(PAD_N, 8);
    ghost var e2 := e1 + BitsOf(dataLen, 8);
    assert |e1| == |e| + 8 && |e2| == |e| + 16;
    WholeBytes(|e|, 16);
    ok := PutByte(ws, PAD_N, start, e, orig);
    if !ok { return; }
    ok := PutByte(ws, dataLen, start, e1, orig);
    if !ok { return; }
    ok := PutZeroBytes(ws, dataLen, start, e2, orig);
    if ok { ThreeParts(e, BitsOf(PAD_N, 8), BitsOf(dataLen, 8), Zeros(8 * dataLen)); }
  }

  lemma ThreeParts(e: seq<bool>, x: seq<bool>, y: seq<bool>, z: seq<bool>)
    ensures e + x + y + z == e + (x + y + z)
  {
  }
}
