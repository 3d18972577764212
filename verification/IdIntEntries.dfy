/**
 The ID-INT telemetry stack: its entries, and the loop that reads them back.
 */
module IdIntEntries {
  import opened Words
  import opened BitStream
  import opened Address
  import opened Tlv
  import opened IdIntHeaders

  const ID_INT_ENTRY: byte := 254
  const MIN_ENTRY_LEN: byte := 12

  type Nonce = s: seq<byte> | |s| == 12 witness ZeroBytes(12)
  type Mac = s: seq<byte> | |s| == 4 witness ZeroBytes(4)
  type Metadata = s: seq<byte> | |s| == 44 witness ZeroBytes(44)

  datatype IdIntEntry = IdIntEntry(dataLen: byte, flags: byte, hop: byte, mask: byte, ml: Four,
                                   nonce: Nonce, mac: Mac, metadata: Metadata)

  const EMPTY_ENTRY := IdIntEntry(0, 0, 0, 0, [0, 0, 0, 0], ZeroBytes(12), ZeroBytes(4), ZeroBytes(44))

  // ---- Sizes ----

  function MlSize(ml: seq<byte>): (n: nat)
    ensures n <= 8 * |ml|
    ensures n % 2 == 0
  {
    if ml == [] then 0
    else MlSize(ml[..|ml| - 1]) + if ml[|ml| - 1] < 4 then 2 * (ml[|ml| - 1] as int) else 8
  }

  function MaskSize(mask: byte): (n: nat)
    ensures n <= 10
  {
    4 * (mask / 8 % 2) + 2 * (mask / 4 % 2) + 2 * (mask / 2 % 2) + 2 * (mask % 2)
  }

  /** Size of the metadata in bytes, with the padding that makes the whole entry a multiple of four. */
  function MdSize(e: IdIntEntry): (n: nat)
    ensures n % 4 == 2 && n <= 42
  {
    var size := MaskSize(e.mask) + MlSize(e.ml);
    PaddedMetadata(size, Padding(size, 4, 2));
    size + Padding(size, 4, 2)
  }

  lemma PaddedMetadata(size: nat, padding: nat)
    requires size <= 42 && padding < 4 && (size + 2 + padding) % 4 == 0
    ensures (size + padding) % 4 == 2 && size + padding <= 42
  {
  }

  /** `IdIntEntry::mdSize` sums up in a loop; it never exceeds the 44 bytes reserved for metadata. */
  method ComputeMdSize(e: IdIntEntry) returns (n: nat)
    ensures n == MdSize(e)
  {
    var size := 0;
    if e.mask / 8 % 2 == 1 { size := size + 4; }
    if e.mask / 4 % 2 == 1 { size := size + 2; }
    if e.mask / 2 % 2 == 1 { size := size + 2; }
    if e.mask % 2 == 1 { size := size + 2; }
    var i := 0;
    while i < 4
      invariant 0 <= i <= 4 && size == MaskSize(e.mask) + MlSize(e.ml[..i])
    {
      assert e.ml[..i + 1][..i] == e.ml[..i];
      size := size + if e.ml[i] < 4 then 2 * (e.ml[i] as int) else 8;
      i := i + 1;
    }
    assert e.ml[..4] == e.ml;
    return size + Padding(size, 4, 2);
  }

  predicate Encrypted(e: IdIntEntry) { e.flags % 2 == 1 }

  /** `IdIntEntry::size` in bytes. */
  function EntrySize(e: IdIntEntry): (n: nat)
    ensures n % 4 == 0 && n > 0
  {
    SumOfFours(10 + MdSize(e), 12);
    10 + MdSize(e) + if Encrypted(e) then 12 else 0
  }

  // ---- The bits of an entry ----

  predicate WellFormedEntry(e: IdIntEntry) {
    e.dataLen >= MIN_ENTRY_LEN && e.flags < 32 && e.hop < 64 && e.mask < 16 && forall l :: l in e.ml ==> l <= 4
  }

  function FixedBits(e: IdIntEntry): (b: seq<bool>)
    ensures |b| == 48
  {
    BitsOf(ID_INT_ENTRY, 8) + BitsOf(e.dataLen, 8) + BitsOf(e.flags, 5) + Zeros(3) + BitsOf(e.hop, 6) + Zeros(2)
    + BitsOf(e.mask, 4) + ItemBits(e.ml, 3)
  }

  function NonceBits(e: IdIntEntry): seq<bool> {
    if Encrypted(e) then Bits(e.nonce) else []
  }

  function EntryBits(e: IdIntEntry): (b: seq<bool>)
    ensures |b| == 8 * EntrySize(e)
  {
    FixedBits(e) + NonceBits(e) + Bits(e.metadata[..MdSize(e)]) + Bits(e.mac)
  }

  // ---- Writing an entry ----

  method WriteFixed(ws: WriteStream, x: IdIntEntry, ghost start: seq<bool>, ghost orig: seq<byte>) returns (ok: bool)
    requires Behind(ws, start, [], orig)
    modifies ws`byteIter, ws`bitPos, ws.data
    ensures ws.Valid() && (ok <==> |start| + 48 <= 8 * ws.data.Length)
    ensures ok ==> Behind(ws, start, FixedBits(x), orig)
  {
    hide BitsOf, Bits, Behind, Zeros, ItemBits;
    ghost var e: seq<bool> := [];
    ok := PutByte(ws, ID_INT_ENTRY, start, e, orig);
    if !ok { return; }
    e := BitsOf(ID_INT_ENTRY, 8);
    StartsEmpty(e);
    ok := PutByte(ws, x.dataLen, start, e, orig);
    if !ok { return; }
    e := e + BitsOf(x.dataLen, 8);
    ok := PutBits(ws, x.flags, 8, 5, start, e, orig);
    if !ok { return; }
    e := e + BitsOf(x.flags, 5);
    ok := PutZeros(ws, 3, start, e, orig);
    if !ok { return; }
    e := e + Zeros(3);
    ok := PutBits(ws, x.hop, 8, 6, start, e, orig);
    if !ok { return; }
    e := e + BitsOf(x.hop, 6);
    ok := PutZeros(ws, 2, start, e, orig);
    if !ok { return; }
    e := e + Zeros(2);
    ok := PutBits(ws, x.mask, 8, 4, start, e, orig);
    if !ok { return; }
    e := e + BitsOf(x.mask, 4);
    ok := PutItems(ws, x.ml, 3, start, e, orig);
  }

  method WriteNonce(ws: WriteStream, x: IdIntEntry, ghost start: seq<bool>, ghost e: seq<bool>, ghost orig: seq<byte>)
    returns (ok: bool)
    requires Behind(ws, start, e, orig) && |e| == 48
    modifies ws`byteIter, ws`bitPos, ws.data
    ensures ws.Valid() && (ok <==> |start| + MdOffset(x) <= 8 * ws.data.Length)
    ensures ok ==> Behind(ws, start, e + NonceBits(x), orig)
  {
    hide Bits, Behind;
    BehindFits(ws, start, e, orig);
    if x.flags % 2 == 1 {
      ok := PutByteString(ws, x.nonce, start, e, orig);
    } else {
      assert e + [] == e;
      ok := true;
    }
  }

  method WriteEntry(ws: WriteStream, x: IdIntEntry, ghost start: seq<bool>, ghost orig: seq<byte>) returns (ok: bool)
    requires Behind(ws, start, [], orig)
    modifies ws`byteIter, ws`bitPos, ws.data
    ensures ws.Valid() && (ok <==> |start| + |EntryBits(x)| <= 8 * ws.data.Length)
    ensures ok ==> Behind(ws, start, EntryBits(x), orig)
  {
    hide Bits, Behind, FixedBits, NonceBits, MdSize, EntrySize, MdOffset;
    EntryLength(x);
    ok := WriteFixed(ws, x, start, orig);
    if !ok { return; }
    ghost var e := FixedBits(x);
    ok := WriteNonce(ws, x, start, e, orig);
    if !ok { return; }
    e := e + NonceBits(x);
    var mdSize := ComputeMdSize(x);
    ok := PutByteString(ws, x.metadata[..mdSize], start, e, orig);
    if !ok { return; }
    e := e + Bits(x.metadata[..mdSize]);
    ok := PutByteString(ws, x.mac, start, e, orig);
  }

  lemma EntryLength(x: IdIntEntry)
    ensures MdOffset(x) >= 48 && |FixedBits(x) + NonceBits(x)| == MdOffset(x)
    ensures |EntryBits(x)| == MdOffset(x) + 8 * MdSize(x) + 32
    ensures (MdOffset(x) + 8 * MdSize(x)) % 8 == 0
  {
    hide MdSize, FixedBits;
    EightTimes(MdSize(x));
    WholeBytes(MdOffset(x), 8 * MdSize(x));
  }

  // ---- What the bits of an entry mean ----

  predicate FixedOk(b: seq<bool>) {
    |b| >= 48 && Peek(b, 0, 8) == 254 && Peek(b, 8, 8) >= MIN_ENTRY_LEN && forall l :: l in PeekItems(b, 36, 3, 4) ==> l <= 4
  }

  function FixedOf(b: seq<bool>): IdIntEntry
    requires |b| >= 48
  {
    EMPTY_ENTRY.(dataLen := PeekByte(b, 8, 8), flags := PeekByte(b, 16, 5), hop := PeekByte(b, 24, 6),
                 mask := PeekByte(b, 32, 4), ml := PeekItems(b, 36, 3, 4))
  }

  /** Offset of the metadata. */
  function MdOffset(e: IdIntEntry): (k: nat)
    ensures k % 8 == 0
  {
    if Encrypted(e) then 144 else 48
  }

  /** The entry at the head of `b` and its length in bits. */
  function DecodeEntry(b: seq<bool>): (r: Option<(IdIntEntry, nat)>)
    ensures r.Some? ==> 0 < r.value.1 <= |b| && r.value.1 % 8 == 0
  {
    if !FixedOk(b) then None
    else
      var e := FixedOf(b);
      if |b| < PayloadEnd(e) then None else Some((WithPayload(b, e), PayloadEnd(e)))
  }

  /** Where the entry ends. */
  function PayloadEnd(e: IdIntEntry): (n: nat)
    ensures n > 0 && n % 8 == 0
  {
    EightTimes(MdOffset(e) / 8 + MdSize(e) + 4);
    MdOffset(e) + 8 * MdSize(e) + 32
  }

  /** The parts of an entry whose size depends on its flags, mask and lengths. */
  function WithPayload(b: seq<bool>, e: IdIntEntry): IdIntEntry
    requires |b| >= PayloadEnd(e)
  {
    var k, n := MdOffset(e), MdSize(e);
    e.(nonce := if Encrypted(e) then PeekBytes(b, 48, 12) else ZeroBytes(12),
       metadata := PeekBytes(b, k, n) + ZeroBytes(44 - n),
       mac := PeekBytes(b, k + 8 * n, 4))
  }

  // ---- Reading an entry ----

  lemma {:induction false} ItemAt(b: seq<bool>, k: nat, w: nat, n: nat, i: nat)
    requires i < n && k + n * w <= |b| && w <= 8
    ensures i * w + w <= n * w
    ensures PeekItems(b, k, w, n)[i] == PeekByte(b, k + i * w, w)
  {
    Times(n - 1, w);
    if i < n - 1 { ItemAt(b, k, w, n - 1, i); }
  }

  /** The four metadata lengths; each is checked when it has been read. */
  method TakeLengths(rs: ReadStream, ghost b: seq<bool>, ghost p: nat) returns (ok: bool, ml: Four)
    requires Ahead(rs, b, 36, p)
    modifies rs`byteIter, rs`bitPos
    ensures rs.Valid() && (ok <==> |b| >= 48 && forall l :: l in PeekItems(b, 36, 3, 4) ==> l <= 4)
    ensures ok ==> ml == PeekItems(b, 36, 3, 4) && Ahead(rs, b, 48, p)
  {
    hide Val, Pow2, Bits, Ahead;
    ml := [0, 0, 0, 0];
    var items: seq<byte>, i := [], 0;
    SmallPowers();
    AheadFits(rs, b, 36, p);
    while i < 4
      invariant 0 <= i <= 4 && 36 + i * 3 <= |b| && items == PeekItems(b, 36, 3, i)
      invariant Ahead(rs, b, 36 + i * 3, p) && forall l :: l in items ==> l <= 4
    {
      var v;
      ok, v := TakeBits(rs, 8, 3, b, 36 + i * 3, p);
      if !ok { return; }
      if v > 4 {
        if |b| >= 48 {
          ItemAt(b, 36, 3, 4, i);
          assert PeekItems(b, 36, 3, 4)[i] in PeekItems(b, 36, 3, 4);
        }
        return false, ml;
      }
      items := items + [v];
      i := i + 1;
    }
    AheadFits(rs, b, 48, p);
    return true, items;
  }

  method ReadFixed(rs: ReadStream, ghost b: seq<bool>, ghost p: nat) returns (ok: bool, x: IdIntEntry)
    requires Ahead(rs, b, 0, p)
    modifies rs`byteIter, rs`bitPos
    ensures rs.Valid() && (ok <==> FixedOk(b))
    ensures ok ==> x == FixedOf(b) && Ahead(rs, b, 48, p)
  {
    hide Val, Bits, Ahead, Pow2, PeekItems;
    x := EMPTY_ENTRY;
    var v: byte, n: nat;
    SmallPowers();
    ok, v := TakeByte(rs, b, 0, p);
    if !ok { return; }
    if v != ID_INT_ENTRY { return false, x; }
    ok, v := TakeByte(rs, b, 8, p);
    if !ok { return; }
    if v < MIN_ENTRY_LEN { return false, x; }
    x := x.(dataLen := v);
    ok, n := TakeBits(rs, 8, 5, b, 16, p);
    if !ok { return; }
    x := x.(flags := n);
    ok := Skip(rs, 3, b, 21, p);
    if !ok { return; }
    ok, n := TakeBits(rs, 8, 6, b, 24, p);
    if !ok { return; }
    x := x.(hop := n);
    ok := Skip(rs, 2, b, 30, p);
    if !ok { return; }
    ok, n := TakeBits(rs, 8, 4, b, 32, p);
    if !ok { return; }
    x := x.(mask := n);
    var ml;
    ok, ml := TakeLengths(rs, b, p);
    if ok { x := x.(ml := ml); }
  }

  method ReadEntry(rs: ReadStream, ghost b: seq<bool>, ghost p: nat) returns (ok: bool, x: IdIntEntry)
    requires Ahead(rs, b, 0, p)
    modifies rs`byteIter, rs`bitPos
    ensures rs.Valid() && (ok <==> DecodeEntry(b).Some?)
    ensures ok ==> x == DecodeEntry(b).value.0 && Ahead(rs, b, DecodeEntry(b).value.1, p)
  {
    hide Val, Bits, Ahead, Pow2, PeekItems, PeekBytes, MdSize, FixedOf, FixedOk, ZeroBytes;
    EmptyTail(b);
    ok, x := ReadFixed(rs, b, p);
    if !ok { return; }
    ghost var k := MdOffset(x);
    if x.flags % 2 == 1 {
      var nonce;
      ok, nonce := TakeBytes(rs, 12, b, 48, p);
      if !ok { return; }
      x := x.(nonce := nonce);
    }
    var mdSize := ComputeMdSize(x);
    var metadata;
    ok, metadata := TakeBytes(rs, mdSize, b, k, p);
    SameSizes(FixedOf(b), x);
    if !ok { return; }
    x := x.(metadata := metadata + x.metadata[mdSize..]);
    var mac;
    ok, mac := TakeBytes(rs, 4, b, k + 8 * mdSize, p);
    if ok { x := x.(mac := mac); }
  }

  lemma EmptyTail(b: seq<bool>)
    ensures FixedOk(b) ==> |b| >= 48
    ensures |b| >= 48 ==> FixedOf(b).metadata == ZeroBytes(44) && FixedOf(b).nonce == ZeroBytes(12)
    ensures forall n: nat | n <= 44 :: ZeroBytes(44)[n..] == ZeroBytes(44 - n)
  {
  }

  lemma SameSizes(x: IdIntEntry, y: IdIntEntry)
    requires x.mask == y.mask && x.ml == y.ml
    ensures MdSize(x) == MdSize(y)
  {
  }

  // ---- Round trip of an entry ----

  /** An entry after reading: what is not on the wire is zero. */
  function Canonical(e: IdIntEntry): IdIntEntry {
    e.(nonce := if Encrypted(e) then e.nonce else ZeroBytes(12),
       metadata := e.metadata[..MdSize(e)] + ZeroBytes(44 - MdSize(e)))
  }

  lemma FixedRoundTrip(x: IdIntEntry, b: seq<bool>)
    requires WellFormedEntry(x) && FixedBits(x) <= b
    ensures FixedOk(b)
    ensures FixedOf(b) == EMPTY_ENTRY.(dataLen := x.dataLen, flags := x.flags, hop := x.hop, mask := x.mask, ml := x.ml)
  {
    hide BitsOf, Zeros, Val, Pow2, ItemBits, PeekItems;
    SmallPowers();
    var e1 := BitsOf(ID_INT_ENTRY, 8);
    var e2 := e1 + BitsOf(x.dataLen, 8);
    var e3 := e2 + BitsOf(x.flags, 5);
    var e4 := e3 + Zeros(3);
    var e5 := e4 + BitsOf(x.hop, 6);
    var e6 := e5 + Zeros(2);
    var e7 := e6 + BitsOf(x.mask, 4);
    ItemsIn(b, e7, x.ml, 3);
    FieldIn(b, e6, x.mask, 4);
    PrefixOf(e5, Zeros(2), b);
    FieldIn(b, e4, x.hop, 6);
    PrefixOf(e3, Zeros(3), b);
    FieldIn(b, e2, x.flags, 5);
    FieldIn(b, e1, x.dataLen, 8);
    StartsEmpty(e1);
    FieldIn(b, [], ID_INT_ENTRY, 8);
  }

  /** A written entry is read back, whatever follows it. */
  lemma EntryRoundTrip(x: IdIntEntry, rest: seq<bool>)
    requires WellFormedEntry(x)
    ensures DecodeEntry(EntryBits(x) + rest) == Some((Canonical(x), |EntryBits(x)|))
  {
    hide Bits, Val, Pow2, FixedBits, FixedOk, FixedOf, MdSize, PeekBytes, ZeroBytes;
    var b := EntryBits(x) + rest;
    var e1 := FixedBits(x);
    var e2 := e1 + NonceBits(x);
    var md := x.metadata[..MdSize(x)];
    var e3 := e2 + Bits(md);
    assert e3 + Bits(x.mac) <= b;
    BytesIn(b, e3, x.mac);
    BytesIn(b, e2, md);
    PrefixOf(e1, NonceBits(x), b);
    if Encrypted(x) { BytesIn(b, e1, x.nonce); }
    FixedRoundTrip(x, b);
    SameSizes(FixedOf(b), x);
  }

  // ---- The stack ----

  function StackBits(es: seq<IdIntEntry>): (b: seq<bool>)
    ensures |b| == 8 * StackSize(es)
  {
    if es == [] then [] else StackBits(es[..|es| - 1]) + EntryBits(es[|es| - 1])
  }

  /** Bytes of all entries, always a multiple of four. */
  function StackSize(es: seq<IdIntEntry>): (n: nat)
    ensures n % 4 == 0
  {
    if es == [] then 0
    else
      SumOfFours(StackSize(es[..|es| - 1]), EntrySize(es[|es| - 1]));
      StackSize(es[..|es| - 1]) + EntrySize(es[|es| - 1])
  }

  lemma SumOfFours(m: nat, n: nat)
    requires m % 4 == 0 && n % 4 == 0
    ensures (m + n) % 4 == 0
  {
  }

  /** The entries in the `b`; padding options between them are skipped, anything else is refused. */
  function DecodeStack(b: seq<bool>): Option<seq<IdIntEntry>>
    decreases |b|
  {
    if |b| < 8 then Some([])
    else if Peek(b, 0, 8) == 254 then
      match DecodeEntry(b)
      case None => None
      case Some((e, n)) => (match DecodeStack(b[n..]) case None => None case Some(es) => Some([e] + es))
    else if Peek(b, 0, 8) == 1 && |b| >= 16 && |b| >= 16 + 8 * Peek(b, 8, 8) then DecodeStack(b[16 + 8 * Peek(b, 8, 8)..])
    else None
  }

  method WriteStack(ws: WriteStream, es: seq<IdIntEntry>, ghost start: seq<bool>, ghost orig: seq<byte>)
    returns (ok: bool)
    requires Behind(ws, start, [], orig)
    modifies ws`byteIter, ws`bitPos, ws.data
    ensures ws.Valid() && (ok <==> |start| + |StackBits(es)| <= 8 * ws.data.Length)
    ensures ok ==> Behind(ws, start, StackBits(es), orig)
  {
    hide Behind, EntryBits, Bits, StackBits;
    var i := 0;
    BehindFits(ws, start, [], orig);
    EmptyStack();
    assert es[..0] == [];
    while i < |es|
      invariant 0 <= i <= |es| && Behind(ws, start, StackBits(es[..i]), orig)
    {
      ghost var e := StackBits(es[..i]);
      StackStep(es, i);
      Rebase(ws, start, e, orig);
      ok := WriteEntry(ws, es[i], start + e, orig);
      if !ok {
        StackGrows(es, i + 1);
        return;
      }
      Unbase(ws, start, e, EntryBits(es[i]), orig);
      i := i + 1;
    }
    assert es[..i] == es;
    BehindFits(ws, start, StackBits(es), orig);
    ok := true;
  }

  lemma Rebase(ws: WriteStream, start: seq<bool>, e: seq<bool>, orig: seq<byte>)
    requires Behind(ws, start, e, orig) && |e| % 8 == 0
    ensures Behind(ws, start + e, [], orig) && |start + e| == |start| + |e|
  {
    hide Bits;
    assert start + e + [] == start + e;
    WholeBytes(|start|, |e|);
  }

  lemma Unbase(ws: WriteStream, start: seq<bool>, e: seq<bool>, x: seq<bool>, orig: seq<byte>)
    requires Behind(ws, start + e, x, orig) && |start| % 8 == 0
    ensures Behind(ws, start, e + x, orig)
  {
    hide Bits;
    Appended(start, e, x);
  }

  lemma StackStep(es: seq<IdIntEntry>, i: nat)
    requires i < |es|
    ensures StackBits(es[..i + 1]) == StackBits(es[..i]) + EntryBits(es[i])
    ensures |StackBits(es[..i])| % 8 == 0
  {
    hide EntryBits, EntrySize;
    EightTimes(StackSize(es[..i]));
    assert es[..i + 1][..i] == es[..i];
  }

  lemma {:induction false} StackGrows(es: seq<IdIntEntry>, i: nat)
    requires i <= |es|
    ensures |StackBits(es[..i])| <= |StackBits(es)|
    decreases |es|
  {
    hide EntryBits, EntrySize;
    if i < |es| {
      var n := |es| - 1;
      StackGrows(es[..n], i);
      assert es[..n][..i] == es[..i];
    } else {
      assert es[..i] == es;
    }
  }

  /** `SciOpt::serialize` when reading: returns whether the option was complete. */
  method ReadSciOpt(rs: ReadStream, ghost b: seq<bool>, ghost p: nat) returns (ok: bool)
    requires Ahead(rs, b, 0, p) && |b| >= 8 && |b| % 8 == 0
    modifies rs`byteIter, rs`bitPos
    ensures rs.Valid() && (ok <==> OptComplete(b))
    ensures Ahead(rs, b, OptConsumed(b), p)
  {
    hide Val, Bits, Ahead, Pow2;
    AheadFits(rs, b, 0, p);
    var t;
    ok, t := TakeByte(rs, b, 0, p);
    if t != PAD_1 {
      var dataLen;
      ok, dataLen := TakeByteOrStay(rs, b, 8, p);
      if !ok { return; }
      ok := SkipOrStay(rs, dataLen, b, 16, p);
    }
  }

  /** Whether the option at the head of `b` lies within `b`. */
  predicate OptComplete(b: seq<bool>)
    requires |b| >= 8
  {
    Peek(b, 0, 8) == 0 || (|b| >= 16 && |b| >= 16 + 8 * Peek(b, 8, 8))
  }

  /** How far the stream moves over the option, even when it is incomplete. */
  function OptConsumed(b: seq<bool>): (n: nat)
    requires |b| >= 8 && |b| % 8 == 0
    ensures 0 < n <= |b| && n % 8 == 0
  {
    if Peek(b, 0, 8) == 0 || |b| < 16 then 8
    else if |b| < 16 + 8 * Peek(b, 8, 8) then 16
    else 16 + 8 * Peek(b, 8, 8)
  }

  method TakeByteOrStay(rs: ReadStream, ghost b: seq<bool>, ghost k: nat, ghost p: nat) returns (ok: bool, v: byte)
    requires Ahead(rs, b, k, p)
    modifies rs`byteIter, rs`bitPos
    ensures rs.Valid() && (ok <==> k + 8 <= |b|)
    ensures ok ==> v == PeekByte(b, k, 8) && Ahead(rs, b, k + 8, p)
    ensures !ok ==> Ahead(rs, b, k, p)
  {
    hide Val, Bits, Pow2, BitsOf;
    v := 0;
    var value;
    ok, value := rs.SerializeByte();
    Pow2At8();
    if ok {
      FieldAhead(b, k, 8, value, rs.Rest());
      v := value;
    }
  }

  method SkipOrStay(rs: ReadStream, bytes: nat, ghost b: seq<bool>, ghost k: nat, ghost p: nat) returns (ok: bool)
    requires Ahead(rs, b, k, p) && k % 8 == 0
    modifies rs`byteIter, rs`bitPos
    ensures rs.Valid() && (ok <==> k + 8 * bytes <= |b|)
    ensures Ahead(rs, b, if ok then k + 8 * bytes else k, p)
  {
    hide Bits;
    ok := SkipBytes(rs, bytes, b, k, p);
  }

  /** One round of the reading loop: an entry, or padding that is dropped. */
  method ReadStackItem(rs: ReadStream, ghost b: seq<bool>, ghost p: nat)
    returns (ok: bool, items: seq<IdIntEntry>, ghost n: nat)
    requires Ahead(rs, b, 0, p) && |b| >= 8 && |b| % 8 == 0
    modifies rs`byteIter, rs`bitPos
    ensures rs.Valid() && (!ok ==> DecodeStack(b).None?)
    ensures ok ==> 0 < n <= |b| && n % 8 == 0 && Ahead(rs, b, n, p)
    ensures ok ==> Continues(DecodeStack(b), items, DecodeStack(b[n..]))
  {
    hide Bits, Val, Pow2, DecodeEntry, DecodeStack, Ahead, Continues, OptConsumed, OptComplete, Peek;
    items, n := [], 0;
    AheadFits(rs, b, 0, p);
    var nextType := NextType(rs, b, p);
    if nextType == ID_INT_ENTRY {
      var entry;
      StackEntry(b);
      ok, entry := ReadEntry(rs, b, p);
      if !ok { return; }
      items, n := [entry], DecodeEntry(b).value.1;
    } else if nextType == PAD_N {
      StackPadding(b);
      ok := ReadSciOpt(rs, b, p);
      if !ok { return; }
      n := OptConsumed(b);
      ContinuesStart(DecodeStack(b));
    } else {
      StackOther(b);
      ok := false;
    }
  }

  /** The reading loop: accepts and returns exactly what the stack means. */
  method ReadStack(stack: seq<byte>) returns (ok: bool, entries: seq<IdIntEntry>)
    ensures ok <==> DecodeStack(Bits(stack)).Some?
    ensures ok ==> DecodeStack(Bits(stack)) == Some(entries)
  {
    hide *;
    var rs := new ReadStream(stack);
    entries := [];
    ghost var b, p := Bits(stack), 0;
    ghost var all := DecodeStack(b);
    StartAhead(rs);
    ContinuesStart(all);
    while true
      invariant Ahead(rs, b, 0, p) && |b| % 8 == 0
      invariant Continues(all, entries, DecodeStack(b))
      decreases |b|
    {
      ContinuesEnd(all, entries, DecodeStack(b));
      var more := MoreAhead(rs, b, p);
      if !more {
        StackEnd();
        return true, entries;
      }
      var items; ghost var n;
      ok, items, n := ReadStackItem(rs, b, p);
      if !ok { return; }
      ContinuesThen(all, entries, DecodeStack(b), items, DecodeStack(b[n..]));
      entries := entries + items;
      AheadAgain(rs, b, n, p);
      b, p := b[n..], p + n;
    }
  }

  lemma ContinuesStart(all: Option<seq<IdIntEntry>>)
    ensures Continues(all, [], all)
  {
    if all.Some? { assert [] + all.value == all.value; }
  }

  /** The meaning of the whole is the entries read so far and the meaning of the rest. */
  ghost predicate Continues(all: Option<seq<IdIntEntry>>, entries: seq<IdIntEntry>, rest: Option<seq<IdIntEntry>>) {
    (all.Some? <==> rest.Some?) && (all.Some? ==> all.value == entries + rest.value)
  }

  lemma StackEnd()
    ensures DecodeStack([]) == Some([])
  {
  }

  lemma StackEntry(b: seq<bool>)
    requires |b| >= 8 && Peek(b, 0, 8) == 254
    ensures DecodeEntry(b).None? ==> DecodeStack(b).None?
    ensures DecodeEntry(b).Some? ==>
              Continues(DecodeStack(b), [DecodeEntry(b).value.0], DecodeStack(b[DecodeEntry(b).value.1..]))
  {
    hide DecodeEntry;
  }

  lemma StackPadding(b: seq<bool>)
    requires |b| >= 8 && |b| % 8 == 0 && Peek(b, 0, 8) == 1
    ensures DecodeStack(b) == if OptComplete(b) then DecodeStack(b[OptConsumed(b)..]) else None
  {
    hide DecodeEntry;
  }

  lemma StackOther(b: seq<bool>)
    requires |b| >= 8 && Peek(b, 0, 8) != 254 && Peek(b, 0, 8) != 1
    ensures DecodeStack(b).None?
  {
    hide DecodeEntry;
  }

  lemma ContinuesThen(all: Option<seq<IdIntEntry>>, entries: seq<IdIntEntry>, mid: Option<seq<IdIntEntry>>,
                      more: seq<IdIntEntry>, rest: Option<seq<IdIntEntry>>)
    requires Continues(all, entries, mid) && Continues(mid, more, rest)
    ensures Continues(all, entries + more, rest)
  {
    if rest.Some? { assert entries + (more + rest.value) == entries + more + rest.value; }
  }

  lemma ContinuesEnd(all: Option<seq<IdIntEntry>>, entries: seq<IdIntEntry>, rest: Option<seq<IdIntEntry>>)
    requires Continues(all, entries, rest)
    ensures rest.None? ==> all.None?
    ensures rest == Some([]) ==> all == Some(entries)
  {
    assert entries + [] == entries;
  }

  lemma StartAhead(rs: ReadStream)
    requires rs.Valid() && rs.bitPos == 0
    ensures Ahead(rs, rs.Rest(), 0, rs.Pos()) && |rs.Rest()| % 8 == 0
  {
    hide Bits;
    WholeRest(rs.data, rs.byteIter);
  }

  lemma WholeRest(data: seq<byte>, i: nat)
    requires i <= |data|
    ensures |Bits(data)[8 * i..]| == 8 * (|data| - i)
  {
  }

  lemma AheadAgain(rs: ReadStream, b: seq<bool>, n: nat, p: nat)
    requires Ahead(rs, b, n, p) && n % 8 == 0 && |b| % 8 == 0
    ensures n <= |b| && Ahead(rs, b[n..], 0, p + n) && |b[n..]| % 8 == 0
  {
    hide Bits;
    WholeBytes(p, n);
  }

  method MoreAhead(rs: ReadStream, ghost b: seq<bool>, ghost p: nat) returns (more: bool)
    requires Ahead(rs, b, 0, p)
    ensures more <==> b != []
  {
    hide Bits;
    more := rs.More();
  }

  /** One byte of lookahead. */
  method NextType(rs: ReadStream, ghost b: seq<bool>, ghost p: nat) returns (t: byte)
    requires Ahead(rs, b, 0, p) && |b| >= 8
    ensures t == Peek(b, 0, 8)
  {
    hide Bits, Val, Pow2, BitsOf;
    var ok, view := rs.Lookahead(1);
    t := view[0];
    OneByte(view);
    ByteAhead(b, 0, t);
  }

  lemma OneByte(view: seq<byte>)
    requires |view| == 1
    ensures Bits(view) == BitsOf(view[0], 8)
  {
    BitsSnoc([], view[0]);
    assert [] + view == view && Bits([]) == [];
    assert [] + [view[0]] == view;
  }

  // ---- Round trip of the stack ----

  function CanonicalAll(es: seq<IdIntEntry>): (r: seq<IdIntEntry>)
    ensures |r| == |es| && forall i :: 0 <= i < |es| ==> r[i] == Canonical(es[i])
  {
    seq(|es|, i requires 0 <= i < |es| => Canonical(es[i]))
  }

  /** The stack bits seen from the front. */
  lemma {:induction false} StackFront(es: seq<IdIntEntry>)
    requires es != []
    ensures StackBits(es) == EntryBits(es[0]) + StackBits(es[1..])
  {
    hide EntryBits;
    var n := |es| - 1;
    if n == 0 {
      assert es[..0] == [] && es[1..] == [];
      assert [] + EntryBits(es[0]) == EntryBits(es[0]) + [];
    } else {
      StackFront(es[..n]);
      assert es[..n][1..] == es[1..][..n - 1];
      Appended(EntryBits(es[0]), StackBits(es[1..][..n - 1]), EntryBits(es[n]));
    }
  }

  /** Entries and at most 257 bytes of padding behind them are read back as the entries. */
  lemma {:induction false} StackRoundTrip(es: seq<IdIntEntry>, padding: nat)
    requires (forall e :: e in es ==> WellFormedEntry(e)) && padding != 1 && padding <= 257
    ensures DecodeStack(StackBits(es) + PaddingBits(padding)) == Some(CanonicalAll(es))
  {
    hide EntryBits, DecodeEntry, StackBits, Canonical, PaddingBits, Val;
    if es == [] {
      EmptyStack();
      assert [] + PaddingBits(padding) == PaddingBits(padding);
      PaddingStack(padding);
    } else {
      var tail := StackBits(es[1..]) + PaddingBits(padding);
      assert es[0] in es && forall x :: x in es[1..] ==> x in es;
      StackRoundTrip(es[1..], padding);
      StackFront(es);
      StackTail(es[1..], padding);
      EntryThenRest(es[0], tail);
      Appended(EntryBits(es[0]), StackBits(es[1..]), PaddingBits(padding));
      assert [Canonical(es[0])] + CanonicalAll(es[1..]) == CanonicalAll(es);
    }
  }

  lemma StackTail(es: seq<IdIntEntry>, padding: nat)
    ensures |StackBits(es) + PaddingBits(padding)| % 8 == 0
  {
    hide StackBits, PaddingBits, StackSize;
    PaddingSize(padding);
    EightTimes(StackSize(es));
    WholeBytes(|StackBits(es)|, |PaddingBits(padding)|);
  }

  lemma EightTimes(n: nat)
    ensures 8 * n % 8 == 0
  {
  }

  lemma EntryThenRest(e: IdIntEntry, rest: seq<bool>)
    requires WellFormedEntry(e) && |rest| % 8 == 0
    ensures Continues(DecodeStack(EntryBits(e) + rest), [Canonical(e)], DecodeStack(rest))
  {
    hide EntryBits, DecodeEntry, DecodeStack, Canonical, Val, Continues;
    var b := EntryBits(e) + rest;
    EntryRoundTrip(e, rest);
    EntryType(e, rest);
    WholeBytes(|EntryBits(e)|, |rest|);
    StackEntry(b);
    assert b[|EntryBits(e)|..] == rest;
  }

  lemma EmptyStack()
    ensures StackBits([]) == []
  {
  }

  lemma EntryType(e: IdIntEntry, rest: seq<bool>)
    ensures |EntryBits(e) + rest| >= 8 && Peek(EntryBits(e) + rest, 0, 8) == 254
  {
    hide Val, BitsOf, Bits, Zeros, ItemBits;
    var b := EntryBits(e) + rest;
    FixedFirst(e);
    assert BitsOf(ID_INT_ENTRY, 8) == b[0..8];
    ByteAhead(b, 0, ID_INT_ENTRY);
  }

  lemma FixedFirst(e: IdIntEntry)
    ensures FixedBits(e)[..8] == BitsOf(ID_INT_ENTRY, 8)
  {
    hide BitsOf, Zeros, ItemBits;
  }

  /** A padding option is skipped as a whole. */
  lemma PaddingAhead(n: nat, rest: seq<bool>)
    requires 0 < n <= 257 && |rest| % 8 == 0
    ensures var b := PaddingBits(n) + rest;
            |b| >= 8 && Peek(b, 0, 8) == (if n == 1 then 0 else 1) && |b| % 8 == 0
            && OptComplete(b) && OptConsumed(b) == 8 * n && b[8 * n..] == rest
  {
    hide Val, BitsOf, Zeros;
    var b := PaddingBits(n) + rest;
    PaddingSize(n);
    assert b[8 * n..] == rest;
    if n == 1 {
      ByteAhead(b, 0, PAD_1);
    } else {
      var d: byte := n - 2;
      TwoBytesFirst(BitsOf(PAD_N, 8), BitsOf(d, 8), Zeros(8 * d), rest);
      ByteAhead(b, 0, PAD_N);
      ByteAhead(b, 8, d);
    }
  }

  lemma TwoBytesFirst(x: seq<bool>, y: seq<bool>, z: seq<bool>, rest: seq<bool>)
    requires |x| == |y| == 8
    ensures (x + y + z + rest)[0..8] == x && (x + y + z + rest)[8..16] == y
  {
  }

  lemma PaddingStack(n: nat)
    requires n != 1 && n <= 257
    ensures DecodeStack(PaddingBits(n)) == Some([])
  {
    hide PaddingBits, Val, DecodeEntry;
    if n == 0 {
      NoPadding();
    } else {
      PaddingAhead(n, []);
      assert PaddingBits(n) + [] == PaddingBits(n);
      StackPadding(PaddingBits(n));
      StackEnd();
    }
  }

  lemma NoPadding()
    ensures PaddingBits(0) == []
  {
  }
}
