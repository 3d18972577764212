/**
 The two ID-INT options: the main option and the telemetry stack entries.
 */
module IdIntHeaders {
  import opened Words
  import opened BitStream
  import opened Address
  import opened Tlv

  type Four = s: seq<byte> | |s| == 4 witness [0, 0, 0, 0]

  // ---- Fields in a row ----

  function ItemBits(vs: seq<byte>, w: nat): (b: seq<bool>)
    ensures |b| == |vs| * w
  {
    if vs == [] then []
    else
      Times(|vs| - 1, w);
      ItemBits(vs[..|vs| - 1], w) + BitsOf(vs[|vs| - 1], w)
  }

  lemma Times(n: nat, w: nat)
    ensures (n + 1) * w == n * w + w
    ensures n <= 3 ==> n * w + w <= 4 * w
  {
  }

  function PeekItems(b: seq<bool>, k: nat, w: nat, n: nat): (vs: seq<byte>)
    requires k + n * w <= |b| && w <= 8
    ensures |vs| == n
  {
    if n == 0 then []
    else
      Times(n - 1, w);
      PeekItems(b, k, w, n - 1) + [PeekByte(b, k + (n - 1) * w, w)]
  }

  method PutItems(ws: WriteStream, vs: Four, w: nat, ghost start: seq<bool>, ghost e: seq<bool>, ghost orig: seq<byte>)
    returns (ok: bool)
    requires Behind(ws, start, e, orig) && 0 < w <= 8
    modifies ws`byteIter, ws`bitPos, ws.data
    ensures ws.Valid() && (ok <==> |start| + |e| + 4 * w <= 8 * ws.data.Length)
    ensures ok ==> Behind(ws, start, e + ItemBits(vs, w), orig)
  {
    hide BitsOf, Bits, Behind;
    var i := 0;
    assert e + ItemBits(vs[..0], w) == e;
    while i < 4
      invariant 0 <= i <= 4 && Behind(ws, start, e + ItemBits(vs[..i], w), orig)
    {
      Times(i, w);
      ok := PutBits(ws, vs[i], 8, w, start, e + ItemBits(vs[..i], w), orig);
      if !ok { return; }
      ItemStep(vs, i, w);
      Appended(e, ItemBits(vs[..i], w), BitsOf(vs[i], w));
      i := i + 1;
    }
    assert vs[..4] == vs;
    BehindFits(ws, start, e + ItemBits(vs, w), orig);
    ok := true;
  }

  lemma ItemStep(vs: seq<byte>, i: nat, w: nat)
    requires i < |vs|
    ensures ItemBits(vs[..i + 1], w) == ItemBits(vs[..i], w) + BitsOf(vs[i], w)
  {
    hide BitsOf;
    assert vs[..i + 1][..i] == vs[..i];
  }

  lemma BehindFits(ws: WriteStream, start: seq<bool>, e: seq<bool>, orig: seq<byte>)
    requires Behind(ws, start, e, orig)
    ensures ws.Valid() && |start| + |e| <= 8 * ws.data.Length && |start| % 8 == 0
  {
    hide Bits;
    assert |ws.Written()| == ws.Pos();
  }

  lemma AheadFits(rs: ReadStream, b: seq<bool>, k: nat, p: nat)
    requires Ahead(rs, b, k, p)
    ensures rs.Valid() && k <= |b|
  {
  }

  method TakeItems(rs: ReadStream, w: nat, ghost b: seq<bool>, ghost k: nat, ghost p: nat) returns (ok: bool, vs: Four)
    requires Ahead(rs, b, k, p) && 0 < w <= 8
    modifies rs`byteIter, rs`bitPos
    ensures rs.Valid() && (ok <==> k + 4 * w <= |b|)
    ensures ok ==> vs == PeekItems(b, k, w, 4) && Ahead(rs, b, k + 4 * w, p)
  {
    hide Val, Pow2, Bits, Ahead;
    vs := [0, 0, 0, 0];
    var items: seq<byte>, i := [], 0;
    Pow2At8();
    PowerGrows(w, 8);
    AheadFits(rs, b, k, p);
    while i < 4
      invariant 0 <= i <= 4 && k + i * w <= |b| && items == PeekItems(b, k, w, i)
      invariant Ahead(rs, b, k + i * w, p)
    {
      Times(i, w);
      var v;
      ok, v := TakeBits(rs, 8, w, b, k + i * w, p);
      if !ok { return; }
      items := items + [v];
      i := i + 1;
    }
    AheadFits(rs, b, k + 4 * w, p);
    return true, items;
  }

  /** A field of a known layout is found again at its offset. */
  lemma FieldIn(b: seq<bool>, e: seq<bool>, v: nat, w: nat)
    requires e + BitsOf(v, w) <= b && v < Pow2(w)
    ensures e <= b && Peek(b, |e|, w) == v
  {
    hide BitsOf, Val, Pow2;
    assert b[|e|..|e| + w] == (e + BitsOf(v, w))[|e|..] == BitsOf(v, w);
    ValBitsOf(v, w);
    LowOfSmall(v, w);
    PrefixOf(e, BitsOf(v, w), b);
  }

  lemma PrefixOf(e: seq<bool>, x: seq<bool>, b: seq<bool>)
    requires e + x <= b
    ensures e <= b && b[|e|..|e| + |x|] == x
  {
    assert b[..|e|] == (e + x)[..|e|] == e;
    assert b[|e|..|e| + |x|] == b[..|e| + |x|][|e|..] == x;
  }

  lemma {:induction false} ItemsIn(b: seq<bool>, e: seq<bool>, vs: seq<byte>, w: nat)
    requires e + ItemBits(vs, w) <= b && w <= 8 && forall v :: v in vs ==> v < Pow2(w)
    ensures |e| + |vs| * w <= |b| && e <= b && PeekItems(b, |e|, w, |vs|) == vs
  {
    hide BitsOf, Pow2;
    if vs == [] {
      assert e + [] == e;
    } else {
      var n := |vs| - 1;
      Times(n, w);
      assert vs[n] in vs && forall v :: v in vs[..n] ==> v in vs;
      Appended(e, ItemBits(vs[..n], w), BitsOf(vs[n], w));
      FieldIn(b, e + ItemBits(vs[..n], w), vs[n], w);
      ItemsIn(b, e, vs[..n], w);
    }
  }

  lemma {:induction false} BytesIn(b: seq<bool>, e: seq<bool>, s: seq<byte>)
    requires e + Bits(s) <= b
    ensures |e| + 8 * |s| <= |b| && e <= b && PeekBytes(b, |e|, |s|) == s
  {
    PrefixOf(e, Bits(s), b);
    BytesAhead(b, |e|, s);
  }

  lemma SmallPowers()
    ensures Pow2(2) == 4 && Pow2(3) == 8 && Pow2(4) == 16 && Pow2(5) == 32 && Pow2(6) == 64 && Pow2(8) == 256
  {
  }

  lemma WordPowers()
    ensures Pow2(16) == 0x1_0000 && Pow2(32) == 0x1_0000_0000 && Pow2(48) == 0x1_0000_0000_0000
    ensures Pow2(64) == 0x1_0000_0000_0000_0000
  {
    hide Pow2;
    Pow2At8();
    Pow2Sum(8, 8);
    Pow2Sum(16, 16);
    Pow2Sum(32, 16);
    Pow2Sum(32, 32);
  }

  function PeekWord(b: seq<bool>, k: nat, n: nat): (v: u64)
    requires k + 8 * n <= |b| && n <= 8
    ensures v == Peek(b, k, 8 * n) && v < Pow2(8 * n)
  {
    WordPowers();
    PowerGrows(8 * n, 64);
    Peek(b, k, 8 * n)
  }

  // ---- The main option ----

  const ID_INT: byte := 253
  const THIRD_PARTY: byte := 0
  const MIN_DATA_LEN := 22
  const ADDR_IPV4: byte := 0
  const ADDR_IPV6: byte := 3

  datatype IdIntOpt = IdIntOpt(
    dataLen: byte, flags: byte, agrMode: byte, vtype: byte, stackLen: byte, tos: byte, delayHops: byte,
    bitmap: byte, agrFunc: Four, instr: Four, sourceTS: u64, sourcePort: u16, verifier: ScAddress)

  const EMPTY_OPT := IdIntOpt(0, 0, 0, 1, 0, 0, 0, 0, [0, 0, 0, 0], [0, 0, 0, 0], 0, 0, ScAddress(0, IPv6(0, 0, "")))

  function AddrType(o: IdIntOpt): byte {
    if o.vtype == THIRD_PARTY && o.verifier.host.IPv6? then ADDR_IPV6 else ADDR_IPV4
  }

  /** `IdIntOpt::size` in bytes. */
  function OptSize(o: IdIntOpt): (n: nat)
    ensures n % 4 == 2
  {
    MIN_DATA_LEN + if o.vtype != THIRD_PARTY then 0 else if o.verifier.host.IPv4? then 12 else 24
  }

  /** Field values within their widths; the lowest flag is reserved. */
  predicate WellFormedOpt(o: IdIntOpt) {
    && o.dataLen >= MIN_DATA_LEN && o.flags < 32 && o.flags % 2 == 0 && o.agrMode < 4 && o.vtype < 4
    && o.delayHops < 64 && o.bitmap < 16 && (forall f :: f in o.agrFunc ==> f < 8)
    && o.sourceTS < 0x1_0000_0000_0000
    && (o.vtype == THIRD_PARTY ==> o.verifier.host.ZoneFree())
  }

  function HeadBits(o: IdIntOpt): (b: seq<bool>)
    ensures |b| == 64
  {
    BitsOf(ID_INT, 8) + BitsOf(o.dataLen, 8) + BitsOf(0, 3) + BitsOf(o.flags, 5) + BitsOf(o.agrMode, 2)
    + BitsOf(o.vtype, 2) + BitsOf(AddrType(o), 4) + BitsOf(o.stackLen, 8) + BitsOf(o.tos, 8)
    + BitsOf(o.delayHops, 6) + Zeros(10)
  }

  function TailBits(o: IdIntOpt): (b: seq<bool>)
    ensures |b| == 112
  {
    BitsOf(o.bitmap, 4) + ItemBits(o.agrFunc, 3) + ItemBits(o.instr, 8) + BitsOf(o.sourceTS, 48)
    + BitsOf(o.sourcePort, 16)
  }

  function HostBits(ip: IPAddress): seq<bool> {
    match ip case IPv4(a) => BitsOf(a, 32) case IPv6(hi, lo, _) => BitsOf(hi, 64) + BitsOf(lo, 64)
  }

  function VerifierBits(o: IdIntOpt): seq<bool> {
    if o.vtype == THIRD_PARTY then BitsOf(o.verifier.isdAsn, 64) + HostBits(o.verifier.host) else []
  }

  function OptBits(o: IdIntOpt): (b: seq<bool>)
    ensures |b| == 8 * OptSize(o)
  {
    HeadBits(o) + TailBits(o) + VerifierBits(o)
  }

  // ---- Writing the main option ----

  method WriteHead(ws: WriteStream, o: IdIntOpt, ghost start: seq<bool>, ghost orig: seq<byte>) returns (ok: bool)
    requires Behind(ws, start, [], orig)
    modifies ws`byteIter, ws`bitPos, ws.data
    ensures ws.Valid() && (ok <==> |start| + 64 <= 8 * ws.data.Length)
    ensures ok ==> Behind(ws, start, HeadBits(o), orig)
  {
    hide BitsOf, Bits, Behind, Zeros;
    ghost var e: seq<bool> := [];
    ok := PutByte(ws, ID_INT, start, e, orig);
    if !ok { return; }
    e := BitsOf(ID_INT, 8);
    StartsEmpty(e);
    ok := PutByte(ws, o.dataLen, start, e, orig);
    if !ok { return; }
    e := e + BitsOf(o.dataLen, 8);
    ok := PutBits(ws, 0, 8, 3, start, e, orig);
    if !ok { return; }
    e := e + BitsOf(0, 3);
    ok := PutBits(ws, o.flags, 8, 5, start, e, orig);
    if !ok { return; }
    e := e + BitsOf(o.flags, 5);
    ok := PutBits(ws, o.agrMode, 8, 2, start, e, orig);
    if !ok { return; }
    e := e + BitsOf(o.agrMode, 2);
    ok := PutBits(ws, o.vtype, 8, 2, start, e, orig);
    if !ok { return; }
    e := e + BitsOf(o.vtype, 2);
    ok := PutBits(ws, AddrType(o), 8, 4, start, e, orig);
    if !ok { return; }
    e := e + BitsOf(AddrType(o), 4);
    ok := PutByte(ws, o.stackLen, start, e, orig);
    if !ok { return; }
    e := e + BitsOf(o.stackLen, 8);
    ok := PutByte(ws, o.tos, start, e, orig);
    if !ok { return; }
    e := e + BitsOf(o.tos, 8);
    ok := PutBits(ws, o.delayHops, 8, 6, start, e, orig);
    if !ok { return; }
    e := e + BitsOf(o.delayHops, 6);
    ok := PutZeros(ws, 10, start, e, orig);
  }

  lemma StartsEmpty(e: seq<bool>)
    ensures [] + e == e
  {
  }

  method WriteTail(ws: WriteStream, o: IdIntOpt, ghost start: seq<bool>, ghost h: seq<bool>, ghost orig: seq<byte>)
    returns (ok: bool)
    requires Behind(ws, start, h, orig) && |h| == 64
    modifies ws`byteIter, ws`bitPos, ws.data
    ensures ws.Valid() && (ok <==> |start| + |h| + 112 <= 8 * ws.data.Length)
    ensures ok ==> Behind(ws, start, h + TailBits(o), orig)
  {
    hide BitsOf, Bits, Behind, ItemBits, TailBits;
    ghost var e := h;
    ok := PutBits(ws, o.bitmap, 8, 4, start, e, orig);
    if !ok { return; }
    e := e + BitsOf(o.bitmap, 4);
    assert |e| == 68;
    ok := PutItems(ws, o.agrFunc, 3, start, e, orig);
    if !ok { return; }
    e := e + ItemBits(o.agrFunc, 3);
    assert |e| == 80;
    ok := PutItems(ws, o.instr, 8, start, e, orig);
    if !ok { return; }
    e := e + ItemBits(o.instr, 8);
    assert |e| == 112;
    ok := PutBits(ws, o.sourceTS, 64, 48, start, e, orig);
    if !ok { return; }
    e := e + BitsOf(o.sourceTS, 48);
    assert |e| == 160;
    ok := PutWord(ws, o.sourcePort, 2, start, e, orig);
    if ok { TailParts(o, h); }
  }

  lemma TailParts(o: IdIntOpt, h: seq<bool>)
    ensures h + BitsOf(o.bitmap, 4) + ItemBits(o.agrFunc, 3) + ItemBits(o.instr, 8) + BitsOf(o.sourceTS, 48)
            + BitsOf(o.sourcePort, 16) == h + TailBits(o)
  {
    FiveParts(h, BitsOf(o.bitmap, 4), ItemBits(o.agrFunc, 3), ItemBits(o.instr, 8), BitsOf(o.sourceTS, 48),
              BitsOf(o.sourcePort, 16));
  }

  lemma FiveParts(h: seq<bool>, a: seq<bool>, b: seq<bool>, c: seq<bool>, d: seq<bool>, e: seq<bool>)
    ensures h + a + b + c + d + e == h + (a + b + c + d + e)
  {
  }

  /** `IPAddress::serialize`: four bytes, or sixteen. */
  method WriteHost(ws: WriteStream, ip: IPAddress, ghost start: seq<bool>, ghost h: seq<bool>, ghost orig: seq<byte>)
    returns (ok: bool)
    requires Behind(ws, start, h, orig) && |h| % 8 == 0
    modifies ws`byteIter, ws`bitPos, ws.data
    ensures ws.Valid() && (ok <==> |start| + |h| + |HostBits(ip)| <= 8 * ws.data.Length)
    ensures ok ==> Behind(ws, start, h + HostBits(ip), orig)
  {
    hide BitsOf, Bits, Behind;
    match ip {
      case IPv4(a) =>
        ok := PutWord(ws, a, 4, start, h, orig);
      case IPv6(hi, lo, _) =>
        ok := PutWord(ws, hi, 8, start, h, orig);
        if !ok { return; }
        ok := PutWord(ws, lo, 8, start, h + BitsOf(hi, 64), orig);
        if ok { Appended(h, BitsOf(hi, 64), BitsOf(lo, 64)); }
    }
  }

  method WriteOpt(ws: WriteStream, o: IdIntOpt, ghost start: seq<bool>, ghost orig: seq<byte>) returns (ok: bool)
    requires Behind(ws, start, [], orig)
    modifies ws`byteIter, ws`bitPos, ws.data
    ensures ws.Valid() && (ok <==> |start| + |OptBits(o)| <= 8 * ws.data.Length)
    ensures ok ==> Behind(ws, start, OptBits(o), orig)
  {
    hide BitsOf, Bits, Behind, HeadBits, TailBits;
    ok := WriteHead(ws, o, start, orig);
    if !ok { return; }
    ghost var e := HeadBits(o);
    ok := WriteTail(ws, o, start, e, orig);
    if !ok { return; }
    e := e + TailBits(o);
    if o.vtype == THIRD_PARTY {
      ok := PutWord(ws, o.verifier.isdAsn, 8, start, e, orig);
      if !ok { return; }
      ok := WriteHost(ws, o.verifier.host, start, e + BitsOf(o.verifier.isdAsn, 64), orig);
      if ok { Appended(e, BitsOf(o.verifier.isdAsn, 64), HostBits(o.verifier.host)); }
    } else {
      assert e + [] == e;
      BehindFits(ws, start, e, orig);
    }
  }

  // ---- What the bits of a main option mean ----

  predicate HeadOk(b: seq<bool>) {
    |b| >= 64 && Peek(b, 0, 8) == 253 && Peek(b, 8, 8) >= MIN_DATA_LEN && Peek(b, 16, 3) == 0 && Peek(b, 19, 5) % 2 == 0
  }

  function HeadOf(b: seq<bool>, was: IdIntOpt): IdIntOpt
    requires |b| >= 64
  {
    was.(dataLen := PeekByte(b, 8, 8), flags := PeekByte(b, 19, 5), agrMode := PeekByte(b, 24, 2),
         vtype := PeekByte(b, 26, 2), stackLen := PeekByte(b, 32, 8), tos := PeekByte(b, 40, 8),
         delayHops := PeekByte(b, 48, 6))
  }

  function TailOf(b: seq<bool>, o: IdIntOpt): IdIntOpt
    requires |b| >= 176
  {
    WordPowers();
    o.(bitmap := PeekByte(b, 64, 4), agrFunc := PeekItems(b, 68, 3, 4), instr := PeekItems(b, 80, 8, 4),
       sourceTS := PeekWord(b, 112, 6), sourcePort := PeekWord(b, 160, 2))
  }

  function HostOf(b: seq<bool>, k: nat, v4: bool): IPAddress
    requires k + (if v4 then 32 else 128) <= |b|
  {
    WordPowers();
    if v4 then IPv4(PeekWord(b, k, 4)) else IPv6(PeekWord(b, k, 8), PeekWord(b, k + 64, 8), "")
  }

  /** The option at the head of `b` and its length in bits; fields that are absent keep their value. */
  function DecodeOpt(b: seq<bool>, was: IdIntOpt): (r: Option<(IdIntOpt, nat)>)
    ensures r.Some? ==> 0 < r.value.1 <= |b| && r.value.1 % 8 == 0
  {
    if !HeadOk(b) || |b| < 176 then None
    else
      var o, v4 := TailOf(b, HeadOf(b, was)), Peek(b, 28, 4) == 0;
      if |b| < OptEnd(o, v4) then None else Some((WithVerifier(b, o, v4), OptEnd(o, v4)))
  }

  function OptEnd(o: IdIntOpt, v4: bool): (n: nat)
    ensures n >= 176 && n % 8 == 0
  {
    if o.vtype != THIRD_PARTY then 176 else if v4 then 272 else 368
  }

  function WithVerifier(b: seq<bool>, o: IdIntOpt, v4: bool): IdIntOpt
    requires |b| >= OptEnd(o, v4)
  {
    if o.vtype != THIRD_PARTY then o
    else o.(verifier := ScAddress(PeekWord(b, 176, 8), HostOf(b, 240, v4)))
  }

  // ---- Reading the main option ----

  method ReadHead(rs: ReadStream, was: IdIntOpt, ghost b: seq<bool>, ghost p: nat)
    returns (ok: bool, o: IdIntOpt, addrType: nat)
    requires Ahead(rs, b, 0, p)
    modifies rs`byteIter, rs`bitPos
    ensures rs.Valid() && (ok <==> HeadOk(b))
    ensures ok ==> Ahead(rs, b, 64, p) && o == HeadOf(b, was) && addrType == Peek(b, 28, 4)
  {
    hide Val, Bits, Ahead, Pow2;
    o, addrType := was, 0;
    var v: byte, n: nat;
    SmallPowers();
    ok, v := TakeByte(rs, b, 0, p);
    if !ok { return; }
    if v != ID_INT { return false, o, 0; }
    ok, v := TakeByte(rs, b, 8, p);
    if !ok { return; }
    if v < MIN_DATA_LEN { return false, o, 0; }
    o := o.(dataLen := v);
    ok, n := TakeBits(rs, 8, 3, b, 16, p);
    if !ok { return; }
    if n != 0 { return false, o, 0; }
    ok, n := TakeBits(rs, 8, 5, b, 19, p);
    if !ok { return; }
    if n % 2 == 1 { return false, o, 0; }
    o := o.(flags := n);
    ok, n := TakeBits(rs, 8, 2, b, 24, p);
    if !ok { return; }
    o := o.(agrMode := n);
    ok, n := TakeBits(rs, 8, 2, b, 26, p);
    if !ok { return; }
    o := o.(vtype := n);
    ok, addrType := TakeBits(rs, 8, 4, b, 28, p);
    if !ok { return; }
    ok, v := TakeByte(rs, b, 32, p);
    if !ok { return; }
    o := o.(stackLen := v);
    ok, v := TakeByte(rs, b, 40, p);
    if !ok { return; }
    o := o.(tos := v);
    ok, n := TakeBits(rs, 8, 6, b, 48, p);
    if !ok { return; }
    o := o.(delayHops := n);
    ok := Skip(rs, 10, b, 54, p);
  }

  method ReadTail(rs: ReadStream, was: IdIntOpt, ghost b: seq<bool>, ghost p: nat) returns (ok: bool, o: IdIntOpt)
    requires Ahead(rs, b, 64, p)
    modifies rs`byteIter, rs`bitPos
    ensures rs.Valid() && (ok <==> |b| >= 176)
    ensures ok ==> Ahead(rs, b, 176, p) && o == TailOf(b, was)
  {
    hide Val, Bits, Ahead, Pow2, PeekItems;
    o := was;
    var v: nat, items: Four;
    SmallPowers();
    WordPowers();
    ok, v := TakeBits(rs, 8, 4, b, 64, p);
    if !ok { return; }
    o := o.(bitmap := v);
    ok, items := TakeItems(rs, 3, b, 68, p);
    if !ok { return; }
    o := o.(agrFunc := items);
    ok, items := TakeItems(rs, 8, b, 80, p);
    if !ok { return; }
    o := o.(instr := items);
    ok, v := TakeBits(rs, 64, 48, b, 112, p);
    if !ok { return; }
    o := o.(sourceTS := v);
    ok, v := TakeWord(rs, 2, b, 160, p);
    if !ok { return; }
    o := o.(sourcePort := v);
  }

  method ReadHost(rs: ReadStream, v4: bool, ghost b: seq<bool>, ghost k: nat, ghost p: nat) returns (ok: bool, ip: IPAddress)
    requires Ahead(rs, b, k, p) && k % 8 == 0
    modifies rs`byteIter, rs`bitPos
    ensures rs.Valid() && (ok <==> k + (if v4 then 32 else 128) <= |b|)
    ensures ok ==> ip == HostOf(b, k, v4) && Ahead(rs, b, k + (if v4 then 32 else 128), p)
  {
    hide Val, Bits, Ahead, Pow2;
    ip := IPv6(0, 0, "");
    WordPowers();
    if v4 {
      var v;
      ok, v := TakeWord(rs, 4, b, k, p);
      if ok { ip := IPv4(v); }
    } else {
      var hi, lo;
      ok, hi := TakeWord(rs, 8, b, k, p);
      if !ok { return; }
      ok, lo := TakeWord(rs, 8, b, k + 64, p);
      if ok { ip := IPv6(hi, lo, ""); }
    }
  }

  method ReadOpt(rs: ReadStream, was: IdIntOpt, ghost b: seq<bool>, ghost p: nat) returns (ok: bool, o: IdIntOpt)
    requires Ahead(rs, b, 0, p)
    modifies rs`byteIter, rs`bitPos
    ensures rs.Valid() && (ok <==> DecodeOpt(b, was).Some?)
    ensures ok ==> var d := DecodeOpt(b, was).value; o == d.0 && d.1 <= |b| && Ahead(rs, b, d.1, p)
  {
    hide Val, Bits, Ahead, Pow2, HeadOk, HeadOf, HostOf;
    var addrType;
    NeedsHead(b);
    ok, o, addrType := ReadHead(rs, was, b, p);
    if !ok { return; }
    ok, o := ReadTail(rs, o, b, p);
    if !ok { return; }
    if o.vtype == THIRD_PARTY {
      var ia, host;
      WordPowers();
      ok, ia := TakeWord(rs, 8, b, 176, p);
      if !ok { return; }
      ok, host := ReadHost(rs, addrType == 0, b, 240, p);
      if !ok { return; }
      o := o.(verifier := ScAddress(ia, host));
    }
  }

  lemma NeedsHead(b: seq<bool>)
    ensures HeadOk(b) ==> |b| >= 64
  {
  }

  // ---- Round trip of the main option ----

  lemma HeadRoundTrip(o: IdIntOpt, b: seq<bool>, was: IdIntOpt)
    requires WellFormedOpt(o) && HeadBits(o) <= b
    ensures HeadOk(b) && Peek(b, 28, 4) == AddrType(o)
    ensures HeadOf(b, was) == was.(dataLen := o.dataLen, flags := o.flags, agrMode := o.agrMode, vtype := o.vtype,
                                   stackLen := o.stackLen, tos := o.tos, delayHops := o.delayHops)
  {
    hide BitsOf, Zeros, Val, Pow2;
    SmallPowers();
    var e0: seq<bool> := [];
    var e1 := BitsOf(ID_INT, 8);
    var e2 := e1 + BitsOf(o.dataLen, 8);
    var e3 := e2 + BitsOf(0, 3);
    var e4 := e3 + BitsOf(o.flags, 5);
    var e5 := e4 + BitsOf(o.agrMode, 2);
    var e6 := e5 + BitsOf(o.vtype, 2);
    var e7 := e6 + BitsOf(AddrType(o), 4);
    var e8 := e7 + BitsOf(o.stackLen, 8);
    var e9 := e8 + BitsOf(o.tos, 8);
    var e10 := e9 + BitsOf(o.delayHops, 6);
    PrefixOf(e10, Zeros(10), b);
    FieldIn(b, e9, o.delayHops, 6);
    FieldIn(b, e8, o.tos, 8);
    FieldIn(b, e7, o.stackLen, 8);
    FieldIn(b, e6, AddrType(o), 4);
    FieldIn(b, e5, o.vtype, 2);
    FieldIn(b, e4, o.agrMode, 2);
    FieldIn(b, e3, o.flags, 5);
    FieldIn(b, e2, 0, 3);
    FieldIn(b, e1, o.dataLen, 8);
    StartsEmpty(e1);
    FieldIn(b, e0, ID_INT, 8);
  }

  lemma TailRoundTrip(o: IdIntOpt, h: seq<bool>, b: seq<bool>, was: IdIntOpt)
    requires WellFormedOpt(o) && |h| == 64 && h + TailBits(o) <= b
    ensures TailOf(b, was) == was.(bitmap := o.bitmap, agrFunc := o.agrFunc, instr := o.instr,
                                   sourceTS := o.sourceTS, sourcePort := o.sourcePort)
  {
    hide BitsOf, ItemBits, PeekItems, Val, Pow2;
    SmallPowers();
    WordPowers();
    var e1 := h + BitsOf(o.bitmap, 4);
    var e2 := e1 + ItemBits(o.agrFunc, 3);
    var e3 := e2 + ItemBits(o.instr, 8);
    var e4 := e3 + BitsOf(o.sourceTS, 48);
    TailParts(o, h);
    FieldIn(b, e4, o.sourcePort, 16);
    FieldIn(b, e3, o.sourceTS, 48);
    ItemsIn(b, e2, o.instr, 8);
    ItemsIn(b, e1, o.agrFunc, 3);
    FieldIn(b, h, o.bitmap, 4);
  }

  lemma HostRoundTrip(ip: IPAddress, h: seq<bool>, b: seq<bool>)
    requires ip.ZoneFree() && h + HostBits(ip) <= b
    ensures |h| + (if ip.IPv4? then 32 else 128) <= |b| && HostOf(b, |h|, ip.IPv4?) == ip && h <= b
  {
    hide BitsOf, Val, Pow2;
    WordPowers();
    match ip {
      case IPv4(a) => FieldIn(b, h, a, 32);
      case IPv6(hi, lo, _) =>
        Appended(h, BitsOf(hi, 64), BitsOf(lo, 64));
        FieldIn(b, h + BitsOf(hi, 64), lo, 64);
        FieldIn(b, h, hi, 64);
    }
  }

  /** The object after reading: a verifier that is not on the wire keeps its old value. */
  function Received(o: IdIntOpt, was: IdIntOpt): IdIntOpt {
    if o.vtype == THIRD_PARTY then o else o.(verifier := was.verifier)
  }

  /** A written main option is read back, whatever follows it. */
  lemma OptRoundTrip(o: IdIntOpt, rest: seq<bool>, was: IdIntOpt)
    requires WellFormedOpt(o)
    ensures DecodeOpt(OptBits(o) + rest, was) == Some((Received(o, was), |OptBits(o)|))
  {
    hide BitsOf, Val, Pow2, HeadBits, TailBits, HeadOk, HeadOf, TailOf, HostBits, HostOf;
    var b := OptBits(o) + rest;
    var h, t := HeadBits(o), HeadBits(o) + TailBits(o);
    assert t + VerifierBits(o) <= b;
    PrefixOf(t, VerifierBits(o), b);
    PrefixOf(h, TailBits(o), b);
    HeadRoundTrip(o, b, was);
    TailRoundTrip(o, h, b, HeadOf(b, was));
    if o.vtype == THIRD_PARTY {
      WordPowers();
      var v := t + BitsOf(o.verifier.isdAsn, 64);
      Appended(t, BitsOf(o.verifier.isdAsn, 64), HostBits(o.verifier.host));
      HostRoundTrip(o.verifier.host, v, b);
      FieldIn(b, t, o.verifier.isdAsn, 64);
    }
  }
}
