/**
 The ID-INT extension: main option and telemetry stack in one, written and read back, and
 the loop that finds it among other options.
 */
module IdIntExtension {
  import opened Words
  import opened BitStream
  import opened Address
  import opened Tlv
  import opened IdIntHeaders
  import opened IdIntEntries

  // ---- Layout ----

  /** Bytes between the last entry and the end announced in the main option. */
  function Trailing(main: IdIntOpt, entries: seq<IdIntEntry>): int {
    4 * (main.stackLen as int) - StackSize(entries)
  }

  /** The extension behind its leading padding. */
  function CoreBits(main: IdIntOpt, entries: seq<IdIntEntry>): seq<bool>
    requires Trailing(main, entries) >= 0
  {
    OptBits(main) + StackBits(entries) + PaddingBits(Trailing(main, entries))
  }

  function ExtensionBits(main: IdIntOpt, entries: seq<IdIntEntry>, pos: nat): seq<bool>
    requires Trailing(main, entries) >= 0
  {
    PaddingBits(Padding(pos, 4, 2)) + CoreBits(main, entries)
  }

  /** `IdInt::size` in bytes. */
  function ExtensionSize(main: IdIntOpt, pos: nat): nat {
    Padding(pos, 4, 2) + OptSize(main) + 4 * main.stackLen
  }

  /**
   The bytes written are the announced size exactly when the padding behind the stack fits
   into one padding option; the end is then aligned to four bytes.
   */
  lemma SizeOnWire(main: IdIntOpt, entries: seq<IdIntEntry>, pos: nat)
    requires Trailing(main, entries) >= 0
    ensures |ExtensionBits(main, entries, pos)| == 8 * ExtensionSize(main, pos) <==> Trailing(main, entries) <= 257
    ensures (pos + ExtensionSize(main, pos)) % 4 == 0
  {
    hide OptBits, StackBits, PaddingBits, OptSize, StackSize, Padding;
    var t, lead := Trailing(main, entries), Padding(pos, 4, 2);
    PaddingSize(t);
    PaddingSize(lead);
    assert |ExtensionBits(main, entries, pos)|
        == |PaddingBits(lead)| + 8 * OptSize(main) + 8 * StackSize(entries) + |PaddingBits(t)|;
    Aligned(pos, lead, OptSize(main), main.stackLen);
  }

  /** 65 words of stack without entries need 260 bytes of padding, and 4 are written. */
  lemma SizeMissed(main: IdIntOpt, pos: nat)
    requires main.stackLen == 65
    ensures Trailing(main, []) == 260 && |PaddingBits(260)| == 32
    ensures |ExtensionBits(main, [], pos)| != 8 * ExtensionSize(main, pos)
  {
    hide OptBits, PaddingBits;
    assert (260 - 2) % 256 == 2;
    FourBytes();
    SizeOnWire(main, [], pos);
  }

  lemma FourBytes()
    ensures |PaddingBits(260)| == 32
  {
    hide BitsOf;
  }

  lemma Aligned(pos: nat, lead: nat, size: nat, words: nat)
    requires (pos + 2 + lead) % 4 == 0 && size % 4 == 2
    ensures (pos + (lead + size + 4 * words)) % 4 == 0
  {
    assert pos + (lead + size + 4 * words) == (pos + 2 + lead) + (size - 2) + 4 * words;
  }

  // ---- Meaning of the bits ----

  /** Main option, entries, and length in bits. */
  function DecodeCore(b: seq<bool>, was: IdIntOpt): (r: Option<(IdIntOpt, seq<IdIntEntry>, nat)>)
    ensures r.Some? ==> 0 < r.value.2 <= |b| && r.value.2 % 8 == 0
  {
    match DecodeOpt(b, was)
    case None => None
    case Some((o, n)) => DecodeTelemetry(b, o, n)
  }

  /** The telemetry stack announced by the main option, which ends at `n`. */
  function DecodeTelemetry(b: seq<bool>, o: IdIntOpt, n: nat): (r: Option<(IdIntOpt, seq<IdIntEntry>, nat)>)
    requires 0 < n <= |b| && n % 8 == 0
    ensures r.Some? ==> 0 < r.value.2 <= |b| && r.value.2 % 8 == 0
  {
    WholeWords(n, o.stackLen);
    var end := n + 32 * o.stackLen;
    if |b| < end then None
    else match DecodeStack(b[n..end])
      case None => None
      case Some(es) => Some((o, es, end))
  }

  lemma WholeWords(n: nat, words: nat)
    requires n % 8 == 0
    ensures (n + 32 * words) % 8 == 0
  {
    EightTimes(4 * words);
    WholeBytes(n, 32 * words);
  }

  predicate WellFormed(main: IdIntOpt, entries: seq<IdIntEntry>) {
    WellFormedOpt(main) && (forall e :: e in entries ==> WellFormedEntry(e)) && 0 <= Trailing(main, entries) <= 257
  }

  /** What was written is read back behind the leading padding, whatever follows. */
  lemma CoreRoundTrip(main: IdIntOpt, entries: seq<IdIntEntry>, rest: seq<bool>, was: IdIntOpt)
    requires WellFormed(main, entries)
    ensures DecodeCore(CoreBits(main, entries) + rest, was)
         == Some((Received(main, was), CanonicalAll(entries), |CoreBits(main, entries)|))
  {
    hide OptBits, StackBits, PaddingBits, DecodeOpt, DecodeStack, CanonicalAll, OptSize, StackSize,
         WellFormedOpt, WellFormedEntry;
    var t := Trailing(main, entries);
    var stack := StackBits(entries) + PaddingBits(t);
    var b := CoreBits(main, entries) + rest;
    var n := |OptBits(main)|;
    TrailingWhole(main, entries);
    PaddingSize(t);
    StackRoundTrip(entries, t);
    OptRoundTrip(main, stack + rest, was);
    CoreParts(OptBits(main), StackBits(entries), PaddingBits(t), rest);
    assert |stack| == 32 * main.stackLen;
  }

  lemma TrailingWhole(main: IdIntOpt, entries: seq<IdIntEntry>)
    requires Trailing(main, entries) >= 0
    ensures Trailing(main, entries) != 1
  {
    hide StackSize;
  }

  lemma CoreParts(o: seq<bool>, s: seq<bool>, p: seq<bool>, rest: seq<bool>)
    ensures o + s + p + rest == o + (s + p + rest)
    ensures (o + s + p + rest)[|o|..|o| + |s + p|] == s + p
  {
  }

  // ---- The loop over options ----

  /** State of the extension object: whether it was found, and its contents. */
  datatype Found = Found(valid: bool, main: IdIntOpt, entries: seq<IdIntEntry>)

  /**
   The extension found among options; unknown options are skipped. An option that reaches
   beyond the end is not an error: scanning goes on behind its type and length.
   */
  function Scan(b: seq<bool>, f: Found): Option<Found>
    requires |b| % 8 == 0
    decreases |b|
  {
    if b == [] then Some(f)
    else if Peek(b, 0, 8) == 253 then
      match DecodeCore(b, f.main)
      case None => None
      case Some((o, es, n)) =>
        RestWhole(b, n);
        Scan(b[n..], Found(true, o, es))
    else
      RestWhole(b, OptConsumed(b));
      Scan(b[OptConsumed(b)..], f)
  }

  lemma RestWhole(b: seq<bool>, n: nat)
    requires |b| % 8 == 0 && n % 8 == 0 && n <= |b|
    ensures |b[n..]| % 8 == 0 && |b[n..]| == |b| - n
  {
  }

  lemma CoreType(main: IdIntOpt, entries: seq<IdIntEntry>, rest: seq<bool>)
    requires Trailing(main, entries) >= 0
    ensures |CoreBits(main, entries) + rest| >= 64 && Peek(CoreBits(main, entries) + rest, 0, 8) == 253
  {
    hide Val, BitsOf, TailBits, VerifierBits, StackBits, PaddingBits, Zeros;
    var b := CoreBits(main, entries) + rest;
    HeadFirst(main);
    assert b[0..8] == HeadBits(main)[..8];
    ByteAhead(b, 0, ID_INT);
  }

  lemma HeadFirst(o: IdIntOpt)
    ensures HeadBits(o)[..8] == BitsOf(ID_INT, 8)
  {
    hide BitsOf, Zeros;
  }

  lemma CoreWhole(main: IdIntOpt, entries: seq<IdIntEntry>)
    requires Trailing(main, entries) >= 0
    ensures |CoreBits(main, entries)| % 8 == 0
  {
    hide OptBits, StackBits, PaddingBits, OptSize, StackSize;
    PaddingSize(Trailing(main, entries));
    EightTimes(OptSize(main));
    EightTimes(StackSize(entries));
    WholeBytes(|OptBits(main)|, |StackBits(entries)|);
    WholeBytes(|OptBits(main)| + |StackBits(entries)|, |PaddingBits(Trailing(main, entries))|);
  }

  /**
   A written extension is found by the option loop at any position, and the loop goes on
   with the options behind it.
   */
  lemma ExtensionFound(main: IdIntOpt, entries: seq<IdIntEntry>, pos: nat, rest: seq<bool>, f: Found)
    requires WellFormed(main, entries) && |rest| % 8 == 0
    ensures |ExtensionBits(main, entries, pos) + rest| % 8 == 0
    ensures Scan(ExtensionBits(main, entries, pos) + rest, f)
         == Scan(rest, Found(true, Received(main, f.main), CanonicalAll(entries)))
  {
    hide CoreBits, DecodeCore, Scan, WellFormed, CanonicalAll, PaddingBits, Received;
    FitsIn(main, entries);
    var core, lead := CoreBits(main, entries) + rest, Padding(pos, 4, 2);
    var b := ExtensionBits(main, entries, pos) + rest;
    CoreWhole(main, entries);
    WholeBytes(|CoreBits(main, entries)|, |rest|);
    assert b == PaddingBits(lead) + core;
    if lead == 0 {
      NoPadding();
      assert [] + core == core;
    } else {
      PaddingAhead(lead, core);
      ScanOther(b, f);
    }
    CoreRoundTrip(main, entries, rest, f.main);
    CoreType(main, entries, rest);
    ScanFound(core, f);
    assert core[|CoreBits(main, entries)|..] == rest;
  }

  lemma FitsIn(main: IdIntOpt, entries: seq<IdIntEntry>)
    requires WellFormed(main, entries)
    ensures Trailing(main, entries) >= 0
  {
  }

  lemma ScanOther(b: seq<bool>, f: Found)
    requires |b| % 8 == 0 && |b| >= 8 && Peek(b, 0, 8) != 253
    ensures |b[OptConsumed(b)..]| % 8 == 0 && Scan(b, f) == Scan(b[OptConsumed(b)..], f)
  {
    hide DecodeCore;
  }

  lemma ScanFound(b: seq<bool>, f: Found)
    requires |b| % 8 == 0 && |b| >= 8 && Peek(b, 0, 8) == 253
    ensures DecodeCore(b, f.main).None? ==> Scan(b, f).None?
    ensures DecodeCore(b, f.main).Some? ==>
              var (o, es, n) := DecodeCore(b, f.main).value;
              |b[n..]| % 8 == 0 && Scan(b, f) == Scan(b[n..], Found(true, o, es))
  {
    hide DecodeCore;
  }

  lemma ScanEnd(f: Found)
    ensures Scan([], f) == Some(f)
  {
  }

  // ---- Incomplete options ----

  /** What a scan makes of an extension header; only the strict one tells of incomplete options. */
  datatype Outcome = Parsed(found: Found) | Malformed | Incomplete

  function OutcomeOf(r: Option<Found>): Outcome {
    match r case None => Malformed case Some(f) => Parsed(f)
  }

  /** The scan as it would be if the error of an incomplete option were returned. */
  function StrictScan(b: seq<bool>, f: Found): Outcome
    requires |b| % 8 == 0
    decreases |b|
  {
    if b == [] then Parsed(f)
    else if Peek(b, 0, 8) == 253 then
      match DecodeCore(b, f.main)
      case None => Malformed
      case Some((o, es, n)) =>
        RestWhole(b, n);
        StrictScan(b[n..], Found(true, o, es))
    else if !OptComplete(b) then Incomplete
    else
      RestWhole(b, OptConsumed(b));
      StrictScan(b[OptConsumed(b)..], f)
  }

  /** What lies ahead at each plain option the scan reads. */
  function Reached(b: seq<bool>, f: Found): (r: seq<seq<bool>>)
    requires |b| % 8 == 0
    ensures forall o :: o in r ==> |o| >= 8
    decreases |b|
  {
    if b == [] then []
    else if Peek(b, 0, 8) == 253 then
      match DecodeCore(b, f.main)
      case None => []
      case Some((o, es, n)) =>
        RestWhole(b, n);
        Reached(b[n..], Found(true, o, es))
    else
      RestWhole(b, OptConsumed(b));
      [b] + Reached(b[OptConsumed(b)..], f)
  }

  predicate AllComplete(options: seq<seq<bool>>)
    requires forall o :: o in options ==> |o| >= 8
  {
    forall o :: o in options ==> OptComplete(o)
  }

  /** The scan does what its error handling promises exactly when every option it reaches is complete. */
  lemma {:induction false} StrictAgrees(b: seq<bool>, f: Found)
    requires |b| % 8 == 0
    ensures OutcomeOf(Scan(b, f)) == StrictScan(b, f) <==> AllComplete(Reached(b, f))
    decreases |b|
  {
    hide DecodeCore, OptComplete, OptConsumed, Peek;
    if b != [] {
      if Peek(b, 0, 8) == 253 {
        if DecodeCore(b, f.main).Some? {
          var (o, es, n) := DecodeCore(b, f.main).value;
          RestWhole(b, n);
          StrictAgrees(b[n..], Found(true, o, es));
        }
      } else {
        var n := OptConsumed(b);
        RestWhole(b, n);
        StrictAgrees(b[n..], f);
        assert Reached(b, f) == [b] + Reached(b[n..], f);
        assert b in Reached(b, f);
        forall o | o in Reached(b, f) ensures o == b || o in Reached(b[n..], f) {}
        forall o | o in Reached(b[n..], f) ensures o in Reached(b, f) {}
      }
    }
  }

  /** An option of 255 bytes of which none is there: nothing is reported. */
  lemma UnreportedOption(f: Found)
    ensures var b := Bits([5, 255]);
            |b| % 8 == 0 && Scan(b, f) == Some(f) && StrictScan(b, f) == Incomplete
  {
    hide Val, BitsOf, Bits, DecodeCore, Scan, StrictScan;
    var b := Bits([5, 255]);
    HeadOfUnknown([]);
    assert BitsOf(5, 8) + BitsOf(255, 8) + [] == b by { TwoByteBits(); }
    assert b[16..] == [];
    ScanOther(b, f);
    ScanEnd(f);
    StrictStops(b, f);
  }

  lemma TwoByteBits()
    ensures Bits([5, 255]) == BitsOf(5, 8) + BitsOf(255, 8)
  {
    hide BitsOf;
    BitsSnoc([5], 255);
    OneByte([5]);
    assert [5] + [255] == [5, 255];
  }

  /** Type and length of an option that announces 255 bytes, with less behind it. */
  lemma HeadOfUnknown(rest: seq<bool>)
    requires |rest| % 8 == 0 && |rest| < 8 * 255
    ensures var b := BitsOf(5, 8) + BitsOf(255, 8) + rest;
            |b| % 8 == 0 && |b| >= 16 && Peek(b, 0, 8) == 5 && !OptComplete(b) && OptConsumed(b) == 16 && b[16..] == rest
  {
    hide Val, BitsOf;
    var b := BitsOf(5, 8) + BitsOf(255, 8) + rest;
    assert b[0..8] == BitsOf(5, 8) && b[8..16] == BitsOf(255, 8);
    ByteAhead(b, 0, 5);
    ByteAhead(b, 8, 255);
    WholeBytes(16, |rest|);
  }

  lemma StrictStops(b: seq<bool>, f: Found)
    requires |b| % 8 == 0 && |b| >= 8 && Peek(b, 0, 8) != 253 && !OptComplete(b)
    ensures StrictScan(b, f) == Incomplete
  {
    hide DecodeCore;
  }

  /** The data of the skipped option is then taken for options: here for an ID-INT extension. */
  lemma DataTakenForExtension(main: IdIntOpt, entries: seq<IdIntEntry>, f: Found)
    requires WellFormed(main, entries) && |CoreBits(main, entries)| < 8 * 255
    ensures var b := BitsOf(5, 8) + BitsOf(255, 8) + CoreBits(main, entries);
            && |b| % 8 == 0 && StrictScan(b, f) == Incomplete
            && Scan(b, f) == Some(Found(true, Received(main, f.main), CanonicalAll(entries)))
  {
    hide CoreBits, DecodeCore, Scan, StrictScan, CanonicalAll, Received, BitsOf, WellFormed, OptComplete, OptConsumed, Peek;
    FitsIn(main, entries);
    CoreWhole(main, entries);
    var core := CoreBits(main, entries);
    var b := BitsOf(5, 8) + BitsOf(255, 8) + core;
    HeadOfUnknown(core);
    StrictStops(b, f);
    ScanOther(b, f);
    assert core + [] == core;
    CoreRoundTrip(main, entries, [], f.main);
    CoreType(main, entries, []);
    ScanFound(core, f);
    ScanEnd(Found(true, Received(main, f.main), CanonicalAll(entries)));
  }

  /** The bytes 5, 255 in front of the 22 bytes of a main option without stack. */
  lemma DataTakenForOption(main: IdIntOpt, b: seq<bool>, f: Found)
    requires main == EMPTY_OPT.(dataLen := 22) && b == BitsOf(5, 8) + BitsOf(255, 8) + OptBits(main)
    ensures |b| == 8 * 24 && Scan(b, f) == Some(Found(true, Received(main, f.main), []))
    ensures StrictScan(b, f) == Incomplete
  {
    hide Scan, StrictScan, OptBits, BitsOf, Received, Canonical;
    EmptyStack();
    NoPadding();
    assert CoreBits(main, []) == OptBits(main);
    assert CanonicalAll([]) == [];
    DataTakenForExtension(main, [], f);
  }

  // ---- The extension object ----

  class IdInt {
    var main: IdIntOpt
    var entries: seq<IdIntEntry>
    var validFlag: bool

    constructor ()
      ensures main == EMPTY_OPT && entries == [] && validFlag
    {
      main, entries, validFlag := EMPTY_OPT, [], true;
    }

    ghost function State(): Found
      reads this
    {
      Found(validFlag, main, entries)
    }

    /**
     Writes the extension at `pos` bytes into the extension header. Fails exactly when the
     entries exceed the announced length or the buffer is too short.
     */
    method Write(ws: WriteStream, pos: nat) returns (ok: bool)
      requires ws.Valid() && ws.bitPos == 0
      modifies ws`byteIter, ws`bitPos, ws.data
      ensures ws.Valid()
      ensures ok <==> Trailing(main, entries) >= 0
                      && old(ws.Pos()) + |ExtensionBits(main, entries, pos)| <= 8 * ws.data.Length
      ensures ok ==> ws.Written() == old(ws.Written()) + ExtensionBits(main, entries, pos)
      ensures ok ==> ws.data[ws.End()..] == old(ws.data[..])[ws.End()..]
    {
      hide *;
      ghost var start, orig := ws.Written(), ws.data[..];
      var lead := Padding(pos, 4, 2);
      ghost var e := PaddingBits(lead);
      StartBehind(ws);
      PaddingSize(lead);
      ExtensionLength(main, entries, pos);
      OptLength(main);
      ok := InsertPadding(ws, lead, start, [], orig);
      StartsEmpty(e);
      if !ok { return; }
      Rebase(ws, start, e, orig);
      ok := WriteOpt(ws, main, start + e, orig);
      if !ok { return; }
      BehindFits(ws, start + e, OptBits(main), orig);
      JoinWhole(e, OptBits(main));
      Unbase(ws, start, e, OptBits(main), orig);
      ok := WriteTelemetry(ws, start, e, orig);
      if ok { BehindMeans(ws, start, ExtensionBits(main, entries, pos), orig); }
    }

    /** The telemetry stack and the padding behind it. */
    method WriteTelemetry(ws: WriteStream, ghost start: seq<bool>, ghost e: seq<bool>, ghost orig: seq<byte>)
      returns (ok: bool)
      requires Behind(ws, start, e + OptBits(main), orig) && |e + OptBits(main)| % 8 == 0
      modifies ws`byteIter, ws`bitPos, ws.data
      ensures ws.Valid()
      ensures ok <==> Trailing(main, entries) >= 0 && |start| + |e| + |CoreBits(main, entries)| <= 8 * ws.data.Length
      ensures ok ==> Behind(ws, start, e + CoreBits(main, entries), orig)
    {
      hide *;
      ghost var h, stack := e + OptBits(main), StackBits(entries);
      TrailingIs(main, entries);
      CoreLength(main, entries);
      JoinWhole(h, stack);
      BehindFits(ws, start, h, orig);
      Rebase(ws, start, h, orig);
      ByteOf(ws, start, h, orig);
      var stackBegin := ws.byteIter;
      ok := WriteStack(ws, entries, start + h, orig);
      if !ok { return; }
      Unbase(ws, start, h, stack, orig);
      ByteOf(ws, start, h + stack, orig);
      var stackLen := ws.byteIter - stackBegin;
      var padding := 4 * (main.stackLen as int) - stackLen;
      if padding < 0 { return false; }
      ok := InsertPadding(ws, padding, start, h + stack, orig);
      CoreJoined(e, OptBits(main), stack, PaddingBits(padding));
    }

    /** Reads the extension: the flag tells whether it was read completely. */
    method Parse(rs: ReadStream, ghost b: seq<bool>, ghost p: nat) returns (ok: bool)
      requires Ahead(rs, b, 0, p) && |b| % 8 == 0
      modifies this, rs`byteIter, rs`bitPos
      ensures rs.Valid() && validFlag == ok
      ensures ok <==> DecodeCore(b, old(main)).Some?
      ensures ok ==> var (o, es, n) := DecodeCore(b, old(main)).value;
                     main == o && entries == es && Ahead(rs, b, n, p)
    {
      hide Bits, DecodeOpt, DecodeStack, Ahead;
      validFlag := false;
      var stack;
      ok, main := ReadOpt(rs, main, b, p);
      if !ok { return; }
      ghost var n := DecodeOpt(b, old(main)).value.1;
      ok, stack := LookaheadBytes(rs, 4 * main.stackLen, b, n, p);
      if !ok { return; }
      ok := SkipBytes(rs, 4 * main.stackLen, b, n, p);
      ok, entries := ReadStack(stack);
      validFlag := ok;
    }

    function Type(): (t: byte)
      ensures t == 253
    {
      ID_INT
    }
  }

  // ---- Lists of extensions ----

  /** The first extension of a type. */
  method FindExtension(exts: seq<IdInt>, optType: byte) returns (j: nat)
    ensures j == if optType == 253 then 0 else |exts|
  {
    j := 0;
    while j < |exts|
      invariant 0 <= j <= |exts| && (optType == 253 ==> j == 0)
    {
      if optType == exts[j].Type() { return; }
      j := j + 1;
    }
  }

  /**
   `parseExtensions`: the first extension of the list takes every ID-INT option, all others stay
   invalid, and without any every option is skipped.
   */
  method ParseExtensions(rs: ReadStream, exts: seq<IdInt>) returns (ok: bool)
    requires rs.Valid() && rs.bitPos == 0
    modifies exts
    modifies rs`byteIter, rs`bitPos
    ensures |old(rs.Rest())| % 8 == 0 && rs.Valid()
    ensures exts == [] ==> ok
    ensures exts != [] ==> (ok <==> Scan(old(rs.Rest()), old(exts[0].State()).(valid := false)).Some?)
    ensures exts != [] && ok ==> Some(exts[0].State()) == Scan(old(rs.Rest()), old(exts[0].State()).(valid := false))
    ensures forall e :: e in exts && e != exts[0] ==> e.State() == old(e.State()).(valid := false)
  {
    InvalidateAll(exts);
    StartAhead(rs);
    if exts == [] {
      ok := true;
      SkipAll(rs);
    } else {
      assert exts[0] in exts;
      ok := ParseFor(rs, exts);
    }
  }

  method InvalidateAll(exts: seq<IdInt>)
    modifies exts
    ensures forall e :: e in exts ==> e.State() == old(e.State()).(valid := false)
  {
    var i := 0;
    while i < |exts|
      invariant 0 <= i <= |exts|
      invariant forall k :: 0 <= k < i ==> exts[k].State() == old(exts[k].State()).(valid := false)
      invariant forall e :: e in exts ==> e.State() == old(e.State()) || e.State() == old(e.State()).(valid := false)
    {
      assert exts[i] in exts;
      exts[i].validFlag := false;
      i := i + 1;
    }
  }

  /** Without extensions every option is read as a plain one. */
  method SkipAll(rs: ReadStream)
    requires rs.Valid() && rs.bitPos == 0
    modifies rs`byteIter, rs`bitPos
    ensures rs.Valid() && rs.Rest() == []
  {
    hide *;
    ghost var b, p := rs.Rest(), rs.Pos();
    StartAhead(rs);
    while true
      invariant Ahead(rs, b, 0, p) && |b| % 8 == 0
      decreases |b|
    {
      AheadFits(rs, b, 0, p);
      AheadIs(rs, b, p);
      var more := MoreAhead(rs, b, p);
      if !more { return; }
      var _ := ReadSciOpt(rs, b, p);
      ghost var n := OptConsumed(b);
      AheadAgain(rs, b, n, p);
      b, p := b[n..], p + n;
    }
  }

  lemma AheadIs(rs: ReadStream, b: seq<bool>, p: nat)
    requires Ahead(rs, b, 0, p)
    ensures rs.Valid() && rs.Rest() == b
  {
    hide Bits;
  }

  /** The loop over options when there is an extension to take them. */
  method ParseFor(rs: ReadStream, exts: seq<IdInt>) returns (ok: bool)
    requires rs.Valid() && rs.bitPos == 0 && exts != [] && !exts[0].validFlag
    modifies exts[0], rs`byteIter, rs`bitPos
    ensures |old(rs.Rest())| % 8 == 0 && rs.Valid()
    ensures ok <==> Scan(old(rs.Rest()), old(exts[0].State())).Some?
    ensures ok ==> Some(exts[0].State()) == Scan(old(rs.Rest()), old(exts[0].State()))
  {
    hide *;
    var x := exts[0];
    ghost var all, p := rs.Rest(), rs.Pos();
    StartAhead(rs);
    ghost var b := all;
    ghost var meaning := Scan(all, x.State());
    while true
      invariant Ahead(rs, b, 0, p) && |b| % 8 == 0
      invariant meaning == Scan(b, x.State())
      decreases |b|
    {
      AheadFits(rs, b, 0, p);
      var more := MoreAhead(rs, b, p);
      if !more {
        ScanEnd(x.State());
        return true;
      }
      var optType := NextType(rs, b, p);
      var j := FindExtension(exts, optType);
      StateIs(x);
      ghost var n;
      if j < |exts| {
        ghost var was := x.main;
        ScanFound(b, x.State());
        ok := exts[j].Parse(rs, b, p);
        if !ok { return; }
        n := DecodeCore(b, was).value.2;
      } else {
        ScanOther(b, x.State());
        var _ := ReadSciOpt(rs, b, p);
        n := OptConsumed(b);
      }
      StateIs(x);
      AheadAgain(rs, b, n, p);
      b, p := b[n..], p + n;
    }
  }

  /** Bytes of a hop-by-hop options header with the valid extensions among `exts`; the header takes two. */
  function HeaderSize(exts: seq<Found>): (n: nat)
    ensures n > 0 ==> n >= 2
  {
    if exts == [] then 0
    else
      var n := HeaderSize(exts[..|exts| - 1]);
      var last := exts[|exts| - 1];
      if !last.valid then n
      else (if n == 0 then 2 else n) + ExtensionSize(last.main, if n == 0 then 2 else n)
  }

  /** The size of an options header is a multiple of four, and zero exactly without valid extensions. */
  lemma {:induction false} HeaderAligned(exts: seq<Found>)
    ensures HeaderSize(exts) % 4 == 0
    ensures HeaderSize(exts) == 0 <==> forall e :: e in exts ==> !e.valid
  {
    hide ExtensionSize;
    if exts != [] {
      var n := |exts| - 1;
      HeaderAligned(exts[..n]);
      assert exts == exts[..n] + [exts[n]];
      var m := HeaderSize(exts[..n]);
      SizeOnWireEnd(exts[n].main, if m == 0 then 2 else m);
    }
  }

  lemma SizeOnWireEnd(main: IdIntOpt, pos: nat)
    ensures (pos + ExtensionSize(main, pos)) % 4 == 0
  {
    hide OptSize, Padding;
    Aligned(pos, Padding(pos, 4, 2), OptSize(main), main.stackLen);
  }

  /** `computeExtSize`, the part for hop-by-hop extensions, the only kind there is. */
  method ComputeExtSize(exts: seq<IdInt>) returns (hbh: nat)
    ensures hbh == HeaderSize(States(exts))
  {
    hide ExtensionSize, HeaderSize;
    ghost var s := States(exts);
    var any, i := false, 0;
    while i < |exts|
      invariant 0 <= i <= |exts| && (any <==> exists k :: 0 <= k < i && s[k].valid)
    {
      any := any || exts[i].validFlag;
      i := i + 1;
    }
    HeaderAligned(s);
    hbh := 0;
    if any {
      hbh := 2;
      i := 0;
      NoHeader();
      while i < |exts|
        invariant 0 <= i <= |exts|
        invariant hbh == if HeaderSize(s[..i]) == 0 then 2 else HeaderSize(s[..i])
      {
        HeaderStep(s, i);
        if exts[i].validFlag { hbh := hbh + ExtensionSize(exts[i].main, hbh); }
        i := i + 1;
      }
      assert s[..i] == s;
    }
  }

  lemma NoHeader()
    ensures HeaderSize([]) == 0
  {
  }

  lemma HeaderStep(s: seq<Found>, i: nat)
    requires i < |s|
    ensures var n := HeaderSize(s[..i]);
            HeaderSize(s[..i + 1]) ==
              if !s[i].valid then n else (if n == 0 then 2 else n) + ExtensionSize(s[i].main, if n == 0 then 2 else n)
  {
    hide ExtensionSize;
    assert s[..i + 1][..i] == s[..i];
  }

  ghost function States(exts: seq<IdInt>): (r: seq<Found>)
    reads exts
    ensures |r| == |exts| && forall i :: 0 <= i < |exts| ==> r[i] == exts[i].State()
    decreases |exts|
  {
    if exts == [] then []
    else
      assert forall e :: e in exts[..|exts| - 1] ==> e in exts;
      States(exts[..|exts| - 1]) + [exts[|exts| - 1].State()]
  }

  lemma OptLength(o: IdIntOpt)
    ensures |OptBits(o)| % 8 == 0
  {
    hide OptBits, OptSize;
    EightTimes(OptSize(o));
  }

  lemma JoinWhole(x: seq<bool>, y: seq<bool>)
    requires |x| % 8 == 0 && |y| % 8 == 0
    ensures |x + y| == |x| + |y| && |x + y| % 8 == 0
  {
    WholeBytes(|x|, |y|);
  }

  lemma TrailingIs(main: IdIntOpt, entries: seq<IdIntEntry>)
    ensures Trailing(main, entries) == 4 * (main.stackLen as int) - StackSize(entries)
    ensures |StackBits(entries)| == 8 * StackSize(entries) && |StackBits(entries)| % 8 == 0
  {
    hide StackSize, StackBits;
    EightTimes(StackSize(entries));
  }

  lemma CoreLength(main: IdIntOpt, entries: seq<IdIntEntry>)
    ensures Trailing(main, entries) >= 0 ==>
              var t := PaddingBits(Trailing(main, entries));
              CoreBits(main, entries) == OptBits(main) + StackBits(entries) + t
              && |CoreBits(main, entries)| == |OptBits(main)| + |StackBits(entries)| + |t|
  {
    hide OptBits, StackBits, PaddingBits;
  }

  lemma ExtensionLength(main: IdIntOpt, entries: seq<IdIntEntry>, pos: nat)
    ensures Trailing(main, entries) >= 0 ==>
              var e := PaddingBits(Padding(pos, 4, 2));
              ExtensionBits(main, entries, pos) == e + CoreBits(main, entries)
              && |ExtensionBits(main, entries, pos)| == |e| + |CoreBits(main, entries)|
              && |CoreBits(main, entries)| >= |OptBits(main)|
  {
    hide OptBits, StackBits, PaddingBits;
  }

  lemma StateIs(x: IdInt)
    ensures x.State() == Found(x.validFlag, x.main, x.entries)
  {
  }

  lemma StartBehind(ws: WriteStream)
    requires ws.Valid() && ws.bitPos == 0
    ensures Behind(ws, ws.Written(), [], ws.data[..]) && |ws.Written()| == ws.Pos()
  {
    hide Bits;
    assert ws.Written() + [] == ws.Written();
  }

  lemma BehindMeans(ws: WriteStream, start: seq<bool>, e: seq<bool>, orig: seq<byte>)
    requires Behind(ws, start, e, orig)
    ensures ws.Written() == start + e && |orig| == ws.data.Length && ws.data[ws.End()..] == orig[ws.End()..]
  {
  }

  /** Byte position behind a whole number of bytes. */
  lemma ByteOf(ws: WriteStream, start: seq<bool>, e: seq<bool>, orig: seq<byte>)
    requires Behind(ws, start, e, orig) && |e| % 8 == 0
    ensures 8 * ws.byteIter == |start| + |e|
  {
    hide Bits;
    AtByte(ws, start, e, orig);
  }

  lemma CoreJoined(e: seq<bool>, o: seq<bool>, s: seq<bool>, p: seq<bool>)
    ensures e + o + s + p == e + (o + s + p)
  {
  }

  method LookaheadBytes(rs: ReadStream, n: nat, ghost b: seq<bool>, ghost k: nat, ghost p: nat)
    returns (ok: bool, view: seq<byte>)
    requires Ahead(rs, b, k, p) && k % 8 == 0 && n < NPOS
    ensures ok <==> k + 8 * n <= |b|
    ensures ok ==> Bits(view) == b[k..k + 8 * n]
  {
    hide Bits;
    WholeBytes(p, k);
    NoBitsOver(rs.byteIter, rs.bitPos);
    ok, view := rs.Lookahead(n);
    if ok { FrontBehind(b, k, 8 * n); }
  }

  lemma FrontBehind(b: seq<bool>, k: nat, n: nat)
    requires k + n <= |b|
    ensures b[k..][..n] == b[k..k + n]
  {
  }

  /**
   One extension written into a buffer and parsed by another object: the option comes back,
   and the entries with everything that is not on the wire set to zero.
   */
  method RoundTrip(x: IdInt, y: IdInt, buffer: array<byte>, pos: nat) returns (ok: bool)
    requires x != y && WellFormed(x.main, x.entries)
    requires |ExtensionBits(x.main, x.entries, pos)| <= 8 * buffer.Length
    modifies y, buffer
    ensures ok
    ensures y.State() == Found(true, Received(x.main, old(y.main)), CanonicalAll(x.entries))
  {
    hide *;
    FitsIn(x.main, x.entries);
    ghost var bits := ExtensionBits(x.main, x.entries, pos);
    var ws := new WriteStream(buffer);
    AtStart(ws);
    ok := x.Write(ws, pos);
    ExtensionFound(x.main, x.entries, pos, [], Found(false, y.main, y.entries));
    NothingBehind(bits);
    WrittenPrefix(ws, bits);
    var rs := new ReadStream(buffer[..ws.byteIter]);
    StateIs(y);
    assert [y][0] == y && y in [y];
    ok := ParseExtensions(rs, [y]);
    ScanEnd(Found(true, Received(x.main, old(y.main)), CanonicalAll(x.entries)));
  }

  lemma AtStart(ws: WriteStream)
    requires ws.Valid() && ws.byteIter == 0 && ws.bitPos == 0
    ensures ws.Pos() == 0 && ws.Written() == []
  {
    hide Bits;
  }

  lemma NothingBehind(bits: seq<bool>)
    ensures bits + [] == bits && [] + bits == bits
  {
  }

  /** The bytes before the cursor carry what was written. */
  lemma WrittenPrefix(ws: WriteStream, bits: seq<bool>)
    requires ws.Valid() && ws.Written() == bits && |bits| % 8 == 0
    ensures ws.byteIter <= ws.data.Length && Bits(ws.data[..ws.byteIter]) == bits
  {
    hide Bits;
    assert |ws.Written()| == ws.Pos();
    BitsSlice(ws.data[..], 0, ws.byteIter);
    assert ws.data[..][0..ws.byteIter] == ws.data[..ws.byteIter];
  }
}
