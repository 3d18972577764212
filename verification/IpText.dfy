/**
 The text form of IP addresses: RFC 5952 output, RFC 4291 input, and the round trip.
 */
module IpText {
  import opened Words
  import opened Address
  import opened Text

  datatype ParseError = SyntaxError | RequiresZone | InvalidArgument | OutOfRange
  datatype Result<T> = Ok(value: T) | Err(error: ParseError)

  // ---- The eight fields of an IPv6 address ----

  /** The sixteen bytes in network order. */
  function ToBytes16(hi: u64, lo: u64): (b: seq<byte>)
    ensures |b| == 16
  {
    BigEndian(hi, 8) + BigEndian(lo, 8)
  }

  function FieldAt(b: seq<byte>, i: nat): u16
    requires 2 * i + 1 < |b|
  {
    0x100 * (b[2 * i] as int) + b[2 * i + 1]
  }

  function FieldsOf(hi: u64, lo: u64): (f: seq<u16>)
    ensures |f| == 8
  {
    var b := ToBytes16(hi, lo);
    seq(8, i requires 0 <= i < 8 => FieldAt(b, i))
  }

  function FieldBytes(f: seq<u16>): (b: seq<byte>)
    ensures |b| == 2 * |f|
  {
    if f == [] then [] else FieldBytes(f[..|f| - 1]) + BigEndian(f[|f| - 1], 2)
  }

  /** An address from its fields. */
  function MakeIPv6(f: seq<u16>, zone: string): IPAddress
    requires |f| == 8
  {
    var b := FieldBytes(f);
    FromBigEndianBound(b[..8]);
    FromBigEndianBound(b[8..]);
    Pow2At64();
    IPv6(FromBigEndian(b[..8]), FromBigEndian(b[8..]), zone)
  }

  lemma Pow2At64()
    ensures Pow2(64) == 0x1_0000_0000_0000_0000 && Pow2(32) == 0x1_0000_0000 && Pow2(16) == 0x1_0000
  {
    hide Pow2;
    Pow2At8();
    Pow2Sum(8, 8);
    Pow2Sum(16, 16);
    Pow2Sum(32, 32);
  }

  lemma {:induction false} BytesOfFields(b: seq<byte>, f: seq<u16>)
    requires |b| == 2 * |f| && forall i :: 0 <= i < |f| ==> f[i] == FieldAt(b, i)
    ensures FieldBytes(f) == b
  {
    if f != [] {
      var n := |f| - 1;
      assert forall i :: 0 <= i < n ==> f[..n][i] == FieldAt(b[..2 * n], i);
      BytesOfFields(b[..2 * n], f[..n]);
      TwoByteField(f[n], b[2 * n], b[2 * n + 1]);
      assert b == b[..2 * n] + [b[2 * n], b[2 * n + 1]];
    }
  }

  lemma TwoByteField(v: u16, x: byte, y: byte)
    requires v == 0x100 * (x as int) + y
    ensures BigEndian(v, 2) == [x, y]
  {
    assert BigEndian(v, 2) == BigEndian(v / 256, 1) + [v % 256] && BigEndian(v / 256, 1) == [] + [v / 256 % 256];
  }

  lemma MakeOfFields(hi: u64, lo: u64, zone: string)
    ensures MakeIPv6(FieldsOf(hi, lo), zone) == IPv6(hi, lo, zone)
  {
    BytesOfFields(ToBytes16(hi, lo), FieldsOf(hi, lo));
    Pow2At64();
    FromBigEndianOf(hi, 8);
    FromBigEndianOf(lo, 8);
    assert ToBytes16(hi, lo)[..8] == BigEndian(hi, 8) && ToBytes16(hi, lo)[8..] == BigEndian(lo, 8);
  }

  // ---- The zero run ----

  /** Length of the run of zero fields that ends before field `n`. */
  function ZeroSuffix(f: seq<u16>, n: nat): (k: nat)
    requires n <= |f|
    ensures k <= n
  {
    if n == 0 || f[n - 1] != 0 then 0 else 1 + ZeroSuffix(f, n - 1)
  }

  /** The longest run of at least two zero fields among the first `n`; the first of several. */
  function LongestRun(f: seq<u16>, n: nat): (r: (nat, nat))
    requires n <= |f|
    ensures r.0 <= r.1 <= n
  {
    if n == 0 then (0, 0)
    else
      var best := LongestRun(f, n - 1);
      var k := ZeroSuffix(f, n);
      if k >= 2 && k > best.1 - best.0 then (n - k, n) else best
  }

  predicate IsZeroRun(f: seq<u16>, a: nat, b: nat)
    requires b <= |f|
  {
    forall i :: a <= i < b ==> f[i] == 0
  }

  lemma {:induction false} ZeroSuffixIsMaximal(f: seq<u16>, n: nat)
    requires n <= |f|
    ensures IsZeroRun(f, n - ZeroSuffix(f, n), n)
    ensures forall a :: 0 <= a <= n && IsZeroRun(f, a, n) ==> n - a <= ZeroSuffix(f, n)
  {
    if n > 0 && f[n - 1] == 0 {
      ZeroSuffixIsMaximal(f, n - 1);
      forall a | 0 <= a <= n && IsZeroRun(f, a, n) ensures n - a <= ZeroSuffix(f, n) {
        if a < n { assert IsZeroRun(f, a, n - 1); }
      }
    } else if n > 0 {
      forall a | 0 <= a < n ensures !IsZeroRun(f, a, n) {
        assert a <= n - 1 < n && f[n - 1] != 0;
      }
    }
  }

  /** Section 4.2.3 of RFC 5952: the leftmost of the longest runs, and none of a single field. */
  lemma {:induction false} LongestRunIsLeftmost(f: seq<u16>, n: nat)
    requires n <= |f|
    ensures var (first, last) := LongestRun(f, n);
            && IsZeroRun(f, first, last)
            && (first == last ==> first == 0)
            && (first < last ==> last - first >= 2)
            && (forall a, b :: 0 <= a <= b <= n && b - a >= 2 && IsZeroRun(f, a, b) ==>
                 b - a < last - first || (b - a == last - first && first <= a))
  {
    if n > 0 {
      LongestRunIsLeftmost(f, n - 1);
      ZeroSuffixIsMaximal(f, n);
    }
  }

  /** `findLongestZeroGroup`: byte offsets of the run, found in one pass over the fields. */
  method FindLongestZeroGroup(addr: seq<byte>, length: nat) returns (first: nat, last: nat)
    requires length <= |addr| && length % 2 == 0
    ensures var f := seq(length / 2, i requires 0 <= i < length / 2 => FieldAt(addr, i));
            (first, last) == (2 * LongestRun(f, length / 2).0, 2 * LongestRun(f, length / 2).1)
  {
    hide LongestRun, ZeroSuffix;
    ghost var f := seq(length / 2, i requires 0 <= i < length / 2 => FieldAt(addr, i));
    NothingScanned(f);
    var longestBegin, longestEnd, longestGroup := 0, 0, 2;
    var groupBegin := -1;
    var i := 0;
    while i < length
      invariant 0 <= i <= length && i % 2 == 0 && groupBegin < i
      invariant groupBegin == -1 || (groupBegin >= 0 && groupBegin % 2 == 0)
      invariant groupBegin == if ZeroSuffix(f, i / 2) == 0 then -1 else i - 2 * ZeroSuffix(f, i / 2)
      invariant 0 <= longestBegin <= longestEnd && longestGroup == Max(2, longestEnd - longestBegin)
      invariant var done := if groupBegin < 0 then i / 2 else groupBegin / 2;
                (longestBegin, longestEnd) == (2 * LongestRun(f, done).0, 2 * LongestRun(f, done).1)
    {
      assert f[i / 2] == 0 <==> addr[i] == 0 && addr[i + 1] == 0;
      ScanField(f, i / 2);
      if addr[i] == 0 && addr[i + 1] == 0 {
        if groupBegin < 0 { groupBegin := i; }
      } else if groupBegin >= 0 {
        RunCompleted(f, groupBegin / 2, i / 2);
        if i - groupBegin > longestGroup {
          longestBegin, longestEnd, longestGroup := groupBegin, i, i - groupBegin;
        }
        groupBegin := -1;
      }
      i := i + 2;
    }
    if groupBegin >= 0 {
      RunCompleted(f, groupBegin / 2, length / 2);
      if length - groupBegin > longestGroup {
        longestBegin, longestEnd := groupBegin, length;
      }
    }
    return longestBegin, longestEnd;
  }

  lemma NothingScanned(f: seq<u16>)
    ensures ZeroSuffix(f, 0) == 0 && LongestRun(f, 0) == (0, 0)
  {
  }

  lemma ScanField(f: seq<u16>, k: nat)
    requires k < |f|
    ensures ZeroSuffix(f, k + 1) == if f[k] == 0 then 1 + ZeroSuffix(f, k) else 0
    ensures f[k] != 0 ==> LongestRun(f, k + 1) == LongestRun(f, k)
  {
  }

  function Max(a: int, b: int): int { if a < b then b else a }

  /** Scanning through a run of zeros changes the best run at most to that run. */
  lemma {:induction false} RunCompleted(f: seq<u16>, a: nat, n: nat)
    requires a < n <= |f| && ZeroSuffix(f, n) == n - a
    ensures var best := LongestRun(f, a);
            LongestRun(f, n) == if n - a >= 2 && n - a > best.1 - best.0 then (a, n) else best
  {
    if n - a > 1 { RunCompleted(f, a, n - 1); }
  }

  // ---- Printing ----

  /** Dotted decimal. */
  function DottedGroups(a: u32): (gs: seq<string>)
    ensures |gs| == 4
  {
    [Number(a / 0x100_0000 % 256, 10, false), Number(a / 0x1_0000 % 256, 10, false),
     Number(a / 0x100 % 256, 10, false), Number(a % 256, 10, false)]
  }

  function Dotted(a: u32): string { Join(DottedGroups(a), '.') }

  function HexGroups(f: seq<u16>, upper: bool): (gs: seq<string>)
    ensures |gs| == |f|
    ensures forall i :: 0 <= i < |f| ==> gs[i] == Number(f[i], 16, upper)
  {
    seq(|f|, i requires 0 <= i < |f| => Number(f[i], 16, upper))
  }

  predicate IsScion4(ip: IPAddress) {
    Classify(ip) in {BgpIPv4, PublicIPv4}
  }

  /** Fields printed in hexadecimal: the last two are dotted decimal when they hold an IPv4 address. */
  function HexCount(ip: IPAddress): (n: nat)
    ensures n == 6 || n == 8
  {
    if ip.Is4in6() || IsScion4(ip) then 6 else 8
  }

  function ChosenRun(ip: IPAddress, longForm: bool): (r: (nat, nat))
    requires ip.IPv6?
    ensures r.0 <= r.1 <= HexCount(ip)
  {
    if longForm then (0, 0) else LongestRun(FieldsOf(ip.hi, ip.lo)[..HexCount(ip)], HexCount(ip))
  }

  /** An empty group stands for the run; one more at an end of the text gives the double colon there. */
  function GapGroups(n: nat, first: nat, last: nat): seq<string> {
    if first == last then []
    else (if first == 0 then [""] else []) + [""] + (if last == n then [""] else [])
  }

  /** The groups between colons. */
  function Groups(ip: IPAddress, longForm: bool, upper: bool): (gs: seq<string>)
    requires ip.IPv6?
  {
    var f, n := FieldsOf(ip.hi, ip.lo), HexCount(ip);
    var (first, last) := ChosenRun(ip, longForm);
    HexGroups(f[..first], upper) + GapGroups(n, first, last) + HexGroups(f[last..n], upper)
    + (if n == 6 then [Dotted(ip.lo % 0x1_0000_0000)] else [])
  }

  function FormatIP(ip: IPAddress, longForm: bool, upper: bool): string {
    if ip.IPv4? then Dotted(ip.addr)
    else
      var gs := Groups(ip, longForm, upper);
      (if gs == [] then "" else Join(gs, ':')) + (if ip.zone == "" then "" else "%" + ip.zone)
  }

  // ---- Parsing: what is accepted and what it means ----

  function ParseIPv4Spec(text: string): Option<u32> {
    var gs := Split(text, '.');
    if |gs| != 4 || (exists i :: 0 <= i < 4 && FromChars(gs[i], 10, 255).None?) then None
    else Some(0x100_0000 * FromChars(gs[0], 10, 255).value + 0x1_0000 * FromChars(gs[1], 10, 255).value
              + 0x100 * FromChars(gs[2], 10, 255).value + FromChars(gs[3], 10, 255).value)
  }

  /** The fields a group contributes: none, one, or two for a trailing IPv4 address. */
  function GroupFields(gs: seq<string>, k: nat): Option<seq<u16>>
    requires k < |gs|
  {
    var g := gs[k];
    if g == "" then Some([0])
    else if |g| <= 4 then
      (match FromChars(g, 16, 0xffff) case None => None case Some(v) => Some([v]))
    else if 0 < k == |gs| - 1 then
      (match ParseIPv4Spec(g) case None => None case Some(a) => Some([a / 0x1_0000, a % 0x1_0000]))
    else None
  }

  function FieldsUpTo(gs: seq<string>, k: nat): Option<seq<u16>>
    requires k <= |gs|
  {
    if k == 0 then Some([])
    else match FieldsUpTo(gs, k - 1)
      case None => None
      case Some(f) => (match GroupFields(gs, k - 1) case None => None case Some(g) => Some(f + g))
  }

  /** Index of the last empty group among the first `k`, or -1. */
  function LastEmpty(gs: seq<string>, k: nat): (c: int)
    requires k <= |gs|
    ensures -1 <= c < k
  {
    if k == 0 then -1 else if gs[k - 1] == "" then k - 1 else LastEmpty(gs, k - 1)
  }

  /** A second empty group is accepted only among the first three. */
  predicate GapsAllowed(gs: seq<string>, k: nat)
    requires k <= |gs|
  {
    forall i, j :: 0 <= j < i < k && gs[i] == "" && gs[j] == "" ==> i <= 2
  }

  /**
   Fewer than eight fields are filled up with zeros behind the collapsed group. An IPv4 address
   in the eighth group makes nine fields, of which the first eight are the address.
   */
  function Expand(f: seq<u16>, c: int): (r: Option<seq<u16>>)
    requires -1 <= c < |f|
    ensures r.Some? ==> |r.value| == 8
  {
    if |f| >= 8 then Some(f[..8])
    else if c < 0 then None
    else Some(f[..c + 1] + seq(8 - |f|, _ => 0) + f[c + 1..])
  }

  function ParseGroups(gs: seq<string>): (r: Option<seq<u16>>)
    requires |gs| >= 1
    ensures r.Some? ==> |r.value| == 8
  {
    if |gs| > 8 || !GapsAllowed(gs, |gs|) then None
    else match FieldsUpTo(gs, |gs|)
      case None => None
      case Some(f) =>
        FieldsCount(gs, |gs|);
        Expand(f, LastEmpty(gs, |gs|))
  }

  /**
   Seven fields have been read and an IPv4 address follows in the eighth group: its second half
   is stored behind the array of eight fields.
   */
  predicate StrayWrite(gs: seq<string>) {
    && |gs| >= 8
    && GapsAllowed(gs, 7) && FieldsUpTo(gs, 7).Some?
    && |gs[7]| > 4 && ParseIPv4Spec(gs[7]).Some?
  }

  lemma {:induction false} FieldsCount(gs: seq<string>, k: nat)
    requires k <= |gs| && FieldsUpTo(gs, k).Some?
    ensures k <= |FieldsUpTo(gs, k).value| <= k + if k == |gs| then 1 else 0
  {
    if k > 0 { FieldsCount(gs, k - 1); }
  }

  function ParseBody(text: string, zone: string): Result<IPAddress> {
    var gs := Split(text, ':');
    if |gs[0]| > 4 then
      if zone != "" then Err(SyntaxError)
      else match ParseIPv4Spec(text)
        case None => Err(SyntaxError)
        case Some(a) => Ok(IPv4(a))
    else match ParseGroups(gs)
      case None => Err(SyntaxError)
      case Some(f) => Ok(MakeIPv6(f, zone))
  }

  function ParseIP(text: string, noZone: bool): Result<IPAddress> {
    if text == "" then Err(SyntaxError)
    else match Find(text, '%')
      case None => ParseBody(text, "")
      case Some(k) =>
        if noZone then Err(RequiresZone)
        else if k + 1 == |text| then Err(SyntaxError)
        else ParseBody(text[..k], text[k + 1..])
  }

  /** The texts that make the parser write behind its array. */
  predicate Overruns(text: string, noZone: bool) {
    match Find(text, '%')
    case None => StrayWrite(Split(text, ':'))
    case Some(k) => !noZone && k + 1 < |text| && StrayWrite(Split(text[..k], ':'))
  }
}
