/**
 Round trip of IP address text: exactly which printed addresses are read back.
 */
module IpTextLaws {
  import opened Words
  import opened Address
  import opened Text
  import opened IpText

  /** Characters that occur in no group of an address: all separators around it. */
  predicate Clean(s: string) {
    ':' !in s && '%' !in s && ',' !in s && '[' !in s && ']' !in s && '-' !in s
  }

  // ---- Dotted decimal ----

  lemma Quads(a: u32)
    ensures 0x100_0000 * (a / 0x100_0000 % 256) + 0x1_0000 * (a / 0x1_0000 % 256) + 0x100 * (a / 0x100 % 256) + a % 256 == a
  {
    DivDiv(a, 0x100, 0x100);
    DivDiv(a, 0x1_0000, 0x100);
    assert a / 0x100_0000 < 256;
  }

  lemma PlainIsFree(s: string)
    requires Plain(s)
    ensures Clean(s) && '.' !in s
  {
  }

  lemma DottedParses(a: u32)
    ensures ParseIPv4Spec(Dotted(a)) == Some(a)
    ensures Clean(Dotted(a)) && |Dotted(a)| > 4
  {
    hide Number, FromChars, Split, Text.Join;
    var gs := DottedGroups(a);
    forall i | 0 <= i < 4
      ensures Clean(gs[i]) && '.' !in gs[i] && FromChars(gs[i], 10, 255).Some? && gs[i] != ""
    {
      var v := [a / 0x100_0000 % 256, a / 0x1_0000 % 256, a / 0x100 % 256, a % 256][i];
      DecimalField(v, 255);
      PlainIsFree(Number(v, 10, false));
    }
    SplitJoin(gs, '.');
    DecimalField(a / 0x100_0000 % 256, 255);
    DecimalField(a / 0x1_0000 % 256, 255);
    DecimalField(a / 0x100 % 256, 255);
    DecimalField(a % 256, 255);
    Quads(a);
    JoinFree(gs, '.', ':'); JoinFree(gs, '.', '%'); JoinFree(gs, '.', ',');
    JoinFree(gs, '.', '['); JoinFree(gs, '.', ']'); JoinFree(gs, '.', '-');
    FourGroups(gs);
  }

  lemma FourGroups(gs: seq<string>)
    requires |gs| == 4 && forall i :: 0 <= i < 4 ==> gs[i] != ""
    ensures |Text.Join(gs, '.')| > 4
  {
    assert Text.Join(gs, '.') == gs[0] + "." + Text.Join(gs[1..], '.');
    assert Text.Join(gs[1..], '.') == gs[1] + "." + Text.Join(gs[1..][1..], '.');
    assert Text.Join(gs[1..][1..], '.') == gs[2] + "." + Text.Join(gs[1..][1..][1..], '.');
  }

  // ---- Fields of printed groups ----

  /** Group `i` shows the field `v`, or is empty and stands for zero. */
  ghost predicate Shows(g: string, v: u16, upper: bool) {
    (g == "" && v == 0) || g == Number(v, 16, upper)
  }

  lemma {:induction false} ShownFields(gs: seq<string>, vals: seq<u16>, upper: bool, k: nat)
    requires k <= |vals| <= |gs| && forall i :: 0 <= i < k ==> Shows(gs[i], vals[i], upper)
    ensures FieldsUpTo(gs, k) == Some(vals[..k])
  {
    if k > 0 {
      ShownFields(gs, vals, upper, k - 1);
      HexField(vals[k - 1], upper);
      assert vals[..k] == vals[..k - 1] + [vals[k - 1]];
    }
  }

  /** The empty groups are exactly those from `e` to `e + g`. */
  lemma {:induction false} LastEmptyIs(gs: seq<string>, e: nat, g: nat, k: nat)
    requires e + g <= k <= |gs| && forall i :: 0 <= i < |gs| ==> (gs[i] == "" <==> e <= i < e + g)
    ensures LastEmpty(gs, k) == if g == 0 then -1 else e + g - 1
  {
    if k > e + g {
      LastEmptyIs(gs, e, g, k - 1);
    } else if g == 0 {
      NoEmpty(gs, k);
    }
  }

  lemma {:induction false} NoEmpty(gs: seq<string>, k: nat)
    requires k <= |gs| && forall i :: 0 <= i < k ==> gs[i] != ""
    ensures LastEmpty(gs, k) == -1
  {
    if k > 0 { NoEmpty(gs, k - 1); }
  }

  lemma GapsAllowedIs(gs: seq<string>, e: nat, g: nat)
    requires e + g <= |gs| && forall i :: 0 <= i < |gs| ==> (gs[i] == "" <==> e <= i < e + g)
    ensures GapsAllowed(gs, |gs|) <==> g <= 1 || e + g <= 3
  {
    if g > 1 && e + g > 3 {
      assert gs[e + g - 1] == "" && gs[e] == "";
    }
  }

  /** A run replaced by fewer zeros, and filled up again. */
  lemma ExpandRestores(f: seq<u16>, first: nat, last: nat, g: nat)
    requires |f| == 8 && first <= last <= 8 && IsZeroRun(f, first, last)
    requires if first == last then g == 0 else 1 <= g <= last - first
    ensures var shown := f[..first] + seq(g, _ => 0) + f[last..];
            Expand(shown, if g == 0 then -1 else first + g - 1) == Some(f)
  {
    var shown := f[..first] + seq(g, _ => 0) + f[last..];
    if g == last - first {
      assert shown == f && f[..8] == f;
    } else {
      var c := first + g - 1;
      assert shown[..c + 1] + seq(8 - |shown|, _ => 0) + shown[c + 1..] == f;
    }
  }

  // ---- The printed groups of an address ----

  /** Values shown by the printed groups, without the dotted tail. */
  function ShownValues(f: seq<u16>, n: nat, first: nat, last: nat): seq<u16>
    requires first <= last <= n <= |f|
  {
    f[..first] + seq(|GapGroups(n, first, last)|, _ => 0) + f[last..n]
  }

  /** Shape of the printed groups, for any fields and run. */
  lemma GroupsShape(f: seq<u16>, n: nat, first: nat, last: nat, tail: seq<string>, upper: bool)
    requires first <= last <= n <= |f| && forall t :: t in tail ==> t != ""
    ensures var gap, vals := GapGroups(n, first, last), ShownValues(f, n, first, last);
            var gs := HexGroups(f[..first], upper) + gap + HexGroups(f[last..n], upper) + tail;
            && |gs| == |vals| + |tail| && gs[|vals|..] == tail
            && (forall i :: 0 <= i < |vals| ==> Shows(gs[i], vals[i], upper))
            && (forall i :: 0 <= i < |gs| ==> (gs[i] == "" <==> first <= i < first + |gap|))
  {
    hide Number;
    var gap, vals := GapGroups(n, first, last), ShownValues(f, n, first, last);
    var a, b := HexGroups(f[..first], upper), HexGroups(f[last..n], upper);
    var gs := a + gap + b + tail;
    var m := first + |gap|;
    assert gs[|vals|..] == tail;
    forall i | 0 <= i < |gs|
      ensures i < |vals| ==> Shows(gs[i], vals[i], upper)
      ensures gs[i] == "" <==> first <= i < m
    {
      if i < first {
        assert gs[i] == a[i] && vals[i] == f[i];
      } else if i < m {
        assert gs[i] == gap[i - first] && vals[i] == 0;
      } else if i < |vals| {
        assert gs[i] == b[i - m] && vals[i] == f[last..n][i - m];
      } else {
        assert gs[i] == tail[i - |vals|] && tail[i - |vals|] in tail;
      }
    }
  }

  lemma GroupsShow(ip: IPAddress, longForm: bool, upper: bool)
    requires ip.IPv6?
    ensures var f, n := FieldsOf(ip.hi, ip.lo), HexCount(ip);
            var (first, last) := ChosenRun(ip, longForm);
            var gs, vals := Groups(ip, longForm, upper), ShownValues(f, n, first, last);
            && |gs| == |vals| + (if n == 6 then 1 else 0) && |vals| >= 2 && |gs| >= 3
            && (forall i :: 0 <= i < |vals| ==> Shows(gs[i], vals[i], upper))
            && (n == 6 ==> gs[|vals|] == Dotted(ip.lo % 0x1_0000_0000))
            && (forall i :: 0 <= i < |gs| ==>
                 (gs[i] == "" <==> first <= i < first + |GapGroups(n, first, last)|))
  {
    hide FieldsOf, Dotted, HexCount, ChosenRun, HexGroups, Shows;
    var f, n := FieldsOf(ip.hi, ip.lo), HexCount(ip);
    var (first, last) := ChosenRun(ip, longForm);
    var tail := if n == 6 then [Dotted(ip.lo % 0x1_0000_0000)] else [];
    DottedParses(ip.lo % 0x1_0000_0000);
    GroupsShape(f, n, first, last, tail, upper);
    var gs, vals := Groups(ip, longForm, upper), ShownValues(f, n, first, last);
    assert gs[|vals|..] == tail;
    if n == 6 {
      assert gs[|vals|] == gs[|vals|..][0];
    }
  }

  lemma GroupsClean(ip: IPAddress, longForm: bool, upper: bool)
    requires ip.IPv6?
    ensures forall g :: g in Groups(ip, longForm, upper) ==> Clean(g)
    ensures Groups(ip, longForm, upper) != [] && |Groups(ip, longForm, upper)[0]| <= 4
  {
    hide FieldsOf, Dotted, HexCount, ChosenRun, Groups, Clean, ShownValues, Number;
    var f, n := FieldsOf(ip.hi, ip.lo), HexCount(ip);
    var (first, last) := ChosenRun(ip, longForm);
    var gs, vals := Groups(ip, longForm, upper), ShownValues(f, n, first, last);
    GroupsShow(ip, longForm, upper);
    DottedParses(ip.lo % 0x1_0000_0000);
    forall i | 0 <= i < |gs| ensures Clean(gs[i]) && (i < |vals| ==> |gs[i]| <= 4) {
      if i < |vals| {
        HexField(vals[i], upper);
        PlainIsFree(Number(vals[i], 16, upper));
        PlainIsFree("");
        assert Shows(gs[i], vals[i], upper);
      }
    }
    assert |vals| > 0;
  }

  /** The text of the last two fields is the address in the low half. */
  lemma TailFields(hi: u64, lo: u64)
    ensures FieldsOf(hi, lo)[6..] == [lo % 0x1_0000_0000 / 0x1_0000, lo % 0x1_0000]
  {
    hide BigEndian;
    var b := ToBytes16(hi, lo);
    LowBytes(lo);
    assert b[12..16] == BigEndian(lo, 8)[4..];
    assert b[12] == b[12..16][0] && b[13] == b[12..16][1] && b[14] == b[12..16][2] && b[15] == b[12..16][3];
    TwoFields(lo);
    assert FieldsOf(hi, lo)[6] == FieldAt(b, 6) && FieldsOf(hi, lo)[7] == FieldAt(b, 7);
  }

  lemma TwoFields(lo: nat)
    ensures 0x100 * (lo / 0x100_0000 % 256) + lo / 0x1_0000 % 256 == lo % 0x1_0000_0000 / 0x1_0000
    ensures 0x100 * (lo / 0x100 % 256) + lo % 256 == lo % 0x1_0000
  {
    UpperHalf(lo);
    Halves(lo / 0x1_0000, lo % 0x1_0000_0000 / 0x1_0000);
    DivDiv(lo, 0x1_0000, 0x100);
    Halves(lo, lo % 0x1_0000);
  }

  lemma UpperHalf(lo: nat)
    ensures lo / 0x1_0000 % 0x1_0000 == lo % 0x1_0000_0000 / 0x1_0000
  {
    var a, q := lo % 0x1_0000_0000, lo / 0x1_0000_0000;
    DivModUnique(lo, 0x1_0000, q * 0x1_0000 + a / 0x1_0000, a % 0x1_0000);
    DivModUnique(lo / 0x1_0000, 0x1_0000, q, a / 0x1_0000);
  }

  lemma Halves(w: nat, v: nat)
    requires v == w % 0x1_0000
    ensures 0x100 * (w / 0x100 % 256) + w % 256 == v
  {
    var q := w / 0x1_0000;
    DivModUnique(w, 0x100, q * 0x100 + v / 0x100, v % 0x100);
    assert v / 0x100 < 0x100;
  }

  lemma LowBytes(lo: u64)
    ensures BigEndian(lo, 8)[4..] == [lo / 0x100_0000 % 256, lo / 0x1_0000 % 256, lo / 0x100 % 256, lo % 256]
  {
    var w1 := lo / 256;
    var w2 := w1 / 256;
    var w3 := w2 / 256;
    var w4 := w3 / 256;
    assert BigEndian(lo, 8) == BigEndian(w1, 7) + [lo % 256];
    assert BigEndian(w1, 7) == BigEndian(w2, 6) + [w1 % 256];
    assert BigEndian(w2, 6) == BigEndian(w3, 5) + [w2 % 256];
    assert BigEndian(w3, 5) == BigEndian(w4, 4) + [w3 % 256];
    assert w2 == lo / 0x1_0000 && w3 == lo / 0x100_0000;
  }

  /** The run the printer chose consists of zeros. */
  lemma ChosenRunIsZero(ip: IPAddress, longForm: bool)
    requires ip.IPv6?
    ensures var (first, last) := ChosenRun(ip, longForm);
            last <= 8 && IsZeroRun(FieldsOf(ip.hi, ip.lo), first, last) && (first == last ==> first == 0)
            && (first < last ==> last - first >= 2)
  {
    hide FieldsOf;
    var f, n := FieldsOf(ip.hi, ip.lo), HexCount(ip);
    LongestRunIsLeftmost(f[..n], n);
    var (first, last) := ChosenRun(ip, longForm);
    if !longForm {
      assert forall i :: first <= i < last ==> f[..n][i] == f[i];
    }
  }

  /** What the reader makes of the printed groups. */
  lemma ParsePrintedGroups(ip: IPAddress, longForm: bool, upper: bool)
    requires ip.IPv6?
    ensures Groups(ip, longForm, upper) != []
    ensures ParseGroups(Groups(ip, longForm, upper)) ==
              if TrailingGap(ip, longForm) then None else Some(FieldsOf(ip.hi, ip.lo))
  {
    hide FieldsOf, Dotted, HexCount, ChosenRun, Groups, FieldsUpTo, Expand, LastEmpty, Shows, Number, GapsAllowed, GroupFields;
    var f, n := FieldsOf(ip.hi, ip.lo), HexCount(ip);
    var (first, last) := ChosenRun(ip, longForm);
    var gs, vals := Groups(ip, longForm, upper), ShownValues(f, n, first, last);
    var g := |GapGroups(n, first, last)|;
    ChosenRunIsZero(ip, longForm);
    GroupsShow(ip, longForm, upper);
    GapsAllowedIs(gs, first, g);
    LastEmptyIs(gs, first, g, |gs|);
    ShownFields(gs, vals, upper, |vals|);
    assert vals[..|vals|] == vals;
    PrintedFields(ip, gs, f, n, first, last, vals);
    ExpandRestores(f, first, last, g);
  }

  lemma PrintedFields(ip: IPAddress, gs: seq<string>, f: seq<u16>, n: nat, first: nat, last: nat, vals: seq<u16>)
    requires ip.IPv6? && f == FieldsOf(ip.hi, ip.lo) && first <= last <= n && (n == 6 || n == 8)
    requires vals == ShownValues(f, n, first, last)
    requires |gs| == |vals| + (if n == 6 then 1 else 0) && |vals| >= 2
    requires FieldsUpTo(gs, |vals|) == Some(vals)
    requires n == 6 ==> gs[|vals|] == Dotted(ip.lo % 0x1_0000_0000)
    ensures FieldsUpTo(gs, |gs|) == Some(f[..first] + seq(|GapGroups(n, first, last)|, _ => 0) + f[last..])
  {
    hide FieldsOf, Dotted, GapGroups, FieldsUpTo, GroupFields, ParseIPv4Spec;
    var shown := f[..first] + seq(|GapGroups(n, first, last)|, _ => 0) + f[last..];
    if n == 6 {
      var a: u32 := ip.lo % 0x1_0000_0000;
      DottedParses(a);
      TailFields(ip.hi, ip.lo);
      LastField(gs, |vals|);
      LowHalf(ip.lo);
      TailJoined(f, first, last, 6, seq(|GapGroups(n, first, last)|, _ => 0));
      assert vals + f[6..] == shown;
    } else {
      assert f[last..8] == f[last..];
    }
  }

  lemma TailJoined(f: seq<u16>, first: nat, last: nat, n: nat, zeros: seq<u16>)
    requires first <= last <= n <= |f|
    ensures f[..first] + zeros + f[last..n] + f[n..] == f[..first] + zeros + f[last..]
  {
    assert f[last..] == f[last..n] + f[n..];
  }

  lemma LowHalf(lo: nat)
    ensures lo % 0x1_0000_0000 % 0x1_0000 == lo % 0x1_0000
  {
  }

  lemma LastField(gs: seq<string>, k: nat)
    requires |gs| == k + 1 && k >= 2 && FieldsUpTo(gs, k).Some? && |gs[k]| > 4 && ParseIPv4Spec(gs[k]).Some?
    ensures var a := ParseIPv4Spec(gs[k]).value;
            FieldsUpTo(gs, k + 1) == Some(FieldsUpTo(gs, k).value + [a / 0x1_0000, a % 0x1_0000])
  {
    hide ParseIPv4Spec, FromChars;
  }

  /**
   The printed text ends in a double colon behind two or more groups: the run reaches the last
   of the fields printed in hexadecimal, which are then all eight (see `TrailingRunIsLast`).
   */
  predicate TrailingGap(ip: IPAddress, longForm: bool) {
    ip.IPv6? && var (first, last) := ChosenRun(ip, longForm); first < last == HexCount(ip) && first >= 2
  }

  lemma BodyParses(ip: IPAddress, longForm: bool, upper: bool)
    requires ip.IPv6?
    ensures Groups(ip, longForm, upper) != []
    ensures var body := Text.Join(Groups(ip, longForm, upper), ':');
            && '%' !in body && ',' !in body && '[' !in body && ']' !in body && body != ""
            && ParseBody(body, ip.zone) == if TrailingGap(ip, longForm) then Err(SyntaxError) else Ok(ip)
  {
    hide Groups, FieldsOf, ParseGroups, TrailingGap, Text.Join, Split, MakeIPv6;
    EnoughGroups(ip, longForm, upper);
    var gs := Groups(ip, longForm, upper);
    GroupsClean(ip, longForm, upper);
    forall i | 0 <= i < |gs| ensures Clean(gs[i]) { assert gs[i] in gs; }
    SplitJoin(gs, ':');
    JoinFree(gs, ':', '%'); JoinFree(gs, ':', ','); JoinFree(gs, ':', '['); JoinFree(gs, ':', ']');
    ParsePrintedGroups(ip, longForm, upper);
    MakeOfFields(ip.hi, ip.lo, ip.zone);
    if Text.Join(gs, ':') == "" {
      SplitOfNothing();
    }
  }

  lemma SplitOfNothing()
    ensures Split("", ':') == [""]
  {
  }

  lemma EnoughGroups(ip: IPAddress, longForm: bool, upper: bool)
    requires ip.IPv6?
    ensures |Groups(ip, longForm, upper)| >= 3
  {
    hide FieldsOf, Dotted, HexCount, ChosenRun, Groups;
    ChosenRunIsZero(ip, longForm);
    GroupsShow(ip, longForm, upper);
  }

  /**
   Parsing the printed form of any address gives the address back: always in long form, and
   in compressed form exactly when the text does not end in a double colon behind two or more
   groups; such a text is refused.
   */
  lemma ParseFormat(ip: IPAddress, longForm: bool, upper: bool)
    ensures ParseIP(FormatIP(ip, longForm, upper), false)
         == if TrailingGap(ip, longForm) then Err(SyntaxError) else Ok(ip)
  {
    hide Groups, Dotted, TrailingGap, ParseBody;
    if ip.IPv4? {
      IPv4Parses(ip.addr);
      NeverTrailing(ip, longForm);
    } else {
      BodyParses(ip, longForm, upper);
      var body := Text.Join(Groups(ip, longForm, upper), ':');
      ZoneCutOff(body, ip.zone);
    }
  }

  /** The zone is what stands behind the first percent sign. */
  lemma ZoneCutOff(body: string, zone: string)
    requires body != "" && '%' !in body
    ensures ParseIP(body + if zone == "" then "" else "%" + zone, false) == ParseBody(body, zone)
  {
    hide ParseBody;
    if zone == "" {
      assert body + "" == body;
    } else {
      var text := body + "%" + zone;
      FindAt(body, '%', zone);
      assert body + ("%" + zone) == text;
      assert text[..|body|] == body && text[|body| + 1..] == zone;
    }
  }

  lemma NeverTrailing(ip: IPAddress, longForm: bool)
    requires ip.IPv4? || longForm
    ensures !TrailingGap(ip, longForm)
  {
  }

  lemma IPv4Parses(a: u32)
    ensures Dotted(a) != "" && '%' !in Dotted(a) && ParseBody(Dotted(a), "") == Ok(IPv4(a))
  {
    hide Dotted, ParseIPv4Spec;
    DottedParses(a);
    SplitFree(Dotted(a), ':');
  }

  /** A run never ends at a dotted IPv4 ending: the field before it is 0xffff. */
  lemma TrailingRunIsLast(ip: IPAddress, longForm: bool)
    ensures HexCount(ip) == 6 ==> !TrailingGap(ip, longForm)
    ensures TrailingGap(ip, longForm) ==> ip.IPv6? && ChosenRun(ip, longForm).1 == 8
  {
    if ip.IPv4? { return; }
    hide FieldsOf, LongestRun;
    ChosenRunIsZero(ip, longForm);
    if HexCount(ip) == 6 {
      assert ip.lo / 0x1_0000_0000 == 0xffff;
      FieldBeforeDotted(ip.hi, ip.lo);
    }
  }

  lemma FieldBeforeDotted(hi: u64, lo: u64)
    requires lo / 0x1_0000_0000 == 0xffff
    ensures FieldsOf(hi, lo)[5] == 0xffff
  {
    hide BigEndian;
    var b := ToBytes16(hi, lo);
    MiddleBytes(lo);
    assert b[10..12] == BigEndian(lo, 8)[2..4];
    assert b[10] == b[10..12][0] && b[11] == b[10..12][1];
  }

  lemma MiddleBytes(lo: u64)
    requires lo / 0x1_0000_0000 == 0xffff
    ensures BigEndian(lo, 8)[2..4] == [0xff, 0xff]
  {
    var w1 := lo / 256;
    var w2 := w1 / 256;
    var w3 := w2 / 256;
    var w4 := w3 / 256;
    assert w4 == 0xffff;
    assert BigEndian(0xffff, 4)[2..] == [0xff, 0xff];
    assert BigEndian(lo, 8) == BigEndian(w1, 7) + [lo % 256];
    assert BigEndian(w1, 7) == BigEndian(w2, 6) + [w1 % 256];
    assert BigEndian(w2, 6) == BigEndian(w3, 5) + [w2 % 256];
    assert BigEndian(w3, 5) == BigEndian(w4, 4) + [w3 % 256];
  }

  /** An address the printer compresses at the end and the parser refuses: `2001:db8::`. */
  lemma RefusedText()
    ensures var ip := IPv6(0x2001_0db8_0000_0000, 0, "");
            FormatIP(ip, false, false) == "2001:db8::" && ParseIP("2001:db8::", false) == Err(SyntaxError)
  {
    hide FormatIP, ParseIP, FieldsOf, Number;
    var ip := IPv6(0x2001_0db8_0000_0000, 0, "");
    var f: seq<u16> := [0x2001, 0xdb8, 0, 0, 0, 0, 0, 0];
    ExampleFields();
    ExampleRun(f);
    assert HexCount(ip) == 8;
    assert f[..8] == f;
    assert ChosenRun(ip, false) == (2, 8);
    ParseFormat(ip, false, false);
    ExampleText(ip);
  }

  lemma ExampleFields()
    ensures FieldsOf(0x2001_0db8_0000_0000, 0) == [0x2001, 0xdb8, 0, 0, 0, 0, 0, 0]
  {
    ExampleBytes();
    hide BigEndian;
    assert ToBytes16(0x2001_0db8_0000_0000, 0) ==
      [0x20, 0x01, 0x0d, 0xb8, 0, 0, 0, 0, 0, 0, 0, 0, 0, 0, 0, 0];
  }

  lemma ExampleBytes()
    ensures BigEndian(0x2001_0db8_0000_0000, 8) == [0x20, 0x01, 0x0d, 0xb8, 0, 0, 0, 0]
    ensures BigEndian(0, 8) == [0, 0, 0, 0, 0, 0, 0, 0]
  {
    assert BigEndian(0x2001, 2) == [0x20, 0x01];
    assert BigEndian(0x2001_0db8, 4) == [0x20, 0x01, 0x0d, 0xb8];
    assert BigEndian(0x2001_0db8_0000, 6) == [0x20, 0x01, 0x0d, 0xb8, 0, 0];
    assert BigEndian(0, 4) == [0, 0, 0, 0];
  }

  lemma ExampleRun(f: seq<u16>)
    requires f == [0x2001, 0xdb8, 0, 0, 0, 0, 0, 0]
    ensures LongestRun(f, 8) == (2, 8)
  {
    LongestRunIsLeftmost(f, 8);
    assert IsZeroRun(f, 2, 8);
    assert f[0] != 0 && f[1] != 0;
  }

  lemma ExampleText(ip: IPAddress)
    requires ip == IPv6(0x2001_0db8_0000_0000, 0, "") && HexCount(ip) == 8 && ChosenRun(ip, false) == (2, 8)
    ensures FormatIP(ip, false, false) == "2001:db8::"
  {
    hide HexCount, ChosenRun, FieldsOf;
    ExampleFields();
    assert Number(0x2001, 16, false) == "2001";
    assert Number(0xdb8, 16, false) == "db8";
    var gs := Groups(ip, false, false);
    assert gs == ["2001", "db8", "", ""];
    assert Text.Join(gs[2..], ':') == ":";
    assert Text.Join(gs[1..], ':') == "db8::";
  }

  // ---- Texts behind which the parser writes too far ----

  /**
   What comes of a text whose eighth group is an IPv4 address: refused when more follows, and
   otherwise accepted as an address whose last sixteen bits are lost.
   */
  lemma OverrunOutcome(text: string, zone: string)
    requires StrayWrite(Split(text, ':'))
    ensures var gs := Split(text, ':');
            && FieldsUpTo(gs, 7).Some? && |FieldsUpTo(gs, 7).value| == 7
            && ParseIPv4Spec(gs[7]).Some?
            && ParseBody(text, zone) ==
                 if |gs| > 8 then Err(SyntaxError)
                 else Ok(MakeIPv6(FieldsUpTo(gs, 7).value + [ParseIPv4Spec(gs[7]).value / 0x1_0000], zone))
  {
    hide ParseIPv4Spec, FromChars, Split, MakeIPv6, FieldsUpTo, GroupFields, GapsAllowed;
    var gs := Split(text, ':');
    FieldsCount(gs, 7);
    FirstGroupShort(gs);
    if |gs| == 8 {
      NinthField(gs);
    }
  }

  lemma FirstGroupShort(gs: seq<string>)
    requires StrayWrite(gs)
    ensures |gs[0]| <= 4
  {
    hide ParseIPv4Spec, FromChars;
    if |gs[0]| > 4 {
      assert GroupFields(gs, 0) == None && FieldsUpTo(gs, 1) == None;
      FieldsStayRefused(gs, 1, 7);
    }
  }

  lemma {:induction false} FieldsStayRefused(gs: seq<string>, k: nat, n: nat)
    requires k <= n <= |gs| && FieldsUpTo(gs, k).None?
    ensures FieldsUpTo(gs, n).None?
  {
    if k < n { FieldsStayRefused(gs, k, n - 1); }
  }

  lemma NinthField(gs: seq<string>)
    requires StrayWrite(gs) && |gs| == 8
    ensures FieldsUpTo(gs, 7).Some? && |FieldsUpTo(gs, 7).value| == 7 && ParseIPv4Spec(gs[7]).Some?
    ensures ParseGroups(gs) == Some(FieldsUpTo(gs, 7).value + [ParseIPv4Spec(gs[7]).value / 0x1_0000])
  {
    hide ParseIPv4Spec, FromChars;
    var f, a := FieldsUpTo(gs, 7).value, ParseIPv4Spec(gs[7]).value;
    FieldsCount(gs, 7);
    LastField(gs, 7);
    assert GapsAllowed(gs, 8);
    assert (f + [a / 0x1_0000, a % 0x1_0000])[..8] == f + [a / 0x1_0000];
  }

  /** No printed address makes the parser write behind its array. */
  lemma PrintedNeverOverruns(ip: IPAddress, longForm: bool, upper: bool)
    ensures !Overruns(FormatIP(ip, longForm, upper), false)
  {
    hide Groups, Dotted, StrayWrite, Split;
    if ip.IPv4? {
      DottedParses(ip.addr);
      SplitFree(Dotted(ip.addr), ':');
      FewGroups([Dotted(ip.addr)]);
    } else {
      BodyParses(ip, longForm, upper);
      var gs := Groups(ip, longForm, upper);
      var body := Text.Join(gs, ':');
      PrintedSplit(ip, longForm, upper);
      PrintedEighth(ip, longForm, upper);
      FewGroups(gs);
      if ip.zone == "" {
        assert FormatIP(ip, longForm, upper) == body && Find(body, '%') == None;
      } else {
        var text := body + "%" + ip.zone;
        assert FormatIP(ip, longForm, upper) == text;
        FindAt(body, '%', ip.zone);
        assert text[..|body|] == body;
      }
    }
  }

  lemma FewGroups(gs: seq<string>)
    requires |gs| <= 7 || |gs[7]| <= 4
    ensures !StrayWrite(gs)
  {
  }

  lemma PrintedSplit(ip: IPAddress, longForm: bool, upper: bool)
    requires ip.IPv6?
    ensures Groups(ip, longForm, upper) != []
    ensures Split(Text.Join(Groups(ip, longForm, upper), ':'), ':') == Groups(ip, longForm, upper)
  {
    hide Groups;
    GroupsClean(ip, longForm, upper);
    forall i | 0 <= i < |Groups(ip, longForm, upper)| ensures Free(Groups(ip, longForm, upper)[i], ':') {
      assert Groups(ip, longForm, upper)[i] in Groups(ip, longForm, upper);
    }
    SplitJoin(Groups(ip, longForm, upper), ':');
  }

  lemma PrintedEighth(ip: IPAddress, longForm: bool, upper: bool)
    requires ip.IPv6?
    ensures var gs := Groups(ip, longForm, upper); |gs| <= 7 || |gs[7]| <= 4
  {
    hide FieldsOf, Dotted, HexCount, ChosenRun, Groups, Number;
    var f, n := FieldsOf(ip.hi, ip.lo), HexCount(ip);
    var (first, last) := ChosenRun(ip, longForm);
    var gs, vals := Groups(ip, longForm, upper), ShownValues(f, n, first, last);
    ChosenRunIsZero(ip, longForm);
    GroupsShow(ip, longForm, upper);
    if |gs| > 7 {
      HexField(vals[7], upper);
      assert Shows(gs[7], vals[7], upper);
    }
  }

  /** Accepted after a stray write, as 1:2:3:4:5:6:7:102. */
  lemma OverrunText()
    ensures var text := "1:2:3:4:5:6:7:1.2.3.4";
            && Overruns(text, false)
            && ParseIP(text, false) == Ok(MakeIPv6([1, 2, 3, 4, 5, 6, 7, 0x102], ""))
  {
    hide Split, FieldsUpTo, ParseIPv4Spec, MakeIPv6, Find, ParseGroups, FromChars;
    var text := "1:2:3:4:5:6:7:1.2.3.4";
    var gs := ["1", "2", "3", "4", "5", "6", "7", "1.2.3.4"];
    OverrunSplit(gs, text);
    OverrunFields(gs);
    OverrunTail();
    assert StrayWrite(gs);
    NinthField(gs);
    assert [1, 2, 3, 4, 5, 6, 7] + [0x0102_0304 / 0x1_0000] == [1, 2, 3, 4, 5, 6, 7, 0x102];
  }

  lemma OverrunSplit(gs: seq<string>, text: string)
    requires gs == ["1", "2", "3", "4", "5", "6", "7", "1.2.3.4"] && text == "1:2:3:4:5:6:7:1.2.3.4"
    ensures Split(text, ':') == gs && Find(text, '%') == None
  {
    hide Split, Find;
    NoPercent(text);
    SplitMiddle();
    SplitOne("2", "3:4:5:6:7:1.2.3.4", "2:3:4:5:6:7:1.2.3.4");
    SplitOne("1", "2:3:4:5:6:7:1.2.3.4", "1:2:3:4:5:6:7:1.2.3.4");
  }

  lemma SplitOne(g: string, rest: string, text: string)
    requires ':' !in g && text == g + ":" + rest
    ensures Split(text, ':') == [g] + Split(rest, ':')
  {
    hide Split;
    SplitAfter(g, ':', rest);
  }

  lemma NoPercent(text: string)
    requires text == "1:2:3:4:5:6:7:1.2.3.4"
    ensures Find(text, '%') == None
  {
    hide Find;
  }

  lemma SplitMiddle()
    ensures Split("3:4:5:6:7:1.2.3.4", ':') == ["3", "4", "5", "6", "7", "1.2.3.4"]
  {
    hide Split;
    SplitLast();
    SplitOne("4", "5:6:7:1.2.3.4", "4:5:6:7:1.2.3.4");
    SplitOne("3", "4:5:6:7:1.2.3.4", "3:4:5:6:7:1.2.3.4");
  }

  lemma SplitLast()
    ensures Split("5:6:7:1.2.3.4", ':') == ["5", "6", "7", "1.2.3.4"]
  {
    hide Split;
    SplitFree("1.2.3.4", ':');
    SplitOne("7", "1.2.3.4", "7:1.2.3.4");
    SplitOne("6", "7:1.2.3.4", "6:7:1.2.3.4");
    SplitOne("5", "6:7:1.2.3.4", "5:6:7:1.2.3.4");
  }

  lemma OverrunFields(gs: seq<string>)
    requires gs == ["1", "2", "3", "4", "5", "6", "7", "1.2.3.4"]
    ensures GapsAllowed(gs, 7) && FieldsUpTo(gs, 7) == Some([1, 2, 3, 4, 5, 6, 7])
  {
    var vals: seq<u16> := [1, 2, 3, 4, 5, 6, 7];
    forall i | 0 <= i < 7 ensures Shows(gs[i], vals[i], false) {
      assert Number(vals[i], 16, false) == [DigitChar(vals[i], false)];
    }
    ShownFields(gs, vals, false, 7);
    assert vals[..7] == vals;
  }

  lemma OverrunTail()
    ensures ParseIPv4Spec("1.2.3.4") == Some(0x0102_0304)
  {
    hide ParseIPv4Spec, Split, FromChars, Text.Join;
    DottedParses(0x0102_0304);
    OverrunDigits();
    JoinFour("1", "2", "3", "4");
    assert "1" + "." + ("2" + "." + ("3" + "." + "4")) == "1.2.3.4";
  }

  lemma OverrunDigits()
    ensures DottedGroups(0x0102_0304) == ["1", "2", "3", "4"]
  {
    hide Number;
    DigitText(1);
    DigitText(2);
    DigitText(3);
    DigitText(4);
  }

  lemma DigitText(d: nat)
    requires d < 10
    ensures Number(d, 10, false) == [('0' as int + d) as char]
  {
  }

  lemma JoinFour(a: string, b: string, c: string, d: string)
    ensures Text.Join([a, b, c, d], '.') == a + "." + (b + "." + (c + "." + d))
  {
    var gs := [a, b, c, d];
    assert gs[1..][1..][1..] == [d] && gs[1..][1..] == [c, d] && gs[1..] == [b, c, d];
    assert Text.Join([c, d], '.') == c + "." + Text.Join([c, d][1..], '.');
    assert Text.Join([b, c, d], '.') == b + "." + Text.Join([b, c, d][1..], '.');
  }
}
