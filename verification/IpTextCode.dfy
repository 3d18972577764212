/**
 The loops of the IP address parser and printer, proved against the grammar of `IpText`.
 */
module IpTextCode {
  import opened Words
  import opened Address
  import opened Text
  import opened IpText

  // ---- Dotted decimal ----

  function ByteOf(g: string): byte {
    match FromChars(g, 10, 255) case None => 0 case Some(v) => v
  }

  /** The bytes of the first `i` groups, as one number. */
  function Leading(gs: seq<string>, i: nat): nat
    requires i <= |gs|
  {
    if i == 0 then 0 else Leading(gs, i - 1) * 256 + ByteOf(gs[i - 1])
  }

  lemma LeadingFour(gs: seq<string>)
    requires |gs| >= 4
    ensures Leading(gs, 4) == 0x100_0000 * ByteOf(gs[0]) + 0x1_0000 * ByteOf(gs[1]) + 0x100 * ByteOf(gs[2]) + ByteOf(gs[3])
  {
    hide ByteOf;
    assert Leading(gs, 1) == ByteOf(gs[0]);
    assert Leading(gs, 2) == ByteOf(gs[0]) * 256 + ByteOf(gs[1]);
    assert Leading(gs, 3) == Leading(gs, 2) * 256 + ByteOf(gs[2]);
  }

  /** `parseIPv4`: exactly four decimal bytes, shifted and ORed together. */
  method ParseIPv4(text: string) returns (r: Option<u32>)
    ensures r == ParseIPv4Spec(text)
  {
    hide FromChars, Split, Or, Pow2;
    var addr: nat, i := 0, 0;
    var gs := Split(text, '.');
    while i < |gs|
      invariant 0 <= i <= |gs| && i <= 4
      invariant forall j :: 0 <= j < i ==> FromChars(gs[j], 10, 255).Some?
      invariant addr == Leading(gs, i) * Pow2(8 * (4 - i))
    {
      if i > 3 || gs[i] == "" {
        EmptyIsRefused();
        return None;
      }
      var byte := FromChars(gs[i], 10, 255);
      if byte.None? { return None; }
      Pow2At8();
      OrBelow(Leading(gs, i), byte.value, 8, 8 * (3 - i));
      addr := Or(addr, byte.value * Pow2(8 * (3 - i)));
      i := i + 1;
    }
    if i < 4 { return None; }
    PowZero();
    LeadingFour(gs);
    return Some(addr);
  }

  lemma EmptyIsRefused()
    ensures FromChars("", 10, 255) == None
  {
  }

  lemma PowZero()
    ensures Pow2(0) == 1
  {
  }

  // ---- The parser ----

  lemma {:induction false} FieldsFail(gs: seq<string>, k: nat, n: nat)
    requires k <= n <= |gs| && FieldsUpTo(gs, k).None?
    ensures FieldsUpTo(gs, n).None?
  {
    if k < n { FieldsFail(gs, k, n - 1); }
  }

  /** A group without meaning makes the whole text meaningless. */
  lemma GroupFails(gs: seq<string>, k: nat)
    requires k < |gs| && GroupFields(gs, k).None?
    ensures ParseGroups(gs) == None
  {
    hide GroupFields;
    assert FieldsUpTo(gs, k + 1).None?;
    FieldsFail(gs, k + 1, |gs|);
  }

  lemma TooManyGroups(gs: seq<string>)
    requires |gs| > 8
    ensures ParseGroups(gs) == None
  {
  }

  /** When one of the first seven groups of a long text is refused, the eighth is never stored. */
  lemma NoStrayWrite(gs: seq<string>, k: nat)
    requires k < |gs| && k < 7 && GroupFields(gs, k).None?
    ensures !StrayWrite(gs)
  {
    hide GroupFields, ParseIPv4Spec;
    if |gs| >= 8 {
      assert FieldsUpTo(gs, k + 1).None?;
      FieldsFail(gs, k + 1, 7);
    }
  }

  lemma FieldAppended(gs: seq<string>, k: nat, f: seq<u16>, g: seq<u16>)
    requires k < |gs| && FieldsUpTo(gs, k) == Some(f) && GroupFields(gs, k) == Some(g)
    ensures FieldsUpTo(gs, k + 1) == Some(f + g)
  {
    hide GroupFields;
  }

  lemma GapsStep(gs: seq<string>, k: nat)
    requires k < |gs| && GapsAllowed(gs, k)
    ensures GapsAllowed(gs, k + 1) <==> (gs[k] == "" && LastEmpty(gs, k) >= 0 ==> k <= 2)
    ensures LastEmpty(gs, k) >= 0 && gs[k] == "" && k > 2 ==> !GapsAllowed(gs, |gs|)
    ensures LastEmpty(gs, k) >= 0 && gs[k] == "" && 2 < k <= 7 ==> !StrayWrite(gs)
    ensures LastEmpty(gs, k + 1) == if gs[k] == "" then k else LastEmpty(gs, k)
  {
    hide FieldsUpTo, ParseIPv4Spec;
    LastEmptyIsLast(gs, k);
    var c := LastEmpty(gs, k);
    if c >= 0 && gs[k] == "" { assert gs[c] == ""; }
  }

  lemma {:induction false} LastEmptyIsLast(gs: seq<string>, k: nat)
    requires k <= |gs|
    ensures var c := LastEmpty(gs, k);
            (c >= 0 ==> gs[c] == "") && forall i :: c < i < k ==> gs[i] != ""
  {
    if k > 0 && gs[k - 1] != "" { LastEmptyIsLast(gs, k - 1); }
  }

  /** Moves the fields behind the collapsed group to the end and clears the fields between. */
  method FillZeros(addr: array<u16>, count: nat, collapsed: nat)
    requires addr.Length >= 8 && collapsed < count < 8
    modifies addr
    ensures Expand(old(addr[..count]), collapsed) == Some(addr[..8])
  {
    var expandZeros := 8 - count;
    var collapsedEnd := collapsed + expandZeros;
    ghost var was := addr[..8];
    var j := 7;
    while j > collapsedEnd
      invariant collapsedEnd <= j <= 7
      invariant forall i :: 0 <= i <= j ==> addr[i] == was[i]
      invariant forall i :: j < i < 8 ==> addr[i] == was[i - expandZeros]
    {
      var k := j - expandZeros;
      addr[j] := addr[k];
      j := j - 1;
    }
    j := collapsed + 1;
    while j < collapsed + expandZeros + 1
      invariant collapsed + 1 <= j <= collapsedEnd + 1
      invariant forall i :: 0 <= i <= collapsed ==> addr[i] == was[i]
      invariant forall i :: collapsed < i < j ==> addr[i] == 0
      invariant forall i :: collapsedEnd < i < 8 ==> addr[i] == was[i - expandZeros]
    {
      addr[j] := 0;
      j := j + 1;
    }
    assert was[..count] == old(addr[..count]);
    FilledIsExpanded(was, addr[..8], count, collapsed);
  }

  lemma FilledIsExpanded(was: seq<u16>, now: seq<u16>, count: nat, collapsed: nat)
    requires |was| == |now| == 8 && collapsed < count < 8
    requires forall i :: 0 <= i <= collapsed ==> now[i] == was[i]
    requires forall i :: collapsed < i <= collapsed + 8 - count ==> now[i] == 0
    requires forall i :: collapsed + 8 - count < i < 8 ==> now[i] == was[i - (8 - count)]
    ensures Expand(was[..count], collapsed) == Some(now)
  {
    var f := was[..count];
    assert now == f[..collapsed + 1] + seq(8 - |f|, _ => 0) + f[collapsed + 1..];
  }

  /**
   The main loop of the parser: one pass over the groups between colons. The ninth cell of the
   array stands for the memory behind the eight fields; `overrun` tells whether it was written.
   */
  method ParseFields(text: string, zone: string) returns (r: Result<IPAddress>, overrun: bool)
    ensures r == ParseBody(text, zone)
    ensures overrun <==> StrayWrite(Split(text, ':'))
  {
    hide *;
    var addr := new u16[9](_ => 0);
    var gs := Split(text, ':');
    var i, collapsedGroup := 0, -1;
    NoGroups(gs);
    BodyCases(text, zone);
    overrun := false;
    var group := 0;
    while group < |gs|
      invariant 0 <= group <= |gs| && i == group && i <= 8
      invariant FieldsUpTo(gs, i) == Some(addr[..i])
      invariant GapsAllowed(gs, i) && collapsedGroup == LastEmpty(gs, i)
      invariant i > 0 ==> |gs[0]| <= 4
      invariant i > 7 ==> |gs[7]| <= 4
      invariant !overrun
    {
      if i > 7 {
        TooManyGroups(gs);
        ShortEighth(gs);
        return Err(SyntaxError), overrun;
      }
      GapsStep(gs, i);
      GroupCases(gs, group);
      if gs[group] == "" {
        if collapsedGroup >= 0 {
          if collapsedGroup == 0 && (i == 1 || i == 2) {
          } else if collapsedGroup == 1 && i == 2 {
          } else {
            GapsRefused(gs);
            return Err(SyntaxError), overrun;
          }
        }
        collapsedGroup := i;
        FieldAppended(gs, i, addr[..i], [0]);
        addr[i] := 0;
        assert addr[..i + 1] == addr[..i] + [0];
      } else if |gs[group]| > 4 {
        if i == 0 {
          NoStrayWrite(gs, 0);
          if zone != "" { return Err(SyntaxError), overrun; }
          var ipv4 := ParseIPv4(text);
          if ipv4.None? { return Err(SyntaxError), overrun; }
          return Ok(IPv4(ipv4.value)), overrun;
        }
        var ipv4 := ParseIPv4(gs[group]);
        EmbeddedAddress(gs, group);
        if ipv4.None? {
          GroupFails(gs, i);
          return Err(SyntaxError), overrun;
        }
        EmbeddedFields(gs, i, addr[..i], ipv4.value);
        addr[i], addr[i + 1] := ipv4.value / 0x1_0000 % 0x1_0000, ipv4.value % 0x1_0000;
        overrun := i + 1 >= 8;
        assert addr[..i + 2] == addr[..i] + [ipv4.value / 0x1_0000, ipv4.value % 0x1_0000];
        i := i + 2;
        group := group + 1;
        if group != |gs| {
          GroupFails(gs, group - 1);
          return Err(SyntaxError), overrun;
        }
        break;
      } else {
        var field := FromChars(gs[group], 16, 0xffff);
        if field.None? {
          GroupFails(gs, i);
          if group < 7 { NoStrayWrite(gs, group); } else { ShortEighth(gs); }
          return Err(SyntaxError), overrun;
        }
        FieldAppended(gs, i, addr[..i], [field.value]);
        addr[i] := field.value;
        assert addr[..i + 1] == addr[..i] + [field.value];
      }
      i := i + 1;
      group := group + 1;
    }
    if !overrun { ShortEighth(gs); }
    GroupsRead(gs, addr[..i]);
    ExpandCases(addr[..i], collapsedGroup);
    if i < 8 {
      if collapsedGroup < 0 { return Err(SyntaxError), overrun; }
      FillZeros(addr, i, collapsedGroup);
    } else {
      assert addr[..i][..8] == addr[..8];
    }
    return Ok(MakeIPv6(addr[..8], zone)), overrun;
  }

  lemma BodyCases(text: string, zone: string)
    ensures var gs := Split(text, ':');
            if |gs[0]| > 4 then
              ParseBody(text, zone) ==
                if zone != "" || ParseIPv4Spec(text).None? then Err(SyntaxError) else Ok(IPv4(ParseIPv4Spec(text).value))
            else
              ParseBody(text, zone) ==
                if ParseGroups(gs).None? then Err(SyntaxError) else Ok(MakeIPv6(ParseGroups(gs).value, zone))
  {
    hide ParseIPv4Spec, ParseGroups, Split, MakeIPv6;
  }

  lemma ExpandCases(f: seq<u16>, c: int)
    requires -1 <= c < |f|
    ensures |f| >= 8 ==> Expand(f, c) == Some(f[..8])
    ensures |f| < 8 && c < 0 ==> Expand(f, c) == None
  {
  }

  /** What the branches of the loop say about a group. */
  lemma GroupCases(gs: seq<string>, k: nat)
    requires k < |gs|
    ensures gs[k] == "" ==> GroupFields(gs, k) == Some([0])
    ensures gs[k] != "" && |gs[k]| <= 4 ==>
              GroupFields(gs, k) == match FromChars(gs[k], 16, 0xffff) case None => None case Some(v) => Some([v])
    ensures k == 0 && |gs[k]| > 4 ==> GroupFields(gs, k) == None
  {
    hide FromChars, ParseIPv4Spec;
  }

  /** Nothing is stored behind the array when the eighth group is missing or short. */
  lemma ShortEighth(gs: seq<string>)
    requires |gs| <= 7 || |gs[7]| <= 4
    ensures !StrayWrite(gs)
  {
  }

  /** Storing an embedded address is the stray write exactly in the eighth group. */
  lemma EmbeddedAddress(gs: seq<string>, k: nat)
    requires 0 < k < |gs| && k <= 7 && |gs[k]| > 4 && GapsAllowed(gs, k) && FieldsUpTo(gs, k).Some?
    ensures ParseIPv4Spec(gs[k]).None? ==> GroupFields(gs, k) == None && !StrayWrite(gs)
    ensures ParseIPv4Spec(gs[k]).Some? ==> (StrayWrite(gs) <==> k == 7)
  {
    hide FromChars, ParseIPv4Spec, FieldsUpTo, GapsAllowed;
    if k < 7 && GroupFields(gs, k).None? { NoStrayWrite(gs, k); }
  }

  lemma NoGroups(gs: seq<string>)
    ensures FieldsUpTo(gs, 0) == Some([]) && GapsAllowed(gs, 0) && LastEmpty(gs, 0) == -1
  {
  }

  lemma GapsRefused(gs: seq<string>)
    requires |gs| >= 1 && !GapsAllowed(gs, |gs|)
    ensures ParseGroups(gs) == None
  {
  }

  lemma GroupsRead(gs: seq<string>, f: seq<u16>)
    requires 1 <= |gs| <= 8 && GapsAllowed(gs, |gs|) && FieldsUpTo(gs, |gs|) == Some(f)
    ensures LastEmpty(gs, |gs|) < |f| && ParseGroups(gs) == Expand(f, LastEmpty(gs, |gs|))
  {
    hide FieldsUpTo, GapsAllowed;
    FieldsCount(gs, |gs|);
  }

  lemma EmbeddedFields(gs: seq<string>, k: nat, f: seq<u16>, a: u32)
    requires 0 < k < |gs| && |gs[k]| > 4 && FieldsUpTo(gs, k) == Some(f) && ParseIPv4Spec(gs[k]) == Some(a)
    ensures k == |gs| - 1 ==> FieldsUpTo(gs, k + 1) == Some(f + [a / 0x1_0000, a % 0x1_0000])
    ensures k < |gs| - 1 ==> GroupFields(gs, k) == None
    ensures a / 0x1_0000 % 0x1_0000 == a / 0x1_0000
  {
    hide FromChars, ParseIPv4Spec;
  }

  /** `IPAddress::Parse`: what it returns, and whether it writes behind its array on the way. */
  method Parse(text: string, noZone: bool) returns (r: Result<IPAddress>, overrun: bool)
    ensures r == ParseIP(text, noZone)
    ensures overrun <==> Overruns(text, noZone)
  {
    hide StrayWrite, ParseBody, Split;
    EmptyText();
    if text == "" { return Err(SyntaxError), false; }
    var zoneSep := Find(text, '%');
    if zoneSep.None? {
      r, overrun := ParseFields(text, "");
    } else {
      if noZone { return Err(RequiresZone), false; }
      var zone := text[zoneSep.value + 1..];
      if zone == "" { return Err(SyntaxError), false; }
      r, overrun := ParseFields(text[..zoneSep.value], zone);
    }
  }

  lemma EmptyText()
    ensures !Overruns("", false) && !Overruns("", true)
  {
    assert Split("", ':') == [""];
  }

  // ---- The printer ----

  function JoinAll(gs: seq<string>): string {
    if gs == [] then "" else Text.Join(gs, ':')
  }

  lemma JoinOne(gs: seq<string>, g: string)
    ensures JoinAll(gs + [g]) == (if gs == [] then "" else JoinAll(gs) + ":") + g
  {
    if gs == [] {
      assert gs + [g] == [g] && "" + g == g;
    } else {
      JoinAppend(gs, g, ':');
    }
  }

  lemma JoinEmpty(gs: seq<string>)
    ensures JoinAll([""]) == ""
    ensures gs != [] ==> JoinAll(gs + [""]) == JoinAll(gs) + ":"
  {
    JoinOne(gs, "");
    assert JoinAll(gs) + ":" + "" == JoinAll(gs) + ":";
  }

  function FieldRange(addr: seq<byte>, a: nat, b: nat): (f: seq<u16>)
    requires a <= b && 2 * b <= |addr|
    ensures |f| == b - a
  {
    if a == b then [] else FieldRange(addr, a, b - 1) + [FieldAt(addr, b - 1)]
  }

  lemma {:induction false} FieldRangeOf(hi: u64, lo: u64, a: nat, b: nat)
    requires a <= b <= 8
    ensures FieldRange(ToBytes16(hi, lo), a, b) == FieldsOf(hi, lo)[a..b]
  {
    if a < b { FieldRangeOf(hi, lo, a, b - 1); }
  }

  lemma FieldRangeStep(addr: seq<byte>, a: nat, b: nat, upper: bool)
    requires a <= b && 2 * b + 1 < |addr|
    ensures HexGroups(FieldRange(addr, a, b + 1), upper)
         == HexGroups(FieldRange(addr, a, b), upper) + [Number(FieldAt(addr, b), 16, upper)]
  {
    hide Number;
  }

  /** One of the two loops over fields; `done` are the groups printed before. */
  method FormatFields(addr: seq<byte>, from: nat, to: nat, upper: bool, out: string, ghost done: seq<string>)
    returns (res: string, ghost printed: seq<string>)
    requires |addr| == 16 && from % 2 == 0 && to % 2 == 0 && from <= to <= 16
    requires out == JoinAll(done) && (done == [] <==> from == 0)
    ensures res == JoinAll(printed)
    ensures printed == done + HexGroups(FieldRange(addr, from / 2, to / 2), upper)
  {
    hide JoinAll, Number, HexGroups, FieldRange;
    var i := from;
    res, printed := out, done;
    NoFields(addr, from / 2, upper);
    JoinNothing();
    while i < to
      invariant from <= i <= to && i % 2 == 0
      invariant res == JoinAll(printed) && (printed == [] <==> i == 0)
      invariant printed == done + HexGroups(FieldRange(addr, from / 2, i / 2), upper)
    {
      if i != 0 { res := res + ":"; }
      var field: u16 := 0x100 * (addr[i] as int) + addr[i + 1];
      assert FieldAt(addr, i / 2) == field;
      JoinOne(printed, Number(field, 16, upper));
      FieldRangeStep(addr, from / 2, i / 2, upper);
      res := res + Number(field, 16, upper);
      printed := printed + [Number(field, 16, upper)];
      i := i + 2;
    }
  }

  lemma NoFields(addr: seq<byte>, a: nat, upper: bool)
    requires 2 * a <= |addr|
    ensures HexGroups(FieldRange(addr, a, a), upper) == []
  {
  }

  /** The fields before the last colon: the run between `first` and `last` gives the double colon. */
  method FormatCompressed(addr: seq<byte>, length: nat, first: nat, last: nat, upper: bool)
    returns (out: string, ghost gs: seq<string>)
    requires |addr| == 16 && first <= last <= length <= 16 && length > 0
    requires first % 2 == 0 && last % 2 == 0 && length % 2 == 0 && (first == last ==> first == 0)
    ensures out == JoinAll(gs) && gs != []
    ensures gs == HexGroups(FieldRange(addr, 0, first / 2), upper) + GapGroups(length / 2, first / 2, last / 2)
                  + HexGroups(FieldRange(addr, last / 2, length / 2), upper)
  {
    hide JoinAll, Number, HexGroups, FieldRange;
    JoinNothing();
    out, gs := FormatFields(addr, 0, first, upper, "", []);
    ghost var a, z := gs, HexGroups(FieldRange(addr, last / 2, length / 2), upper);
    OpenedText(a, first / 2, last / 2);
    if last > first {
      out := out + ":";
    }
    out, gs := FormatFields(addr, last, length, upper, out, Opened(a, first / 2, last / 2));
    ClosedGroups(a, z, length / 2, first / 2, last / 2);
    if last == length {
      JoinEmpty(gs);
      gs := gs + [""];
      out := out + ":";
    }
  }

  /** The groups printed so far, with the colon behind them when a run follows. */
  ghost function Opened(a: seq<string>, first: nat, last: nat): seq<string> {
    if first == last then a else (if first == 0 then [""] else a) + [""]
  }

  lemma OpenedText(a: seq<string>, first: nat, last: nat)
    requires first <= last && |a| == first && (first == last ==> first == 0)
    ensures JoinAll(Opened(a, first, last)) == if first < last then JoinAll(a) + ":" else JoinAll(a)
    ensures Opened(a, first, last) == [] <==> last == 0
  {
    hide JoinAll;
    JoinNothing();
    JoinEmpty(if first == 0 then [""] else a);
  }

  lemma ClosedGroups(a: seq<string>, z: seq<string>, n: nat, first: nat, last: nat)
    requires first <= last <= n && 0 < n && |a| == first && |z| == n - last && (first == last ==> first == 0)
    ensures Opened(a, first, last) + z + (if last == n then [""] else []) == a + GapGroups(n, first, last) + z
    ensures Opened(a, first, last) + z != []
  {
  }

  /** The text of an IPv6 address before the zone. */
  method FormatIPv6(ip: IPAddress, longForm: bool, upper: bool) returns (out: string)
    requires ip.IPv6?
    ensures out == JoinAll(Groups(ip, longForm, upper))
  {
    hide JoinAll, Dotted, Number, LongestRun, HexCount, HexGroups, FieldRange, GapGroups, FieldsOf, ToBytes16;
    var addr := ToBytes16(ip.hi, ip.lo);
    var length := 2 * HexCount(ip);
    var first, last := 0, 0;
    if !longForm {
      first, last := FindLongestZeroGroup(addr, length);
      RunInRange(addr, ip, length / 2);
    }
    ghost var gs;
    out, gs := FormatCompressed(addr, length, first, last, upper);
    FieldRangeOf(ip.hi, ip.lo, 0, first / 2);
    FieldRangeOf(ip.hi, ip.lo, last / 2, length / 2);
    GroupsOf(ip, longForm, upper, gs);
    if length == 12 {
      JoinOne(gs, Dotted(ip.lo % 0x1_0000_0000));
      out := out + ":" + Dotted(ip.lo % 0x1_0000_0000);
    }
  }

  lemma GroupsOf(ip: IPAddress, longForm: bool, upper: bool, gs: seq<string>)
    requires ip.IPv6?
    requires var (f, n, (first, last)) := (FieldsOf(ip.hi, ip.lo), HexCount(ip), ChosenRun(ip, longForm));
             gs == HexGroups(f[0..first], upper) + GapGroups(n, first, last) + HexGroups(f[last..n], upper)
    ensures Groups(ip, longForm, upper) == if HexCount(ip) == 6 then gs + [Dotted(ip.lo % 0x1_0000_0000)] else gs
  {
    hide Dotted, FieldsOf, HexGroups, GapGroups, LongestRun;
    var f, first := FieldsOf(ip.hi, ip.lo), ChosenRun(ip, longForm).0;
    assert f[..first] == f[0..first];
  }

  /** `formatTo`: the text is the printed form, field by field. */
  method FormatTo(ip: IPAddress, longForm: bool, upper: bool) returns (out: string)
    ensures out == FormatIP(ip, longForm, upper)
  {
    hide Dotted, Groups;
    if ip.IPv4? { return Dotted(ip.addr); }
    out := FormatIPv6(ip, longForm, upper);
    if ip.zone != "" {
      out := out + "%" + ip.zone;
    }
  }

  lemma RunInRange(addr: seq<byte>, ip: IPAddress, n: nat)
    requires ip.IPv6? && addr == ToBytes16(ip.hi, ip.lo) && n <= 8
    ensures seq(n, i requires 0 <= i < n => FieldAt(addr, i)) == FieldsOf(ip.hi, ip.lo)[..n]
    ensures var r := LongestRun(FieldsOf(ip.hi, ip.lo)[..n], n); r.0 == r.1 ==> r.0 == 0
  {
    LongestRunIsLeftmost(FieldsOf(ip.hi, ip.lo)[..n], n);
  }

  lemma JoinNothing()
    ensures JoinAll([]) == ""
  {
  }
}
