/**
 The text form of ISD, AS and ISD-AS numbers.
 */
module IsdAsnText {
  import opened Words
  import opened Address
  import opened Text
  import opened IpText

  const U64_MAX := 0xffff_ffff_ffff_ffff
  const ISD_MAX := 0xffff
  const ASN_MAX := 0xffff_ffff_ffff
  const BGP_MAX := 0xffff_ffff
  const GROUP_MAX := 0xffff

  /** `from_chars` into a 64-bit word, which must use up the whole text. */
  function ReadNumber(s: string, base: nat): (r: Result<nat>)
    ensures r.Ok? <==> FromChars(s, base, U64_MAX).Some?
    ensures r.Ok? ==> FromChars(s, base, U64_MAX) == Some(r.value)
  {
    if s == "" then Err(InvalidArgument)
    else if !AllDigits(s, base) then Err(SyntaxError)
    else if NumberValue(s, base) > U64_MAX then Err(OutOfRange)
    else Ok(NumberValue(s, base))
  }

  function ParseIsd(text: string): Result<nat> {
    match ReadNumber(text, 10)
    case Err(e) => Err(e)
    case Ok(isd) => if isd > ISD_MAX then Err(SyntaxError) else Ok(isd)
  }

  /** Value of the group at `k`, or why it is refused. */
  function AsnGroup(gs: seq<string>, k: nat): (r: Result<nat>)
    requires k < |gs|
    ensures r.Ok? <==> k <= 2 && FromChars(gs[k], 16, GROUP_MAX).Some?
    ensures r.Ok? ==> FromChars(gs[k], 16, GROUP_MAX) == Some(r.value)
  {
    if k > 2 || gs[k] == "" then Err(SyntaxError)
    else match ReadNumber(gs[k], 16)
      case Err(e) => Err(e)
      case Ok(v) => if v > GROUP_MAX then Err(SyntaxError) else Ok(v)
  }

  /** The first `n` groups as one number. */
  function AsnGroups(gs: seq<string>, n: nat): Result<nat>
    requires n <= |gs|
  {
    if n == 0 then Ok(0)
    else match AsnGroups(gs, n - 1)
      case Err(e) => Err(e)
      case Ok(m) => (match AsnGroup(gs, n - 1) case Err(e) => Err(e) case Ok(v) => Ok(m * 0x1_0000 + v))
  }

  function AsnSpec(text: string): Result<nat> {
    var decimal := ReadNumber(text, 10);
    if decimal.Ok? && decimal.value <= ASN_MAX then decimal
    else
      var gs := Split(text, ':');
      match AsnGroups(gs, |gs|)
      case Err(e) => Err(e)
      case Ok(v) => if |gs| < 2 then Err(SyntaxError) else Ok(if |gs| == 2 then v * 0x1_0000 else v)
  }

  /** `Asn::Parse`: a decimal number, or groups of sixteen bits shifted and ORed together. */
  method ParseAsn(text: string) returns (r: Result<nat>)
    ensures r == AsnSpec(text)
  {
    hide AllDigits, NumberValue, ReadNumber, Split, Or, Pow2, AsnGroup, FromChars;
    var decimal := ReadNumber(text, 10);
    if decimal.Ok? && decimal.value <= ASN_MAX { return decimal; }
    var asn: nat, i := 0, 0;
    var gs := Split(text, ':');
    Pow2At64();
    while i < |gs|
      invariant 0 <= i <= |gs| && i <= 3
      invariant AsnGroups(gs, i).Ok? && asn == AsnGroups(gs, i).value * Pow2(16 * (3 - i))
    {
      var v := AsnGroup(gs, i);
      if v.Err? {
        AsnGroupsFail(gs, i + 1, |gs|);
        return Err(v.error);
      }
      OrBelow(AsnGroups(gs, i).value, v.value, 16, 16 * (2 - i));
      asn := Or(asn, v.value * Pow2(16 * (2 - i)));
      i := i + 1;
    }
    if i < 2 { return Err(SyntaxError); }
    NoShift();
    return Ok(asn);
  }

  lemma NoShift()
    ensures Pow2(0) == 1
  {
  }

  lemma {:induction false} AsnGroupsFail(gs: seq<string>, k: nat, n: nat)
    requires k <= n <= |gs| && AsnGroups(gs, k).Err?
    ensures AsnGroups(gs, n) == AsnGroups(gs, k)
  {
    hide AsnGroup;
    if k < n { AsnGroupsFail(gs, k, n - 1); }
  }

  /**
   What is accepted as an AS number: a decimal number of at most 48 bits, or two or three
   groups of hexadecimal digits. The documentation promises decimal numbers of 32 bits and
   exactly three groups.
   */
  lemma AsnAccepted(text: string)
    ensures AsnSpec(text).Ok? <==>
              (FromChars(text, 10, ASN_MAX).Some?
               || var gs := Split(text, ':');
                  2 <= |gs| <= 3 && forall i :: 0 <= i < |gs| ==> FromChars(gs[i], 16, GROUP_MAX).Some?)
  {
    hide Split, AsnGroup;
    var gs := Split(text, ':');
    GroupsAccepted(gs, |gs|);
  }

  /** What the documentation promises: a decimal number of 32 bits, or three groups of one to four digits. */
  predicate Documented(text: string) {
    FromChars(text, 10, BGP_MAX).Some?
    || var gs := Split(text, ':');
       |gs| == 3 && forall i :: 0 <= i < 3 ==> 1 <= |gs[i]| <= 4 && AllDigits(gs[i], 16)
  }

  /** Hexadecimal groups in range, with two of them or with one of more than four digits. */
  predicate LooseGroups(gs: seq<string>) {
    (|gs| == 2 || (|gs| == 3 && exists i :: 0 <= i < 3 && |gs[i]| > 4))
    && forall i :: 0 <= i < |gs| ==> FromChars(gs[i], 16, GROUP_MAX).Some?
  }

  /** Everything documented is accepted, and what else is accepted: all three departures, for all texts. */
  lemma AcceptedBeyondPromise(text: string)
    ensures Documented(text) ==> AsnSpec(text).Ok?
    ensures AsnSpec(text).Ok? && !Documented(text) <==>
              (FromChars(text, 10, ASN_MAX).Some? && FromChars(text, 10, ASN_MAX).value > BGP_MAX)
              || LooseGroups(Split(text, ':'))
  {
    hide AsnSpec, Split, NumberValue, AllDigits;
    var gs := Split(text, ':');
    AsnAccepted(text);
    if FromChars(text, 10, ASN_MAX).Some? { DecimalIsOneGroup(text); }
    forall i | 0 <= i < |gs| && |gs[i]| <= 4
      ensures FromChars(gs[i], 16, GROUP_MAX).Some? <==> gs[i] != "" && AllDigits(gs[i], 16)
    {
      if AllDigits(gs[i], 16) { FourDigits(gs[i]); }
    }
  }

  lemma DecimalIsOneGroup(text: string)
    requires AllDigits(text, 10)
    ensures |Split(text, ':')| == 1
  {
    hide Split;
    if ':' in text { NotDecimal(text); }
    SplitFree(text, ':');
  }

  lemma FourDigits(s: string)
    requires |s| <= 4 && AllDigits(s, 16)
    ensures NumberValue(s, 16) <= GROUP_MAX
  {
    hide NumberValue, DigitValue;
    DigitsBound(s);
    assert Power16(4) == 0x1_0000 && Power16(3) == 4096 && Power16(2) == 256 && Power16(1) == 16 && Power16(0) == 1;
  }

  lemma {:induction false} DigitsBound(s: string)
    requires AllDigits(s, 16)
    ensures NumberValue(s, 16) < Power16(|s|)
  {
    if s != "" { DigitsBound(s[..|s| - 1]); }
  }

  function Power16(n: nat): nat { if n == 0 then 1 else 16 * Power16(n - 1) }

  /** A group of five digits. */
  lemma FiveDigits()
    ensures AsnSpec("00001:0:0") == Ok(0x1_0000_0000) && !Documented("00001:0:0")
  {
    hide Split, FromChars, ReadNumber, Documented, AsnGroups;
    var gs := ["00001", "0", "0"];
    PaddedSplit(gs);
    PaddedGroups(gs);
    assert "00001:0:0"[5] == ':';
    NotDecimal("00001:0:0");
    AcceptedBeyondPromise("00001:0:0");
  }

  lemma PaddedSplit(gs: seq<string>)
    requires gs == ["00001", "0", "0"]
    ensures Split("00001:0:0", ':') == gs
  {
    hide Split, Join;
    ThreeJoined(gs[0], gs[1], gs[2]);
    assert "00001" + ":" + ("0" + ":" + "0") == "00001:0:0";
    SplitJoin(gs, ':');
  }

  lemma PaddedGroups(gs: seq<string>)
    requires gs == ["00001", "0", "0"]
    ensures AsnGroups(gs, 3) == Ok(0x1_0000_0000) && LooseGroups(gs)
  {
    hide FromChars, AsnGroup;
    PaddedOne();
    assert AsnGroups(gs, 1) == Ok(1);
    assert AsnGroups(gs, 2) == Ok(0x1_0000);
    assert |gs[0]| > 4;
  }

  lemma PaddedOne()
    ensures FromChars("00001", 16, GROUP_MAX) == Some(1) && FromChars("0", 16, GROUP_MAX) == Some(0)
  {
    hide NumberValue, AllDigits;
    assert NumberValue("", 16) == 0 && AllDigits("", 16) by { NothingRead(); }
    OneMore("", '0', "0");
    OneMore("0", '0', "00");
    OneMore("00", '0', "000");
    OneMore("000", '0', "0000");
    OneMore("0000", '1', "00001");
  }

  lemma NothingRead()
    ensures NumberValue("", 16) == 0 && AllDigits("", 16)
  {
  }

  lemma OneMore(s: string, c: char, t: string)
    requires t == s + [c] && DigitValue(c) < 16 && AllDigits(s, 16)
    ensures AllDigits(t, 16) && NumberValue(t, 16) == NumberValue(s, 16) * 16 + DigitValue(c)
  {
    DigitAppended(s, c, 16);
  }

  /** Decimal text beyond the 32 bits the documentation promises. */
  lemma DecimalBeyondPromise(asn: nat)
    requires asn <= ASN_MAX
    ensures AsnSpec(Number(asn, 10, false)) == Ok(asn)
  {
    hide Number, AsnGroups, Split;
    DecimalField(asn, U64_MAX);
  }

  /** The first such number, which is printed in groups. */
  lemma FirstBeyondPromise()
    ensures AsnSpec("4294967296") == Ok(0x1_0000_0000)
    ensures FormatAsn(0x1_0000_0000) == "1:0:0"
  {
    hide AsnSpec, FromChars, Number, Join;
    DecimalBeyondPromise(0x1_0000_0000);
    FirstDigits();
    NextDigit(42949, 6, "42949", "429496");
    NextDigit(429496, 7, "429496", "4294967");
    NextDigit(4294967, 2, "4294967", "42949672");
    NextDigit(42949672, 9, "42949672", "429496729");
    NextDigit(429496729, 6, "429496729", "4294967296");
    HexDigits();
    ThreeJoined("1", "0", "0");
    assert "1" + ":" + ("0" + ":" + "0") == "1:0:0";
  }

  lemma FirstDigits()
    ensures Number(42949, 10, false) == "42949"
  {
    hide Number;
    LeadingFour();
    NextDigit(4, 2, "4", "42");
    NextDigit(42, 9, "42", "429");
    NextDigit(429, 4, "429", "4294");
    NextDigit(4294, 9, "4294", "42949");
  }

  lemma LeadingFour()
    ensures Number(4, 10, false) == "4"
  {
  }

  lemma HexDigits()
    ensures Number(1, 16, false) == "1" && Number(0, 16, false) == "0"
  {
  }

  lemma NextDigit(m: nat, d: nat, s: string, t: string)
    requires 0 < m && d < 10 && Number(m, 10, false) == s && t == s + [('0' as int + d) as char]
    ensures Number(10 * m + d, 10, false) == t
  {
    assert (10 * m + d) / 10 == m && (10 * m + d) % 10 == d;
  }

  lemma ThreeJoined(a: string, b: string, c: string)
    ensures Join([a, b, c], ':') == a + ":" + (b + ":" + c)
  {
    assert [a, b, c][1..] == [b, c] && [b, c][1..] == [c];
    assert Join([b, c], ':') == b + ":" + Join([b, c][1..], ':');
  }

  lemma {:induction false} GroupsAccepted(gs: seq<string>, n: nat)
    requires n <= |gs|
    ensures AsnGroups(gs, n).Ok? <==> n <= 3 && forall i :: 0 <= i < n ==> FromChars(gs[i], 16, GROUP_MAX).Some?
  {
    hide AsnGroup, FromChars;
    if n > 0 { GroupsAccepted(gs, n - 1); }
  }

  // ---- Printing ----

  function AsnTextGroups(asn: nat): (gs: seq<string>)
    ensures |gs| == 3
  {
    [Number(asn / 0x1_0000_0000 % 0x1_0000, 16, false), Number(asn / 0x1_0000 % 0x1_0000, 16, false),
     Number(asn % 0x1_0000, 16, false)]
  }

  function FormatAsn(asn: nat): string {
    if asn <= BGP_MAX then Number(asn, 10, false) else Join(AsnTextGroups(asn), ':')
  }

  /** Printed AS numbers are read back: all 48-bit values, in both forms. */
  lemma AsnRoundTrip(asn: nat)
    requires asn <= ASN_MAX
    ensures AsnSpec(FormatAsn(asn)) == Ok(asn)
  {
    hide Number, AsnGroups, Split, Join;
    if asn <= BGP_MAX {
      DecimalField(asn, U64_MAX);
    } else {
      var gs := AsnTextGroups(asn);
      AsnGroupsRead(asn);
      forall i | 0 <= i < 3 ensures Free(gs[i], ':') && Plain(gs[i]) {
        var v: u16 := [asn / 0x1_0000_0000 % 0x1_0000, asn / 0x1_0000 % 0x1_0000, asn % 0x1_0000][i];
        HexField(v, false);
      }
      SplitJoin(gs, ':');
      ColonFirst(gs);
      NotDecimal(FormatAsn(asn));
    }
  }

  lemma ColonFirst(gs: seq<string>)
    requires |gs| == 3
    ensures ':' in Join(gs, ':')
  {
    assert (gs[0] + ":")[|gs[0]|] == ':';
  }

  lemma NotDecimal(s: string)
    requires ':' in s
    ensures ReadNumber(s, 10).Err?
  {
    var i :| 0 <= i < |s| && s[i] == ':';
    assert DigitValue(s[i]) == 99;
  }

  lemma AsnGroupsRead(asn: nat)
    requires asn <= ASN_MAX
    ensures AsnGroups(AsnTextGroups(asn), 3) == Ok(asn)
  {
    hide Number, FromChars, AsnGroup;
    var gs := AsnTextGroups(asn);
    var a, b, c := asn / 0x1_0000_0000 % 0x1_0000, asn / 0x1_0000 % 0x1_0000, asn % 0x1_0000;
    HexField(a, false);
    HexField(b, false);
    HexField(c, false);
    DivDiv(asn, 0x1_0000, 0x1_0000);
    assert AsnGroups(gs, 1) == Ok(a);
    assert AsnGroups(gs, 2) == Ok(a * 0x1_0000 + b);
    assert AsnGroups(gs, 3) == Ok((a * 0x1_0000 + b) * 0x1_0000 + c);
  }

  /** Two groups are accepted as if a third group of zero followed, and printed back with three. */
  lemma TwoGroups(a: u16, b: u16)
    ensures AsnSpec(Number(a, 16, false) + ":" + Number(b, 16, false))
         == Ok(0x1_0000_0000 * (a as int) + 0x1_0000 * (b as int))
  {
    hide Number, FromChars, AsnGroup, Split;
    var gs := [Number(a, 16, false), Number(b, 16, false)];
    HexField(a, false);
    HexField(b, false);
    assert Join(gs, ':') == gs[0] + ":" + gs[1] by { assert Join(gs[1..], ':') == gs[1]; }
    SplitJoin(gs, ':');
    assert (gs[0] + ":" + gs[1])[|gs[0]|] == ':';
    NotDecimal(gs[0] + ":" + gs[1]);
    assert AsnGroups(gs, 1) == Ok(a as nat);
    assert AsnGroups(gs, 2) == Ok(a * 0x1_0000 + b);
  }

  // ---- ISD-ASN ----

  function ParseIsdAsn(text: string): Result<u64> {
    match Find(text, '-')
    case None => Err(SyntaxError)
    case Some(i) =>
      match ParseIsd(text[..i])
      case Err(e) => Err(e)
      case Ok(isd) =>
        match AsnSpec(text[i + 1..])
        case Err(e) => Err(e)
        case Ok(asn) =>
          AsnBound(text[i + 1..]);
          IsdAsnUnion(isd, asn);
          Ok(Or(isd * ISD_UNIT, asn))
  }

  /** The two numbers do not overlap in the word. */
  lemma IsdAsnUnion(isd: nat, asn: nat)
    requires isd <= ISD_MAX && asn <= ASN_MAX
    ensures Or(isd * ISD_UNIT, asn) == MakeIsdAsn(isd, asn)
  {
    hide Pow2, Or;
    Pow2At64();
    Pow2Sum(32, 16);
    NoShift();
    OrBelow(isd, asn, 48, 0);
  }

  lemma AsnBound(text: string)
    requires AsnSpec(text).Ok?
    ensures AsnSpec(text).value <= ASN_MAX
  {
    hide Split, AsnGroup, AsnGroups;
    var gs := Split(text, ':');
    if AsnGroups(gs, |gs|).Ok? {
      GroupsAccepted(gs, |gs|);
      GroupsBound(gs, |gs|);
    }
  }

  lemma GroupsBound(gs: seq<string>, n: nat)
    requires n <= |gs| && n <= 3 && AsnGroups(gs, n).Ok?
    ensures n <= 2 ==> AsnGroups(gs, n).value < 0x1_0000_0000
    ensures n == 3 ==> AsnGroups(gs, n).value <= ASN_MAX
    ensures n <= 1 ==> AsnGroups(gs, n).value < 0x1_0000
  {
    hide AsnGroup;
    if n > 0 { GroupsBound(gs, n - 1); }
  }

  function FormatIsdAsn(ia: u64): string {
    Number(ia / ISD_UNIT, 10, false) + "-" + FormatAsn(ia % ISD_UNIT)
  }

  /** Characters of a printed ISD-ASN. */
  lemma IsdAsnClean(ia: u64)
    ensures ',' !in FormatIsdAsn(ia) && ']' !in FormatIsdAsn(ia) && '[' !in FormatIsdAsn(ia)
  {
    hide Number, Join;
    NumberPlain(ia / ISD_UNIT, 10, false);
    AsnClean(ia % ISD_UNIT);
  }

  lemma AsnClean(asn: nat)
    ensures ',' !in FormatAsn(asn) && ']' !in FormatAsn(asn) && '[' !in FormatAsn(asn)
  {
    hide Number, Join;
    if asn <= BGP_MAX {
      NumberPlain(asn, 10, false);
    } else {
      var gs := AsnTextGroups(asn);
      forall i | 0 <= i < 3 ensures Plain(gs[i]) {
        NumberPlain([asn / 0x1_0000_0000 % 0x1_0000, asn / 0x1_0000 % 0x1_0000, asn % 0x1_0000][i], 16, false);
      }
      JoinFree(gs, ':', ',');
      JoinFree(gs, ':', ']');
      JoinFree(gs, ':', '[');
    }
  }

  /** Every ISD-ASN is read back from its text. */
  lemma IsdAsnRoundTrip(ia: u64)
    ensures ParseIsdAsn(FormatIsdAsn(ia)) == Ok(ia)
  {
    hide Number, AsnSpec, FormatAsn;
    var isd, asn := ia / ISD_UNIT, ia % ISD_UNIT;
    var a, b := Number(isd, 10, false), FormatAsn(asn);
    DecimalField(isd, U64_MAX);
    AsnRoundTrip(asn);
    JoinedIsdAsn(a, b);
    IsdAsnUnion(isd, asn);
  }

  /** The hyphen that separates the two numbers is the first one. */
  lemma JoinedIsdAsn(a: string, b: string)
    requires '-' !in a && ParseIsd(a).Ok? && AsnSpec(b).Ok?
    ensures ParseIsdAsn(a + "-" + b) == Ok(Or(ParseIsd(a).value * ISD_UNIT, AsnSpec(b).value))
  {
    hide AsnSpec, Or, ParseIsd;
    FindAt(a, '-', b);
    assert (a + "-" + b)[..|a|] == a && (a + "-" + b)[|a| + 1..] == b;
  }
}
