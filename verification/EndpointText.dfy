/**
 The text form of SCION endpoints: where host and port are split, and the round trip.
 */
module EndpointText {
  import opened Words
  import opened Address
  import opened Text
  import opened IpText
  import opened IsdAsnText
  import IpTextLaws

  // ---- Splitting host and port ----

  /** What stands before a colon is a complete host when no colon follows its first comma. */
  predicate CompleteHost(h: string) {
    match Find(h, ',') case None => ':' !in h case Some(c) => ':' !in h[c..]
  }

  function Split(text: string): Result<(string, u16)> {
    if text != "" && text[0] == '[' then
      match RFind(text, ']')
      case None => Err(SyntaxError)
      case Some(sep) =>
        if sep + 1 == |text| then Ok((text[1..sep], 0))
        else if text[sep + 1] != ':' then Err(SyntaxError)
        else WithPort(text[1..sep], text[sep + 2..])
    else
      match RFind(text, ':')
      case None => Ok((text, 0))
      case Some(sep) =>
        if CompleteHost(text[..sep]) then WithPort(text[..sep], text[sep + 1..]) else Ok((text, 0))
  }

  function WithPort(host: string, port: string): Result<(string, u16)> {
    match FromChars(port, 10, 0xffff) case None => Err(SyntaxError) case Some(p) => Ok((host, p))
  }

  /** `splitHostPort`: reassigns the views of host and port branch by branch. */
  method SplitHostPort(text: string) returns (r: Result<(string, u16)>)
    ensures r == Split(text)
  {
    hide FromChars;
    NoPort();
    var addr, port := "", "";
    if text != "" && text[0] == '[' {
      var sep := RFind(text, ']');
      if sep.None? { return Err(SyntaxError); }
      addr := text[1..sep.value];
      if sep.value + 1 < |text| {
        if text[sep.value + 1] != ':' { return Err(SyntaxError); }
        port := text[sep.value + 2..];
        if port == "" { return Err(SyntaxError); }
      }
    } else {
      var sep := RFind(text, ':');
      addr := if sep.None? then text else text[..sep.value];
      if sep.Some? {
        var comma := Find(addr, ',');
        if comma.Some? {
          if ':' in addr[comma.value..] {
            addr := text;
          } else {
            port := text[sep.value + 1..];
            if port == "" { return Err(SyntaxError); }
          }
        } else if ':' in addr {
          addr := text;
        } else {
          port := text[sep.value + 1..];
          if port == "" { return Err(SyntaxError); }
        }
      }
    }
    var portValue: u16 := 0;
    if port != "" {
      var value := FromChars(port, 10, 0xffff);
      if value.None? { return Err(SyntaxError); }
      portValue := value.value;
    }
    return Ok((addr, portValue));
  }

  lemma NoPort()
    ensures FromChars("", 10, 0xffff) == None
  {
  }

  /** The four shapes of a host with an optional port. */
  ghost predicate Shaped(text: string, h: string, p: u16) {
    if text != "" && text[0] == '[' then
      (p == 0 && text == "[" + h + "]")
      || (exists digits :: FromChars(digits, 10, 0xffff) == Some(p) && text == "[" + h + "]:" + digits)
    else
      (p == 0 && text == h && WithoutPort(text))
      || (CompleteHost(h) && exists digits :: FromChars(digits, 10, 0xffff) == Some(p) && text == h + ":" + digits)
  }

  predicate WithoutPort(text: string) {
    match RFind(text, ':') case None => true case Some(sep) => !CompleteHost(text[..sep])
  }

  lemma DigitsFree(digits: string)
    requires FromChars(digits, 10, 0xffff).Some?
    ensures Free(digits, ':') && Free(digits, ']')
  {
    forall i | 0 <= i < |digits| ensures digits[i] != ':' && digits[i] != ']' {
      assert DigitValue(digits[i]) < 10;
    }
  }

  /** The split is unambiguous: it is found exactly when the text has one of the shapes. */
  lemma SplitIsUnambiguous(text: string, h: string, p: u16)
    ensures Split(text) == Ok((h, p)) <==> Shaped(text, h, p)
  {
    if text != "" && text[0] == '[' {
      BracketedShape(text, h, p);
    } else {
      OpenShape(text, h, p);
    }
  }

  lemma BracketedShape(text: string, h: string, p: u16)
    requires text != "" && text[0] == '['
    ensures Split(text) == Ok((h, p)) <==> Shaped(text, h, p)
  {
    hide FromChars, Split;
    if Split(text) == Ok((h, p)) { BracketedIsShaped(text, h, p); }
    if Shaped(text, h, p) {
      if p == 0 && text == "[" + h + "]" {
        BracketedAlone(h);
      } else {
        var digits :| FromChars(digits, 10, 0xffff) == Some(p) && text == "[" + h + "]:" + digits;
        BracketedSplit(h, digits, p);
      }
    }
  }

  lemma BracketedIsShaped(text: string, h: string, p: u16)
    requires text != "" && text[0] == '[' && Split(text) == Ok((h, p))
    ensures Shaped(text, h, p)
  {
    hide FromChars, RFind;
    var sep := RFind(text, ']').value;
    if sep + 1 == |text| {
      assert text == "[" + text[1..sep] + "]";
    } else {
      assert text == "[" + text[1..sep] + "]:" + text[sep + 2..];
    }
  }

  lemma BracketedAlone(h: string)
    ensures Split("[" + h + "]") == Ok((h, 0))
  {
    hide FromChars, RFind;
    var text := "[" + h + "]";
    RFindAt("[" + h, ']', "");
    assert text == ("[" + h) + [']'] + "";
    assert text[1..|h| + 1] == h;
  }

  lemma BracketedSplit(h: string, digits: string, p: u16)
    requires FromChars(digits, 10, 0xffff) == Some(p)
    ensures Split("[" + h + "]:" + digits) == Ok((h, p))
  {
    hide FromChars, RFind;
    DigitsFree(digits);
    var text, sep := "[" + h + "]:" + digits, |h| + 1;
    assert text == ("[" + h) + [']'] + (":" + digits) by { JoinBracket(h, digits); }
    RFindAt("[" + h, ']', ":" + digits);
    BracketParts(h, digits);
    assert text[0] == '[' && RFind(text, ']') == Some(sep);
  }

  lemma JoinBracket(h: string, digits: string)
    ensures "[" + h + "]:" + digits == ("[" + h) + [']'] + (":" + digits)
  {
  }

  lemma BracketParts(h: string, digits: string)
    ensures var text := "[" + h + "]:" + digits;
            |text| == |h| + 3 + |digits| && text[|h| + 2] == ':' && text[1..|h| + 1] == h && text[|h| + 3..] == digits
  {
  }

  lemma OpenShape(text: string, h: string, p: u16)
    requires text == "" || text[0] != '['
    ensures Split(text) == Ok((h, p)) <==> Shaped(text, h, p)
  {
    hide FromChars, CompleteHost;
    if Split(text) == Ok((h, p)) && !WithoutPort(text) {
      var sep := RFind(text, ':').value;
      assert text == text[..sep] + ":" + text[sep + 1..];
    }
    if Shaped(text, h, p) && !(p == 0 && text == h && WithoutPort(text)) {
      var digits :| FromChars(digits, 10, 0xffff) == Some(p) && text == h + ":" + digits;
      OpenSplit(h, digits, p);
    }
  }

  lemma OpenSplit(h: string, digits: string, p: u16)
    requires FromChars(digits, 10, 0xffff) == Some(p) && CompleteHost(h) && (h != "" ==> h[0] != '[')
    ensures Split(h + ":" + digits) == Ok((h, p))
  {
    hide FromChars, CompleteHost;
    DigitsFree(digits);
    RFindAt(h, ':', digits);
    var text := h + ":" + digits;
    assert text[..|h|] == h && text[|h| + 1..] == digits;
  }

  // ---- Addresses and endpoints ----

  function ParseAddress(text: string): Result<ScAddress> {
    match Find(text, ',')
    case None => Err(SyntaxError)
    case Some(comma) =>
      match ParseIsdAsn(text[..comma])
      case Err(e) => Err(e)
      case Ok(ia) =>
        match ParseIP(text[comma + 1..], false)
        case Err(e) => Err(e)
        case Ok(host) => Ok(ScAddress(ia, host))
  }

  function FormatAddress(a: ScAddress): string {
    FormatIsdAsn(a.isdAsn) + "," + FormatIP(a.host, false, false)
  }

  datatype Endpoint = Endpoint(addr: ScAddress, port: u16)

  function ParseEndpoint(text: string): Result<Endpoint> {
    match Split(text)
    case Err(e) => Err(e)
    case Ok((addr, port)) =>
      match ParseAddress(addr)
      case Err(e) => Err(e)
      case Ok(a) => Ok(Endpoint(a, port))
  }

  function FormatEndpoint(e: Endpoint): string {
    if e.addr.host.IPv4?
    then FormatAddress(e.addr) + ":" + Number(e.port, 10, false)
    else "[" + FormatAddress(e.addr) + "]:" + Number(e.port, 10, false)
  }

  lemma FirstComma(a: ScAddress)
    ensures var t, k := FormatAddress(a), |FormatIsdAsn(a.isdAsn)|;
            && Find(t, ',') == Some(k) && t[..k] == FormatIsdAsn(a.isdAsn)
            && t[k + 1..] == FormatIP(a.host, false, false)
  {
    hide FormatIsdAsn, FormatIP;
    IsdAsnClean(a.isdAsn);
    FindAt(FormatIsdAsn(a.isdAsn), ',', FormatIP(a.host, false, false));
  }

  /** A SCION address is read back exactly when its host is. */
  lemma AddressRoundTrip(a: ScAddress)
    ensures ParseAddress(FormatAddress(a))
         == if IpTextLaws.TrailingGap(a.host, false) then Err(SyntaxError) else Ok(a)
  {
    hide FormatIsdAsn, FormatIP, ParseIsdAsn, ParseIP, FormatAddress, IpTextLaws.TrailingGap;
    FirstComma(a);
    IsdAsnRoundTrip(a.isdAsn);
    IpTextLaws.ParseFormat(a.host, false, false);
  }

  lemma NoBracketFirst(a: ScAddress)
    ensures FormatAddress(a) != "" && FormatAddress(a)[0] != '['
  {
    hide FormatIP, FormatAsn;
    NumberPlain(a.isdAsn / ISD_UNIT, 10, false);
    var n := Number(a.isdAsn / ISD_UNIT, 10, false);
    assert FormatAddress(a)[0] == n[0];
  }

  /** The host part of an IPv4 endpoint is complete: no colon behind the comma. */
  lemma IPv4HostComplete(a: ScAddress)
    requires a.host.IPv4?
    ensures CompleteHost(FormatAddress(a))
  {
    hide FormatIsdAsn, Dotted, FormatAddress;
    FirstComma(a);
    IpTextLaws.DottedParses(a.host.addr);
    var t, k := FormatAddress(a), |FormatIsdAsn(a.isdAsn)|;
    assert t[k..] == [','] + t[k + 1..];
  }

  /**
   Printing and parsing any endpoint: every ISD-ASN, every port and every host come back,
   except hosts whose compressed text the IP parser refuses.
   */
  lemma EndpointRoundTrip(e: Endpoint)
    ensures ParseEndpoint(FormatEndpoint(e))
         == if IpTextLaws.TrailingGap(e.addr.host, false) then Err(SyntaxError) else Ok(e)
  {
    hide FormatAddress, ParseAddress, FromChars, Number, Split, CompleteHost, IpTextLaws.TrailingGap;
    DecimalField(e.port, 0xffff);
    var t := FormatAddress(e.addr);
    AddressRoundTrip(e.addr);
    if e.addr.host.IPv4? {
      IPv4HostComplete(e.addr);
      NoBracketFirst(e.addr);
      OpenSplit(t, Number(e.port, 10, false), e.port);
    } else {
      BracketedSplit(t, Number(e.port, 10, false), e.port);
    }
  }

  // ---- Texts without a port ----

  /** The last colon of a printed IPv6 address has another colon before it. */
  lemma LastColon(ip: IPAddress, longForm: bool, upper: bool) returns (x: string, y: string)
    requires ip.IPv6? && ip.zone == ""
    ensures FormatIP(ip, longForm, upper) == x + ":" + y && ':' in x && ':' !in y
    ensures ',' !in x && '[' !in x
  {
    hide Groups, Join;
    var gs := Groups(ip, longForm, upper);
    IpTextLaws.EnoughGroups(ip, longForm, upper);
    IpTextLaws.GroupsClean(ip, longForm, upper);
    var n := |gs| - 1;
    x, y := Join(gs[..n], ':'), gs[n];
    JoinAppend(gs[..n], y, ':');
    assert gs[..n] + [y] == gs;
    forall i | 0 <= i < |gs| ensures Free(gs[i], ',') && Free(gs[i], '[') && Free(gs[i], ':') {
      assert gs[i] in gs;
    }
    JoinFree(gs[..n], ':', ',');
    JoinFree(gs[..n], ':', '[');
    SeparatorIn(gs[..n]);
  }

  lemma SeparatorIn(gs: seq<string>)
    requires |gs| >= 2
    ensures ':' in Join(gs, ':')
  {
    assert (gs[0] + ":")[|gs[0]|] == ':';
  }

  /** The last colon of a text: what stands before it decides whether a port follows. */
  lemma AtLastColon(h: string, y: string)
    requires ':' !in y && !CompleteHost(h)
    ensures WithoutPort(h + ":" + y)
  {
    hide CompleteHost;
    RFindAt(h, ':', y);
    assert (h + ":" + y)[..|h|] == h;
  }

  lemma NotComplete(x: string)
    requires ':' in x && ',' !in x
    ensures !CompleteHost(x)
  {
  }

  lemma NotCompleteBehindComma(a: string, x: string)
    requires ':' in x && ',' !in a
    ensures !CompleteHost(a + "," + x)
  {
    FindAt(a, ',', x);
    var h := a + "," + x;
    var i :| 0 <= i < |x| && x[i] == ':';
    assert h[|a|..][1 + i] == ':';
  }

  /** Without a port the address alone is an endpoint with port zero, with or without brackets. */
  lemma PortMayBeOmitted(a: ScAddress)
    requires a.host.ZoneFree() && !IpTextLaws.TrailingGap(a.host, false)
    ensures ParseEndpoint(FormatAddress(a)) == Ok(Endpoint(a, 0))
    ensures ParseEndpoint("[" + FormatAddress(a) + "]") == Ok(Endpoint(a, 0))
  {
    hide FormatAddress, ParseAddress, FromChars, Number, IpTextLaws.TrailingGap, WithoutPort, Split;
    var t := FormatAddress(a);
    AddressRoundTrip(a);
    NoBracketFirst(a);
    AddressWithoutPort(a);
    SplitIsUnambiguous(t, t, 0);
    SplitIsUnambiguous("[" + t + "]", t, 0);
  }

  lemma AddressWithoutPort(a: ScAddress)
    requires a.host.ZoneFree()
    ensures WithoutPort(FormatAddress(a))
  {
    hide FormatIP, WithoutPort, Number, Dotted, CompleteHost, FormatIsdAsn;
    var ia := FormatIsdAsn(a.isdAsn);
    IsdAsnClean(a.isdAsn);
    if a.host.IPv6? {
      var x, y := LastColon(a.host, false, false);
      NotCompleteBehindComma(ia, x);
      AtLastColon(ia + "," + x, y);
      assert FormatAddress(a) == (ia + "," + x) + ":" + y;
    } else {
      IpTextLaws.DottedParses(a.host.addr);
      DottedText(a.host, false, false);
      IPv4WithoutPort(a.isdAsn, Dotted(a.host.addr));
    }
  }

  lemma DottedText(ip: IPAddress, longForm: bool, upper: bool)
    requires ip.IPv4?
    ensures FormatIP(ip, longForm, upper) == Dotted(ip.addr)
  {
  }

  /** The colons of a hexadecimal AS number are not taken for the port. */
  lemma IPv4WithoutPort(ia: u64, host: string)
    requires ':' !in host
    ensures WithoutPort(FormatIsdAsn(ia) + "," + host)
  {
    hide Number, WithoutPort, Join, CompleteHost;
    var isd, asn := ia / ISD_UNIT, ia % ISD_UNIT;
    NumberPlain(isd, 10, false);
    if asn <= BGP_MAX {
      NumberPlain(asn, 10, false);
      NoColon(FormatIsdAsn(ia) + "," + host);
    } else {
      var gs := AsnTextGroups(asn);
      NumberPlain(asn / 0x1_0000_0000 % 0x1_0000, 16, false);
      NumberPlain(asn / 0x1_0000 % 0x1_0000, 16, false);
      NumberPlain(asn % 0x1_0000, 16, false);
      ThreeGroups(gs);
      BeforeLastGroup(Number(isd, 10, false), gs, host);
    }
  }

  lemma BeforeLastGroup(isd: string, gs: seq<string>, host: string)
    requires |gs| == 3 && Plain(isd) && Plain(gs[0]) && Plain(gs[1]) && Plain(gs[2]) && ':' !in host
    ensures WithoutPort(isd + "-" + (gs[0] + ":" + gs[1] + ":" + gs[2]) + "," + host)
  {
    hide WithoutPort, CompleteHost;
    var x := isd + "-" + gs[0] + ":" + gs[1];
    assert x[|isd + "-" + gs[0]|] == ':';
    NotComplete(x);
    AtLastColon(x, gs[2] + "," + host);
    assert isd + "-" + (gs[0] + ":" + gs[1] + ":" + gs[2]) + "," + host == x + ":" + (gs[2] + "," + host);
  }

  lemma NoColon(text: string)
    requires ':' !in text
    ensures WithoutPort(text)
  {
  }

  lemma ThreeGroups(gs: seq<string>)
    requires |gs| == 3
    ensures Join(gs, ':') == gs[0] + ":" + gs[1] + ":" + gs[2]
  {
    assert Join(gs[1..], ':') == gs[1] + ":" + Join(gs[1..][1..], ':');
  }

  // ---- IP endpoints ----

  function ParseIPEndpoint(text: string, noZone: bool): Result<(IPAddress, u16)> {
    match Split(text)
    case Err(e) => Err(e)
    case Ok((host, port)) => (match ParseIP(host, noZone) case Err(e) => Err(e) case Ok(ip) => Ok((ip, port)))
  }

  function FormatIPEndpoint(ip: IPAddress, port: u16, longForm: bool, upper: bool): string {
    if ip.IPv4? then FormatIP(ip, longForm, upper) + ":" + Number(port, 10, false)
    else "[" + FormatIP(ip, longForm, upper) + "]:" + Number(port, 10, false)
  }

  /** IP endpoints are read back with their port exactly when the address is read back. */
  lemma IPEndpointRoundTrip(ip: IPAddress, port: u16, longForm: bool, upper: bool)
    ensures ParseIPEndpoint(FormatIPEndpoint(ip, port, longForm, upper), false)
         == if IpTextLaws.TrailingGap(ip, longForm) then Err(SyntaxError) else Ok((ip, port))
  {
    hide FormatIP, ParseIP, FromChars, Number, Split, CompleteHost, IpTextLaws.TrailingGap;
    DecimalField(port, 0xffff);
    IpTextLaws.ParseFormat(ip, longForm, upper);
    if ip.IPv4? {
      DottedComplete(ip, longForm, upper);
      OpenSplit(FormatIP(ip, longForm, upper), Number(port, 10, false), port);
    } else {
      BracketedSplit(FormatIP(ip, longForm, upper), Number(port, 10, false), port);
    }
  }

  lemma DottedComplete(ip: IPAddress, longForm: bool, upper: bool)
    requires ip.IPv4?
    ensures CompleteHost(FormatIP(ip, longForm, upper)) && FormatIP(ip, longForm, upper) != ""
    ensures FormatIP(ip, longForm, upper)[0] != '['
  {
    hide Dotted;
    IpTextLaws.DottedParses(ip.addr);
    assert Dotted(ip.addr)[0] in Dotted(ip.addr);
  }
}
