/**
 IP and SCION addresses, and the static mapping of SCION addresses into IPv6.
 */
module Address {
  import opened Words

  datatype Option<T> = None | Some(value: T)

  /** IPv4, or IPv6 with a zone identifier that is empty for addresses without one. */
  datatype IPAddress = IPv4(addr: u32) | IPv6(hi: u64, lo: u64, zone: string) {
    predicate Is4in6() {
      IPv6? && hi == 0 && lo / 0x1_0000_0000 == 0xffff
    }

    predicate IsScion() {
      IPv6? && hi / 0x100_0000_0000_0000 == 0xfc
    }

    function Unmap4in6(): IPAddress {
      if Is4in6() then IPv4(lo % 0x1_0000_0000) else this
    }

    function Map4in6(): IPAddress {
      if IPv4? then IPv6(0, 0xffff_0000_0000 + addr, "") else this
    }

    /** The two 64-bit halves; an IPv4 address is kept in the low one. */
    function Halves(): (u64, u64) {
      if IPv4? then (0, addr) else (hi, lo)
    }

    predicate ZoneFree() {
      IPv6? ==> zone == ""
    }
  }

  const ISD_UNIT := 0x1_0000_0000_0000

  /** ISD in the top 16 bits, AS number in the low 48. */
  function MakeIsdAsn(isd: nat, asn: nat): u64
    requires isd < 0x1_0000 && asn < ISD_UNIT
  {
    isd * ISD_UNIT + asn
  }

  datatype ScAddress = ScAddress(isdAsn: u64, host: IPAddress) {
    function Isd(): nat { isdAsn / ISD_UNIT }
    function Asn(): nat { isdAsn % ISD_UNIT }
  }

  // ---- Classes of SCION-mapped addresses ----

  datatype ScionClass =
    | Invalid | BgpIPv4 | BgpIPv6 | BgpWildcard | WildcardAsn
    | PublicIPv4 | PublicIPv6 | PublicWildcard | Reserved

  function Flags(hi: u64): nat { hi / 0x100_0000_0000 % 16 }

  function Classify(ip: IPAddress): ScionClass {
    var (prefix, iid) := ip.Halves();
    if prefix / 0x100_0000_0000_0000 != 0xfc then Invalid
    else if Flags(prefix) < 8 then
      var asn := prefix / 0x100_0000 % 0x10_0000;
      if asn == 0 then WildcardAsn
      else if prefix % 0x100_0000 == 0 && iid == 0 then BgpWildcard
      else if prefix % 0x100_0000 == 0 && iid / 0x1_0000_0000 == 0xffff then BgpIPv4
      else BgpIPv6
    else if Flags(prefix) == 0xe then
      if prefix % 0x100 == 0 && iid == 0 then PublicWildcard
      else if prefix % 0x100 == 0 && iid / 0x1_0000_0000 == 0xffff then PublicIPv4
      else PublicIPv6
    else Reserved
  }

  /** ISD-ASN and AS-local prefix of a mapped address; nothing for a reserved format. */
  function UnmapIsdAsn(ip: IPAddress): Option<(u64, nat)> {
    var (hi, lo) := ip.Halves();
    var isd := hi / 0x1000_0000_0000 % 0x1000;
    if Flags(hi) < 8 then Some((MakeIsdAsn(isd, hi / 0x100_0000 % 0x10_0000), hi % 0x100_0000))
    else if Flags(hi) == 0xe then Some((MakeIsdAsn(isd, 0x2_0000_0000 + hi / 0x100 % 0x1_0000_0000), hi % 0x100))
    else None
  }

  const SCION_PREFIX := 0xfc00_0000_0000_0000

  /** The mapping, where it is reversible without further information. */
  function MapToIPv6(a: ScAddress): Option<IPAddress> {
    if a.host.IPv6? && !a.host.Is4in6() then
      if !a.host.IsScion() then None
      else match UnmapIsdAsn(a.host)
        case None => None
        case Some((ia, _)) => if ia != a.isdAsn then None else Some(a.host)
    else
      var host := a.host.Unmap4in6();
      match MapPrefix(a.Isd(), a.Asn())
      case None => None
      case Some(prefix) => Some(IPv6(prefix, 0xffff_0000_0000 + host.addr, ""))
  }

  /** The high half of the mapped address of an IPv4 host. */
  function MapPrefix(isd: nat, asn: nat): Option<u64> {
    if isd >= 0x1000 then None
    else if asn < 0x8_0000 then Some(SCION_PREFIX + isd * 0x1000_0000_0000 + asn * 0x100_0000)
    else if 0x2_0000_0000 <= asn <= 0x2_ffff_ffff then
      Some(SCION_PREFIX + isd * 0x1000_0000_0000 + 0xe00_0000_0000 + asn % 0x1_0000_0000 * 0x100)
    else None
  }

  datatype UnmapResult = Unmapped(a: ScAddress) | NotScion | ReservedFormat

  function UnmapFromIPv6(ip: IPAddress): UnmapResult {
    var (prefix, iid) := ip.Halves();
    if prefix / 0x100_0000_0000_0000 != 0xfc then NotScion
    else match UnmapIsdAsn(ip)
      case None => ReservedFormat
      case Some((ia, localPrefix)) =>
        if localPrefix == 0 && iid != 0 && iid / 0x1_0000_0000 == 0xffff
        then Unmapped(ScAddress(ia, IPv4(iid % 0x1_0000_0000)))
        else Unmapped(ScAddress(ia, ip))
  }

  /** IPv4 hosts in disguise written as IPv4: 4-in-6, and SCION-IPv4 addresses of the right AS. */
  function Normal(a: ScAddress): ScAddress {
    if a.host.IPv4? then a
    else if a.host.Is4in6() then a.(host := a.host.Unmap4in6())
    else if a.host.IsScion() && UnmapFromIPv6(a.host).Unmapped? && UnmapFromIPv6(a.host).a.isdAsn == a.isdAsn
    then UnmapFromIPv6(a.host).a
    else a
  }

  // ---- Bit fields of the high half ----

  /** The four fields of a mapped BGP prefix are read back. */
  lemma BgpFields(isd: nat, asn: nat, local: nat)
    requires isd < 0x1000 && asn < 0x8_0000 && local < 0x100_0000
    ensures var hi := SCION_PREFIX + isd * 0x1000_0000_0000 + asn * 0x100_0000 + local;
            && hi / 0x100_0000_0000_0000 == 0xfc && Flags(hi) < 8
            && hi / 0x1000_0000_0000 % 0x1000 == isd && hi / 0x100_0000 % 0x10_0000 == asn && hi % 0x100_0000 == local
  {
    var low := asn * 0x100_0000 + local;
    var hi := SCION_PREFIX + isd * 0x1000_0000_0000 + low;
    DivModUnique(hi, 0x100_0000_0000_0000, 0xfc, isd * 0x1000_0000_0000 + low);
    DivModUnique(hi, 0x1000_0000_0000, 0xf_c000 + isd, low);
    DivModUnique(0xf_c000 + isd, 0x1000, 0xfc, isd);
    DivModUnique(hi, 0x100_0000, 0xfc_0000_0000 + isd * 0x10_0000 + asn, local);
    DivModUnique(0xfc_0000_0000 + isd * 0x10_0000 + asn, 0x10_0000, 0xf_c000 + isd, asn);
    var t := asn / 0x1_0000;
    DivModUnique(hi, 0x100_0000_0000, 0xfc_0000 + isd * 16 + t, asn % 0x1_0000 * 0x100_0000 + local);
    DivModUnique(0xfc_0000 + isd * 16 + t, 16, 0xf_c000 + isd, t);
  }

  lemma PublicFields(isd: nat, low: nat, local: nat)
    requires isd < 0x1000 && low < 0x1_0000_0000 && local < 0x100
    ensures var hi := SCION_PREFIX + isd * 0x1000_0000_0000 + 0xe00_0000_0000 + low * 0x100 + local;
            && hi / 0x100_0000_0000_0000 == 0xfc && Flags(hi) == 0xe
            && hi / 0x1000_0000_0000 % 0x1000 == isd && hi / 0x100 % 0x1_0000_0000 == low && hi % 0x100 == local
  {
    var rest := 0xe00_0000_0000 + low * 0x100 + local;
    var hi := SCION_PREFIX + isd * 0x1000_0000_0000 + rest;
    DivModUnique(hi, 0x100_0000_0000_0000, 0xfc, isd * 0x1000_0000_0000 + rest);
    DivModUnique(hi, 0x1000_0000_0000, 0xf_c000 + isd, rest);
    DivModUnique(0xf_c000 + isd, 0x1000, 0xfc, isd);
    DivModUnique(hi, 0x100_0000_0000, 0xfc_0000 + isd * 16 + 0xe, low * 0x100 + local);
    DivModUnique(0xfc_0000 + isd * 16 + 0xe, 16, 0xf_c000 + isd, 0xe);
    var q := (0xfc_0000 + isd * 16 + 0xe) * 0x1_0000_0000 + low;
    DivModUnique(hi, 0x100, q, local);
    DivModUnique(q, 0x1_0000_0000, 0xfc_0000 + isd * 16 + 0xe, low);
  }

  /** A SCION prefix is made of its fields. */
  lemma FieldsOfPrefix(hi: u64)
    requires hi / 0x100_0000_0000_0000 == 0xfc
    ensures var isd := hi / 0x1000_0000_0000 % 0x1000;
            && (Flags(hi) < 8 ==> var asn := hi / 0x100_0000 % 0x10_0000;
                 asn < 0x8_0000 && hi == SCION_PREFIX + isd * 0x1000_0000_0000 + asn * 0x100_0000 + hi % 0x100_0000)
            && (Flags(hi) == 0xe ==> var low := hi / 0x100 % 0x1_0000_0000;
                 hi == SCION_PREFIX + isd * 0x1000_0000_0000 + 0xe00_0000_0000 + low * 0x100 + hi % 0x100)
  {
    var w4, w3 := hi / 0x1000_0000_0000, hi / 0x100_0000_0000;
    DivDiv(hi, 0x1000_0000_0000, 0x1000);
    DivDiv(hi, 0x100_0000_0000, 16);
    var isd := w4 % 0x1000;
    assert w4 == 0xfc * 0x1000 + isd;
    assert w3 == w4 * 16 + Flags(hi);
    var w2 := hi / 0x100_0000;
    DivDiv(hi, 0x100_0000, 0x1_0000);
    assert w2 == w3 * 0x1_0000 + w2 % 0x1_0000;
    if Flags(hi) < 8 {
      DivModUnique(w2, 0x10_0000, w4, Flags(hi) * 0x1_0000 + w2 % 0x1_0000);
    }
    var w1 := hi / 0x100;
    DivDiv(hi, 0x100, 0x1_0000_0000);
    assert w1 == w3 * 0x1_0000_0000 + w1 % 0x1_0000_0000;
  }

  // ---- Map and unmap are inverse ----

  lemma SplitIsdAsn(isd: nat, asn: nat)
    requires isd < 0x1_0000 && asn < ISD_UNIT
    ensures MakeIsdAsn(isd, asn) / ISD_UNIT == isd && MakeIsdAsn(isd, asn) % ISD_UNIT == asn
  {
    DivModUnique(MakeIsdAsn(isd, asn), ISD_UNIT, isd, asn);
  }

  lemma JoinIsdAsn(ia: u64)
    ensures ia / ISD_UNIT < 0x1_0000 && MakeIsdAsn(ia / ISD_UNIT, ia % ISD_UNIT) == ia
  {
  }

  /** The prefix of an IPv4 host carries its ISD-ASN and an empty local prefix. */
  lemma PrefixCarriesIsdAsn(a: ScAddress, lo: u64)
    requires MapPrefix(a.Isd(), a.Asn()).Some?
    ensures var hi := MapPrefix(a.Isd(), a.Asn()).value;
            hi / 0x100_0000_0000_0000 == 0xfc && UnmapIsdAsn(IPv6(hi, lo, "")) == Some((a.isdAsn, 0))
  {
    JoinIsdAsn(a.isdAsn);
    if a.Asn() < 0x8_0000 {
      BgpFields(a.Isd(), a.Asn(), 0);
    } else {
      PublicFields(a.Isd(), a.Asn() % 0x1_0000_0000, 0);
    }
  }

  /** Unmapping a mapped address gives its normal form. */
  lemma UnmapOfMap(a: ScAddress)
    requires MapToIPv6(a).Some?
    ensures UnmapFromIPv6(MapToIPv6(a).value) == Unmapped(Normal(a))
  {
    hide Flags, MapPrefix;
    if a.host.IPv6? && !a.host.Is4in6() {
    } else {
      var lo := 0xffff_0000_0000 + a.host.Unmap4in6().addr;
      PrefixCarriesIsdAsn(a, lo);
      assert lo / 0x1_0000_0000 == 0xffff && lo % 0x1_0000_0000 == a.host.Unmap4in6().addr;
    }
  }

  /** Where unmapping succeeds on a zone-free address, mapping the result gives the address back. */
  lemma MapOfUnmap(ip: IPAddress)
    requires ip.IPv6? && UnmapFromIPv6(ip).Unmapped?
    ensures MapToIPv6(UnmapFromIPv6(ip).a) == Some(ip) <==> (ip.zone == "" || UnmapFromIPv6(ip).a.host.IPv6?)
  {
    var a := UnmapFromIPv6(ip).a;
    if a.host.IPv4? {
      FieldsOfPrefix(ip.hi);
      var isd := ip.hi / 0x1000_0000_0000 % 0x1000;
      if Flags(ip.hi) < 8 {
        SplitIsdAsn(isd, ip.hi / 0x100_0000 % 0x10_0000);
      } else {
        var low := ip.hi / 0x100 % 0x1_0000_0000;
        SplitIsdAsn(isd, 0x2_0000_0000 + low);
        DivModUnique(0x2_0000_0000 + low, 0x1_0000_0000, 2, low);
      }
      assert MapPrefix(a.Isd(), a.Asn()) == Some(ip.hi);
      assert ip.lo == 0xffff_0000_0000 + ip.lo % 0x1_0000_0000;
    }
  }

  /** Unmapping is injective on zone-free addresses. */
  lemma UnmapInjective(ip: IPAddress, ip': IPAddress)
    requires ip.IPv6? && ip'.IPv6? && ip.zone == "" && ip'.zone == ""
    requires UnmapFromIPv6(ip).Unmapped? && UnmapFromIPv6(ip) == UnmapFromIPv6(ip')
    ensures ip == ip'
  {
    MapOfUnmap(ip);
    MapOfUnmap(ip');
  }

  lemma MapIsIPv6(a: ScAddress)
    requires MapToIPv6(a).Some?
    ensures MapToIPv6(a).value.IPv6? && MapToIPv6(a).value.IsScion()
    ensures a.host.ZoneFree() ==> MapToIPv6(a).value.zone == ""
  {
    if !(a.host.IPv6? && !a.host.Is4in6()) { PrefixCarriesIsdAsn(a, 0); }
  }

  /** Two zone-free addresses are mapped alike exactly when they have the same normal form. */
  lemma MappedAlike(a: ScAddress, b: ScAddress)
    requires MapToIPv6(a).Some? && MapToIPv6(b).Some? && a.host.ZoneFree() && b.host.ZoneFree()
    ensures MapToIPv6(a) == MapToIPv6(b) <==> Normal(a) == Normal(b)
  {
    UnmapOfMap(a);
    UnmapOfMap(b);
    MapIsIPv6(a);
    MapIsIPv6(b);
    if Normal(a) == Normal(b) { UnmapInjective(MapToIPv6(a).value, MapToIPv6(b).value); }
  }

  /** The class names the format: it is what the unmapping finds, once the AS number is not a wildcard. */
  lemma ClassOfUnmap(ip: IPAddress)
    requires ip.IPv6?
    ensures Classify(ip) == Invalid <==> UnmapFromIPv6(ip) == NotScion
    ensures Classify(ip) == Reserved <==> UnmapFromIPv6(ip) == ReservedFormat
    ensures Classify(ip) == WildcardAsn <==> UnmapFromIPv6(ip).Unmapped? && UnmapFromIPv6(ip).a.Asn() == 0
    ensures UnmapFromIPv6(ip).Unmapped? && UnmapFromIPv6(ip).a.Asn() != 0 ==>
              (Classify(ip) in {BgpIPv4, PublicIPv4} <==> UnmapFromIPv6(ip).a.host.IPv4?)
  {
    var isd := ip.hi / 0x1000_0000_0000 % 0x1000;
    SplitIsdAsn(isd, ip.hi / 0x100_0000 % 0x10_0000);
    SplitIsdAsn(isd, 0x2_0000_0000 + ip.hi / 0x100 % 0x1_0000_0000);
  }
}
