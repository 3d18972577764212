/**
 The surrogate table: SCION addresses without a static mapping get an IPv6 address from a
 table that probes linearly for a free one. Static mapping and table together must translate
 every address back to what it stood for, at any later time.
 */
module Surrogates {
  import opened Words
  import opened Address

  const TABLE_LIMIT := 0x1_0000_0000_0000_0000

  /** The table as a value. */
  datatype Table = Table(surrogates: map<IPAddress, ScAddress>, addresses: map<ScAddress, IPAddress>)

  type HashFunction = ScAddress -> u64

  /** The `i`-th address probed for a hash value. */
  function Probe(h: u64, i: nat): IPAddress {
    IPv6(SCION_PREFIX, (h + i) % TABLE_LIMIT, "")
  }

  // ---- Termination of the probe ----

  function Probed(h: u64, n: nat): set<IPAddress> {
    set i | 0 <= i < n :: Probe(h, i)
  }

  /** The first 2^64 probes are all different. */
  lemma {:induction false} ProbesDistinct(h: u64, n: nat)
    requires n <= TABLE_LIMIT
    ensures |Probed(h, n)| == n
  {
    if n > 0 {
      ProbesDistinct(h, n - 1);
      assert Probed(h, n) == Probed(h, n - 1) + {Probe(h, n - 1)};
      forall i | 0 <= i < n - 1 ensures Probe(h, i) != Probe(h, n - 1) {
        SameResidue(h + i, h + (n - 1));
      }
    }
  }

  lemma SameResidue(x: nat, y: nat)
    requires x < y < x + TABLE_LIMIT
    ensures x % TABLE_LIMIT != y % TABLE_LIMIT
  {
  }

  /** Pigeonhole: probes that all hit are no more than the table has entries. */
  lemma ProbesBounded(surrogates: map<IPAddress, ScAddress>, h: u64, n: nat)
    requires n <= TABLE_LIMIT && forall i :: 0 <= i < n ==> Probe(h, i) in surrogates
    ensures n <= |surrogates|
  {
    ProbesDistinct(h, n);
    assert Probed(h, n) <= surrogates.Keys;
    SubsetSize(Probed(h, n), surrogates.Keys);
  }

  lemma SubsetSize(a: set<IPAddress>, b: set<IPAddress>)
    requires a <= b
    ensures |a| <= |b|
  {
    assert b == a + (b - a);
  }

  /** The first free probe from the `i`-th on. */
  function FirstFree(surrogates: map<IPAddress, ScAddress>, h: u64, i: nat): (r: IPAddress)
    requires |surrogates| < TABLE_LIMIT && i < TABLE_LIMIT
    requires forall k :: 0 <= k < i ==> Probe(h, k) in surrogates
    ensures r !in surrogates && r.IPv6? && r.hi == SCION_PREFIX && r.zone == ""
    decreases TABLE_LIMIT - i
  {
    if Probe(h, i) !in surrogates then Probe(h, i)
    else
      ProbesBounded(surrogates, h, i + 1);
      FirstFree(surrogates, h, i + 1)
  }

  function Make(t: Table, a: ScAddress, hash: HashFunction): (r: (Table, IPAddress))
    requires |t.surrogates| < TABLE_LIMIT
  {
    if a in t.addresses then (t, t.addresses[a])
    else
      var s := FirstFree(t.surrogates, hash(a), 0);
      (Table(t.surrogates[s := a], t.addresses[a := s]), s)
  }

  function AddOrReplaceIn(t: Table, s: IPAddress, a: ScAddress): Table {
    Table(t.surrogates[s := a], t.addresses[a := s])
  }

  // ---- The table object ----

  class AddressSurrogates {
    var surrogates: map<IPAddress, ScAddress>
    var addresses: map<ScAddress, IPAddress>

    constructor ()
      ensures Contents() == Table(map[], map[])
    {
      surrogates, addresses := map[], map[];
    }

    function Contents(): Table
      reads this
    {
      Table(surrogates, addresses)
    }

    /** The surrogate of an address, allocated on first use. */
    method MakeSurrogate(a: ScAddress, hash: HashFunction) returns (surrogate: IPAddress)
      requires |surrogates| < TABLE_LIMIT
      modifies this
      ensures (Contents(), surrogate) == Make(old(Contents()), a, hash)
    {
      if a in addresses {
        surrogate := addresses[a];
        return;
      }
      surrogate := IPv6(SCION_PREFIX, hash(a), "");
      var i := 1;
      while surrogate in surrogates
        invariant Contents() == old(Contents())
        invariant 1 <= i <= TABLE_LIMIT
        invariant surrogate == Probe(hash(a), i - 1)
        invariant forall k :: 0 <= k < i - 1 ==> Probe(hash(a), k) in surrogates
        invariant FirstFree(surrogates, hash(a), 0) == FirstFree(surrogates, hash(a), i - 1)
        decreases TABLE_LIMIT - i
      {
        ProbesBounded(surrogates, hash(a), i);
        surrogate := IPv6(SCION_PREFIX, (hash(a) + i) % TABLE_LIMIT, "");
        i := i + 1;
      }
      surrogates := surrogates[surrogate := a];
      addresses := addresses[a := surrogate];
    }

    method AddOrReplace(surrogate: IPAddress, a: ScAddress)
      modifies this
      ensures Contents() == AddOrReplaceIn(old(Contents()), surrogate, a)
    {
      surrogates := surrogates[surrogate := a];
      addresses := addresses[a := surrogate];
    }

    method GetAddress(surrogate: IPAddress) returns (r: Option<ScAddress>)
      ensures r == Lookup(Contents(), surrogate)
    {
      if surrogate in surrogates {
        return Some(surrogates[surrogate]);
      } else {
        return None;
      }
    }

    /** The configured pairs, one after the other. */
    method LoadConfigured(pairs: seq<(IPAddress, ScAddress)>)
      modifies this
      ensures Contents() == Loaded(old(Contents()), pairs)
    {
      var i := 0;
      while i < |pairs|
        invariant 0 <= i <= |pairs|
        invariant Contents() == Loaded(old(Contents()), pairs[..i])
      {
        assert pairs[..i + 1][..i] == pairs[..i];
        AddOrReplace(pairs[i].0, pairs[i].1);
        i := i + 1;
      }
      assert pairs[..|pairs|] == pairs;
    }

    /** An IPv6 address as a SCION address, by table or by static mapping. */
    method In6ToScion(hi: u64, lo: u64) returns (r: Option<ScAddress>)
      ensures r == Resolve(Contents(), hi, lo)
    {
      var ip := IPv6(hi, lo, "").Unmap4in6();
      r := GetAddress(ip);
      if r.Some? { return; }
      match UnmapFromIPv6(ip) {
        case Unmapped(a) => return Some(a);
        case NotScion => return None;
        case ReservedFormat => return None;
      }
    }

    /** An IPv6 address that stands for a SCION address on this host. */
    method MapScionToIPv6(a: ScAddress, hash: HashFunction) returns (ip: IPAddress)
      requires |surrogates| < TABLE_LIMIT
      modifies this
      ensures (Contents(), ip) == Represent(old(Contents()), a, hash)
    {
      match MapToIPv6(a) {
        case Some(mapped) => return mapped;
        case None =>
          var s := MakeSurrogate(a, hash);
          return s.Map4in6();
      }
    }
  }

  // ---- The translation as functions ----

  function Lookup(t: Table, s: IPAddress): Option<ScAddress> {
    if s in t.surrogates then Some(t.surrogates[s]) else None
  }

  function Loaded(t: Table, pairs: seq<(IPAddress, ScAddress)>): Table {
    if pairs == [] then t
    else AddOrReplaceIn(Loaded(t, pairs[..|pairs| - 1]), pairs[|pairs| - 1].0, pairs[|pairs| - 1].1)
  }

  function Resolve(t: Table, hi: u64, lo: u64): Option<ScAddress> {
    var ip := IPv6(hi, lo, "").Unmap4in6();
    if ip in t.surrogates then Some(t.surrogates[ip])
    else match UnmapFromIPv6(ip)
      case Unmapped(a) => Some(a)
      case _ => None
  }

  function Represent(t: Table, a: ScAddress, hash: HashFunction): (Table, IPAddress)
    requires |t.surrogates| < TABLE_LIMIT
  {
    match MapToIPv6(a)
    case Some(mapped) => (t, mapped)
    case None => (Make(t, a, hash).0, Make(t, a, hash).1.Map4in6())
  }

  // ---- Invariants ----

  /** Every address handed out leads back to its owner. */
  ghost predicate Consistent(t: Table) {
    forall a :: a in t.addresses ==> t.addresses[a] in t.surrogates && t.surrogates[t.addresses[a]] == a
  }

  /** An address in the SCION-mapped space of a real AS: static mapping owns it. */
  predicate OwnedByMapping(s: IPAddress) {
    s.IPv6? && s.IsScion() && UnmapIsdAsn(s).Some? && UnmapIsdAsn(s).value.0 != 0
  }

  /** Surrogates the translation can carry: not IPv4 in disguise, no zone, not owned by the mapping. */
  predicate Usable(s: IPAddress) {
    !s.Is4in6() && s.ZoneFree() && !OwnedByMapping(s)
  }

  ghost predicate Valid(t: Table) {
    Consistent(t) && forall s :: s in t.surrogates ==> Usable(s)
  }

  /** A run in which addresses are represented one after the other; those without a mapping are allocated. */
  function Run(t: Table, requests: seq<ScAddress>, hash: HashFunction): (r: Table)
    requires |t.surrogates| + |requests| < TABLE_LIMIT
    ensures |r.surrogates| <= |t.surrogates| + |requests|
    decreases |requests|
  {
    if requests == [] then t
    else
      var t' := Represent(t, requests[0], hash).0;
      assert |t'.surrogates| <= |t.surrogates| + 1 by { MakeSize(t, requests[0], hash); }
      Run(t', requests[1..], hash)
  }

  lemma MakeSize(t: Table, a: ScAddress, hash: HashFunction)
    requires |t.surrogates| < TABLE_LIMIT
    ensures |Make(t, a, hash).0.surrogates| <= |t.surrogates| + 1
  {
    hide FirstFree;
    if a !in t.addresses {
      var s := FirstFree(t.surrogates, hash(a), 0);
      InsertedSize(t.surrogates, s, a);
    }
  }

  lemma InsertedSize(m: map<IPAddress, ScAddress>, s: IPAddress, a: ScAddress)
    ensures |m[s := a]| <= |m| + 1
  {
    assert m[s := a].Keys == m.Keys + {s};
    assert |m[s := a]| == |m[s := a].Keys| && |m| == |m.Keys|;
  }

  lemma SurrogatesUsable(lo: u64)
    ensures Usable(IPv6(SCION_PREFIX, lo, ""))
  {
    BgpFields(0, 0, 0);
  }

  lemma MakeValid(t: Table, a: ScAddress, hash: HashFunction)
    requires |t.surrogates| < TABLE_LIMIT && Valid(t)
    ensures Valid(Make(t, a, hash).0)
    ensures var (t', s) := Make(t, a, hash); a in t'.addresses && t'.addresses[a] == s
    ensures forall s :: s in t.surrogates ==>
              s in Make(t, a, hash).0.surrogates && Make(t, a, hash).0.surrogates[s] == t.surrogates[s]
    ensures forall b :: b in t.addresses ==>
              b in Make(t, a, hash).0.addresses && Make(t, a, hash).0.addresses[b] == t.addresses[b]
  {
    if a !in t.addresses {
      SurrogatesUsable(FirstFree(t.surrogates, hash(a), 0).lo);
    }
  }

  /** Rebinding breaks the table exactly when another address still holds the surrogate. */
  lemma AddOrReplaceConsistent(t: Table, s: IPAddress, a: ScAddress)
    requires Consistent(t)
    ensures Consistent(AddOrReplaceIn(t, s, a)) <==>
              !(s in t.surrogates && t.surrogates[s] != a
                && t.surrogates[s] in t.addresses && t.addresses[t.surrogates[s]] == s)
  {
    var t' := AddOrReplaceIn(t, s, a);
    if s in t.surrogates && t.surrogates[s] != a && t.surrogates[s] in t.addresses && t.addresses[t.surrogates[s]] == s {
      var b := t.surrogates[s];
      assert t'.addresses[b] == s && t'.surrogates[s] == a;
    }
  }

  /** Distinct configured surrogates give a valid table that knows every configured pair. */
  lemma {:induction false} ConfigurationValid(pairs: seq<(IPAddress, ScAddress)>)
    requires forall i, j :: 0 <= i < j < |pairs| ==> pairs[i].0 != pairs[j].0
    requires forall i :: 0 <= i < |pairs| ==> Usable(pairs[i].0)
    ensures Valid(Loaded(Table(map[], map[]), pairs))
    ensures forall i :: 0 <= i < |pairs| ==> Lookup(Loaded(Table(map[], map[]), pairs), pairs[i].0) == Some(pairs[i].1)
  {
    hide Usable;
    if pairs != [] {
      var front, last := pairs[..|pairs| - 1], pairs[|pairs| - 1];
      ConfigurationValid(front);
      var t := Loaded(Table(map[], map[]), front);
      if last.0 in t.surrogates { LoadedKeys(front, last.0); }
      AddOrReplaceConsistent(t, last.0, last.1);
      forall i | 0 <= i < |pairs|
        ensures Lookup(Loaded(Table(map[], map[]), pairs), pairs[i].0) == Some(pairs[i].1)
      {
        if i < |front| { assert front[i] == pairs[i]; }
      }
    }
  }

  lemma {:induction false} LoadedKeys(pairs: seq<(IPAddress, ScAddress)>, s: IPAddress)
    requires s in Loaded(Table(map[], map[]), pairs).surrogates
    ensures exists i :: 0 <= i < |pairs| && pairs[i].0 == s
  {
    if pairs != [] && pairs[|pairs| - 1].0 != s { LoadedKeys(pairs[..|pairs| - 1], s); }
  }

  // ---- Faithful translation ----

  /** What an address reads back as: its IPv4 normal form if mapped statically, itself otherwise. */
  function ReadBack(a: ScAddress): ScAddress {
    if MapToIPv6(a).Some? then Normal(a) else a
  }

  lemma MappedIsOwned(a: ScAddress)
    requires MapToIPv6(a).Some? && a.isdAsn != 0
    ensures OwnedByMapping(MapToIPv6(a).value) && !MapToIPv6(a).value.Is4in6()
  {
    MapIsIPv6(a);
    if !(a.host.IPv6? && !a.host.Is4in6()) {
      PrefixCarriesIsdAsn(a, 0xffff_0000_0000 + a.host.Unmap4in6().addr);
    }
  }

  /** A representative translates back to the address it was made for. */
  lemma RepresentResolves(t: Table, a: ScAddress, hash: HashFunction)
    requires |t.surrogates| < TABLE_LIMIT && Valid(t)
    requires a.isdAsn != 0 && a.host.ZoneFree()
    ensures var (t', ip) := Represent(t, a, hash);
            ip.IPv6? && ip.zone == "" && Resolve(t', ip.hi, ip.lo) == Some(ReadBack(a))
  {
    MakeValid(t, a, hash);
    match MapToIPv6(a) {
      case Some(ip) =>
        MapIsIPv6(a);
        MappedIsOwned(a);
        UnmapOfMap(a);
      case None =>
        var s := Make(t, a, hash).1;
        if s.IPv4? {
          assert s.Map4in6().Unmap4in6() == s;
        }
    }
  }

  /** The address `ip` was handed out for `a`: by the static mapping or by the table. */
  ghost predicate HandedOut(t: Table, a: ScAddress, ip: IPAddress) {
    match MapToIPv6(a)
    case Some(mapped) => ip == mapped
    case None => a in t.addresses && ip == t.addresses[a].Map4in6()
  }

  lemma HandedOutResolves(t: Table, a: ScAddress, ip: IPAddress)
    requires Valid(t) && a.isdAsn != 0 && a.host.ZoneFree() && HandedOut(t, a, ip)
    ensures ip.IPv6? && ip.zone == "" && Resolve(t, ip.hi, ip.lo) == Some(ReadBack(a))
  {
    match MapToIPv6(a) {
      case Some(mapped) =>
        MapIsIPv6(a);
        MappedIsOwned(a);
        UnmapOfMap(a);
      case None =>
        var s := t.addresses[a];
        assert s.Map4in6().Unmap4in6() == s;
    }
  }

  /** Nothing handed out is ever taken back, and the table stays valid, over every run. */
  lemma {:induction false} RunKeeps(t: Table, requests: seq<ScAddress>, hash: HashFunction)
    requires |t.surrogates| + |requests| < TABLE_LIMIT && Valid(t)
    ensures Valid(Run(t, requests, hash))
    ensures forall a, ip :: HandedOut(t, a, ip) ==> HandedOut(Run(t, requests, hash), a, ip)
    decreases |requests|
  {
    if requests != [] {
      var t' := Represent(t, requests[0], hash).0;
      MakeSize(t, requests[0], hash);
      MakeValid(t, requests[0], hash);
      RunKeeps(t', requests[1..], hash);
    }
  }

  /**
   In every reachable state: an address represented now translates back now, and after any
   further allocations it still means the same.
   */
  lemma FaithfulForever(pairs: seq<(IPAddress, ScAddress)>, before: seq<ScAddress>, a: ScAddress,
                        after: seq<ScAddress>, hash: HashFunction)
    requires forall i, j :: 0 <= i < j < |pairs| ==> pairs[i].0 != pairs[j].0
    requires forall i :: 0 <= i < |pairs| ==> Usable(pairs[i].0)
    requires var t0 := Loaded(Table(map[], map[]), pairs);
             |t0.surrogates| + |before| + 1 + |after| < TABLE_LIMIT
    requires a.isdAsn != 0 && a.host.ZoneFree()
    ensures var t := Run(Loaded(Table(map[], map[]), pairs), before, hash);
            && |t.surrogates| + 1 + |after| < TABLE_LIMIT
            && var (t', ip) := Represent(t, a, hash);
               && |t'.surrogates| + |after| < TABLE_LIMIT
               && ip.IPv6?
               && Resolve(t', ip.hi, ip.lo) == Some(ReadBack(a))
               && Resolve(Run(t', after, hash), ip.hi, ip.lo) == Some(ReadBack(a))
  {
    var t0 := Loaded(Table(map[], map[]), pairs);
    ConfigurationValid(pairs);
    RunKeeps(t0, before, hash);
    var t := Run(t0, before, hash);
    var (t', ip) := Represent(t, a, hash);
    MakeSize(t, a, hash);
    MakeValid(t, a, hash);
    RepresentResolves(t, a, hash);
    RunKeeps(t', after, hash);
    assert HandedOut(t', a, ip);
    HandedOutResolves(Run(t', after, hash), a, ip);
  }

  // ---- Any configuration ----

  type Pairs = seq<(IPAddress, ScAddress)>

  predicate DistinctSurrogates(pairs: Pairs) {
    forall i, j :: 0 <= i < j < |pairs| ==> pairs[i].0 != pairs[j].0
  }

  /** The surrogate configured for an address; the last one when there are several. */
  function ConfiguredSurrogate(pairs: Pairs, a: ScAddress): (r: Option<IPAddress>)
    ensures r.Some? ==> (r.value, a) in pairs
    ensures r.None? ==> forall p :: p in pairs ==> p.1 != a
  {
    if pairs == [] then None
    else
      var n := |pairs| - 1;
      assert pairs == pairs[..n] + [pairs[n]];
      if pairs[n].1 == a then Some(pairs[n].0) else ConfiguredSurrogate(pairs[..n], a)
  }

  /** A surrogate as it comes back: handed out as IPv6 without a zone, looked up as IPv4 where it is 4-in-6. */
  function SeenAs(s: IPAddress): IPAddress {
    match s.Map4in6() case IPv6(hi, lo, _) => IPv6(hi, lo, "").Unmap4in6() case IPv4(_) => s
  }

  /** The address a surrogate is configured for; the last one when there are several. */
  function Owner(pairs: Pairs, s: IPAddress): (r: Option<ScAddress>)
    ensures r.Some? ==> (s, r.value) in pairs
    ensures r.None? ==> forall p :: p in pairs ==> p.0 != s
  {
    if pairs == [] then None
    else
      var n := |pairs| - 1;
      assert pairs == pairs[..n] + [pairs[n]];
      if pairs[n].0 == s then Some(pairs[n].1) else Owner(pairs[..n], s)
  }

  /** Without repeated surrogates every pair counts. */
  lemma OwnerIsUnique(pairs: Pairs, s: IPAddress, a: ScAddress)
    requires DistinctSurrogates(pairs) && (s, a) in pairs
    ensures Owner(pairs, s) == Some(a)
  {
    hide Owner;
    var i :| 0 <= i < |pairs| && pairs[i] == (s, a);
    var j :| 0 <= j < |pairs| && pairs[j] == (s, Owner(pairs, s).value);
    assert pairs[i].0 == pairs[j].0;
  }

  /**
   The configuration carries an address: the mapped address, if there is one, is configured for
   the normal form or for nothing, and then no zone may get lost; otherwise the configured
   surrogate, if there is one, is configured for the address as it comes back.
   */
  predicate Carries(pairs: Pairs, a: ScAddress) {
    match MapToIPv6(a)
    case Some(mapped) =>
      (match Owner(pairs, SeenAs(mapped))
       case Some(b) => b == Normal(a)
       case None => Normal(a).host.ZoneFree())
    case None =>
      (match ConfiguredSurrogate(pairs, a)
       case None => true
       case Some(s) => Owner(pairs, SeenAs(s)) == Some(a))
  }

  /** For an address that is configured once, the surrogate must be zone-free, not 4-in-6, and still its own. */
  lemma CarriesOnce(pairs: Pairs, a: ScAddress)
    requires MapToIPv6(a).None?
    requires forall p, q :: p in pairs && q in pairs && p.1 == a && q.1 == a ==> p == q
    ensures Carries(pairs, a) <==>
              (ConfiguredSurrogate(pairs, a).None?
               || var s := ConfiguredSurrogate(pairs, a).value;
                  s.ZoneFree() && !s.Is4in6() && Owner(pairs, s) == Some(a))
  {
    hide ConfiguredSurrogate, Owner;
    if ConfiguredSurrogate(pairs, a).Some? {
      var s := ConfiguredSurrogate(pairs, a).value;
      SeenAsItself(s);
      if Owner(pairs, SeenAs(s)) == Some(a) {
        assert (SeenAs(s), a).1 == (s, a).1 == a;
        assert (SeenAs(s), a) == (s, a);
      }
    }
  }

  /** The mapped address lies where surrogates are allocated and is configured for nothing. */
  predicate Exposed(pairs: Pairs, a: ScAddress) {
    MapToIPv6(a).Some? && Allocated(SeenAs(MapToIPv6(a).value)) && Owner(pairs, SeenAs(MapToIPv6(a).value)).None?
  }

  /** An allocated surrogate stands where the address is mapped to. */
  predicate Taken(t: Table, pairs: Pairs, a: ScAddress) {
    Exposed(pairs, a) && SeenAs(MapToIPv6(a).value) in t.surrogates
  }

  lemma SeenAsItself(s: IPAddress)
    ensures SeenAs(s) == s <==> s.ZoneFree() && !s.Is4in6()
  {
    if s.IPv4? { assert (0xffff_0000_0000 + s.addr) / 0x1_0000_0000 == 0xffff; }
  }

  predicate Allocated(s: IPAddress) {
    s.IPv6? && s.hi == SCION_PREFIX && s.zone == ""
  }

  /** What holds of every table grown from a configuration. */
  ghost predicate Grown(pairs: Pairs, t: Table) {
    && (forall s :: Owner(pairs, s).Some? ==> s in t.surrogates && t.surrogates[s] == Owner(pairs, s).value)
    && (forall s :: s in t.surrogates && Owner(pairs, s).None? ==>
          Allocated(s) && ConfiguredSurrogate(pairs, t.surrogates[s]).None? && MapToIPv6(t.surrogates[s]).None?)
    && (forall a :: a in t.addresses && ConfiguredSurrogate(pairs, a).None? ==>
          Allocated(t.addresses[a]) && t.addresses[a] in t.surrogates && t.surrogates[t.addresses[a]] == a)
    && (forall a :: ConfiguredSurrogate(pairs, a).Some? ==>
          a in t.addresses && t.addresses[a] == ConfiguredSurrogate(pairs, a).value)
  }

  lemma {:induction false} LoadedIsGrown(pairs: Pairs)
    ensures Grown(pairs, Loaded(Table(map[], map[]), pairs))
  {
    LoadedSurrogates(pairs);
    LoadedAddresses(pairs);
  }

  lemma {:induction false} LoadedSurrogates(pairs: Pairs)
    ensures var t := Loaded(Table(map[], map[]), pairs);
            forall s :: if Owner(pairs, s).Some? then s in t.surrogates && t.surrogates[s] == Owner(pairs, s).value
              else s !in t.surrogates
  {
    if pairs != [] { LoadedSurrogates(pairs[..|pairs| - 1]); }
  }

  lemma {:induction false} LoadedAddresses(pairs: Pairs)
    ensures var t := Loaded(Table(map[], map[]), pairs);
            forall a :: if ConfiguredSurrogate(pairs, a).Some? then
                a in t.addresses && t.addresses[a] == ConfiguredSurrogate(pairs, a).value
              else a !in t.addresses
  {
    if pairs != [] { LoadedAddresses(pairs[..|pairs| - 1]); }
  }

  lemma MakeGrown(pairs: Pairs, t: Table, a: ScAddress, hash: HashFunction)
    requires |t.surrogates| < TABLE_LIMIT && Grown(pairs, t)
    ensures var (t', ip) := Represent(t, a, hash);
            Grown(pairs, t') && HandedOut(t', a, ip)
            && forall b :: b in t.addresses ==> b in t'.addresses && t'.addresses[b] == t.addresses[b]
  {
    hide ConfiguredSurrogate, FirstFree, Grown, MapToIPv6;
    if MapToIPv6(a).None? && a !in t.addresses { AllocatedGrown(pairs, t, a, FirstFree(t.surrogates, hash(a), 0)); }
  }

  /** A fresh surrogate for an address that has none. */
  lemma AllocatedGrown(pairs: Pairs, t: Table, a: ScAddress, s: IPAddress)
    requires Grown(pairs, t) && a !in t.addresses && s !in t.surrogates && Allocated(s) && MapToIPv6(a).None?
    ensures Grown(pairs, Table(t.surrogates[s := a], t.addresses[a := s]))
  {
    hide ConfiguredSurrogate, Owner, MapToIPv6;
    var t' := Table(t.surrogates[s := a], t.addresses[a := s]);
    assert ConfiguredSurrogate(pairs, a).None?;
    assert forall x :: x in t'.surrogates <==> x == s || x in t.surrogates;
    assert forall x :: x in t'.addresses <==> x == a || x in t.addresses;
  }

  lemma {:induction false} RunGrown(pairs: Pairs, t: Table, requests: seq<ScAddress>, hash: HashFunction)
    requires |t.surrogates| + |requests| < TABLE_LIMIT && Grown(pairs, t)
    ensures Grown(pairs, Run(t, requests, hash))
    ensures forall b :: b in t.addresses ==>
              b in Run(t, requests, hash).addresses && Run(t, requests, hash).addresses[b] == t.addresses[b]
    decreases |requests|
  {
    hide Grown, Make, MapToIPv6;
    if requests != [] {
      MakeSize(t, requests[0], hash);
      MakeGrown(pairs, t, requests[0], hash);
      RunGrown(pairs, Represent(t, requests[0], hash).0, requests[1..], hash);
    }
  }

  /** In a grown table, what a handed out address resolves to. */
  lemma ResolvesExactly(pairs: Pairs, t: Table, a: ScAddress, ip: IPAddress)
    requires Grown(pairs, t) && HandedOut(t, a, ip)
    ensures ip.IPv6? && (Resolve(t, ip.hi, ip.lo) == Some(ReadBack(a)) <==> Carries(pairs, a) && !Taken(t, pairs, a))
  {
    match MapToIPv6(a) {
      case Some(mapped) => MappedExactly(pairs, t, a);
      case None => SurrogateExactly(pairs, t, a);
    }
  }

  lemma MappedExactly(pairs: Pairs, t: Table, a: ScAddress)
    requires Grown(pairs, t) && MapToIPv6(a).Some?
    ensures var ip := MapToIPv6(a).value;
            ip.IPv6?
            && (Resolve(t, ip.hi, ip.lo) == Some(Normal(a)) <==> Carries(pairs, a) && !Taken(t, pairs, a))
  {
    hide ConfiguredSurrogate, Owner, MapToIPv6, Normal, UnmapFromIPv6;
    MapIsIPv6(a);
    MappedSeen(a);
    var key := SeenAs(MapToIPv6(a).value);
    if Owner(pairs, key).None? && key in t.surrogates {
      assert MapToIPv6(t.surrogates[key]).None?;
    }
  }

  /** What unmapping finds behind a mapped address that has come back without its zone. */
  lemma MappedSeen(a: ScAddress)
    requires MapToIPv6(a).Some?
    ensures var m := MapToIPv6(a).value;
            && m.IPv6? && SeenAs(m) == IPv6(m.hi, m.lo, "") && !m.Is4in6()
            && UnmapFromIPv6(SeenAs(m)).Unmapped?
            && (UnmapFromIPv6(SeenAs(m)).a == Normal(a) <==> Normal(a).host.ZoneFree())
    ensures MapToIPv6(Normal(a)).Some?
  {
    MapIsIPv6(a);
    UnmapOfMap(a);
    var m := MapToIPv6(a).value;
    assert m.hi != 0;
    UnmapDropsZone(m);
    if Normal(a).host.ZoneFree() { MapOfUnmap(SeenAs(m)); } else { MapOfUnmap(m); }
  }

  lemma UnmapDropsZone(m: IPAddress)
    requires m.IPv6? && UnmapFromIPv6(m).Unmapped?
    ensures var a, key := UnmapFromIPv6(m).a, IPv6(m.hi, m.lo, "");
            && (a.host.IPv4? || a.host == m)
            && UnmapFromIPv6(key) == Unmapped(if a.host.IPv4? then a else a.(host := key))
  {
    hide Flags;
  }

  lemma SurrogateExactly(pairs: Pairs, t: Table, a: ScAddress)
    requires Grown(pairs, t) && MapToIPv6(a).None? && a in t.addresses
    ensures var ip := t.addresses[a].Map4in6();
            ip.IPv6? && (Resolve(t, ip.hi, ip.lo) == Some(a) <==> Carries(pairs, a))
  {
    hide ConfiguredSurrogate, Owner, MapToIPv6, UnmapFromIPv6;
    var s := t.addresses[a];
    var key := SeenAs(s);
    SeenAsItself(s);
    assert s.Map4in6().IPv6?;
    if ConfiguredSurrogate(pairs, a).None? {
      assert key == s;
    } else {
      NotByMapping(key, a);
    }
  }

  /** What the static mapping gives for an address has a static mapping itself. */
  lemma NotByMapping(key: IPAddress, a: ScAddress)
    requires MapToIPv6(a).None? && key.ZoneFree()
    ensures UnmapFromIPv6(key) != Unmapped(a)
  {
    if key.IPv6? && UnmapFromIPv6(key).Unmapped? { MapOfUnmap(key); }
  }

  /**
   For every configuration, in every state of every run, and after any further steps:
   representing an address and resolving the result gives the address back exactly when the
   configuration carries it and no allocated surrogate stands where it is mapped to.
   */
  lemma FaithfulExactly(pairs: Pairs, before: seq<ScAddress>, a: ScAddress, after: seq<ScAddress>, hash: HashFunction)
    requires var t0 := Loaded(Table(map[], map[]), pairs);
             |t0.surrogates| + |before| + 1 + |after| < TABLE_LIMIT
    ensures var t := Run(Loaded(Table(map[], map[]), pairs), before, hash);
            && |t.surrogates| + 1 + |after| < TABLE_LIMIT
            && var (t', ip) := Represent(t, a, hash);
               && |t'.surrogates| + |after| < TABLE_LIMIT
               && ip.IPv6?
               && (Resolve(Run(t', after, hash), ip.hi, ip.lo) == Some(ReadBack(a))
                   <==> Carries(pairs, a) && !Taken(Run(t', after, hash), pairs, a))
  {
    hide Grown, Loaded, Resolve, ReadBack, Carries, Taken, MapToIPv6, Make, Run;
    var t0 := Loaded(Table(map[], map[]), pairs);
    LoadedIsGrown(pairs);
    RunGrown(pairs, t0, before, hash);
    var t := Run(t0, before, hash);
    var (t', ip) := Represent(t, a, hash);
    MakeSize(t, a, hash);
    MakeGrown(pairs, t, a, hash);
    RunGrown(pairs, t', after, hash);
    ResolvesExactly(pairs, Run(t', after, hash), a, ip);
  }

  /** Outside ISD-ASN 0-0 no surrogate is ever allocated where an address is mapped to. */
  lemma NeverExposed(pairs: Pairs, a: ScAddress)
    requires a.isdAsn != 0
    ensures !Exposed(pairs, a)
  {
    if MapToIPv6(a).Some? {
      var m := MapToIPv6(a).value;
      MapIsIPv6(a);
      MappedIsOwned(a);
      if Allocated(SeenAs(m)) { SurrogatesUsable(m.lo); }
    }
  }

  /** Where an address is exposed, one allocation with the right hash value is enough to take it away. */
  lemma ExposedIsTaken(pairs: Pairs, a: ScAddress, b: ScAddress, hash: HashFunction)
    requires Exposed(pairs, a) && MapToIPv6(b).None? && ConfiguredSurrogate(pairs, b).None?
    requires |Loaded(Table(map[], map[]), pairs).surrogates| + 1 < TABLE_LIMIT
    requires MapToIPv6(a).value.IPv6? && hash(b) == MapToIPv6(a).value.lo
    ensures var (t, ip) := (Run(Loaded(Table(map[], map[]), pairs), [b], hash), MapToIPv6(a).value);
            Taken(t, pairs, a) && Resolve(t, ip.hi, ip.lo) == Some(b) && b != ReadBack(a)
  {
    hide MapToIPv6, Normal, UnmapFromIPv6;
    var t := Loaded(Table(map[], map[]), pairs);
    LoadedSurrogates(pairs);
    LoadedAddresses(pairs);
    MappedSeen(a);
    var key := SeenAs(MapToIPv6(a).value);
    assert Probe(hash(b), 0) == key;
    assert Make(t, b, hash).0 == Table(t.surrogates[key := b], t.addresses[b := key]);
    assert [b][1..] == [];
    assert Run(Represent(t, b, hash).0, [], hash) == Represent(t, b, hash).0;
  }

  /**
   The configuration of the manual binds fc00:: to 0-0,127.0.0.1; that address is exposed, and
   hash value 0xffff7f000001 takes it away.
   */
  lemma ManualExample(a: ScAddress, b: ScAddress, hash: HashFunction)
    requires a == ScAddress(0, IPv4(0x7f00_0001))
    requires b == ScAddress(MakeIsdAsn(1, 0xff00_0000_0110), IPv4(0x0a00_0001)) && hash(b) == 0xffff_7f00_0001
    ensures MapToIPv6(a) == Some(IPv6(SCION_PREFIX, 0xffff_7f00_0001, ""))
    ensures var pairs := [(IPv6(SCION_PREFIX, 0, ""), a)];
            var t := Loaded(Table(map[], map[]), pairs);
            && Carries(pairs, a) && |t.surrogates| == 1
            && Resolve(Run(t, [b], hash), SCION_PREFIX, 0xffff_7f00_0001) == Some(b)
  {
    assert a.Isd() == 0 && a.Asn() == 0 && b.Isd() == 1 && b.Asn() == 0xff00_0000_0110;
    var pairs := [(IPv6(SCION_PREFIX, 0, ""), a)];
    OneLoaded(pairs[0]);
    assert Owner(pairs, IPv6(SCION_PREFIX, 0xffff_7f00_0001, "")).None?;
    hide Run, Resolve, Loaded;
    ExposedIsTaken(pairs, a, b, hash);
  }

  lemma OneLoaded(p: (IPAddress, ScAddress))
    ensures |Loaded(Table(map[], map[]), [p]).surrogates| == 1
  {
    assert [p][..0] == [];
    assert Loaded(Table(map[], map[]), []).surrogates == map[];
  }

  /** Of two addresses configured for one surrogate only the last one is carried. */
  lemma RepeatedSurrogate(s: IPAddress, a: ScAddress, b: ScAddress)
    requires a != b && MapToIPv6(a).None? && MapToIPv6(b).None? && s.ZoneFree() && !s.Is4in6()
    ensures !Carries([(s, a), (s, b)], a) && Carries([(s, a), (s, b)], b)
  {
    hide MapToIPv6;
    SeenAsItself(s);
    var pairs := [(s, a), (s, b)];
    assert pairs[..1] == [(s, a)];
    assert Owner(pairs, s) == Some(b);
  }

  /** What comes back has the normal form of the address, and is that form whenever the address is in it. */
  lemma ReadBackIsNormal(a: ScAddress)
    ensures Normal(ReadBack(a)) == Normal(a)
    ensures MapToIPv6(a).Some? || Normal(a) == a ==> ReadBack(a) == Normal(a)
  {
    if MapToIPv6(a).Some? { NormalIsStable(a); }
  }

  lemma NormalIsStable(a: ScAddress)
    ensures Normal(Normal(a)) == Normal(a)
  {
    hide UnmapIsdAsn;
  }

  /** Configurations that do not carry an address: a shadowed mapping, and a surrogate with a zone. */
  lemma NotCarried(a: ScAddress, b: ScAddress, c: ScAddress)
    requires a == ScAddress(MakeIsdAsn(1, 64512), IPv4(0x0a00_0001))
    requires b == ScAddress(MakeIsdAsn(2, 64512), IPv4(0x0a00_0001))
    requires c == ScAddress(MakeIsdAsn(1, 0xff00_0000_0110), IPv4(0x0a00_0001))
    ensures MapToIPv6(a) == Some(IPv6(0xfc00_10fc_0000_0000, 0xffff_0a00_0001, ""))
    ensures !Carries([(IPv6(0xfc00_10fc_0000_0000, 0xffff_0a00_0001, ""), b)], a)
    ensures MapToIPv6(c).None? && !Carries([(IPv6(0xfd00_0000_0000_0000, 1, "eth0"), c)], c)
  {
    assert a.Isd() == 1 && a.Asn() == 64512;
    assert c.Isd() == 1 && c.Asn() == 0xff00_0000_0110;
    var p := (IPv6(0xfc00_10fc_0000_0000, 0xffff_0a00_0001, ""), b);
    assert Owner([p], p.0) == Some(b) && b != Normal(a);
    var q := (IPv6(0xfd00_0000_0000_0000, 1, "eth0"), c);
    assert ConfiguredSurrogate([q], c) == Some(q.0);
    assert SeenAs(q.0) == IPv6(0xfd00_0000_0000_0000, 1, "");
  }

  /** A surrogate with a zone does no harm when the address without the zone is configured as well. */
  lemma CarriedTwice(c: ScAddress)
    requires c == ScAddress(MakeIsdAsn(1, 0xff00_0000_0110), IPv4(0x0a00_0001))
    ensures var pairs := [(IPv6(0xfd00_0000_0000_0000, 1, ""), c), (IPv6(0xfd00_0000_0000_0000, 1, "eth0"), c)];
            && ConfiguredSurrogate(pairs, c) == Some(IPv6(0xfd00_0000_0000_0000, 1, "eth0")) && Carries(pairs, c)
  {
    assert c.Isd() == 1 && c.Asn() == 0xff00_0000_0110;
    var p, q := (IPv6(0xfd00_0000_0000_0000, 1, ""), c), (IPv6(0xfd00_0000_0000_0000, 1, "eth0"), c);
    assert SeenAs(q.0) == p.0 && p in [p, q];
  }
}
