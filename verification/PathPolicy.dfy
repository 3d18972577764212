/**
 Path policies: filtering by access list, sequence and requirements, and reordering.
 */
module PathPolicy {
  import opened Words
  import opened Address
  import opened PathOrdering

  /** Zero stands for any ISD, AS or interface. */
  datatype HopPredicate = HopPredicate(isdAsn: u64, ingress: u64, egress: u64) {
    predicate Matches(hop: Hop) {
      && (isdAsn / ISD_UNIT == 0 || isdAsn / ISD_UNIT == hop.isdAsn / ISD_UNIT)
      && (isdAsn % ISD_UNIT == 0 || isdAsn % ISD_UNIT == hop.isdAsn % ISD_UNIT)
      && (ingress == 0
          || if egress != 0 then ingress == hop.ingress && egress == hop.egress
             else ingress == hop.ingress || ingress == hop.egress)
    }
  }

  datatype AclEntry = AclEntry(allow: bool, hop: HopPredicate)

  datatype Requirement = MinMtu(minMtu: u16) | MaxLatency(maxLat: int) | MinBandwidth(minBw: u64)

  /** The compiled regular expression over the hops of a path. */
  type Sequence = seq<Hop> -> bool

  datatype Policy = Policy(acl: Option<seq<AclEntry>>, sequence: Option<Sequence>,
                           reqs: Option<seq<Requirement>>, ordering: Option<seq<PathOrder>>)

  const NO_POLICY := Policy(None, None, None, None)

  // ---- Tests ----

  /** The first entry that matches the hop decides, and without one the hop is refused. */
  ghost predicate HopAllowed(acl: seq<AclEntry>, hop: Hop) {
    exists i :: 0 <= i < |acl| && acl[i].hop.Matches(hop) && acl[i].allow
                && forall j :: 0 <= j < i ==> !acl[j].hop.Matches(hop)
  }

  ghost predicate AclAllows(acl: Option<seq<AclEntry>>, hops: seq<Hop>) {
    acl.None? || forall hop :: hop in hops ==> HopAllowed(acl.value, hop)
  }

  /** Whether one hop passes: the inner loop of `matchACL`. */
  method MatchHop(acl: seq<AclEntry>, hop: Hop) returns (ok: bool)
    ensures ok <==> HopAllowed(acl, hop)
  {
    var i := 0;
    while i < |acl|
      invariant 0 <= i <= |acl|
      invariant forall j :: 0 <= j < i ==> !acl[j].hop.Matches(hop)
    {
      if acl[i].hop.Matches(hop) { return acl[i].allow; }
      i := i + 1;
    }
    return false;
  }

  method MatchACL(acl: Option<seq<AclEntry>>, hops: seq<Hop>) returns (ok: bool)
    ensures ok <==> AclAllows(acl, hops)
  {
    hide HopAllowed;
    if acl.None? { return true; }
    var i := 0;
    while i < |hops|
      invariant 0 <= i <= |hops|
      invariant forall j :: 0 <= j < i ==> HopAllowed(acl.value, hops[j])
    {
      var allowed := MatchHop(acl.value, hops[i]);
      if !allowed { return false; }
      i := i + 1;
    }
    return true;
  }

  predicate Fulfills(r: Requirement, p: Path) {
    match r
    case MinMtu(m) => p.mtu >= m
    case MaxLatency(l) => MetaLatency(p) <= l
    case MinBandwidth(b) => MetaBw(p) >= b
  }

  method CheckRequirement(r: Requirement, p: Path) returns (ok: bool)
    ensures ok <==> Fulfills(r, p)
  {
    match r {
      case MinMtu(m) => return p.mtu >= m;
      case MaxLatency(l) => var lat, _ := GetMetaLatency(p); return lat <= l;
      case MinBandwidth(b) => var bw := GetMetaBw(p); return bw >= b;
    }
  }

  method CheckRequirements(reqs: Option<seq<Requirement>>, p: Path) returns (ok: bool)
    ensures ok <==> (reqs.Some? ==> forall r :: r in reqs.value ==> Fulfills(r, p))
  {
    if reqs.None? { return true; }
    var i := 0;
    while i < |reqs.value|
      invariant 0 <= i <= |reqs.value|
      invariant forall j :: 0 <= j < i ==> Fulfills(reqs.value[j], p)
    {
      ok := CheckRequirement(reqs.value[i], p);
      if !ok { return; }
      i := i + 1;
    }
    return true;
  }

  /** Whether a policy allows a path; paths inside the own AS always pass. */
  ghost predicate Allows(policy: Policy, p: Path) {
    p.local
    || (p.interfaces.Some?
        && (policy.reqs.Some? ==> forall r :: r in policy.reqs.value ==> Fulfills(r, p))
        && AclAllows(policy.acl, p.interfaces.value)
        && (policy.sequence.Some? ==> policy.sequence.value(p.interfaces.value)))
  }

  method Test(policy: Policy, p: Path) returns (ok: bool)
    ensures ok <==> Allows(policy, p)
  {
    hide AclAllows, Fulfills;
    if p.local { return true; }
    if p.interfaces.None? { return false; }
    ok := CheckRequirements(policy.reqs, p);
    if !ok { return; }
    ok := MatchACL(policy.acl, p.interfaces.value);
    if !ok { return; }
    if policy.sequence.Some? { return policy.sequence.value(p.interfaces.value); }
  }

  // ---- Applying a policy ----

  /** The allowed paths, in their order. */
  ghost function Filter(policy: Policy, s: seq<Path>): (r: seq<Path>)
    ensures |r| <= |s|
    ensures forall p :: p in r <==> p in s && Allows(policy, p)
  {
    if s == [] then []
    else
      var n := |s| - 1;
      assert s == s[..n] + [s[n]];
      Filter(policy, s[..n]) + if Allows(policy, s[n]) then [s[n]] else []
  }

  function Orders(policy: Policy): seq<PathOrder> {
    if policy.ordering.None? then [] else policy.ordering.value
  }

  /** The result of a policy: the allowed paths, reordered. */
  ghost predicate Applied(policy: Policy, s: seq<Path>, t: seq<Path>) {
    SortOutcome(Filter(policy, s), Orders(policy), t)
  }

  lemma FilterStep(policy: Policy, s: seq<Path>, p: Path)
    ensures Filter(policy, s + [p]) == Filter(policy, s) + if Allows(policy, p) then [p] else []
  {
    hide Allows;
    assert (s + [p])[..|s|] == s;
  }

  /** The first loop of `apply`: allowed paths move to the front, in their order. */
  method FilterInPlace(policy: Policy, paths: array<Path>) returns (count: nat)
    modifies paths
    ensures count <= paths.Length && paths[..count] == Filter(policy, old(paths[..]))
    ensures count == 0 ==> paths[..] == old(paths[..])
  {
    hide Allows, Filter;
    ghost var was := paths[..];
    var i := 0;
    count := 0;
    NothingFiltered(policy);
    while i < paths.Length
      invariant 0 <= count <= i <= paths.Length
      invariant paths[..count] == Filter(policy, was[..i])
      invariant forall k :: i <= k < paths.Length ==> paths[k] == was[k]
      invariant count == 0 ==> paths[..] == was
    {
      var ok := Test(policy, paths[i]);
      FilterStep(policy, was[..i], was[i]);
      assert was[..i + 1] == was[..i] + [was[i]];
      if ok {
        paths[count] := paths[i];
        count := count + 1;
      }
      i := i + 1;
    }
    assert was[..i] == was;
  }

  lemma NothingFiltered(policy: Policy)
    ensures Filter(policy, []) == []
  {
  }

  /**
   `Policy::apply`: moves the allowed paths to the front and sorts them. When no path is
   allowed nothing is moved. What remains behind the returned range is unspecified.
   */
  method Apply(policy: Policy, paths: array<Path>, draw: nat -> nat) returns (count: nat)
    modifies paths
    ensures count <= paths.Length && Applied(policy, old(paths[..]), paths[..count])
    ensures count == |Filter(policy, old(paths[..]))|
    ensures count == 0 ==> paths[..] == old(paths[..])
  {
    hide SortOutcome, Filter;
    count := FilterInPlace(policy, paths);
    ghost var filtered := paths[..count];
    Sort(paths, count, policy.ordering, draw);
    if count == 0 { assert paths[count..] == paths[..]; }
  }
}
