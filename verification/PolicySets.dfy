/**
 Policy sets: inheritance and failover, built in one pass over the definitions.
 */
module PolicySets {
  import opened Words
  import opened Address
  import opened PathOrdering
  import opened PathPolicy
  import EndpointText

  const POLICY_INDEX_NONE := 0xffff_ffff_ffff_ffff
  const POLICY_INDEX_DEFAULT := 0xffff_ffff_ffff_fffe

  /**
   One policy of the document, in document order; names are distinct. A record is not well
   formed when the constructor of the policy refuses one of its attributes.
   */
  datatype Record = Record(name: string, attributes: Policy, wellFormed: bool, base: Option<string>, failover: Option<string>)

  predicate DistinctNames(records: seq<Record>) {
    forall i, j :: 0 <= i < j < |records| ==> records[i].name != records[j].name
  }

  type Entry = (Policy, nat)

  // ---- What a document means ----

  /** The record among the first `k` that defines a name. */
  function Definition(records: seq<Record>, k: nat, name: string): (d: Option<nat>)
    requires k <= |records|
    ensures d.Some? ==> d.value < k && records[d.value].name == name
    ensures d.None? ==> forall i :: 0 <= i < k ==> records[i].name != name
  {
    if k == 0 then None
    else if records[k - 1].name == name then Some(k - 1)
    else Definition(records, k - 1, name)
  }

  /** Index of a record in the policy table: the default policy is kept apart. */
  function Position(records: seq<Record>, k: nat): (n: nat)
    requires k <= |records|
    ensures n <= k
  {
    if k == 0 then 0 else Position(records, k - 1) + if records[k - 1].name == "default" then 0 else 1
  }

  function Inherit<T>(own: Option<T>, base: Option<T>): Option<T> {
    if own.None? then base else own
  }

  function Extended(own: Policy, base: Policy): Policy {
    Policy(Inherit(own.acl, base.acl), Inherit(own.sequence, base.sequence),
           Inherit(own.reqs, base.reqs), Inherit(own.ordering, base.ordering))
  }

  /** The record extended by record `k`; nothing for a default policy that is not yet defined. */
  function Base(records: seq<Record>, k: nat): (b: Option<nat>)
    requires k < |records|
    ensures b.Some? ==> b.value < k
  {
    match records[k].base case None => None case Some(name) => Definition(records, k, name)
  }

  function Resolve(records: seq<Record>, k: nat): Policy
    requires k < |records|
  {
    match Base(records, k)
    case None => records[k].attributes
    case Some(b) => Extended(records[k].attributes, Resolve(records, b))
  }

  predicate Known(records: seq<Record>, k: nat, name: Option<string>)
    requires k <= |records|
  {
    name.None? || name.value == "default" || Definition(records, k, name.value).Some?
  }

  /** A record may refer to earlier records and to the default policy, which has no failover. */
  predicate Accepted(records: seq<Record>, k: nat)
    requires k < |records|
  {
    && Known(records, k, records[k].base)
    && Known(records, k, records[k].failover)
    && (records[k].name == "default" ==> records[k].failover.None?)
    && records[k].wellFormed
  }

  function LinkOf(records: seq<Record>, k: nat): nat
    requires k < |records|
  {
    match records[k].failover
    case None => POLICY_INDEX_NONE
    case Some(name) =>
      if name == "default" then POLICY_INDEX_DEFAULT
      else match Definition(records, k, name)
        case None => POLICY_INDEX_NONE
        case Some(d) => Position(records, d)
  }

  function Entries(records: seq<Record>, n: nat): (e: seq<Entry>)
    requires n <= |records|
    ensures |e| == Position(records, n)
  {
    if n == 0 then []
    else if records[n - 1].name == "default" then Entries(records, n - 1)
    else Entries(records, n - 1) + [(Resolve(records, n - 1), LinkOf(records, n - 1))]
  }

  /** The default policy after the first `n` records. */
  function DefaultAfter(records: seq<Record>, n: nat): Policy
    requires n <= |records|
  {
    match Definition(records, n, "default") case None => NO_POLICY case Some(d) => Resolve(records, d)
  }

  /** The records before the first one that is refused. */
  function AcceptedPrefix(records: seq<Record>, k: nat): (n: nat)
    requires k <= |records|
    ensures n <= |records| && (k <= n || n < k)
    decreases |records| - k
  {
    if k == |records| || !Accepted(records, k) then k else AcceptedPrefix(records, k + 1)
  }

  lemma {:induction false} AcceptedPrefixIsMaximal(records: seq<Record>, k: nat)
    requires k <= |records|
    ensures k <= AcceptedPrefix(records, k)
    ensures forall i :: k <= i < AcceptedPrefix(records, k) ==> Accepted(records, i)
    ensures AcceptedPrefix(records, k) < |records| ==> !Accepted(records, AcceptedPrefix(records, k))
    decreases |records| - k
  {
    hide Accepted;
    if k < |records| && Accepted(records, k) { AcceptedPrefixIsMaximal(records, k + 1); }
  }

  // ---- Failover never runs in circles ----

  ghost predicate ValidLink(next: nat, bound: nat) {
    next == POLICY_INDEX_NONE || next == POLICY_INDEX_DEFAULT || next < bound
  }

  /** Every failover link leads to an earlier policy, to the default policy or nowhere. */
  ghost predicate Backward(policies: seq<Entry>) {
    forall i :: 0 <= i < |policies| ==> ValidLink(policies[i].1, i)
  }

  lemma {:induction false} EntriesBackward(records: seq<Record>, n: nat)
    requires n <= |records|
    ensures Backward(Entries(records, n))
  {
    hide Resolve;
    if n > 0 {
      EntriesBackward(records, n - 1);
      LinkIsBackward(records, n - 1);
    }
  }

  lemma LinkIsBackward(records: seq<Record>, k: nat)
    requires k < |records|
    ensures records[k].name != "default" ==> ValidLink(LinkOf(records, k), Position(records, k))
  {
    hide Resolve;
    var f := records[k].failover;
    if f.Some? && f.value != "default" {
      var d := Definition(records, k, f.value);
      if d.Some? { PositionGrows(records, d.value, k); }
    }
  }

  lemma {:induction false} PositionGrows(records: seq<Record>, d: nat, k: nat)
    requires d < k <= |records| && records[d].name != "default"
    ensures Position(records, d) < Position(records, k)
  {
    if d + 1 < k { PositionGrows(records, d, k - 1); }
  }

  /** The policies tried after a link is followed. */
  ghost function FailoverChain(policies: seq<Entry>, fallback: Policy, next: nat): seq<Policy>
    requires Backward(policies) && ValidLink(next, |policies|) && |policies| < POLICY_INDEX_DEFAULT
    decreases if next < |policies| then next + 1 else 0
  {
    if next == POLICY_INDEX_NONE then []
    else if next == POLICY_INDEX_DEFAULT then [fallback]
    else
      assert ValidLink(policies[next].1, next);
      [policies[next].0] + FailoverChain(policies, fallback, policies[next].1)
  }

  /** From any policy at most one more policy than the table holds is tried. */
  lemma {:induction false} FailoverTerminates(policies: seq<Entry>, fallback: Policy, next: nat)
    requires Backward(policies) && ValidLink(next, |policies|) && |policies| < POLICY_INDEX_DEFAULT
    ensures |FailoverChain(policies, fallback, next)| <= if next < |policies| then next + 2 else 1
    decreases if next < |policies| then next + 1 else 0
  {
    if next < |policies| {
      assert ValidLink(policies[next].1, next);
      FailoverTerminates(policies, fallback, policies[next].1);
    }
  }

  // ---- Inheritance ----

  lemma {:induction false} EntryOf(records: seq<Record>, n: nat, k: nat)
    requires k < n <= |records| && records[k].name != "default"
    ensures Position(records, k) < Position(records, n)
    ensures Entries(records, n)[Position(records, k)] == (Resolve(records, k), LinkOf(records, k))
  {
    hide Resolve, LinkOf;
    PositionGrows(records, k, n);
    if k < n - 1 {
      EntryOf(records, n - 1, k);
      PositionGrows(records, k, n - 1);
    }
  }

  /** A record and the records it extends, nearest first. */
  function ExtendsChain(records: seq<Record>, k: nat): seq<nat>
    requires k < |records|
    ensures forall c :: c in ExtendsChain(records, k) ==> c < |records|
  {
    [k] + match Base(records, k) case None => [] case Some(b) => ExtendsChain(records, b)
  }

  /** The first definition of an attribute along a chain of records. */
  function Nearest<T>(records: seq<Record>, chain: seq<nat>, attribute: Policy -> Option<T>): Option<T>
    requires forall c :: c in chain ==> c < |records|
  {
    if chain == [] then None
    else
      assert chain[0] in chain && forall c :: c in chain[1..] ==> c in chain;
      if attribute(records[chain[0]].attributes).Some? then attribute(records[chain[0]].attributes)
      else Nearest(records, chain[1..], attribute)
  }

  /** Each attribute of a policy is the nearest definition along its chain of extended policies. */
  lemma {:induction false} NearestDefinition(records: seq<Record>, k: nat)
    requires k < |records|
    ensures var p, c := Resolve(records, k), ExtendsChain(records, k);
            && p.acl == Nearest(records, c, (q: Policy) => q.acl)
            && p.sequence == Nearest(records, c, (q: Policy) => q.sequence)
            && p.reqs == Nearest(records, c, (q: Policy) => q.reqs)
            && p.ordering == Nearest(records, c, (q: Policy) => q.ordering)
  {
    hide Base;
    var c := ExtendsChain(records, k);
    match Base(records, k) {
      case None =>
        assert c[1..] == [];
      case Some(b) =>
        NearestDefinition(records, b);
        assert c[1..] == ExtendsChain(records, b);
    }
  }

  // ---- Traffic matchers ----

  /** Zero fields match any value; a zero ISD, AS or host makes the rest of the endpoint match. */
  datatype TrafficMatcher = TrafficMatcher(src: EndpointText.Endpoint, dst: EndpointText.Endpoint, proto: byte, trafficClass: byte) {
    predicate Matches(flow: TrafficMatcher) {
      && MatchEp(src, flow.src) && MatchEp(dst, flow.dst)
      && (proto == 0 || proto == flow.proto)
      && (trafficClass == 0 || trafficClass == flow.trafficClass)
    }
  }

  /** The wildcard addresses, the IPv4 one also when it is mapped into IPv6. */
  predicate Unspecified(ip: IPAddress) {
    var (hi, lo) := ip.Halves();
    hi == 0 && (lo == 0 || lo == 0xffff_0000_0000)
  }

  predicate MatchEp(m: EndpointText.Endpoint, v: EndpointText.Endpoint) {
    m.addr.Isd() == 0
    || (m.addr.Isd() == v.addr.Isd()
        && (m.addr.Asn() == 0
            || (m.addr.Asn() == v.addr.Asn()
                && (Unspecified(m.addr.host)
                    || (m.addr.host == v.addr.host && (m.port == 0 || m.port == v.port))))))
  }

  datatype MatcherRecord = MatcherRecord(matcher: TrafficMatcher, wellFormed: bool, policy: Option<string>)

  predicate MatcherAccepted(records: seq<Record>, m: MatcherRecord) {
    m.wellFormed
    && (m.policy.Some? ==> m.policy.value != "default" && Definition(records, |records|, m.policy.value).Some?)
  }

  /** A document that defines the default policy cannot use it in a matcher, except by naming none. */
  lemma DefaultNotNamed(p: Policy, t: TrafficMatcher)
    ensures var records := [Record("default", p, true, None, None)];
            && Accepted(records, 0)
            && !MatcherAccepted(records, MatcherRecord(t, true, Some("default")))
            && MatcherAccepted(records, MatcherRecord(t, true, None))
  {
  }

  function MatcherIndex(records: seq<Record>, m: MatcherRecord): nat {
    match m.policy
    case None => POLICY_INDEX_NONE
    case Some(name) => (match Definition(records, |records|, name) case None => POLICY_INDEX_NONE case Some(d) => Position(records, d))
  }

  /** The policies tried for a flow, in order. */
  ghost predicate IsChain(policySet: PolicySet, flow: TrafficMatcher, chain: seq<Policy>)
    requires policySet.Valid()
    reads policySet
  {
    exists policy, next :: policySet.Selected(flow, policy, next)
      && chain == [policy] + FailoverChain(policySet.policies, policySet.defaultPolicy, next)
  }

  /** The outcome for a flow: the first policy of the chain that leaves any path decides. */
  ghost predicate Decided(chain: seq<Policy>, s: seq<Path>, t: seq<Path>) {
    if chain == [] then t == []
    else if Filter(chain[0], s) == [] then Decided(chain[1..], s, t)
    else Applied(chain[0], s, t)
  }

  // ---- The policy set ----

  class PolicySet {
    var matchers: seq<(TrafficMatcher, nat)>
    var policies: seq<Entry>
    var defaultPolicy: Policy

    ghost predicate Valid()
      reads this
    {
      Backward(policies) && |policies| < POLICY_INDEX_DEFAULT
    }

    constructor ()
      ensures Valid() && policies == [] && matchers == [] && defaultPolicy == NO_POLICY
    {
      matchers, policies, defaultPolicy := [], [], NO_POLICY;
    }

    /**
     Loads a document. It is accepted exactly when every record refers to earlier records only;
     after an error the records before the refused one stay loaded.
     */
    method Load(records: seq<Record>, matcherRecords: seq<MatcherRecord>) returns (ok: bool)
      requires DistinctNames(records) && |records| < POLICY_INDEX_DEFAULT
      modifies this
      ensures Valid()
      ensures ok <==> (forall k :: 0 <= k < |records| ==> Accepted(records, k))
                      && forall m :: m in matcherRecords ==> MatcherAccepted(records, m)
      ensures policies == Entries(records, AcceptedPrefix(records, 0))
      ensures defaultPolicy == DefaultAfter(records, AcceptedPrefix(records, 0))
      ensures ok ==> |matchers| == |matcherRecords|
      ensures ok ==> forall i :: 0 <= i < |matchers| ==>
                matchers[i] == (matcherRecords[i].matcher, MatcherIndex(records, matcherRecords[i]))
    {
      hide MatcherAccepted, MatcherIndex, Entries, DefaultAfter, Accepted;
      var names;
      ok, names := ParsePolicies(records);
      EntriesBackward(records, AcceptedPrefix(records, 0));
      AcceptedPrefixIsMaximal(records, 0);
      matchers := [];
      if !ok { return; }
      var i := 0;
      while i < |matcherRecords|
        invariant 0 <= i <= |matcherRecords| && |matchers| == i
        invariant policies == Entries(records, |records|) && defaultPolicy == DefaultAfter(records, |records|)
        invariant forall j :: 0 <= j < i ==> MatcherAccepted(records, matcherRecords[j])
        invariant forall j :: 0 <= j < i ==>
                    matchers[j] == (matcherRecords[j].matcher, MatcherIndex(records, matcherRecords[j]))
      {
        var m := matcherRecords[i];
        var policy := POLICY_INDEX_NONE;
        MatcherLookup(records, names, m);
        if m.policy.Some? {
          if m.policy.value !in names { return false; }
          policy := names[m.policy.value];
        }
        if !m.wellFormed { return false; }
        matchers := matchers + [(m.matcher, policy)];
        i := i + 1;
      }
    }

    /** The first half of `parse`: one pass over the policy records. */
    method ParsePolicies(records: seq<Record>) returns (ok: bool, names: map<string, nat>)
      requires DistinctNames(records) && |records| < POLICY_INDEX_DEFAULT
      modifies this
      ensures ok <==> AcceptedPrefix(records, 0) == |records|
      ensures policies == Entries(records, AcceptedPrefix(records, 0))
      ensures defaultPolicy == DefaultAfter(records, AcceptedPrefix(records, 0))
      ensures ok ==> IsNames(records, |records|, names)
    {
      hide Definition, Position, Entries, Resolve, AcceptedPrefix, IsNames;
      policies, defaultPolicy := [], NO_POLICY;
      names := map[];
      NothingParsed(records);
      var i := 0;
      while i < |records|
        invariant 0 <= i <= |records|
        invariant policies == Entries(records, i) && defaultPolicy == DefaultAfter(records, i)
        invariant IsNames(records, i, names)
        invariant AcceptedPrefix(records, 0) == AcceptedPrefix(records, i)
      {
        var record := records[i];
        var basePolicy: Option<Policy>, nextPolicy := None, POLICY_INDEX_NONE;
        PrefixStep(records, i);
        if record.base.Some? {
          var extended := record.base.value;
          NameLookup(records, i, names, extended);
          if extended == "default" {
            basePolicy := Some(defaultPolicy);
          } else if extended in names {
            basePolicy := Some(policies[names[extended]].0);
          } else {
            return false, names;
          }
        }
        if record.failover.Some? {
          var failover := record.failover.value;
          NameLookup(records, i, names, failover);
          if failover == "default" {
            nextPolicy := POLICY_INDEX_DEFAULT;
          } else if failover in names {
            nextPolicy := names[failover];
          } else {
            return false, names;
          }
        }
        var policy := if basePolicy.None? then record.attributes else Extended(record.attributes, basePolicy.value);
        ResolveStep(records, i, policy, basePolicy);
        if record.name == "default" {
          if nextPolicy != POLICY_INDEX_NONE {
            return false, names;
          }
          if !record.wellFormed { return false, names; }
          defaultPolicy := policy;
        } else {
          if !record.wellFormed { return false, names; }
          names := names[record.name := |policies|];
          policies := policies + [(policy, nextPolicy)];
        }
        NamesStep(records, i);
        i := i + 1;
      }
      WholePrefix(records);
      return true, names;
    }

    /** `next` is the link of the policy selected for a flow: by the first usable matcher, or the default. */
    ghost predicate Selected(flow: TrafficMatcher, policy: Policy, next: nat)
      reads this
    {
      (exists i :: 0 <= i < |matchers| && Usable(i, flow) && (policy, next) == policies[matchers[i].1]
                   && forall j :: 0 <= j < i ==> !Usable(j, flow))
      || ((policy, next) == (defaultPolicy, POLICY_INDEX_NONE)
          && forall j :: 0 <= j < |matchers| ==> !Usable(j, flow))
    }

    predicate Usable(i: nat, flow: TrafficMatcher)
      requires i < |matchers|
      reads this
      ensures Usable(i, flow) ==> matchers[i].1 < |policies|
    {
      matchers[i].0.Matches(flow) && matchers[i].1 < |policies|
    }

    method GetPolicyIndex(flow: TrafficMatcher) returns (policy: Policy, next: nat)
      requires Valid()
      ensures Selected(flow, policy, next) && ValidLink(next, |policies|)
    {
      var i := 0;
      while i < |matchers|
        invariant 0 <= i <= |matchers|
        invariant forall j :: 0 <= j < i ==> !Usable(j, flow)
      {
        if Usable(i, flow) {
          var entry := policies[matchers[i].1];
          assert ValidLink(entry.1, matchers[i].1);
          return entry.0, entry.1;
        }
        i := i + 1;
      }
      return defaultPolicy, POLICY_INDEX_NONE;
    }

    /** Applies the policy of a flow, and follows failover links until paths remain. */
    method Apply(flow: TrafficMatcher, paths: array<Path>, draw: nat -> nat) returns (count: nat)
      requires Valid()
      modifies paths
      ensures count <= paths.Length
      ensures exists chain :: IsChain(this, flow, chain) && Decided(chain, old(paths[..]), paths[..count])
      ensures count == 0 ==> paths[..] == old(paths[..])
    {
      hide Filter, Applied, Backward, Selected;
      ghost var s := paths[..];
      var policy: Policy, next: nat := GetPolicyIndex(flow);
      ghost var chain := [policy] + FailoverChain(policies, defaultPolicy, next);
      assert IsChain(this, flow, chain);
      if paths.Length == 0 {
        NoPaths(chain);
        assert paths[..0] == [];
        return 0;
      }
      count := PathPolicy.Apply(policy, paths, draw);
      ghost var rest := [policy] + FailoverChain(policies, defaultPolicy, next);
      while count == 0 && next != POLICY_INDEX_NONE
        invariant count <= paths.Length && ValidLink(next, |policies|) && Valid()
        invariant |rest| > 0 && rest[1..] == FailoverChain(policies, defaultPolicy, next)
        invariant forall t :: Decided(rest, s, t) ==> Decided(chain, s, t)
        invariant Applied(rest[0], s, paths[..count]) && count == |Filter(rest[0], s)|
        invariant count == 0 ==> paths[..] == s
        invariant unchanged(this)
        decreases if next < |policies| then next + 2 else if next == POLICY_INDEX_NONE then 0 else 1
      {
        ghost var before := rest;
        rest := rest[1..];
        if next == POLICY_INDEX_DEFAULT {
          count := PathPolicy.Apply(defaultPolicy, paths, draw);
          LastDecides(rest, s, paths[..count]);
          assert IsChain(this, flow, chain);
          return;
        } else {
          NextLink(policies, next);
          count := PathPolicy.Apply(policies[next].0, paths, draw);
          next := policies[next].1;
        }
      }
      if count == 0 { LastDecides(rest, s, paths[..count]); }
      assert IsChain(this, flow, chain);
    }
  }

  // ---- Facts about the pass over the records ----

  /** The table of names holds the earlier records except the default policy. */
  ghost predicate IsNames(records: seq<Record>, n: nat, names: map<string, nat>)
    requires n <= |records|
  {
    && (forall name :: name in names ==>
          (name != "default" && Definition(records, n, name).Some?
           && names[name] == Position(records, Definition(records, n, name).value)))
    && (forall name :: name != "default" && Definition(records, n, name).Some? ==> name in names)
  }

  lemma NothingParsed(records: seq<Record>)
    ensures Entries(records, 0) == [] && DefaultAfter(records, 0) == NO_POLICY && IsNames(records, 0, map[])
  {
  }

  lemma PrefixStep(records: seq<Record>, i: nat)
    requires i < |records|
    ensures AcceptedPrefix(records, i) == if Accepted(records, i) then AcceptedPrefix(records, i + 1) else i
  {
  }

  lemma WholePrefix(records: seq<Record>)
    ensures AcceptedPrefix(records, |records|) == |records|
  {
  }

  lemma NameLookup(records: seq<Record>, n: nat, names: map<string, nat>, name: string)
    requires n <= |records| && IsNames(records, n, names)
    ensures name != "default" ==> (name in names <==> Definition(records, n, name).Some?)
    ensures name in names ==>
              && Definition(records, n, name).Some? && name != "default"
              && names[name] == Position(records, Definition(records, n, name).value) < |Entries(records, n)|
              && Entries(records, n)[names[name]].0 == Resolve(records, Definition(records, n, name).value)
  {
    hide Resolve, LinkOf;
    if name in names { EntryOf(records, n, Definition(records, n, name).value); }
  }

  lemma MatcherLookup(records: seq<Record>, names: map<string, nat>, m: MatcherRecord)
    requires IsNames(records, |records|, names)
    ensures MatcherAccepted(records, m) <==> m.wellFormed && (m.policy.Some? ==> m.policy.value in names)
    ensures MatcherAccepted(records, m) ==>
              MatcherIndex(records, m) == if m.policy.None? then POLICY_INDEX_NONE else names[m.policy.value]
  {
  }

  /** The policy built from the record and the base found in the tables. */
  lemma ResolveStep(records: seq<Record>, i: nat, policy: Policy, base: Option<Policy>)
    requires i < |records| && Known(records, i, records[i].base)
    requires policy == if base.None? then records[i].attributes else Extended(records[i].attributes, base.value)
    requires match records[i].base
             case None => base.None?
             case Some(name) =>
               if name == "default" then base == Some(DefaultAfter(records, i))
               else Definition(records, i, name).Some? && base == Some(Resolve(records, Definition(records, i, name).value))
    ensures policy == Resolve(records, i)
  {
  }

  lemma NamesStep(records: seq<Record>, i: nat)
    requires i < |records|
    ensures Entries(records, i + 1) == if records[i].name == "default" then Entries(records, i)
                                       else Entries(records, i) + [(Resolve(records, i), LinkOf(records, i))]
    ensures DefaultAfter(records, i + 1) == if records[i].name == "default" then Resolve(records, i) else DefaultAfter(records, i)
    ensures forall names :: IsNames(records, i, names) ==>
              IsNames(records, i + 1, if records[i].name == "default" then names
                                      else names[records[i].name := Position(records, i)])
  {
    hide Resolve, LinkOf;
  }

  // ---- Facts about failover ----

  lemma NoPaths(chain: seq<Policy>)
    ensures Decided(chain, [], [])
  {
    if chain != [] { NoPaths(chain[1..]); }
  }

  lemma NextLink(policies: seq<Entry>, next: nat)
    requires Backward(policies) && next < |policies|
    ensures ValidLink(policies[next].1, next)
  {
  }

  lemma LastDecides(chain: seq<Policy>, s: seq<Path>, t: seq<Path>)
    requires |chain| == 1 && Applied(chain[0], s, t) && |t| == |Filter(chain[0], s)|
    ensures Decided(chain, s, t)
  {
    hide Filter, Applied;
  }
}
