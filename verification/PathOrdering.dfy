/**
 Ordering of paths: a chain of stable sorts, and the order it amounts to.
 */
module PathOrdering {
  import opened Words
  import opened Address

  datatype Hop = Hop(isdAsn: u64, ingress: u64, egress: u64)

  /** Nanoseconds in a 64-bit word. */
  type Duration = x: int | -0x8000_0000_0000_0000 <= x <= 0x7fff_ffff_ffff_ffff

  datatype Link = Link(latency: Duration, bandwidth: u64)

  /** A path with the metadata policies look at. */
  datatype Path = Path(local: bool, hopCount: u32, mtu: u16, interfaces: Option<seq<Hop>>, links: Option<seq<Link>>)

  datatype PathOrder = Random | HopsAsc | HopsDesc | MetaLatAsc | MetaLatDesc | MetaBwAsc | MetaBwDesc

  const DURATION_MAX := 0x7fff_ffff_ffff_ffff
  const BANDWIDTH_MAX: u64 := 0xffff_ffff_ffff_ffff

  // ---- Metadata ----

  function TotalLatency(links: seq<Link>): int {
    if links == [] then 0 else TotalLatency(links[..|links| - 1]) + links[|links| - 1].latency
  }

  /** Latency of a path; the maximum when it is not known for every link. */
  function MetaLatency(p: Path): int {
    if p.links.None? || (exists l :: l in p.links.value && l.latency == 0) then DURATION_MAX
    else TotalLatency(p.links.value)
  }

  /** Adding up the links, the sum leaves the 64-bit word before a link of unknown latency is met. */
  ghost predicate LatencyOverflows(p: Path) {
    p.links.Some? && exists k :: 0 <= k <= |p.links.value| && Leaves(p.links.value[..k])
  }

  predicate Leaves(links: seq<Link>) {
    (forall l :: l in links ==> l.latency != 0)
    && !(-0x8000_0000_0000_0000 <= TotalLatency(links) <= DURATION_MAX)
  }

  /** `bw` is the bandwidth of a bottleneck link; no link limits an empty list. */
  ghost predicate IsBottleneck(links: seq<Link>, bw: u64) {
    (forall l :: l in links ==> bw <= l.bandwidth)
    && (if links == [] then bw == BANDWIDTH_MAX else exists l :: l in links && l.bandwidth == bw)
  }

  /** The sum over all links; `overflow` tells whether it left the 64-bit word on the way. */
  method GetMetaLatency(p: Path) returns (lat: int, overflow: bool)
    ensures lat == MetaLatency(p)
    ensures overflow <==> LatencyOverflows(p)
  {
    overflow := false;
    if p.links.None? { return DURATION_MAX, overflow; }
    var data, i := p.links.value, 0;
    lat := 0;
    while i < |data|
      invariant 0 <= i <= |data| && lat == TotalLatency(data[..i])
      invariant forall l :: l in data[..i] ==> l.latency != 0
      invariant overflow <==> exists k :: 0 <= k <= i && Leaves(data[..k])
    {
      if data[i].latency == 0 {
        forall k | i < k <= |data| ensures !Leaves(data[..k]) {
          assert data[..k][i] == data[i] && data[i] in data[..k];
        }
        return DURATION_MAX, overflow;
      }
      assert data[..i + 1][..i] == data[..i];
      assert forall l :: l in data[..i + 1] ==> l in data[..i] || l == data[i];
      lat := lat + data[i].latency;
      i := i + 1;
      if lat < -0x8000_0000_0000_0000 || lat > DURATION_MAX {
        assert Leaves(data[..i]);
        overflow := true;
      }
    }
    assert data[..|data|] == data;
  }

  function MetaBw(p: Path): u64 {
    if p.links.None? then 0 else Bottleneck(p.links.value)
  }

  function Bottleneck(links: seq<Link>): (bw: u64)
    ensures IsBottleneck(links, bw)
  {
    if links == [] then BANDWIDTH_MAX
    else
      var n := |links| - 1;
      var bw := Bottleneck(links[..n]);
      assert links == links[..n] + [links[n]];
      if links[n].bandwidth < bw || n == 0 then links[n].bandwidth else bw
  }

  lemma BottleneckStep(links: seq<Link>, l: Link)
    ensures Bottleneck(links + [l]) == if l.bandwidth < Bottleneck(links) then l.bandwidth else Bottleneck(links)
  {
    hide IsBottleneck;
    assert (links + [l])[..|links|] == links;
  }

  lemma NoLinks()
    ensures Bottleneck([]) == BANDWIDTH_MAX
  {
  }

  lemma ZeroBottleneck(links: seq<Link>, l: Link)
    requires l in links && l.bandwidth == 0
    ensures Bottleneck(links) == 0
  {
    hide Bottleneck;
  }

  /** The smallest bandwidth of all links; zero when it is not known for every link. */
  method GetMetaBw(p: Path) returns (bw: u64)
    ensures bw == MetaBw(p)
  {
    hide IsBottleneck, Bottleneck;
    if p.links.None? { return 0; }
    var data, i := p.links.value, 0;
    bw := BANDWIDTH_MAX;
    NoLinks();
    while i < |data|
      invariant 0 <= i <= |data| && bw == Bottleneck(data[..i])
    {
      if data[i].bandwidth == 0 {
        ZeroBottleneck(data, data[i]);
        return 0;
      }
      BottleneckStep(data[..i], data[i]);
      assert data[..i + 1] == data[..i] + [data[i]];
      bw := if data[i].bandwidth < bw then data[i].bandwidth else bw;
      i := i + 1;
    }
    assert data[..|data|] == data;
  }

  /** What an ordering sorts by, smallest first. */
  function Key(o: PathOrder, p: Path): int {
    match o
    case Random => 0
    case HopsAsc => p.hopCount
    case HopsDesc => -(p.hopCount as int)
    case MetaLatAsc => MetaLatency(p)
    case MetaLatDesc => -MetaLatency(p)
    case MetaBwAsc => MetaBw(p)
    case MetaBwDesc => -(MetaBw(p) as int)
  }

  // ---- A stable sort ----

  /** Inserts behind all elements that do not have to come later. */
  function Insert<T>(s: seq<T>, x: T, key: T -> int): (r: seq<T>)
    ensures |r| == |s| + 1
  {
    if s == [] then [x]
    else
      var n := |s| - 1;
      if key(s[n]) <= key(x) then s + [x] else Insert(s[..n], x, key) + [s[n]]
  }

  function StableSort<T>(s: seq<T>, key: T -> int): (r: seq<T>)
    ensures |r| == |s|
  {
    if s == [] then [] else Insert(StableSort(s[..|s| - 1], key), s[|s| - 1], key)
  }

  ghost predicate Pairwise<T(!new)>(s: seq<T>, r: (T, T) -> bool) {
    forall i, j :: 0 <= i < j < |s| ==> r(s[i], s[j])
  }

  /** By key, and by `r` where the keys agree. */
  function Refined<T>(key: T -> int, r: (T, T) -> bool): (T, T) -> bool {
    (x, y) => key(x) < key(y) || (key(x) == key(y) && r(x, y))
  }

  lemma {:induction false} InsertAt<T>(s: seq<T>, x: T, key: T -> int, j: nat)
    requires j <= |s| && (forall k :: j <= k < |s| ==> key(s[k]) > key(x)) && (j > 0 ==> key(s[j - 1]) <= key(x))
    ensures Insert(s, x, key) == s[..j] + [x] + s[j..]
  {
    if j < |s| {
      var n := |s| - 1;
      InsertAt(s[..n], x, key, j);
      InsertedBeforeLast(s, x, j);
    } else {
      assert s[..j] + [x] + s[j..] == s + [x];
    }
  }

  lemma InsertedBeforeLast<T>(s: seq<T>, x: T, j: nat)
    requires j < |s|
    ensures var t := s[..|s| - 1]; t[..j] + [x] + t[j..] + [s[|s| - 1]] == s[..j] + [x] + s[j..]
  {
  }

  /** Where the element is inserted. */
  lemma {:induction false} InsertPosition<T>(s: seq<T>, x: T, key: T -> int) returns (j: nat)
    ensures j <= |s| && (forall k :: j <= k < |s| ==> key(s[k]) > key(x)) && (j > 0 ==> key(s[j - 1]) <= key(x))
    ensures Insert(s, x, key) == s[..j] + [x] + s[j..]
  {
    j := |s|;
    while j > 0 && key(s[j - 1]) > key(x)
      invariant 0 <= j <= |s|
      invariant forall k :: j <= k < |s| ==> key(s[k]) > key(x)
    {
      j := j - 1;
    }
    InsertAt(s, x, key, j);
  }

  lemma InsertPermutes<T>(s: seq<T>, x: T, key: T -> int)
    ensures multiset(Insert(s, x, key)) == multiset(s + [x])
  {
    hide Insert;
    var j := InsertPosition(s, x, key);
    MovedPermutes(s, x, j);
  }

  lemma MovedPermutes<T>(s: seq<T>, x: T, j: nat)
    requires j <= |s|
    ensures multiset(s[..j] + [x] + s[j..]) == multiset(s + [x])
  {
    assert s == s[..j] + s[j..];
  }

  lemma {:induction false} SortPermutes<T>(s: seq<T>, key: T -> int)
    ensures multiset(StableSort(s, key)) == multiset(s)
  {
    if s != [] {
      var n := |s| - 1;
      SortPermutes(s[..n], key);
      InsertPermutes(StableSort(s[..n], key), s[n], key);
      assert s == s[..n] + [s[n]];
    }
  }

  lemma InsertPairwise<T(!new)>(t: seq<T>, x: T, key: T -> int, r: (T, T) -> bool)
    requires Pairwise(t, Refined(key, r)) && forall y :: y in t ==> r(y, x)
    ensures Pairwise(Insert(t, x, key), Refined(key, r))
  {
    var j := InsertPosition(t, x, key);
    var u := Insert(t, x, key);
    forall a, b | 0 <= a < b < |u| ensures Refined(key, r)(u[a], u[b]) {
      var a', b' := if a < j then a else a - 1, if b < j then b else b - 1;
      if a == j {
        assert u[b] == t[b'];
      } else if b == j {
        assert u[a] == t[a] && t[a] in t;
        if a < j - 1 { assert Refined(key, r)(t[a], t[j - 1]); }
      } else {
        assert u[a] == t[a'] && u[b] == t[b'];
      }
    }
  }

  /** A stable sort keeps what was established before wherever the keys agree. */
  lemma {:induction false} SortRefines<T(!new)>(s: seq<T>, key: T -> int, r: (T, T) -> bool)
    requires Pairwise(s, r)
    ensures Pairwise(StableSort(s, key), Refined(key, r))
  {
    if s != [] {
      var n := |s| - 1;
      SortRefines(s[..n], key, r);
      SortPermutes(s[..n], key);
      var t := StableSort(s[..n], key);
      forall y | y in t ensures r(y, s[n]) {
        assert y in multiset(t) && y in s[..n];
        var i :| 0 <= i < n && s[i] == y;
      }
      InsertPairwise(t, s[n], key, r);
    }
  }

  ghost predicate Asymmetric<T(!new)>(r: (T, T) -> bool) {
    forall x, y :: r(x, y) ==> !r(y, x)
  }

  /** Only one arrangement of given elements is ordered by an asymmetric relation. */
  lemma {:induction false} ArrangementUnique<T(!new)>(s: seq<T>, t: seq<T>, r: (T, T) -> bool)
    requires multiset(s) == multiset(t) && Pairwise(s, r) && Pairwise(t, r)
    requires Asymmetric(r)
    ensures s == t
  {
    hide Pairwise, Asymmetric;
    SameSize(s, t);
    if s != [] {
      var n := |s| - 1;
      LastAgrees(s, t, r);
      WithoutLast(s);
      WithoutLast(t);
      PrefixPairwise(s, r, n);
      PrefixPairwise(t, r, n);
      ArrangementUnique(s[..n], t[..n], r);
      SameParts(s, t, n);
    }
  }

  lemma SameSize<T>(s: seq<T>, t: seq<T>)
    requires multiset(s) == multiset(t)
    ensures |s| == |t|
  {
    assert |s| == |multiset(s)| == |multiset(t)| == |t|;
  }

  lemma SameParts<T>(s: seq<T>, t: seq<T>, n: nat)
    requires |s| == |t| == n + 1 && s[..n] == t[..n] && s[n] == t[n]
    ensures s == t
  {
    assert s == s[..n] + [s[n]] && t == t[..n] + [t[n]];
  }

  lemma WithoutLast<T>(s: seq<T>)
    requires s != []
    ensures multiset(s[..|s| - 1]) == multiset(s) - multiset{s[|s| - 1]}
  {
    assert s == s[..|s| - 1] + [s[|s| - 1]];
  }

  lemma PrefixPairwise<T(!new)>(s: seq<T>, r: (T, T) -> bool, n: nat)
    requires Pairwise(s, r) && n <= |s|
    ensures Pairwise(s[..n], r)
  {
  }

  lemma LastAgrees<T(!new)>(s: seq<T>, t: seq<T>, r: (T, T) -> bool)
    requires |s| == |t| > 0 && multiset(s) == multiset(t) && Pairwise(s, r) && Pairwise(t, r)
    requires Asymmetric(r)
    ensures s[|s| - 1] == t[|t| - 1]
  {
    var n := |s| - 1;
    assert s[n] in multiset(t) && t[n] in multiset(s);
    var i :| 0 <= i < |t| && t[i] == s[n];
    var j :| 0 <= j < |s| && s[j] == t[n];
    assert i < n ==> r(t[i], t[n]);
    assert j < n ==> r(s[j], s[n]);
  }

  /** One step of the sort: the element at `i` moves down to its place. */
  method InsertInPlace<T>(a: array<T>, i: nat, key: T -> int)
    requires i < a.Length
    modifies a
    ensures a[..i + 1] == Insert(old(a[..i]), old(a[i]), key) && a[i + 1..] == old(a[i + 1..])
  {
    hide Insert;
    ghost var s, x := a[..i], a[i];
    var j := i;
    while j > 0 && key(a[j - 1]) > key(a[j])
      invariant 0 <= j <= i && a[..i + 1] == s[..j] + [x] + s[j..]
      invariant forall k :: j <= k < i ==> key(s[k]) > key(x)
      invariant a[i + 1..] == old(a[i + 1..])
    {
      ghost var b := a[..i + 1];
      SwapDown(b, s, x, j);
      assert a[j - 1] == b[j - 1] && a[j] == b[j];
      a[j - 1], a[j] := a[j], a[j - 1];
      assert a[..i + 1] == b[j - 1 := x][j := s[j - 1]];
      j := j - 1;
    }
    ghost var b := a[..i + 1];
    SwapDown(b, s, x, j);
    assert a[j] == b[j] && (j > 0 ==> a[j - 1] == b[j - 1]);
    InsertAt(s, x, key, j);
  }

  /** The library sort, as insertion of one element after the other. */
  method SortInPlace<T>(a: array<T>, n: nat, key: T -> int)
    requires n <= a.Length
    modifies a
    ensures a[..n] == StableSort(old(a[..n]), key) && a[n..] == old(a[n..])
  {
    hide Insert;
    ghost var was := a[..];
    var i := 0;
    while i < n
      invariant 0 <= i <= n
      invariant a[..i] == StableSort(was[..i], key)
      invariant a[i..] == was[i..]
    {
      assert a[i] == a[i..][0] == was[i];
      InsertInPlace(a, i, key);
      assert was[..i + 1][..i] == was[..i];
      assert a[i + 1..] == was[i..][1..];
      i := i + 1;
    }
  }

  lemma SwapDown<T>(b: seq<T>, s: seq<T>, x: T, j: nat)
    requires j <= |s| && b == s[..j] + [x] + s[j..]
    ensures |b| == |s| + 1 && b[j] == x && (j > 0 ==> b[j - 1] == s[j - 1])
    ensures j > 0 ==> b[j - 1 := x][j := s[j - 1]] == s[..j - 1] + [x] + s[j - 1..]
  {
  }

  // ---- The chain of sorts ----

  function SortAll(s: seq<Path>, orders: seq<PathOrder>): (r: seq<Path>)
    ensures |r| == |s|
  {
    if orders == [] then s
    else
      var n := |orders| - 1;
      StableSort(SortAll(s, orders[..n]), p => Key(orders[n], p))
  }

  /** A path with its original position. */
  type Tagged = (Path, nat)

  function TagAll(s: seq<Path>): (r: seq<Tagged>)
    ensures |r| == |s| && forall i :: 0 <= i < |s| ==> r[i] == (s[i], i)
  {
    seq(|s|, i requires 0 <= i < |s| => (s[i], i))
  }

  function Untag(s: seq<Tagged>): (r: seq<Path>)
    ensures |r| == |s| && forall i :: 0 <= i < |s| ==> r[i] == s[i].0
  {
    seq(|s|, i requires 0 <= i < |s| => s[i].0)
  }

  /** Lexicographic order: the last ordering counts most, the original position least. */
  predicate LexBefore(orders: seq<PathOrder>, x: Tagged, y: Tagged) {
    if orders == [] then x.1 < y.1
    else
      var n := |orders| - 1;
      Key(orders[n], x.0) < Key(orders[n], y.0)
      || (Key(orders[n], x.0) == Key(orders[n], y.0) && LexBefore(orders[..n], x, y))
  }

  function TaggedSort(s: seq<Tagged>, orders: seq<PathOrder>): (r: seq<Tagged>)
    ensures |r| == |s|
  {
    if orders == [] then s
    else
      var n := |orders| - 1;
      StableSort(TaggedSort(s, orders[..n]), (t: Tagged) => Key(orders[n], t.0))
  }

  lemma {:induction false} UntagInsert(s: seq<Tagged>, x: Tagged, o: PathOrder)
    ensures Untag(Insert(s, x, (t: Tagged) => Key(o, t.0))) == Insert(Untag(s), x.0, p => Key(o, p))
  {
    hide Key;
    if s != [] {
      var n := |s| - 1;
      UntagInsert(s[..n], x, o);
      assert Untag(s)[..n] == Untag(s[..n]);
    }
  }

  /** Positions are carried along and do not influence the sort. */
  lemma {:induction false} UntagSort(s: seq<Tagged>, o: PathOrder)
    ensures Untag(StableSort(s, (t: Tagged) => Key(o, t.0))) == StableSort(Untag(s), p => Key(o, p))
  {
    hide Key, Insert;
    if s != [] {
      var n := |s| - 1;
      UntagSort(s[..n], o);
      UntagInsert(StableSort(s[..n], (t: Tagged) => Key(o, t.0)), s[n], o);
      assert Untag(s)[..n] == Untag(s[..n]);
    }
  }

  lemma {:induction false} TaggedSortIsLexicographic(s: seq<Tagged>, orders: seq<PathOrder>)
    requires Pairwise(s, (x, y) => LexBefore([], x, y))
    ensures Pairwise(TaggedSort(s, orders), (x, y) => LexBefore(orders, x, y))
    ensures multiset(TaggedSort(s, orders)) == multiset(s)
    ensures Untag(TaggedSort(s, orders)) == SortAll(Untag(s), orders)
  {
    hide Key, StableSort;
    if orders != [] {
      var n := |orders| - 1;
      var t := TaggedSort(s, orders[..n]);
      var key := (t: Tagged) => Key(orders[n], t.0);
      var r := (x: Tagged, y: Tagged) => LexBefore(orders[..n], x, y);
      TaggedSortIsLexicographic(s, orders[..n]);
      SortRefines(t, key, r);
      SortPermutes(t, key);
      UntagSort(t, orders[n]);
      var u := TaggedSort(s, orders);
      forall i, j | 0 <= i < j < |u| ensures LexBefore(orders, u[i], u[j]) {
        assert Refined(key, r)(u[i], u[j]);
      }
    }
  }

  lemma {:induction false} LexAsymmetric(orders: seq<PathOrder>, x: Tagged, y: Tagged)
    requires LexBefore(orders, x, y)
    ensures !LexBefore(orders, y, x)
  {
    hide Key;
    if orders != [] && Key(orders[|orders| - 1], x.0) == Key(orders[|orders| - 1], y.0) {
      LexAsymmetric(orders[..|orders| - 1], x, y);
    }
  }

  /** A permutation of the paths in lexicographic order. */
  ghost predicate IsArrangement(s: seq<Path>, orders: seq<PathOrder>, t: seq<Tagged>) {
    multiset(t) == multiset(TagAll(s)) && Pairwise(t, (x, y) => LexBefore(orders, x, y))
  }

  /**
   The chain of stable sorts is a permutation of the paths in lexicographic order, the last
   ordering most significant and the original position deciding ties; and it is the only one.
   */
  lemma SortedLexicographically(s: seq<Path>, orders: seq<PathOrder>) returns (t: seq<Tagged>)
    ensures IsArrangement(s, orders, t) && Untag(t) == SortAll(s, orders)
    ensures forall u :: IsArrangement(s, orders, u) ==> u == t
  {
    hide Key, LexBefore, SortAll, TaggedSort;
    t := TaggedSort(TagAll(s), orders);
    InOriginalOrder(s);
    TaggedSortIsLexicographic(TagAll(s), orders);
    assert Untag(TagAll(s)) == s;
    var r := (x, y) => LexBefore(orders, x, y);
    forall x: Tagged, y: Tagged | r(x, y) ensures !r(y, x) { LexAsymmetric(orders, x, y); }
    forall u | IsArrangement(s, orders, u) ensures u == t {
      ArrangementUnique(u, t, r);
    }
  }

  lemma InOriginalOrder(s: seq<Path>)
    ensures Pairwise(TagAll(s), (x, y) => LexBefore([], x, y))
  {
  }

  // ---- Random orders ----

  /** The orderings behind the last random one. */
  function AfterRandom(orders: seq<PathOrder>): seq<PathOrder> {
    if orders == [] then []
    else
      var n := |orders| - 1;
      if orders[n].Random? then [] else AfterRandom(orders[..n]) + [orders[n]]
  }

  /** What is guaranteed of a sort: before the last random ordering anything may have happened. */
  ghost predicate SortOutcome(s: seq<Path>, orders: seq<PathOrder>, t: seq<Path>) {
    exists u :: multiset(u) == multiset(s) && (Random !in orders ==> u == s) && t == SortAll(u, AfterRandom(orders))
  }

  lemma {:induction false} NoRandom(orders: seq<PathOrder>)
    requires Random !in orders
    ensures AfterRandom(orders) == orders
  {
    if orders != [] {
      var n := |orders| - 1;
      assert orders[n] in orders;
      NoRandom(orders[..n]);
      assert orders == orders[..n] + [orders[n]];
    }
  }

  lemma {:induction false} SortAllPermutes(s: seq<Path>, orders: seq<PathOrder>)
    ensures multiset(SortAll(s, orders)) == multiset(s)
  {
    if orders != [] {
      var n := |orders| - 1;
      SortAllPermutes(s, orders[..n]);
      SortPermutes(SortAll(s, orders[..n]), p => Key(orders[n], p));
    }
  }

  lemma OutcomeStep(s: seq<Path>, orders: seq<PathOrder>, o: PathOrder, t: seq<Path>)
    requires SortOutcome(s, orders, t) && o != Random
    ensures SortOutcome(s, orders + [o], StableSort(t, p => Key(o, p)))
  {
    hide Key, StableSort;
    var u :| multiset(u) == multiset(s) && (Random !in orders ==> u == s) && t == SortAll(u, AfterRandom(orders));
    assert (orders + [o])[..|orders|] == orders;
    var after := AfterRandom(orders) + [o];
    assert AfterRandom(orders + [o]) == after && after[..|after| - 1] == AfterRandom(orders);
    assert Random in orders ==> Random in orders + [o];
    assert StableSort(t, p => Key(o, p)) == SortAll(u, after);
  }

  lemma OutcomeShuffled(s: seq<Path>, orders: seq<PathOrder>, t: seq<Path>, v: seq<Path>)
    requires SortOutcome(s, orders, t) && multiset(v) == multiset(t)
    ensures SortOutcome(s, orders + [Random], v)
  {
    var u :| multiset(u) == multiset(s) && (Random !in orders ==> u == s) && t == SortAll(u, AfterRandom(orders));
    SortAllPermutes(u, AfterRandom(orders));
    assert AfterRandom(orders + [Random]) == [] && Random in orders + [Random];
    assert v == SortAll(v, []);
  }

  /** Without a random ordering the outcome is the chain of sorts, with one only what comes after it. */
  lemma OutcomeDetermined(s: seq<Path>, orders: seq<PathOrder>, t: seq<Path>)
    requires SortOutcome(s, orders, t)
    ensures multiset(t) == multiset(s)
    ensures Random !in orders ==> t == SortAll(s, orders)
  {
    var u :| multiset(u) == multiset(s) && (Random !in orders ==> u == s) && t == SortAll(u, AfterRandom(orders));
    SortAllPermutes(u, AfterRandom(orders));
    if Random !in orders { NoRandom(orders); }
  }

  /** `std::shuffle`, with the random numbers as a parameter. */
  method Shuffle<T>(a: array<T>, n: nat, draw: nat -> nat)
    requires n <= a.Length
    modifies a
    ensures multiset(a[..n]) == multiset(old(a[..n])) && a[n..] == old(a[n..])
  {
    var i := n;
    while i > 1
      invariant 0 <= i <= n
      invariant multiset(a[..n]) == multiset(old(a[..n])) && a[n..] == old(a[n..])
    {
      i := i - 1;
      var j := draw(i) % (i + 1);
      a[i], a[j] := a[j], a[i];
    }
  }

  /** `Policy::sort`: one stable sort after the other, in place. */
  method Sort(a: array<Path>, n: nat, ordering: Option<seq<PathOrder>>, draw: nat -> nat)
    requires n <= a.Length
    modifies a
    ensures a[n..] == old(a[n..])
    ensures SortOutcome(old(a[..n]), if ordering.None? then [] else ordering.value, a[..n])
  {
    hide Key, StableSort, SortOutcome;
    NothingSorted(a[..n]);
    if ordering.None? { return; }
    var orders, i := ordering.value, 0;
    while i < |orders|
      invariant 0 <= i <= |orders| && a[n..] == old(a[n..])
      invariant SortOutcome(old(a[..n]), orders[..i], a[..n])
    {
      var o := orders[i];
      ghost var before := a[..n];
      assert orders[..i + 1] == orders[..i] + [o];
      if o.Random? {
        Shuffle(a, n, draw);
        OutcomeShuffled(old(a[..n]), orders[..i], before, a[..n]);
      } else {
        SortInPlace(a, n, p => Key(o, p));
        OutcomeStep(old(a[..n]), orders[..i], o, before);
      }
      i := i + 1;
    }
    assert orders[..|orders|] == orders;
  }

  lemma NothingSorted(s: seq<Path>)
    ensures SortOutcome(s, [], s)
  {
    assert s == SortAll(s, AfterRandom([]));
  }
}
