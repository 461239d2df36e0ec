/** DHCPv6 relay leases and the routes derived from them (core/src/dhcpv6/dhcpv6_relay_lease.cpp,
    core/src/dhcpv6/dhcpv6_relay_route.cpp). Both owners apply a batch of mutations in two phases; the
    route owner edits its list incrementally instead of rebuilding it from the leases. */
module RelayRoutes {
  import opened Options

  datatype LeaseProtocol = NonTemporary | Temporary | DelegatedPrefix

  datatype RouteProtocol = ForAddress(protocol: LeaseProtocol) | PrefixExclude

  /** Addresses are 128-bit numbers and clients are opaque; `rest` stands for the fields that neither
      owner compares (server identity, MAC, deadlines). */
  datatype Lease = Lease(
    client: nat, value: nat, peer: nat, interface: nat, port: nat, length: nat, protocol: LeaseProtocol,
    hasExcluded: bool, excluded: nat, excludedLength: nat, rest: nat)

  datatype Route = Route(
    network: nat, nextHop: nat, interface: nat, port: nat, length: nat, protocol: RouteProtocol, blackhole: bool)

  datatype Policy = Policy(
    interface: nat, limit: nat, routeNonTemporary: bool, routeTemporary: bool, routeDelegated: bool, routeExclude: bool)

  datatype Mutation = Install(lease: Lease) | Remove(lease: Lease)

  // ---------------------------------------------------------------- keys

  predicate SameLease(a: Lease, b: Lease) {
    a.interface == b.interface && a.protocol == b.protocol && a.length == b.length && a.value == b.value
    && a.client == b.client
  }

  /** The same address or prefix on the same interface. */
  predicate SameResource(a: Lease, b: Lease) {
    a.interface == b.interface && a.length == b.length && a.value == b.value
  }

  datatype RouteKey = RouteKey(interface: nat, network: nat, length: nat, protocol: RouteProtocol)

  function KeyOf(r: Route): RouteKey {
    RouteKey(r.interface, r.network, r.length, r.protocol)
  }

  function MainKey(l: Lease): RouteKey {
    RouteKey(l.interface, l.value, l.length, ForAddress(l.protocol))
  }

  function ExcludeKey(l: Lease): RouteKey {
    RouteKey(l.interface, l.excluded, l.excludedLength, PrefixExclude)
  }

  // ---------------------------------------------------------------- routes of one lease

  function PolicyOf(policies: seq<Policy>, interface: nat): Option<Policy> {
    if policies == [] then None
    else if policies[0].interface == interface then Some(policies[0])
    else PolicyOf(policies[1..], interface)
  }

  predicate MainEnabled(l: Lease, p: Policy) {
    match l.protocol
    case NonTemporary => p.routeNonTemporary
    case Temporary => p.routeTemporary
    case DelegatedPrefix => p.routeDelegated
  }

  function MainRoute(l: Lease): Route {
    Route(l.value, l.peer, l.interface, l.port, l.length, ForAddress(l.protocol), false)
  }

  /** The unspecified next hop of a blackhole is 0. */
  function ExcludeRoute(l: Lease): Route {
    Route(l.excluded, 0, l.interface, l.port, l.excludedLength, PrefixExclude, true)
  }

  predicate WantsMain(policies: seq<Policy>, l: Lease) {
    PolicyOf(policies, l.interface).Some? && MainEnabled(l, PolicyOf(policies, l.interface).value)
  }

  predicate WantsExclude(policies: seq<Policy>, l: Lease) {
    PolicyOf(policies, l.interface).Some? && l.hasExcluded && PolicyOf(policies, l.interface).value.routeExclude
  }

  function RoutesFor(policies: seq<Policy>, l: Lease): (routes: seq<Route>)
    ensures |routes| <= 2
    ensures forall r :: r in routes <==> (WantsMain(policies, l) && r == MainRoute(l))
                                         || (WantsExclude(policies, l) && r == ExcludeRoute(l))
  {
    (if WantsMain(policies, l) then [MainRoute(l)] else [])
    + (if WantsExclude(policies, l) then [ExcludeRoute(l)] else [])
  }

  predicate HasKey(routes: seq<Route>, key: RouteKey) {
    exists i :: 0 <= i < |routes| && KeyOf(routes[i]) == key
  }

  function AppendRoute(output: seq<Route>, r: Route, capacity: nat): Option<seq<Route>> {
    if HasKey(output, KeyOf(r)) || |output| >= capacity then None else Some(output + [r])
  }

  function AppendLease(output: seq<Route>, l: Lease, p: Policy, capacity: nat): Option<seq<Route>> {
    var first := if MainEnabled(l, p) then AppendRoute(output, MainRoute(l), capacity) else Some(output);
    if first.None? then None
    else if l.hasExcluded && p.routeExclude then AppendRoute(first.value, ExcludeRoute(l), capacity)
    else first
  }

  // ---------------------------------------------------------------- the two ways to the route list

  function Rebuild(leases: seq<Lease>, policies: seq<Policy>, capacity: nat): Option<seq<Route>>
    decreases |leases|
  {
    if leases == [] then Some([])
    else
      var l, before := leases[|leases| - 1], Rebuild(leases[..|leases| - 1], policies, capacity);
      if before.None? || PolicyOf(policies, l.interface).None? then None
      else AppendLease(before.value, l, PolicyOf(policies, l.interface).value, capacity)
  }

  function Erase(routes: seq<Route>, key: RouteKey): (r: seq<Route>)
    ensures |r| <= |routes|
    ensures forall x :: x in r <==> x in routes && KeyOf(x) != key
  {
    if routes == [] then []
    else (if KeyOf(routes[0]) == key then [] else [routes[0]]) + Erase(routes[1..], key)
  }

  function Cleared(routes: seq<Route>, l: Lease): seq<Route> {
    if l.hasExcluded then Erase(Erase(routes, MainKey(l)), ExcludeKey(l)) else Erase(routes, MainKey(l))
  }

  function StageOne(routes: seq<Route>, m: Mutation, policies: seq<Policy>, capacity: nat): Option<seq<Route>> {
    if PolicyOf(policies, m.lease.interface).None? then None
    else if m.Install? then
      AppendLease(Cleared(routes, m.lease), m.lease, PolicyOf(policies, m.lease.interface).value, capacity)
    else Some(Cleared(routes, m.lease))
  }

  function Prepare(routes: seq<Route>, batch: seq<Mutation>, policies: seq<Policy>, capacity: nat): Option<seq<Route>>
    decreases |batch|
  {
    if batch == [] then Some(routes)
    else
      var first := StageOne(routes, batch[0], policies, capacity);
      if first.None? then None else Prepare(first.value, batch[1..], policies, capacity)
  }

  // ---------------------------------------------------------------- leases

  function LeaseIndex(leases: seq<Lease>, l: Lease): (i: nat)
    ensures i <= |leases|
    ensures i < |leases| ==> SameLease(leases[i], l)
    ensures forall j :: 0 <= j < i ==> !SameLease(leases[j], l)
  {
    if leases == [] then 0
    else if SameLease(leases[0], l) then 0
    else 1 + LeaseIndex(leases[1..], l)
  }

  function DropAt(leases: seq<Lease>, i: nat): seq<Lease>
    requires i < |leases|
  {
    leases[..i] + leases[i + 1..]
  }

  /** One mutation of the lease list; None when the reserved space is used up. */
  function ApplyOne(leases: seq<Lease>, m: Mutation, capacity: nat): Option<seq<Lease>> {
    var i := LeaseIndex(leases, m.lease);
    if m.Remove? then Some(if i < |leases| then DropAt(leases, i) else leases)
    else if i < |leases| then Some(leases[i := m.lease])
    else if |leases| < capacity then Some(leases + [m.lease])
    else None
  }

  /** The leases after a batch, and whether all of it was applied: the source stops in the middle when
      the space is used up, and keeps what it did so far. */
  function Commit(leases: seq<Lease>, batch: seq<Mutation>, capacity: nat): (seq<Lease>, bool)
    decreases |batch|
  {
    if batch == [] then (leases, true)
    else
      var first := ApplyOne(leases, batch[0], capacity);
      if first.None? then (leases, false) else Commit(first.value, batch[1..], capacity)
  }

  ghost predicate UniqueResources(leases: seq<Lease>) {
    forall i, j :: 0 <= i < j < |leases| ==> !SameResource(leases[i], leases[j])
  }

  // ---------------------------------------------------------------- what the route list should be

  ghost predicate Wanted(policies: seq<Policy>, leases: seq<Lease>, r: Route) {
    exists i :: 0 <= i < |leases| && r in RoutesFor(policies, leases[i])
  }

  ghost predicate NoDuplicates(routes: seq<Route>) {
    forall i, j :: 0 <= i < j < |routes| ==> KeyOf(routes[i]) != KeyOf(routes[j])
  }

  /** The list holds every wanted route once, and nothing else. */
  ghost predicate Reflects(policies: seq<Policy>, leases: seq<Lease>, routes: seq<Route>) {
    NoDuplicates(routes) && forall r :: r in routes <==> Wanted(policies, leases, r)
  }

  /** No two leases want routes of the same key. */
  ghost predicate Separate(policies: seq<Policy>, leases: seq<Lease>) {
    forall i, j :: 0 <= i < |leases| && 0 <= j < |leases| && i != j ==> KeysApart(policies, leases[i], leases[j])
  }

  ghost predicate KeysApart(policies: seq<Policy>, a: Lease, b: Lease) {
    forall r, s :: r in RoutesFor(policies, a) && s in RoutesFor(policies, b) ==> KeyOf(r) != KeyOf(s)
  }

  // ---------------------------------------------------------------- list operations

  lemma {:induction false} EraseKeepsDistinct(routes: seq<Route>, key: RouteKey)
    requires NoDuplicates(routes)
    ensures NoDuplicates(Erase(routes, key))
    decreases |routes|
  {
    if routes != [] {
      EraseKeepsDistinct(routes[1..], key);
      var rest := Erase(routes[1..], key);
      forall i | 0 <= i < |rest|
        ensures KeyOf(rest[i]) != KeyOf(routes[0])
      {
        assert rest[i] in routes[1..];
      }
    }
  }

  lemma ClearedMembers(routes: seq<Route>, l: Lease)
    ensures forall r :: r in Cleared(routes, l) <==>
              r in routes && KeyOf(r) != MainKey(l) && (l.hasExcluded ==> KeyOf(r) != ExcludeKey(l))
    ensures NoDuplicates(routes) ==> NoDuplicates(Cleared(routes, l))
  {
    hide Erase, NoDuplicates;
    if NoDuplicates(routes) {
      EraseKeepsDistinct(routes, MainKey(l));
      EraseKeepsDistinct(Erase(routes, MainKey(l)), ExcludeKey(l));
    }
  }

  /** Appending the routes of a lease succeeds exactly when their keys are new and they fit. */
  lemma AppendMembers(output: seq<Route>, l: Lease, policies: seq<Policy>, capacity: nat)
    requires PolicyOf(policies, l.interface).Some?
    ensures var result := AppendLease(output, l, PolicyOf(policies, l.interface).value, capacity);
            && (result.Some? <==>
                  && (forall r :: r in RoutesFor(policies, l) ==> !HasKey(output, KeyOf(r)))
                  && |output| + |RoutesFor(policies, l)| <= (if RoutesFor(policies, l) == [] then |output| else capacity))
            && (result.Some? ==> result.value == output + RoutesFor(policies, l))
            && (result.Some? && NoDuplicates(output) ==> NoDuplicates(result.value))
  {
    var routes := RoutesFor(policies, l);
    hide PolicyOf;
    if WantsMain(policies, l) && WantsExclude(policies, l) {
      var first := output + [MainRoute(l)];
      assert forall k :: 0 <= k < |output| ==> first[k] == output[k];
      assert HasKey(first, KeyOf(ExcludeRoute(l))) <==> HasKey(output, KeyOf(ExcludeRoute(l)));
      assert output + routes == first + [ExcludeRoute(l)];
    }
  }

  // ---------------------------------------------------------------- rebuild

  /** A rebuild that succeeds holds exactly the wanted routes, and the leases have separate keys. */
  lemma {:induction false} RebuildReflects(leases: seq<Lease>, policies: seq<Policy>, capacity: nat)
    requires Rebuild(leases, policies, capacity).Some?
    ensures Reflects(policies, leases, Rebuild(leases, policies, capacity).value)
    ensures Separate(policies, leases)
    decreases |leases|
  {
    if leases != [] {
      var before, l := leases[..|leases| - 1], leases[|leases| - 1];
      RebuildReflects(before, policies, capacity);
      var routes := Rebuild(before, policies, capacity).value;
      AppendMembers(routes, l, policies, capacity);
      hide AppendLease, RoutesFor, NoDuplicates;
      assert leases == before + [l];
      WantedAppend(policies, before, l);
      forall i | 0 <= i < |before|
        ensures KeysApart(policies, before[i], l)
      {
        forall r, q | r in RoutesFor(policies, before[i]) && q in RoutesFor(policies, l)
          ensures KeyOf(r) != KeyOf(q)
        {
          assert Wanted(policies, before, r);
          var k :| 0 <= k < |routes| && routes[k] == r;
        }
      }
    }
  }

  lemma WantedAppend(policies: seq<Policy>, before: seq<Lease>, l: Lease)
    ensures forall r :: Wanted(policies, before + [l], r) <==> Wanted(policies, before, r) || r in RoutesFor(policies, l)
  {
    hide RoutesFor;
    var leases := before + [l];
    assert leases[|before|] == l;
    forall r
      ensures Wanted(policies, leases, r) <==> Wanted(policies, before, r) || r in RoutesFor(policies, l)
    {
      if Wanted(policies, before, r) {
        var i :| 0 <= i < |before| && r in RoutesFor(policies, before[i]);
        assert leases[i] == before[i];
      }
    }
  }

  /** A rebuild succeeds when every interface is known, the keys are separate and two slots are left
      for every lease; then it uses at most that. */
  lemma {:induction false} RebuildSucceeds(leases: seq<Lease>, policies: seq<Policy>, capacity: nat)
    requires Separate(policies, leases) && 2 * |leases| <= capacity
    requires forall i :: 0 <= i < |leases| ==> PolicyOf(policies, leases[i].interface).Some?
    ensures Rebuild(leases, policies, capacity).Some? && |Rebuild(leases, policies, capacity).value| <= 2 * |leases|
    decreases |leases|
  {
    if leases != [] {
      hide RoutesFor, AppendLease, PolicyOf;
      var before, l := leases[..|leases| - 1], leases[|leases| - 1];
      RebuildSucceeds(before, policies, capacity);
      RebuildReflects(before, policies, capacity);
      var routes := Rebuild(before, policies, capacity).value;
      AppendMembers(routes, l, policies, capacity);
      assert forall i :: 0 <= i < |before| ==> before[i] == leases[i] && KeysApart(policies, leases[i], l);
      forall k, r | 0 <= k < |routes| && r in RoutesFor(policies, l)
        ensures KeyOf(routes[k]) != KeyOf(r)
      {
        assert Wanted(policies, before, routes[k]);
        var i :| 0 <= i < |before| && routes[k] in RoutesFor(policies, before[i]);
        assert KeysApart(policies, leases[i], l);
      }
      assert |RoutesFor(policies, l)| <= 2 by { TwoAtMost(policies, l); }
    }
  }

  lemma TwoAtMost(policies: seq<Policy>, l: Lease)
    ensures |RoutesFor(policies, l)| <= 2
  {
  }

  // ---------------------------------------------------------------- one mutation

  /** What staging guarantees of a mutation: a removal names a live lease, and an installation claims
      no resource of another live lease. */
  ghost predicate Staged(leases: seq<Lease>, m: Mutation) {
    var i := LeaseIndex(leases, m.lease);
    && (m.Remove? ==> i < |leases| && leases[i] == m.lease)
    && (forall j :: 0 <= j < |leases| && j != i ==> !SameResource(leases[j], m.lease))
  }

  /** The other leases. */
  function Others(leases: seq<Lease>, m: Mutation): seq<Lease> {
    var i := LeaseIndex(leases, m.lease);
    if i < |leases| then DropAt(leases, i) else leases
  }

  /** The live lease owns a prefix-exclude route whose key the mutation does not name. */
  predicate LeavesStale(policies: seq<Policy>, leases: seq<Lease>, m: Mutation) {
    var i := LeaseIndex(leases, m.lease);
    && i < |leases| && WantsExclude(policies, leases[i])
    && !(m.lease.hasExcluded && ExcludeKey(m.lease) == ExcludeKey(leases[i]))
  }

  /** Another lease owns the prefix-exclude route that the new lease wants. */
  ghost predicate Collides(policies: seq<Policy>, leases: seq<Lease>, m: Mutation) {
    exists j :: 0 <= j < |Others(leases, m)| && SharesExclude(policies, Others(leases, m)[j], m.lease)
  }

  predicate SharesExclude(policies: seq<Policy>, other: Lease, l: Lease) {
    WantsExclude(policies, other) && WantsExclude(policies, l) && ExcludeKey(other) == ExcludeKey(l)
  }

  /** `others` is `leases` without the element at `k`, if there is one. */
  ghost predicate Without(leases: seq<Lease>, k: nat, others: seq<Lease>) {
    && |others| == |leases| - (if k < |leases| then 1 else 0)
    && (forall j :: 0 <= j < |others| ==> others[j] == leases[if j < k then j else j + 1])
  }

  lemma DropAtIsWithout(leases: seq<Lease>, k: nat)
    requires k <= |leases|
    ensures Without(leases, k, if k < |leases| then DropAt(leases, k) else leases)
  {
    if k < |leases| {
      var others := DropAt(leases, k);
      forall j | 0 <= j < |others|
        ensures others[j] == leases[if j < k then j else j + 1]
      {
        assert j < k ==> others[j] == leases[..k][j];
        assert j >= k ==> others[j] == leases[k + 1..][j - k];
      }
    }
  }

  lemma OthersAre(leases: seq<Lease>, m: Mutation)
    ensures Without(leases, LeaseIndex(leases, m.lease), Others(leases, m))
  {
    hide LeaseIndex, SameLease, Without, DropAt;
    DropAtIsWithout(leases, LeaseIndex(leases, m.lease));
  }

  lemma OthersApart(policies: seq<Policy>, leases: seq<Lease>, m: Mutation)
    requires UniqueResources(leases) && Staged(leases, m) && Separate(policies, leases)
    ensures Separate(policies, Others(leases, m))
    ensures LeaseIndex(leases, m.lease) < |leases| ==>
              forall j :: 0 <= j < |Others(leases, m)| ==>
                KeysApart(policies, Others(leases, m)[j], leases[LeaseIndex(leases, m.lease)])
  {
    hide LeaseIndex, SameResource, SameLease, KeysApart;
    OthersAre(leases, m);
  }

  /** The routes that the other leases want are those whose keys the mutation does not name, unless it
      leaves one behind or names one of theirs. */
  lemma ClearedReflectsOthers(policies: seq<Policy>, leases: seq<Lease>, routes: seq<Route>, m: Mutation)
    requires UniqueResources(leases) && Staged(leases, m) && Separate(policies, leases) && Reflects(policies, leases, routes)
    requires !LeavesStale(policies, leases, m) && !Collides(policies, leases, m)
    requires PolicyOf(policies, m.lease.interface).Some?
    ensures Reflects(policies, Others(leases, m), Cleared(routes, m.lease))
  {
    hide PolicyOf, LeaseIndex, Cleared, NoDuplicates, Separate, UniqueResources;
    ClearedMembers(routes, m.lease);
    OthersAre(leases, m);
    var k, others := LeaseIndex(leases, m.lease), Others(leases, m);
    hide Others;
    forall r
      ensures r in Cleared(routes, m.lease) <==> Wanted(policies, others, r)
    {
      if r in Cleared(routes, m.lease) {
        var i :| 0 <= i < |leases| && r in RoutesFor(policies, leases[i]);
        assert i != k;
        var j := if i < k then i else i - 1;
        assert others[j] == leases[i];
      }
      if Wanted(policies, others, r) {
        var j :| 0 <= j < |others| && r in RoutesFor(policies, others[j]);
        assert others[j] == leases[if j < k then j else j + 1];
        assert r in routes;
        assert !SharesExclude(policies, others[j], m.lease);
      }
    }
  }

  /** Index of the lease list after a mutation, seen from the other leases. */
  lemma AppliedLeases(policies: seq<Policy>, leases: seq<Lease>, m: Mutation, capacity: nat)
    requires UniqueResources(leases) && Staged(leases, m) && ApplyOne(leases, m, capacity).Some?
    ensures UniqueResources(ApplyOne(leases, m, capacity).value)
    ensures forall r :: Wanted(policies, ApplyOne(leases, m, capacity).value, r)
              <==> Wanted(policies, Others(leases, m), r) || (m.Install? && r in RoutesFor(policies, m.lease))
  {
    hide LeaseIndex, SameLease, RoutesFor, SameResource;
    OthersAre(leases, m);
    var k, others, leases' := LeaseIndex(leases, m.lease), Others(leases, m), ApplyOne(leases, m, capacity).value;
    SameResourceSymmetric();
    if m.Install? {
      assert leases'[k] == m.lease;
      assert forall i :: 0 <= i < |leases| && i != k ==> leases'[i] == leases[i];
    } else {
      assert leases' == others;
    }
    hide Others, Staged, UniqueResources;
    forall r
      ensures Wanted(policies, leases', r) <==> Wanted(policies, others, r) || (m.Install? && r in RoutesFor(policies, m.lease))
    {
      if Wanted(policies, leases', r) && m.Install? {
        var i :| 0 <= i < |leases'| && r in RoutesFor(policies, leases'[i]);
        var j := if i < k then i else i - 1;
        assert i != k ==> others[j] == leases[i];
      }
      if Wanted(policies, others, r) {
        var j :| 0 <= j < |others| && r in RoutesFor(policies, others[j]);
        var i := if j < k then j else j + 1;
        assert m.Install? ==> others[j] == leases'[i];
      }
    }
  }

  lemma SameResourceSymmetric()
    ensures forall a, b :: SameResource(a, b) <==> SameResource(b, a)
  {
  }

  /** Separateness after a mutation. */
  lemma AppliedSeparate(policies: seq<Policy>, leases: seq<Lease>, m: Mutation, capacity: nat)
    requires UniqueResources(leases) && Staged(leases, m) && ApplyOne(leases, m, capacity).Some?
    requires Separate(policies, leases)
    ensures Separate(policies, ApplyOne(leases, m, capacity).value) <==> !(m.Install? && Collides(policies, leases, m))
  {
    hide LeaseIndex, SameLease, PolicyOf;
    OthersAre(leases, m);
    OthersApart(policies, leases, m);
    var k, others, leases' := LeaseIndex(leases, m.lease), Others(leases, m), ApplyOne(leases, m, capacity).value;
    hide Separate, UniqueResources;
    if m.Install? {
      assert leases'[k] == m.lease;
      assert forall i :: 0 <= i < |leases| && i != k ==> leases'[i] == leases[i];
      assert |leases'| == |others| + 1;
      hide Others;
      forall j | 0 <= j < |others|
        ensures KeysApart(policies, others[j], m.lease) <==> !SharesExclude(policies, others[j], m.lease)
        ensures KeysApart(policies, m.lease, others[j]) <==> !SharesExclude(policies, others[j], m.lease)
      {
        assert !SameResource(others[j], m.lease);
        KeysOfDistinct(policies, others[j], m.lease);
      }
      hide SharesExclude, KeysApart, SameResource;
      SeparateWithNew(policies, leases', others, k, m.lease);
    } else {
      assert leases' == others;
    }
  }

  /** Leases of different resources can only meet in their prefix-exclude routes. */
  lemma KeysOfDistinct(policies: seq<Policy>, a: Lease, b: Lease)
    requires !SameResource(a, b)
    ensures KeysApart(policies, a, b) <==> !SharesExclude(policies, a, b)
    ensures KeysApart(policies, b, a) <==> !SharesExclude(policies, a, b)
  {
    hide PolicyOf;
    if SharesExclude(policies, a, b) {
      assert ExcludeRoute(a) in RoutesFor(policies, a) && ExcludeRoute(b) in RoutesFor(policies, b);
      assert KeyOf(ExcludeRoute(a)) == KeyOf(ExcludeRoute(b));
    }
  }

  lemma SeparateWithNew(policies: seq<Policy>, leases: seq<Lease>, others: seq<Lease>, k: nat, l: Lease)
    requires Without(leases, k, others) && k < |leases| && leases[k] == l && Separate(policies, others)
    ensures Separate(policies, leases) <==>
              forall j :: 0 <= j < |others| ==> KeysApart(policies, others[j], l) && KeysApart(policies, l, others[j])
  {
    hide KeysApart, Without;
    assert |others| == |leases| - 1 by { WithoutAt(leases, k, others, 0); }
    forall i | 0 <= i < |leases| && i != k
      ensures 0 <= Slot(i, k) < |others| && others[Slot(i, k)] == leases[i]
    {
      WithoutAt(leases, k, others, i);
    }
    forall j | 0 <= j < |others|
      ensures others[j] == leases[if j < k then j else j + 1]
    {
      WithoutAt(leases, k, others, if j < k then j else j + 1);
    }
    if forall j :: 0 <= j < |others| ==> KeysApart(policies, others[j], l) && KeysApart(policies, l, others[j]) {
      forall a, b | 0 <= a < |leases| && 0 <= b < |leases| && a != b
        ensures KeysApart(policies, leases[a], leases[b])
      {
        assert a != k ==> others[Slot(a, k)] == leases[a];
        assert b != k ==> others[Slot(b, k)] == leases[b];
      }
    }
  }

  function Slot(i: int, k: int): int {
    if i < k then i else i - 1
  }

  lemma WithoutAt(leases: seq<Lease>, k: nat, others: seq<Lease>, i: nat)
    requires Without(leases, k, others) && k < |leases|
    ensures |others| == |leases| - 1
    ensures i < |leases| && i != k ==> 0 <= Slot(i, k) < |others| && others[Slot(i, k)] == leases[i]
  {
  }

  /** One mutation applied to both owners: the incremental list again holds exactly the routes of the
      leases, which again have separate keys, if and only if the mutation leaves no prefix-exclude
      route of the replaced lease behind and takes none of another lease. */
  lemma StepMatchesRebuild(
    policies: seq<Policy>, leases: seq<Lease>, routes: seq<Route>, m: Mutation, routeCapacity: nat, capacity: nat)
    requires UniqueResources(leases) && Staged(leases, m) && Separate(policies, leases) && Reflects(policies, leases, routes)
    requires StageOne(routes, m, policies, routeCapacity).Some? && ApplyOne(leases, m, capacity).Some?
    ensures UniqueResources(ApplyOne(leases, m, capacity).value)
    ensures && Separate(policies, ApplyOne(leases, m, capacity).value)
            && Reflects(policies, ApplyOne(leases, m, capacity).value, StageOne(routes, m, policies, routeCapacity).value)
            <==> !LeavesStale(policies, leases, m) && !Collides(policies, leases, m)
  {
    hide PolicyOf, Separate, UniqueResources, Staged, LeavesStale, Collides, Others, ApplyOne, AppendLease, RoutesFor,
      Cleared, HasKey, NoDuplicates, LeaseIndex;
    AppliedLeases(policies, leases, m, capacity);
    AppliedSeparate(policies, leases, m, capacity);
    if m.Remove? {
      RemovalIsClean(policies, leases, m);
    }
    var leases', routes' := ApplyOne(leases, m, capacity).value, StageOne(routes, m, policies, routeCapacity).value;
    ClearedMembers(routes, m.lease);
    AppendMembers(Cleared(routes, m.lease), m.lease, policies, routeCapacity);
    if !LeavesStale(policies, leases, m) && !Collides(policies, leases, m) {
      ClearedReflectsOthers(policies, leases, routes, m);
    }
    if LeavesStale(policies, leases, m) {
      StaleRouteRemains(policies, leases, routes, m);
      var r := ExcludeRoute(leases[LeaseIndex(leases, m.lease)]);
      assert r in routes' && !Wanted(policies, leases', r);
    }
  }

  lemma RemovalIsClean(policies: seq<Policy>, leases: seq<Lease>, m: Mutation)
    requires UniqueResources(leases) && Staged(leases, m) && Separate(policies, leases) && m.Remove?
    ensures !LeavesStale(policies, leases, m) && !Collides(policies, leases, m)
  {
    hide PolicyOf, LeaseIndex, UniqueResources;
    OthersApart(policies, leases, m);
    forall j | 0 <= j < |Others(leases, m)|
      ensures !SharesExclude(policies, Others(leases, m)[j], m.lease)
    {
      assert KeysApart(policies, Others(leases, m)[j], leases[LeaseIndex(leases, m.lease)]);
      if SharesExclude(policies, Others(leases, m)[j], m.lease) {
        SharedKeysMeet(policies, Others(leases, m)[j], m.lease);
        assert false;
      }
    }
  }

  lemma SharedKeysMeet(policies: seq<Policy>, a: Lease, b: Lease)
    requires SharesExclude(policies, a, b)
    ensures !KeysApart(policies, a, b)
  {
    assert ExcludeRoute(a) in RoutesFor(policies, a) && ExcludeRoute(b) in RoutesFor(policies, b);
    assert KeyOf(ExcludeRoute(a)) == KeyOf(ExcludeRoute(b));
  }

  /** The route left behind is nobody's: neither another lease nor the new one wants it. */
  lemma StaleRouteRemains(policies: seq<Policy>, leases: seq<Lease>, routes: seq<Route>, m: Mutation)
    requires UniqueResources(leases) && Staged(leases, m) && Separate(policies, leases) && Reflects(policies, leases, routes)
    requires LeavesStale(policies, leases, m)
    ensures LeaseIndex(leases, m.lease) < |leases|
    ensures ExcludeRoute(leases[LeaseIndex(leases, m.lease)]) in Cleared(routes, m.lease)
    ensures !Wanted(policies, Others(leases, m), ExcludeRoute(leases[LeaseIndex(leases, m.lease)]))
    ensures ExcludeRoute(leases[LeaseIndex(leases, m.lease)]) !in RoutesFor(policies, m.lease)
  {
    hide PolicyOf, UniqueResources, LeaseIndex, Others;
    var k := LeaseIndex(leases, m.lease);
    var r := ExcludeRoute(leases[k]);
    assert r in RoutesFor(policies, leases[k]);
    assert r in routes;
    ClearedMembers(routes, m.lease);
    OthersApart(policies, leases, m);
    forall j | 0 <= j < |Others(leases, m)|
      ensures r !in RoutesFor(policies, Others(leases, m)[j])
    {
      assert KeysApart(policies, Others(leases, m)[j], leases[k]);
    }
  }

  // ---------------------------------------------------------------- capacity

  lemma {:induction false} CountBound(policies: seq<Policy>, leases: seq<Lease>, routes: set<Route>)
    requires forall r :: r in routes ==> Wanted(policies, leases, r)
    ensures |routes| <= 2 * |leases|
    decreases |leases|
  {
    if leases == [] {
      assert forall r :: r !in routes;
      assert routes == {};
    } else {
      var before, l := leases[..|leases| - 1], leases[|leases| - 1];
      var own := {MainRoute(l), ExcludeRoute(l)};
      forall r | r in routes - own
        ensures Wanted(policies, before, r)
      {
        var i :| 0 <= i < |leases| && r in RoutesFor(policies, leases[i]);
        assert i < |before| && leases[i] == before[i];
      }
      hide RoutesFor, Wanted, MainRoute, ExcludeRoute;
      CountBound(policies, before, routes - own);
      SubsetSize(routes, (routes - own) + own);
    }
  }

  lemma {:induction false} SubsetSize<T>(a: set<T>, b: set<T>)
    requires a <= b
    ensures |a| <= |b|
    decreases |a|
  {
    if x :| x in a {
      SubsetSize(a - {x}, b - {x});
    }
  }

  lemma {:induction false} DistinctSize(routes: seq<Route>)
    requires NoDuplicates(routes)
    ensures |set r | r in routes| == |routes|
    decreases |routes|
  {
    if routes != [] {
      var before, r := routes[..|routes| - 1], routes[|routes| - 1];
      DistinctSize(before);
      assert r !in before;
      assert (set x | x in routes) == (set x | x in before) + {r};
    }
  }

  /** The list never holds more than two routes per lease. */
  lemma TwoRoutesPerLease(policies: seq<Policy>, leases: seq<Lease>, routes: seq<Route>)
    requires Reflects(policies, leases, routes)
    ensures |routes| <= 2 * |leases|
  {
    hide Wanted, NoDuplicates;
    DistinctSize(routes);
    CountBound(policies, leases, set r | r in routes);
  }

  /** With two route slots per lease, a clean mutation can always be staged. */
  lemma CleanStepSucceeds(
    policies: seq<Policy>, leases: seq<Lease>, routes: seq<Route>, m: Mutation, routeCapacity: nat, capacity: nat)
    requires UniqueResources(leases) && Staged(leases, m) && Separate(policies, leases) && Reflects(policies, leases, routes)
    requires !LeavesStale(policies, leases, m) && !Collides(policies, leases, m)
    requires PolicyOf(policies, m.lease.interface).Some?
    requires ApplyOne(leases, m, capacity).Some? && 2 * |ApplyOne(leases, m, capacity).value| <= routeCapacity
    ensures StageOne(routes, m, policies, routeCapacity).Some?
  {
    hide PolicyOf, Separate, UniqueResources, LeavesStale, Collides, AppendLease, Cleared, NoDuplicates, LeaseIndex, RoutesFor;
    ClearedReflectsOthers(policies, leases, routes, m);
    TwoRoutesPerLease(policies, Others(leases, m), Cleared(routes, m.lease));
    OthersAre(leases, m);
    if m.Install? {
      AppendMembers(Cleared(routes, m.lease), m.lease, policies, routeCapacity);
      ClearedMembers(routes, m.lease);
      TwoAtMost(policies, m.lease);
      var cleared := Cleared(routes, m.lease);
      forall r, k | r in RoutesFor(policies, m.lease) && 0 <= k < |cleared|
        ensures KeyOf(cleared[k]) != KeyOf(r)
      {
        assert cleared[k] in cleared;
        NewKeys(policies, m.lease, r);
      }
    }
  }

  lemma NewKeys(policies: seq<Policy>, l: Lease, r: Route)
    requires r in RoutesFor(policies, l)
    ensures KeyOf(r) == MainKey(l) || (l.hasExcluded && KeyOf(r) == ExcludeKey(l))
  {
  }

  // ---------------------------------------------------------------- batches and runs

  /** Every mutation is staged against the leases it meets, and neither leaves a stale route nor
      takes another lease's. */
  ghost predicate CleanBatch(policies: seq<Policy>, leases: seq<Lease>, batch: seq<Mutation>, routeCapacity: nat, capacity: nat)
    decreases |batch|
  {
    batch == [] ||
    (var m := batch[0];
     && Staged(leases, m) && !LeavesStale(policies, leases, m) && !Collides(policies, leases, m)
     && PolicyOf(policies, m.lease.interface).Some?
     && ApplyOne(leases, m, capacity).Some? && 2 * |ApplyOne(leases, m, capacity).value| <= routeCapacity
     && CleanBatch(policies, ApplyOne(leases, m, capacity).value, batch[1..], routeCapacity, capacity))
  }

  /** Every lease is on a configured interface, and two route slots are left for each. */
  ghost predicate Housed(policies: seq<Policy>, leases: seq<Lease>, routeCapacity: nat) {
    2 * |leases| <= routeCapacity && forall i :: 0 <= i < |leases| ==> PolicyOf(policies, leases[i].interface).Some?
  }

  ghost predicate InStep(policies: seq<Policy>, leases: seq<Lease>, routes: seq<Route>, routeCapacity: nat) {
    && UniqueResources(leases) && Separate(policies, leases) && Reflects(policies, leases, routes)
    && Housed(policies, leases, routeCapacity)
  }

  lemma StaysHoused(policies: seq<Policy>, leases: seq<Lease>, m: Mutation, routeCapacity: nat, capacity: nat)
    requires Housed(policies, leases, routeCapacity) && PolicyOf(policies, m.lease.interface).Some?
    requires ApplyOne(leases, m, capacity).Some? && 2 * |ApplyOne(leases, m, capacity).value| <= routeCapacity
    ensures Housed(policies, ApplyOne(leases, m, capacity).value, routeCapacity)
  {
    hide PolicyOf, LeaseIndex;
  }

  /** A clean batch passes both owners completely and leaves them in step. */
  lemma {:induction false} BatchMatchesRebuild(
    policies: seq<Policy>, leases: seq<Lease>, routes: seq<Route>, batch: seq<Mutation>, routeCapacity: nat, capacity: nat)
    requires InStep(policies, leases, routes, routeCapacity) && CleanBatch(policies, leases, batch, routeCapacity, capacity)
    ensures Prepare(routes, batch, policies, routeCapacity).Some? && Commit(leases, batch, capacity).1
    ensures InStep(policies, Commit(leases, batch, capacity).0, Prepare(routes, batch, policies, routeCapacity).value, routeCapacity)
    decreases |batch|
  {
    if batch != [] {
      hide PolicyOf, Staged, LeavesStale, Collides, ApplyOne, StageOne, UniqueResources, Separate, Reflects, Housed;
      CleanStepSucceeds(policies, leases, routes, batch[0], routeCapacity, capacity);
      StepMatchesRebuild(policies, leases, routes, batch[0], routeCapacity, capacity);
      StaysHoused(policies, leases, batch[0], routeCapacity, capacity);
      BatchMatchesRebuild(policies, ApplyOne(leases, batch[0], capacity).value,
                          StageOne(routes, batch[0], policies, routeCapacity).value, batch[1..], routeCapacity, capacity);
    }
  }

  /** A prepared batch is committed by both owners or discarded by both. */
  datatype Turn = Turn(batch: seq<Mutation>, committed: bool)

  function RunLeases(leases: seq<Lease>, turns: seq<Turn>, capacity: nat): seq<Lease>
    decreases |turns|
  {
    if turns == [] then leases
    else RunLeases(if turns[0].committed then Commit(leases, turns[0].batch, capacity).0 else leases, turns[1..], capacity)
  }

  function RunRoutes(routes: seq<Route>, turns: seq<Turn>, policies: seq<Policy>, capacity: nat): seq<Route>
    decreases |turns|
  {
    if turns == [] then routes
    else
      var staged := Prepare(routes, turns[0].batch, policies, capacity);
      RunRoutes(if turns[0].committed && staged.Some? then staged.value else routes, turns[1..], policies, capacity)
  }

  ghost predicate CleanRun(policies: seq<Policy>, leases: seq<Lease>, turns: seq<Turn>, routeCapacity: nat, capacity: nat)
    decreases |turns|
  {
    turns == [] ||
    (&& (turns[0].committed ==> CleanBatch(policies, leases, turns[0].batch, routeCapacity, capacity))
     && CleanRun(policies, if turns[0].committed then Commit(leases, turns[0].batch, capacity).0 else leases,
                 turns[1..], routeCapacity, capacity))
  }

  /** After any run of clean batches, committed or discarded, a rebuild over the current leases succeeds
      and yields exactly the incremental routes, at most two per lease. */
  lemma {:induction false} IncrementalEqualsRebuild(
    policies: seq<Policy>, leases: seq<Lease>, routes: seq<Route>, turns: seq<Turn>, routeCapacity: nat, capacity: nat)
    requires InStep(policies, leases, routes, routeCapacity) && CleanRun(policies, leases, turns, routeCapacity, capacity)
    ensures var leases', routes' := RunLeases(leases, turns, capacity), RunRoutes(routes, turns, policies, routeCapacity);
            && InStep(policies, leases', routes', routeCapacity) && |routes'| <= 2 * |leases'|
            && Rebuild(leases', policies, routeCapacity).Some?
            && forall r :: r in routes' <==> r in Rebuild(leases', policies, routeCapacity).value
    decreases |turns|
  {
    if turns == [] {
      hide Wanted, NoDuplicates, UniqueResources, Separate, Rebuild;
      TwoRoutesPerLease(policies, leases, routes);
      RebuildSucceeds(leases, policies, routeCapacity);
      RebuildReflects(leases, policies, routeCapacity);
    } else {
      hide InStep, Rebuild, CleanBatch, Commit, Prepare;
      var t := turns[0];
      if t.committed {
        BatchMatchesRebuild(policies, leases, routes, t.batch, routeCapacity, capacity);
        IncrementalEqualsRebuild(policies, Commit(leases, t.batch, capacity).0,
                                 Prepare(routes, t.batch, policies, routeCapacity).value, turns[1..], routeCapacity, capacity);
      } else {
        IncrementalEqualsRebuild(policies, leases, routes, turns[1..], routeCapacity, capacity);
      }
    }
  }

  // ---------------------------------------------------------------- the two failures

  function Delegation(value: nat, excluded: Option<nat>, rest: nat): Lease {
    Lease(1, value, 7, 1, 1, 56, DelegatedPrefix, excluded.Some?, if excluded.Some? then excluded.value else 0, 64, rest)
  }

  /** A renewal that drops the excluded prefix leaves its blackhole behind. */
  lemma StaleBlackhole(value: nat, excluded: nat)
    ensures var policies := [Policy(1, 10, true, true, true, true)];
            var held, renewed := Delegation(value, Some(excluded), 0), Delegation(value, None, 1);
            && Rebuild([held], policies, 20) == Some([MainRoute(held), ExcludeRoute(held)])
            && ApplyOne([held], Install(renewed), 10) == Some([renewed])
            && StageOne([MainRoute(held), ExcludeRoute(held)], Install(renewed), policies, 20)
               == Some([ExcludeRoute(held), MainRoute(renewed)])
            && Rebuild([renewed], policies, 20) == Some([MainRoute(renewed)])
  {
    var policies := [Policy(1, 10, true, true, true, true)];
    var held, renewed := Delegation(value, Some(excluded), 0), Delegation(value, None, 1);
    OneLease(policies, held);
    OneLease(policies, renewed);
    assert LeaseIndex([held], renewed) == 0;
    var routes := [MainRoute(held), ExcludeRoute(held)];
    assert KeyOf(routes[0]) == MainKey(renewed) && KeyOf(routes[1]) != MainKey(renewed);
    assert routes[1..] == [ExcludeRoute(held)] && routes[1..][1..] == [];
    assert Erase([], MainKey(renewed)) == [];
    assert Erase(routes[1..], MainKey(renewed)) == [ExcludeRoute(held)];
    assert Erase(routes, MainKey(renewed)) == [ExcludeRoute(held)];
    assert [ExcludeRoute(held)] + [MainRoute(renewed)] == [ExcludeRoute(held), MainRoute(renewed)];
    assert PolicyOf(policies, 1) == Some(policies[0]) && MainEnabled(renewed, policies[0]);
    assert AppendRoute([ExcludeRoute(held)], MainRoute(renewed), 20) == Some([ExcludeRoute(held), MainRoute(renewed)]);
    assert [held][0 := renewed] == [renewed];
  }

  lemma OneLease(policies: seq<Policy>, l: Lease)
    requires policies == [Policy(1, 10, true, true, true, true)] && l.interface == 1
    ensures Rebuild([l], policies, 20) == Some(if l.hasExcluded then [MainRoute(l), ExcludeRoute(l)] else [MainRoute(l)])
  {
    var main, both := [MainRoute(l)], [MainRoute(l), ExcludeRoute(l)];
    assert [l][..0] == [] && Rebuild([], policies, 20) == Some([]);
    assert PolicyOf(policies, 1) == Some(policies[0]) && MainEnabled(l, policies[0]);
    assert [] + main == main && main + [ExcludeRoute(l)] == both;
    assert AppendRoute([], MainRoute(l), 20) == Some(main);
    assert AppendRoute(main, ExcludeRoute(l), 20) == Some(both);
    assert AppendLease([], l, policies[0], 20) == Some(if l.hasExcluded then both else main);
  }

  /** Two leases that exclude one prefix share its blackhole: withdrawing the second takes it from the
      first, and a rebuild would have refused the two together. */
  lemma SharedBlackhole(value: nat, other: nat, excluded: nat)
    requires value != other
    ensures var policies := [Policy(1, 10, true, true, true, true)];
            var first, second := Delegation(value, Some(excluded), 0), Delegation(other, Some(excluded), 0);
            var one := [MainRoute(first), ExcludeRoute(first)];
            && Rebuild([first], policies, 20) == Some(one)
            && Prepare(one, [Install(second), Remove(second)], policies, 20) == Some([MainRoute(first)])
            && Commit([first], [Install(second), Remove(second)], 10) == ([first], true)
            && Rebuild([first, second], policies, 20) == None
  {
    var policies := [Policy(1, 10, true, true, true, true)];
    var first, second := Delegation(value, Some(excluded), 0), Delegation(other, Some(excluded), 0);
    var one := [MainRoute(first), ExcludeRoute(first)];
    OneLease(policies, first);
    SharedRoutes(first, second, policies);
    SharedLeases(first, second);
    assert [first, second][..1] == [first];
    assert PolicyOf(policies, 1) == Some(policies[0]);
    assert MainEnabled(second, policies[0]);
    var both := one + [MainRoute(second)];
    assert KeyOf(both[1]) == KeyOf(ExcludeRoute(second));
    assert AppendRoute(one, MainRoute(second), 20) == Some(both);
    assert AppendRoute(both, ExcludeRoute(second), 20) == None;
  }

  lemma SharedRoutes(first: Lease, second: Lease, policies: seq<Policy>)
    requires policies == [Policy(1, 10, true, true, true, true)] && first.interface == second.interface == 1
    requires first.hasExcluded && second.hasExcluded && ExcludeKey(first) == ExcludeKey(second) && MainKey(first) != MainKey(second)
    requires first.protocol == second.protocol
    ensures Prepare([MainRoute(first), ExcludeRoute(first)], [Install(second), Remove(second)], policies, 20)
         == Some([MainRoute(first)])
  {
    var m, x := MainRoute(first), ExcludeRoute(first);
    assert PolicyOf(policies, 1) == Some(policies[0]);
    Erases([m, x], second, [m]);
    var three := [m, MainRoute(second), ExcludeRoute(second)];
    assert [m] + [MainRoute(second)] == [m, MainRoute(second)];
    assert [m, MainRoute(second)] + [ExcludeRoute(second)] == three;
    assert MainEnabled(second, policies[0]);
    assert AppendRoute([m], MainRoute(second), 20) == Some([m, MainRoute(second)]);
    assert AppendRoute([m, MainRoute(second)], ExcludeRoute(second), 20) == Some(three);
    assert StageOne([m, x], Install(second), policies, 20) == Some(three);
    Erases(three, second, [m]);
    assert StageOne(three, Remove(second), policies, 20) == Some([m]);
    assert [Install(second), Remove(second)][1..] == [Remove(second)] && [Remove(second)][1..] == [];
    assert Prepare([m], [], policies, 20) == Some([m]);
    assert Prepare(three, [Remove(second)], policies, 20) == Some([m]);
  }

  /** Clearing a list whose first route alone has other keys. */
  lemma Erases(routes: seq<Route>, l: Lease, kept: seq<Route>)
    requires routes != [] && kept == [routes[0]] && l.hasExcluded
    requires KeyOf(routes[0]) != MainKey(l) && KeyOf(routes[0]) != ExcludeKey(l)
    requires forall i :: 1 <= i < |routes| ==> KeyOf(routes[i]) == MainKey(l) || KeyOf(routes[i]) == ExcludeKey(l)
    ensures Cleared(routes, l) == kept
  {
    assert Erase(routes, MainKey(l)) == kept + Erase(routes[1..], MainKey(l));
    var rest := Erase(routes[1..], MainKey(l));
    assert forall r :: r in rest ==> KeyOf(r) == ExcludeKey(l);
    AllErased(rest, ExcludeKey(l));
    assert (kept + rest)[1..] == rest;
  }

  lemma {:induction false} AllErased(routes: seq<Route>, key: RouteKey)
    requires forall r :: r in routes ==> KeyOf(r) == key
    ensures Erase(routes, key) == []
    decreases |routes|
  {
    if routes != [] {
      AllErased(routes[1..], key);
    }
  }

  lemma SharedLeases(first: Lease, second: Lease)
    requires !SameLease(first, second)
    ensures Commit([first], [Install(second), Remove(second)], 10) == ([first], true)
  {
    assert LeaseIndex([first][1..], second) == 0 && LeaseIndex([first], second) == 1;
    assert [first] + [second] == [first, second];
    assert LeaseIndex([first, second][1..], second) == 0 && LeaseIndex([first, second], second) == 1;
    assert DropAt([first, second], 1) == [first];
    assert [Install(second), Remove(second)][1..] == [Remove(second)] && [Remove(second)][1..] == [];
    assert ApplyOne([first], Install(second), 10) == Some([first, second]);
    assert ApplyOne([first, second], Remove(second), 10) == Some([first]);
    assert Commit([first], [], 10) == ([first], true);
    assert Commit([first, second], [Remove(second)], 10) == ([first], true);
  }
}
