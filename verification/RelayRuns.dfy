/** Whole runs of the two relay owners (core/src/dhcpv6/dhcpv6_relay_lease.cpp,
    core/src/dhcpv6/dhcpv6_relay_route.cpp): when the incremental routes equal a rebuild after every
    single mutation, and when the routes that a run ends with are in an order that restore accepts. */
module RelayRuns {
  import opened Options
  import opened RelayRoutes
  import opened RelayOwners

  // ---------------------------------------------------------------- every list of a run

  /** The routes are those of a rebuild over the leases. */
  ghost predicate Matches(policies: seq<Policy>, leases: seq<Lease>, routes: seq<Route>, capacity: nat) {
    && Rebuild(leases, policies, capacity).Some? && NoDuplicates(routes)
    && forall r :: r in routes <==> r in Rebuild(leases, policies, capacity).value
  }

  lemma MatchesExactly(policies: seq<Policy>, leases: seq<Lease>, routes: seq<Route>, capacity: nat)
    requires Housed(policies, leases, capacity)
    ensures Matches(policies, leases, routes, capacity) <==> Separate(policies, leases) && Reflects(policies, leases, routes)
  {
    hide Wanted, NoDuplicates, Separate, Rebuild, PolicyOf;
    if Separate(policies, leases) {
      RebuildSucceeds(leases, policies, capacity);
    }
    if Rebuild(leases, policies, capacity).Some? {
      RebuildReflects(leases, policies, capacity);
    }
  }

  /** Both owners take every mutation of the batch, as staged, and two route slots are left for each lease. */
  ghost predicate Accepted(
    policies: seq<Policy>, leases: seq<Lease>, routes: seq<Route>, batch: seq<Mutation>, routeCapacity: nat, capacity: nat)
    decreases |batch|
  {
    batch == [] ||
    (var m := batch[0];
     && Staged(leases, m) && PolicyOf(policies, m.lease.interface).Some?
     && ApplyOne(leases, m, capacity).Some? && 2 * |ApplyOne(leases, m, capacity).value| <= routeCapacity
     && StageOne(routes, m, policies, routeCapacity).Some?
     && Accepted(policies, ApplyOne(leases, m, capacity).value, StageOne(routes, m, policies, routeCapacity).value,
                 batch[1..], routeCapacity, capacity))
  }

  /** After each mutation of the batch the routes are those of a rebuild. */
  ghost predicate AlwaysMatches(
    policies: seq<Policy>, leases: seq<Lease>, routes: seq<Route>, batch: seq<Mutation>, routeCapacity: nat, capacity: nat)
    requires Accepted(policies, leases, routes, batch, routeCapacity, capacity)
    decreases |batch|
  {
    && Matches(policies, leases, routes, routeCapacity)
    && (batch != [] ==>
          AlwaysMatches(policies, ApplyOne(leases, batch[0], capacity).value,
                        StageOne(routes, batch[0], policies, routeCapacity).value, batch[1..], routeCapacity, capacity))
  }

  /** No mutation of the batch leaves a route behind or takes one of another lease. */
  ghost predicate Tidy(policies: seq<Policy>, leases: seq<Lease>, batch: seq<Mutation>, capacity: nat)
    decreases |batch|
  {
    batch == [] ||
    (&& !LeavesStale(policies, leases, batch[0]) && !Collides(policies, leases, batch[0])
     && ApplyOne(leases, batch[0], capacity).Some?
     && Tidy(policies, ApplyOne(leases, batch[0], capacity).value, batch[1..], capacity))
  }

  /** In a batch that both owners take, every intermediate list of routes is that of a rebuild if and
      only if every mutation is tidy; the batch is then clean. */
  lemma {:induction false} BatchMatchesExactly(
    policies: seq<Policy>, leases: seq<Lease>, routes: seq<Route>, batch: seq<Mutation>, routeCapacity: nat, capacity: nat)
    requires InStep(policies, leases, routes, routeCapacity)
    requires Accepted(policies, leases, routes, batch, routeCapacity, capacity)
    ensures AlwaysMatches(policies, leases, routes, batch, routeCapacity, capacity) <==> Tidy(policies, leases, batch, capacity)
    ensures Tidy(policies, leases, batch, capacity) ==> CleanBatch(policies, leases, batch, routeCapacity, capacity)
    decreases |batch|
  {
    hide PolicyOf, Staged, LeavesStale, Collides, ApplyOne, StageOne, UniqueResources, Separate, Reflects, Housed, Matches;
    MatchesExactly(policies, leases, routes, routeCapacity);
    if batch != [] {
      var m := batch[0];
      var leases', routes' := ApplyOne(leases, m, capacity).value, StageOne(routes, m, policies, routeCapacity).value;
      StepMatchesRebuild(policies, leases, routes, m, routeCapacity, capacity);
      StaysHoused(policies, leases, m, routeCapacity, capacity);
      MatchesExactly(policies, leases', routes', routeCapacity);
      if !LeavesStale(policies, leases, m) && !Collides(policies, leases, m) {
        BatchMatchesExactly(policies, leases', routes', batch[1..], routeCapacity, capacity);
      }
    }
  }

  ghost predicate AcceptedRun(
    policies: seq<Policy>, leases: seq<Lease>, routes: seq<Route>, turns: seq<Turn>, routeCapacity: nat, capacity: nat)
    decreases |turns|
  {
    turns == [] ||
    (var (leases', routes') := AfterTurn(policies, leases, routes, turns[0], routeCapacity, capacity);
     && (turns[0].committed ==> Accepted(policies, leases, routes, turns[0].batch, routeCapacity, capacity))
     && AcceptedRun(policies, leases', routes', turns[1..], routeCapacity, capacity))
  }

  function AfterTurn(
    policies: seq<Policy>, leases: seq<Lease>, routes: seq<Route>, t: Turn, routeCapacity: nat, capacity: nat)
    : (seq<Lease>, seq<Route>)
  {
    var staged := Prepare(routes, t.batch, policies, routeCapacity);
    (if t.committed then Commit(leases, t.batch, capacity).0 else leases,
     if t.committed && staged.Some? then staged.value else routes)
  }

  ghost predicate RunMatches(
    policies: seq<Policy>, leases: seq<Lease>, routes: seq<Route>, turns: seq<Turn>, routeCapacity: nat, capacity: nat)
    requires AcceptedRun(policies, leases, routes, turns, routeCapacity, capacity)
    decreases |turns|
  {
    turns == [] ||
    (var (leases', routes') := AfterTurn(policies, leases, routes, turns[0], routeCapacity, capacity);
     && (turns[0].committed ==> AlwaysMatches(policies, leases, routes, turns[0].batch, routeCapacity, capacity))
     && RunMatches(policies, leases', routes', turns[1..], routeCapacity, capacity))
  }

  ghost predicate TidyRun(policies: seq<Policy>, leases: seq<Lease>, turns: seq<Turn>, capacity: nat)
    decreases |turns|
  {
    turns == [] ||
    (&& (turns[0].committed ==> Tidy(policies, leases, turns[0].batch, capacity))
     && TidyRun(policies, if turns[0].committed then Commit(leases, turns[0].batch, capacity).0 else leases, turns[1..], capacity))
  }

  /** Over any run that both owners take, every list of routes on the way is that of a rebuild over the
      leases of that moment if and only if every committed mutation is tidy. */
  lemma {:induction false} RunMatchesExactly(
    policies: seq<Policy>, leases: seq<Lease>, routes: seq<Route>, turns: seq<Turn>, routeCapacity: nat, capacity: nat)
    requires InStep(policies, leases, routes, routeCapacity)
    requires AcceptedRun(policies, leases, routes, turns, routeCapacity, capacity)
    ensures RunMatches(policies, leases, routes, turns, routeCapacity, capacity) <==> TidyRun(policies, leases, turns, capacity)
    ensures TidyRun(policies, leases, turns, capacity) ==> CleanRun(policies, leases, turns, routeCapacity, capacity)
    decreases |turns|
  {
    hide InStep, Accepted, AlwaysMatches, Tidy, CleanBatch, Commit, Prepare;
    if turns != [] {
      var t, rest := turns[0], turns[1..];
      if !t.committed {
        RunMatchesExactly(policies, leases, routes, rest, routeCapacity, capacity);
      } else {
        BatchMatchesExactly(policies, leases, routes, t.batch, routeCapacity, capacity);
        if Tidy(policies, leases, t.batch, capacity) {
          BatchMatchesRebuild(policies, leases, routes, t.batch, routeCapacity, capacity);
          var (leases', routes') := AfterTurn(policies, leases, routes, t, routeCapacity, capacity);
          RunMatchesExactly(policies, leases', routes', rest, routeCapacity, capacity);
        }
      }
    }
  }

  // ---------------------------------------------------------------- the order of the routes

  /** The same leases, each once, in two orders. */
  ghost predicate Ranked(leases: seq<Lease>, order: seq<Lease>) {
    && UniqueResources(leases) && UniqueResources(order)
    && forall l :: l in leases <==> l in order
  }

  /** The leases by their last installation. */
  function Recent(order: seq<Lease>, m: Mutation): seq<Lease> {
    Others(order, m) + if m.Install? then [m.lease] else []
  }

  lemma OthersMembers(leases: seq<Lease>, m: Mutation)
    requires UniqueResources(leases)
    ensures forall l :: l in Others(leases, m) <==> l in leases && !SameLease(l, m.lease)
    ensures UniqueResources(Others(leases, m))
  {
    hide LeaseIndex, Others, SameLease, SameResource;
    var k, others := LeaseIndex(leases, m.lease), Others(leases, m);
    OthersAre(leases, m);
    forall l
      ensures l in others <==> l in leases && !SameLease(l, m.lease)
    {
      if l in others {
        var j :| 0 <= j < |others| && others[j] == l;
        var i := if j < k then j else j + 1;
        assert leases[i] == l;
        if SameLease(l, m.lease) {
          OneOfLease(leases, i, k, m.lease);
          assert false;
        }
      }
      if l in leases && !SameLease(l, m.lease) {
        var i :| 0 <= i < |leases| && leases[i] == l;
        assert i != k;
        assert others[if i < k then i else i - 1] == l;
      }
    }
  }

  lemma OneOfLease(leases: seq<Lease>, i: nat, k: nat, l: Lease)
    requires UniqueResources(leases) && i < |leases| && SameLease(leases[i], l) && k == LeaseIndex(leases, l)
    ensures i == k
  {
    hide LeaseIndex;
  }

  lemma SameIndexed(a: seq<Lease>, b: seq<Lease>, l: Lease)
    requires Ranked(a, b) && LeaseIndex(a, l) < |a|
    ensures LeaseIndex(b, l) < |b| && b[LeaseIndex(b, l)] == a[LeaseIndex(a, l)]
  {
    hide LeaseIndex, SameResource, SameLease;
    var x := a[LeaseIndex(a, l)];
    assert x in b;
    var k :| 0 <= k < |b| && b[k] == x;
    OneOfLease(b, k, LeaseIndex(b, l), l);
  }

  /** What staging guarantees, said without indices of the others. */
  lemma StagedByMembers(leases: seq<Lease>, m: Mutation)
    requires UniqueResources(leases)
    ensures Staged(leases, m) <==>
              && (m.Remove? ==> LeaseIndex(leases, m.lease) < |leases| && leases[LeaseIndex(leases, m.lease)] == m.lease)
              && (forall l :: l in leases && !SameLease(l, m.lease) ==> !SameResource(l, m.lease))
  {
    hide LeaseIndex, SameResource, SameLease;
    var i := LeaseIndex(leases, m.lease);
    forall j | 0 <= j < |leases|
      ensures SameLease(leases[j], m.lease) <==> j == i
    {
      if SameLease(leases[j], m.lease) {
        OneOfLease(leases, j, i, m.lease);
      }
    }
    if Staged(leases, m) {
      forall l | l in leases && !SameLease(l, m.lease)
        ensures !SameResource(l, m.lease)
      {
        var j :| 0 <= j < |leases| && leases[j] == l;
      }
    }
  }

  /** A mutation means the same to both orders. */
  lemma RankedAlike(policies: seq<Policy>, leases: seq<Lease>, order: seq<Lease>, m: Mutation)
    requires Ranked(leases, order)
    ensures Staged(leases, m) ==> Staged(order, m)
    ensures LeavesStale(policies, leases, m) == LeavesStale(policies, order, m)
    ensures Collides(policies, leases, m) == Collides(policies, order, m)
    ensures forall l :: l in Others(leases, m) <==> l in Others(order, m)
  {
    hide LeaseIndex, Others, SameResource, SameLease, PolicyOf, SharesExclude, UniqueResources, Collides, Staged;
    OthersMembers(leases, m);
    OthersMembers(order, m);
    if LeaseIndex(leases, m.lease) < |leases| {
      SameIndexed(leases, order, m.lease);
    }
    if LeaseIndex(order, m.lease) < |order| {
      SameIndexed(order, leases, m.lease);
    }
    StagedByMembers(leases, m);
    StagedByMembers(order, m);
    CollidesByMembers(policies, leases, order, m);
    CollidesByMembers(policies, order, leases, m);
  }

  lemma CollidesByMembers(policies: seq<Policy>, a: seq<Lease>, b: seq<Lease>, m: Mutation)
    requires forall l :: l in Others(a, m) ==> l in Others(b, m)
    ensures Collides(policies, a, m) ==> Collides(policies, b, m)
  {
    hide Others, SharesExclude;
    if Collides(policies, a, m) {
      var j :| 0 <= j < |Others(a, m)| && SharesExclude(policies, Others(a, m)[j], m.lease);
      var l := Others(a, m)[j];
      assert l in Others(b, m);
      var i :| 0 <= i < |Others(b, m)| && Others(b, m)[i] == l;
    }
  }

  /** Staging a clean mutation takes the routes of its lease out of the list and puts them last. */
  lemma StagedList(policies: seq<Policy>, order: seq<Lease>, m: Mutation, capacity: nat)
    requires UniqueResources(order) && Staged(order, m) && Separate(policies, order)
    requires Reflects(policies, order, Listed(policies, order))
    requires !LeavesStale(policies, order, m) && !Collides(policies, order, m)
    requires StageOne(Listed(policies, order), m, policies, capacity).Some?
    ensures StageOne(Listed(policies, order), m, policies, capacity).value == Listed(policies, Recent(order, m))
  {
    hide PolicyOf, LeaseIndex, Separate, UniqueResources, Staged, LeavesStale, Collides, RoutesFor, AppendLease,
      Listed, Cleared, NoDuplicates, HasKey, Others;
    ClearedList(policies, order, m);
    AppendMembers(Cleared(Listed(policies, order), m.lease), m.lease, policies, capacity);
    ListedAppend(policies, Others(order, m), [m.lease]);
    ListedOne(policies, m.lease);
    assert m.Remove? ==> Recent(order, m) == Others(order, m);
  }

  lemma ClearedList(policies: seq<Policy>, order: seq<Lease>, m: Mutation)
    requires UniqueResources(order) && Staged(order, m) && Separate(policies, order)
    requires Reflects(policies, order, Listed(policies, order))
    requires !LeavesStale(policies, order, m) && !Collides(policies, order, m)
    requires PolicyOf(policies, m.lease.interface).Some?
    ensures Cleared(Listed(policies, order), m.lease) == Listed(policies, Others(order, m))
  {
    hide PolicyOf, LeaseIndex, Separate, UniqueResources, Staged, LeavesStale, Collides, RoutesFor, Listed, Cleared,
      NoDuplicates;
    var k, routes := LeaseIndex(order, m.lease), Listed(policies, order);
    ClearedReflectsOthers(policies, order, routes, m);
    ClearedMembers(routes, m.lease);
    if k < |order| {
      var before, own, behind := Listed(policies, order[..k]), RoutesFor(policies, order[k]), Listed(policies, order[k + 1..]);
      SplitList(policies, order, k);
      ClearedOwn(policies, order, m);
      OthersList(policies, order, m);
      ClearedAppend(before + own, behind, m.lease);
      ClearedAppend(before, own, m.lease);
      ListedAppend(policies, order[..k], order[k + 1..]);
      hide Reflects, Wanted;
      ClearedNothing(before, m.lease);
      ClearedNothing(behind, m.lease);
    } else {
      hide Reflects, Wanted;
      ClearedNothing(routes, m.lease);
    }
  }

  /** The list is in the order of last installation. */
  ghost predicate InOrder(policies: seq<Policy>, leases: seq<Lease>, order: seq<Lease>, routes: seq<Route>) {
    Ranked(leases, order) && routes == Listed(policies, order)
  }

  lemma WantedByMembers(policies: seq<Policy>, a: seq<Lease>, b: seq<Lease>, r: Route)
    requires forall l :: l in a ==> l in b
    ensures Wanted(policies, a, r) ==> Wanted(policies, b, r)
  {
    hide RoutesFor;
    if Wanted(policies, a, r) {
      var i :| 0 <= i < |a| && r in RoutesFor(policies, a[i]);
      assert a[i] in b;
      var j :| 0 <= j < |b| && b[j] == a[i];
    }
  }

  /** What holds of the leases holds of the order: separate keys, and the same wanted routes. */
  lemma RankedReflects(policies: seq<Policy>, leases: seq<Lease>, order: seq<Lease>, routes: seq<Route>)
    requires Ranked(leases, order) && Separate(policies, leases) && Reflects(policies, leases, routes)
    ensures Separate(policies, order) && Reflects(policies, order, routes)
  {
    hide KeysApart, Wanted, NoDuplicates;
    forall i, j | 0 <= i < |order| && 0 <= j < |order| && i != j
      ensures KeysApart(policies, order[i], order[j])
    {
      assert order[i] in leases && order[j] in leases;
      var a :| 0 <= a < |leases| && leases[a] == order[i];
      var b :| 0 <= b < |leases| && leases[b] == order[j];
      DifferentLeases(order, i, j);
    }
    forall r
      ensures Wanted(policies, order, r) <==> Wanted(policies, leases, r)
    {
      WantedByMembers(policies, order, leases, r);
      WantedByMembers(policies, leases, order, r);
    }
  }

  lemma DifferentLeases(leases: seq<Lease>, i: nat, j: nat)
    requires UniqueResources(leases) && i < |leases| && j < |leases| && i != j
    ensures leases[i] != leases[j]
  {
    assert SameResource(leases[i], leases[i]);
    assert if i < j then !SameResource(leases[i], leases[j]) else !SameResource(leases[j], leases[i]);
  }

  lemma RankedAfter(policies: seq<Policy>, leases: seq<Lease>, order: seq<Lease>, m: Mutation, capacity: nat)
    requires Ranked(leases, order) && Staged(leases, m) && ApplyOne(leases, m, capacity).Some?
    ensures Ranked(ApplyOne(leases, m, capacity).value, Recent(order, m))
  {
    hide LeaseIndex, Others, SameResource, SameLease, Staged;
    AppliedLeases(policies, leases, m, capacity);
    AppliedMembers(leases, m, capacity);
    RankedAlike(policies, leases, order, m);
    OthersMembers(order, m);
    StagedByMembers(order, m);
    var others, recent := Others(order, m), Recent(order, m);
    forall i, j | 0 <= i < j < |recent|
      ensures !SameResource(recent[i], recent[j])
    {
      assert others[i] in others;
    }
  }

  lemma AppliedMembers(leases: seq<Lease>, m: Mutation, capacity: nat)
    requires Staged(leases, m) && ApplyOne(leases, m, capacity).Some?
    ensures forall l :: l in ApplyOne(leases, m, capacity).value <==> l in Others(leases, m) || (m.Install? && l == m.lease)
  {
    hide LeaseIndex, SameResource;
    OthersAre(leases, m);
    var k, others, leases' := LeaseIndex(leases, m.lease), Others(leases, m), ApplyOne(leases, m, capacity).value;
    if m.Install? {
      assert leases'[k] == m.lease;
      assert forall i :: 0 <= i < |leases| && i != k ==> leases'[i] == leases[i];
      hide Others;
      forall l
        ensures l in leases' <==> l in others || l == m.lease
      {
        if l in leases' && l != m.lease {
          var i :| 0 <= i < |leases'| && leases'[i] == l;
          assert others[if i < k then i else i - 1] == l;
        }
        if l in others {
          var j :| 0 <= j < |others| && others[j] == l;
          assert leases'[if j < k then j else j + 1] == l;
        }
      }
    } else {
      assert leases' == others;
    }
  }

  function BatchOrder(order: seq<Lease>, batch: seq<Mutation>): seq<Lease>
    decreases |batch|
  {
    if batch == [] then order else BatchOrder(Recent(order, batch[0]), batch[1..])
  }

  /** The leases by their last committed installation, after a run. */
  function RunOrder(order: seq<Lease>, turns: seq<Turn>): seq<Lease>
    decreases |turns|
  {
    if turns == [] then order
    else RunOrder(if turns[0].committed then BatchOrder(order, turns[0].batch) else order, turns[1..])
  }

  lemma StepKeepsOrder(policies: seq<Policy>, leases: seq<Lease>, order: seq<Lease>, routes: seq<Route>, m: Mutation,
                       routeCapacity: nat, capacity: nat)
    requires InStep(policies, leases, routes, routeCapacity) && InOrder(policies, leases, order, routes)
    requires Staged(leases, m) && !LeavesStale(policies, leases, m) && !Collides(policies, leases, m)
    requires ApplyOne(leases, m, capacity).Some? && StageOne(routes, m, policies, routeCapacity).Some?
    ensures InOrder(policies, ApplyOne(leases, m, capacity).value, Recent(order, m),
                    StageOne(routes, m, policies, routeCapacity).value)
  {
    hide PolicyOf, Separate, UniqueResources, Staged, LeavesStale, Collides, ApplyOne, StageOne, Reflects, Listed, Recent;
    RankedAlike(policies, leases, order, m);
    RankedReflects(policies, leases, order, routes);
    StagedList(policies, order, m, routeCapacity);
    RankedAfter(policies, leases, order, m, capacity);
    RankedParts(leases, order);
  }

  lemma RankedParts(leases: seq<Lease>, order: seq<Lease>)
    requires Ranked(leases, order)
    ensures UniqueResources(leases) && UniqueResources(order)
  {
  }

  lemma {:induction false} BatchKeepsOrder(
    policies: seq<Policy>, leases: seq<Lease>, order: seq<Lease>, routes: seq<Route>, batch: seq<Mutation>,
    routeCapacity: nat, capacity: nat)
    requires InStep(policies, leases, routes, routeCapacity) && InOrder(policies, leases, order, routes)
    requires CleanBatch(policies, leases, batch, routeCapacity, capacity)
    ensures Prepare(routes, batch, policies, routeCapacity).Some?
    ensures InOrder(policies, Commit(leases, batch, capacity).0, BatchOrder(order, batch),
                    Prepare(routes, batch, policies, routeCapacity).value)
    decreases |batch|
  {
    if batch != [] {
      hide PolicyOf, Staged, LeavesStale, Collides, ApplyOne, StageOne, UniqueResources, Separate, Reflects, Housed,
        InOrder, Recent;
      var m := batch[0];
      CleanStepSucceeds(policies, leases, routes, m, routeCapacity, capacity);
      StepMatchesRebuild(policies, leases, routes, m, routeCapacity, capacity);
      StaysHoused(policies, leases, m, routeCapacity, capacity);
      StepKeepsOrder(policies, leases, order, routes, m, routeCapacity, capacity);
      BatchKeepsOrder(policies, ApplyOne(leases, m, capacity).value, Recent(order, m),
                      StageOne(routes, m, policies, routeCapacity).value, batch[1..], routeCapacity, capacity);
    }
  }

  lemma {:induction false} RunKeepsOrder(
    policies: seq<Policy>, leases: seq<Lease>, order: seq<Lease>, routes: seq<Route>, turns: seq<Turn>,
    routeCapacity: nat, capacity: nat)
    requires InStep(policies, leases, routes, routeCapacity) && InOrder(policies, leases, order, routes)
    requires CleanRun(policies, leases, turns, routeCapacity, capacity)
    ensures InOrder(policies, RunLeases(leases, turns, capacity), RunOrder(order, turns),
                    RunRoutes(routes, turns, policies, routeCapacity))
    decreases |turns|
  {
    if turns != [] {
      hide InStep, InOrder, CleanBatch, Commit, Prepare, BatchOrder;
      var t, rest := turns[0], turns[1..];
      if t.committed {
        BatchMatchesRebuild(policies, leases, routes, t.batch, routeCapacity, capacity);
        BatchKeepsOrder(policies, leases, order, routes, t.batch, routeCapacity, capacity);
        RunKeepsOrder(policies, Commit(leases, t.batch, capacity).0, BatchOrder(order, t.batch),
                      Prepare(routes, t.batch, policies, routeCapacity).value, rest, routeCapacity, capacity);
      } else {
        RunKeepsOrder(policies, leases, order, routes, rest, routeCapacity, capacity);
      }
    }
  }

  // ---------------------------------------------------------------- restoring after a run

  /** The leases that have routes. */
  function Bearing(policies: seq<Policy>, leases: seq<Lease>): (r: seq<Lease>)
    ensures forall l :: l in r <==> l in leases && RoutesFor(policies, l) != []
    decreases |leases|
  {
    if leases == [] then []
    else
      var n := |leases| - 1;
      assert leases == leases[..n] + [leases[n]];
      Bearing(policies, leases[..n]) + if RoutesFor(policies, leases[n]) != [] then [leases[n]] else []
  }

  lemma {:induction false} ListedBearing(policies: seq<Policy>, leases: seq<Lease>)
    ensures Listed(policies, Bearing(policies, leases)) == Listed(policies, leases)
    decreases |leases|
  {
    if leases == [] {
      assert Bearing(policies, leases) == leases;
    } else {
      hide RoutesFor, Wanted, Listed;
      var before, l := leases[..|leases| - 1], leases[|leases| - 1];
      ListedBearing(policies, before);
      assert Bearing(policies, leases) == Bearing(policies, before) + if RoutesFor(policies, l) != [] then [l] else [];
      hide Bearing;
      assert leases == before + [l];
      ListedAppend(policies, before, [l]);
      ListedAppend(policies, Bearing(policies, before), [l]);
      ListedOne(policies, l);
      if RoutesFor(policies, l) == [] {
        assert Bearing(policies, leases) == Bearing(policies, before);
      }
    }
  }

  /** Leases with routes of separate keys can be told from their routes. */
  lemma {:induction false} ListedInjective(policies: seq<Policy>, a: seq<Lease>, b: seq<Lease>)
    requires forall l :: l in a || l in b ==> RoutesFor(policies, l) != []
    requires forall l, k :: (l in a || l in b) && (k in a || k in b) && l != k ==> KeysApart(policies, l, k)
    requires Listed(policies, a) == Listed(policies, b)
    ensures a == b
    decreases |a|
  {
    hide RoutesFor, Wanted, KeysApart;
    if a == [] || b == [] {
      NoRoutes(policies, a);
      NoRoutes(policies, b);
    } else {
      var la, lb := a[|a| - 1], b[|b| - 1];
      var own, own' := RoutesFor(policies, la), RoutesFor(policies, lb);
      var routes := Listed(policies, a);
      assert routes[|routes| - 1] == own[|own| - 1] == own'[|own'| - 1];
      if la != lb {
        RoutesMeet(policies, la, lb, own[|own| - 1]);
        assert false;
      }
      var front, front' := a[..|a| - 1], b[..|b| - 1];
      assert Listed(policies, front) == routes[..|routes| - |own|] == Listed(policies, front');
      ListedInjective(policies, front, front');
      assert a == front + [la] && b == front' + [lb];
    }
  }

  lemma NoRoutes(policies: seq<Policy>, leases: seq<Lease>)
    requires forall l :: l in leases ==> RoutesFor(policies, l) != []
    ensures Listed(policies, leases) == [] <==> leases == []
  {
    hide RoutesFor, Wanted;
  }

  lemma RoutesMeet(policies: seq<Policy>, a: Lease, b: Lease, r: Route)
    requires r in RoutesFor(policies, a) && r in RoutesFor(policies, b)
    ensures !KeysApart(policies, a, b)
  {
    hide RoutesFor;
  }

  /** After any clean run from a rebuilt repository, its own route checkpoint can be restored if and only
      if the leases with routes were last installed in the order in which they stand. */
  lemma RunRestorable(
    policies: seq<Policy>, leases: seq<Lease>, turns: seq<Turn>, routeCapacity: nat, capacity: nat)
    requires UniqueResources(leases) && Housed(policies, leases, routeCapacity)
    requires Rebuild(leases, policies, routeCapacity).Some?
    requires CleanRun(policies, leases, turns, routeCapacity, capacity)
    ensures var end := RunLeases(leases, turns, capacity);
            Restorable(policies, end, routeCapacity,
                       RunRoutes(Rebuild(leases, policies, routeCapacity).value, turns, policies, routeCapacity))
            <==> Bearing(policies, end) == Bearing(policies, RunOrder(leases, turns))
  {
    hide Housed, Rebuild, UniqueResources, CleanRun, Separate, Reflects, RunLeases, RunRoutes, RunOrder, RoutesFor, Listed,
      KeysApart, Bearing;
    var routes := Rebuild(leases, policies, routeCapacity).value;
    RebuildReflects(leases, policies, routeCapacity);
    RebuildIsListed(leases, policies, routeCapacity);
    IncrementalEqualsRebuild(policies, leases, routes, turns, routeCapacity, capacity);
    RunKeepsOrder(policies, leases, leases, routes, turns, routeCapacity, capacity);
    var end, order := RunLeases(leases, turns, capacity), RunOrder(leases, turns);
    RebuildIsListed(end, policies, routeCapacity);
    ListedBearing(policies, end);
    ListedBearing(policies, order);
    if Listed(policies, end) == Listed(policies, order) {
      ApartByMembers(policies, end);
      ListedInjective(policies, Bearing(policies, end), Bearing(policies, order));
    }
  }

  lemma ApartByMembers(policies: seq<Policy>, leases: seq<Lease>)
    requires Separate(policies, leases)
    ensures forall l, k :: l in leases && k in leases && l != k ==> KeysApart(policies, l, k)
  {
    hide KeysApart;
    forall l, k | l in leases && k in leases && l != k
      ensures KeysApart(policies, l, k)
    {
      var i :| 0 <= i < |leases| && leases[i] == l;
      var j :| 0 <= j < |leases| && leases[j] == k;
    }
  }

  // ---------------------------------------------------------------- the routes, field by field

  /** The policy of an interface is the first that names it. */
  ghost predicate Governs(policies: seq<Policy>, k: nat, interface: nat)
    requires k < |policies|
  {
    policies[k].interface == interface && forall j :: 0 <= j < k ==> policies[j].interface != interface
  }

  /** The lease's own kind of route is switched on. */
  ghost predicate SwitchedOn(policies: seq<Policy>, l: Lease) {
    exists k :: 0 <= k < |policies| && Governs(policies, k, l.interface)
      && (l.protocol == NonTemporary ==> policies[k].routeNonTemporary)
      && (l.protocol == Temporary ==> policies[k].routeTemporary)
      && (l.protocol == DelegatedPrefix ==> policies[k].routeDelegated)
  }

  ghost predicate ExcludesPrefix(policies: seq<Policy>, l: Lease) {
    l.hasExcluded && exists k :: 0 <= k < |policies| && Governs(policies, k, l.interface) && policies[k].routeExclude
  }

  /** A route to the leased address or prefix by way of the relay peer the lease came through. */
  ghost predicate LeadsTo(r: Route, l: Lease) {
    && !r.blackhole && r.network == l.value && r.length == l.length && r.nextHop == l.peer
    && r.interface == l.interface && r.port == l.port && r.protocol == ForAddress(l.protocol)
  }

  /** A route without next hop that discards what is sent to the excluded prefix. */
  ghost predicate Discards(r: Route, l: Lease) {
    && r.blackhole && r.network == l.excluded && r.length == l.excludedLength && r.nextHop == 0
    && r.interface == l.interface && r.port == l.port && r.protocol == PrefixExclude
  }

  /** The list says of every live lease what it should, and of nothing else. */
  ghost predicate RoutesLeases(policies: seq<Policy>, leases: seq<Lease>, routes: seq<Route>) {
    && (forall r :: r in routes ==>
          exists l :: l in leases
            && ((LeadsTo(r, l) && SwitchedOn(policies, l)) || (Discards(r, l) && ExcludesPrefix(policies, l))))
    && (forall l :: l in leases && SwitchedOn(policies, l) ==> exists r :: r in routes && LeadsTo(r, l))
    && (forall l :: l in leases && ExcludesPrefix(policies, l) ==> exists r :: r in routes && Discards(r, l))
  }

  lemma {:induction false} PolicyGoverns(policies: seq<Policy>, interface: nat, k: nat)
    ensures PolicyOf(policies, interface).Some? ==>
              exists j :: 0 <= j < |policies| && Governs(policies, j, interface) && policies[j] == PolicyOf(policies, interface).value
    ensures k < |policies| && Governs(policies, k, interface) ==> PolicyOf(policies, interface) == Some(policies[k])
    decreases |policies|
  {
    if policies != [] {
      var rest := policies[1..];
      if policies[0].interface == interface {
        assert Governs(policies, 0, interface);
      } else {
        PolicyGoverns(rest, interface, if k > 0 then k - 1 else 0);
        if PolicyOf(rest, interface).Some? {
          var j :| 0 <= j < |rest| && Governs(rest, j, interface) && rest[j] == PolicyOf(rest, interface).value;
          assert policies[j + 1] == rest[j];
          assert Governs(policies, j + 1, interface);
        }
        if k < |policies| && Governs(policies, k, interface) {
          assert k > 0 && rest[k - 1] == policies[k];
          assert Governs(rest, k - 1, interface);
        }
      }
    }
  }

  lemma WantsByPolicy(policies: seq<Policy>, l: Lease)
    ensures WantsMain(policies, l) <==> SwitchedOn(policies, l)
    ensures WantsExclude(policies, l) <==> ExcludesPrefix(policies, l)
  {
    hide PolicyOf, Governs;
    forall k | 0 <= k < |policies|
      ensures Governs(policies, k, l.interface) ==> PolicyOf(policies, l.interface) == Some(policies[k])
    {
      PolicyGoverns(policies, l.interface, k);
    }
    PolicyGoverns(policies, l.interface, 0);
  }

  lemma RoutesByField(policies: seq<Policy>, l: Lease, r: Route)
    ensures r in RoutesFor(policies, l) <==>
              (LeadsTo(r, l) && SwitchedOn(policies, l)) || (Discards(r, l) && ExcludesPrefix(policies, l))
  {
    hide PolicyOf, SwitchedOn, ExcludesPrefix, WantsMain, WantsExclude;
    WantsByPolicy(policies, l);
    assert LeadsTo(r, l) <==> r == MainRoute(l);
    assert Discards(r, l) <==> r == ExcludeRoute(l);
  }

  lemma ReflectsRoutesLeases(policies: seq<Policy>, leases: seq<Lease>, routes: seq<Route>)
    requires Reflects(policies, leases, routes)
    ensures RoutesLeases(policies, leases, routes)
  {
    hide RoutesFor, SwitchedOn, ExcludesPrefix, NoDuplicates;
    forall r | r in routes
      ensures exists l :: l in leases
                && ((LeadsTo(r, l) && SwitchedOn(policies, l)) || (Discards(r, l) && ExcludesPrefix(policies, l)))
    {
      assert Wanted(policies, leases, r);
      var i :| 0 <= i < |leases| && r in RoutesFor(policies, leases[i]);
      RoutesByField(policies, leases[i], r);
      assert leases[i] in leases;
    }
    forall l | l in leases
      ensures SwitchedOn(policies, l) ==> exists r :: r in routes && LeadsTo(r, l)
      ensures ExcludesPrefix(policies, l) ==> exists r :: r in routes && Discards(r, l)
    {
      var i :| 0 <= i < |leases| && leases[i] == l;
      var main := Route(l.value, l.peer, l.interface, l.port, l.length, ForAddress(l.protocol), false);
      var hole := Route(l.excluded, 0, l.interface, l.port, l.excludedLength, PrefixExclude, true);
      RoutesByField(policies, l, main);
      RoutesByField(policies, l, hole);
      if SwitchedOn(policies, l) {
        assert LeadsTo(main, l) && main in RoutesFor(policies, leases[i]);
        assert Wanted(policies, leases, main);
      }
      if ExcludesPrefix(policies, l) {
        assert Discards(hole, l) && hole in RoutesFor(policies, leases[i]);
        assert Wanted(policies, leases, hole);
      }
    }
  }

  /** A rebuild yields, for every live lease whose kind is switched on, the route to it through its peer,
      for every excluded prefix that is switched on its blackhole, and nothing else. */
  lemma RebuildRoutesLeases(policies: seq<Policy>, leases: seq<Lease>, capacity: nat)
    requires Rebuild(leases, policies, capacity).Some?
    ensures RoutesLeases(policies, leases, Rebuild(leases, policies, capacity).value)
  {
    hide Rebuild, RoutesLeases;
    RebuildReflects(leases, policies, capacity);
    ReflectsRoutesLeases(policies, leases, Rebuild(leases, policies, capacity).value);
  }

  /** And so do the incremental routes after every clean run. */
  lemma RunRoutesLeases(
    policies: seq<Policy>, leases: seq<Lease>, routes: seq<Route>, turns: seq<Turn>, routeCapacity: nat, capacity: nat)
    requires InStep(policies, leases, routes, routeCapacity) && CleanRun(policies, leases, turns, routeCapacity, capacity)
    ensures RoutesLeases(policies, RunLeases(leases, turns, capacity), RunRoutes(routes, turns, policies, routeCapacity))
  {
    hide Rebuild, RoutesLeases, CleanRun, Housed, Separate, UniqueResources, Wanted, NoDuplicates;
    IncrementalEqualsRebuild(policies, leases, routes, turns, routeCapacity, capacity);
    ReflectsRoutesLeases(policies, RunLeases(leases, turns, capacity), RunRoutes(routes, turns, policies, routeCapacity));
  }

  // ---------------------------------------------------------------- what a Reply changes

  /** Resources are told apart by interface, length and value. */
  ghost predicate OneResource(a: Lease, b: Lease) {
    a.interface == b.interface && a.length == b.length && a.value == b.value
  }

  /** A Reply is refused exactly when it names a resource that is leased to another client or as another
      kind, or one that it has already assigned or withdrawn. */
  lemma ReplyIsStaged(leases: seq<Lease>, records: seq<(Lease, bool)>, start: int)
    ensures StageAll(leases, records, start).Some? <==>
              forall k :: 0 <= k < |records| ==>
                && (forall l :: l in leases && OneResource(l, records[k].0) ==>
                      l.client == records[k].0.client && l.protocol == records[k].0.protocol)
                && (forall j :: 0 <= j < k && OneResource(records[j].0, records[k].0) ==>
                      !records[j].1 && forall l :: l in leases && OneResource(l, records[j].0) ==>
                                          l.client != records[j].0.client || l.protocol != records[j].0.protocol)
  {
    hide StageAll, StageRecord;
    StageAllExactly(leases, records, start);
    forall k | 0 <= k < |records|
      ensures Acceptable(leases, records, k) <==>
                && (forall l :: l in leases && OneResource(l, records[k].0) ==>
                      l.client == records[k].0.client && l.protocol == records[k].0.protocol)
                && (forall j :: 0 <= j < k && OneResource(records[j].0, records[k].0) ==>
                      !records[j].1 && forall l :: l in leases && OneResource(l, records[j].0) ==>
                                          l.client != records[j].0.client || l.protocol != records[j].0.protocol)
    {
      AcceptableByField(leases, records, k);
    }
  }

  lemma AcceptableByField(leases: seq<Lease>, records: seq<(Lease, bool)>, k: nat)
    requires k < |records|
    ensures Acceptable(leases, records, k) <==>
              && (forall l :: l in leases && OneResource(l, records[k].0) ==>
                    l.client == records[k].0.client && l.protocol == records[k].0.protocol)
              && (forall j :: 0 <= j < k && OneResource(records[j].0, records[k].0) ==>
                    !records[j].1 && forall l :: l in leases && OneResource(l, records[j].0) ==>
                                        l.client != records[j].0.client || l.protocol != records[j].0.protocol)
  {
    hide LeaseIndex;
    forall j | 0 <= j < |records|
      ensures LeaseIndex(leases, records[j].0) < |leases| <==>
                exists l :: l in leases && OneResource(l, records[j].0)
                            && l.client == records[j].0.client && l.protocol == records[j].0.protocol
    {
      var i := LeaseIndex(leases, records[j].0);
      if i < |leases| {
        assert leases[i] in leases;
      }
      if l :| l in leases && OneResource(l, records[j].0)
              && l.client == records[j].0.client && l.protocol == records[j].0.protocol {
        var m :| 0 <= m < |leases| && leases[m] == l;
      }
    }
    forall i | 0 <= i < |leases|
      ensures leases[i] in leases
    {
    }
  }

  /** A batch that is committed to its end leaves exactly the leases it installed and those whose resource
      it does not name. */
  lemma {:induction false} CommitContents(policies: seq<Policy>, leases: seq<Lease>, batch: seq<Mutation>, capacity: nat)
    requires UniqueResources(leases) && StagedBatch(leases, batch) && Commit(leases, batch, capacity).1
    ensures forall l :: l in Commit(leases, batch, capacity).0 <==>
              Install(l) in batch || (l in leases && forall m :: m in batch ==> !OneResource(l, m.lease))
    decreases |batch|
  {
    if batch != [] {
      var m, rest := batch[0], batch[1..];
      var first := ApplyOne(leases, m, capacity).value;
      StagedTail(leases, batch, capacity);
      AppliedLeases(policies, leases, m, capacity);
      CommitContents(policies, first, rest, capacity);
      AppliedByResource(leases, m, capacity);
      hide Commit, ApplyOne, UniqueResources, StagedBatch, Staged;
      assert forall x :: x in batch <==> x == m || x in rest;
      BatchApart(leases, batch);
      forall l
        ensures l in Commit(first, rest, capacity).0 <==>
                  Install(l) in batch || (l in leases && forall x :: x in batch ==> !OneResource(l, x.lease))
      {
      }
    }
  }

  lemma BatchApart(leases: seq<Lease>, batch: seq<Mutation>)
    requires StagedBatch(leases, batch) && batch != []
    ensures forall x :: x in batch[1..] ==> !OneResource(batch[0].lease, x.lease) && !OneResource(x.lease, batch[0].lease)
  {
    forall x | x in batch[1..]
      ensures !SameResource(batch[0].lease, x.lease)
    {
      var k :| 0 <= k < |batch[1..]| && batch[1..][k] == x;
      assert batch[k + 1] == x;
    }
  }

  lemma AppliedByResource(leases: seq<Lease>, m: Mutation, capacity: nat)
    requires UniqueResources(leases) && Staged(leases, m) && ApplyOne(leases, m, capacity).Some?
    ensures forall l :: l in ApplyOne(leases, m, capacity).value <==>
              (m.Install? && l == m.lease) || (l in leases && !OneResource(l, m.lease))
  {
    AppliedMembers(leases, m, capacity);
    OthersMembers(leases, m);
    StagedByMembers(leases, m);
    hide LeaseIndex, Others, ApplyOne, Staged, UniqueResources;
  }
}
