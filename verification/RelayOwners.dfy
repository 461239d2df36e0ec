/** The two owners of DHCPv6 relay state in place, what staging promises about a batch, when a commit
    runs to its end, and when a checkpoint can be restored. */
module RelayOwners {
  import opened Options
  import opened RelayRoutes

  // ---------------------------------------------------------------- staging a Reply

  /** Staging one resource of a Reply: the batch so far, the projected number of leases, and None for a
      conflicting Reply. A zero lifetime withdraws. */
  function StageRecord(leases: seq<Lease>, prepared: seq<Mutation>, projected: int, l: Lease, alive: bool)
    : Option<(seq<Mutation>, int)>
  {
    var i := LeaseIndex(leases, l);
    if exists k :: 0 <= k < |prepared| && (SameLease(prepared[k].lease, l) || SameResource(prepared[k].lease, l)) then None
    else if exists k :: 0 <= k < |leases| && SameResource(leases[k], l) && !SameLease(leases[k], l) then None
    else if !alive then
      if i < |leases| then Some((prepared + [Remove(leases[i])], projected - 1)) else Some((prepared, projected))
    else Some((prepared + [Install(l)], if i < |leases| then projected else projected + 1))
  }

  ghost predicate Apart(batch: seq<Mutation>) {
    forall i, j :: 0 <= i < j < |batch| ==> !SameResource(batch[i].lease, batch[j].lease)
  }

  /** Every mutation fits the live leases, and no two of them name one resource. */
  ghost predicate StagedBatch(leases: seq<Lease>, batch: seq<Mutation>) {
    Apart(batch) && forall k :: 0 <= k < |batch| ==> Staged(leases, batch[k])
  }

  /** By how much a mutation changes the number of leases. */
  function Delta(leases: seq<Lease>, m: Mutation): int {
    var live := LeaseIndex(leases, m.lease) < |leases|;
    if m.Install? then if live then 0 else 1 else if live then -1 else 0
  }

  function Net(leases: seq<Lease>, batch: seq<Mutation>): int
    decreases |batch|
  {
    if batch == [] then 0 else Net(leases, batch[..|batch| - 1]) + Delta(leases, batch[|batch| - 1])
  }

  /** Staging keeps the batch well formed, and its projection counts the batch as a whole. */
  lemma StageRecordExtends(leases: seq<Lease>, prepared: seq<Mutation>, projected: int, l: Lease, alive: bool)
    requires UniqueResources(leases) && StagedBatch(leases, prepared)
    requires StageRecord(leases, prepared, projected, l, alive).Some?
    ensures var (batch, projected') := StageRecord(leases, prepared, projected, l, alive).value;
            && StagedBatch(leases, batch) && projected' - Net(leases, batch) == projected - Net(leases, prepared)
            && |prepared| <= |batch| && batch[..|prepared|] == prepared
            && forall k :: |prepared| <= k < |batch| ==> batch[k].lease.interface == l.interface
  {
    hide LeaseIndex;
    var (batch, projected') := StageRecord(leases, prepared, projected, l, alive).value;
    if batch != prepared {
      var m := batch[|prepared|];
      assert batch == prepared + [m] && batch[..|batch| - 1] == prepared;
      SameIndex(leases, l, m.lease);
      hide SameLease;
      NewlyStaged(leases, l, m);
    }
  }

  /** Staging the resources of a Reply in order; None when one of them conflicts. */
  function StageAll(leases: seq<Lease>, records: seq<(Lease, bool)>, start: int): Option<(seq<Mutation>, int)>
    decreases |records|
  {
    if records == [] then Some(([], start))
    else
      var before := StageAll(leases, records[..|records| - 1], start);
      if before.None? then None
      else StageRecord(leases, before.value.0, before.value.1, records[|records| - 1].0, records[|records| - 1].1)
  }

  /** A conflicting resource spoils the Reply whatever follows. */
  lemma {:induction false} StageAllStops(leases: seq<Lease>, records: seq<(Lease, bool)>, start: int, k: nat)
    requires k <= |records| && StageAll(leases, records[..k], start).None?
    ensures StageAll(leases, records, start).None?
    decreases |records|
  {
    hide StageRecord;
    if k == |records| {
      assert records[..k] == records;
    } else {
      assert records[..|records| - 1][..k] == records[..k];
      StageAllStops(leases, records[..|records| - 1], start, k);
    }
  }

  /** The resource changes something: it is assigned, or it is withdrawn and live. */
  predicate Effective(leases: seq<Lease>, r: (Lease, bool)) {
    r.1 || LeaseIndex(leases, r.0) < |leases|
  }

  /** What an effective resource is staged as. */
  function StagedAs(leases: seq<Lease>, r: (Lease, bool)): Mutation
    requires Effective(leases, r)
  {
    if r.1 then Install(r.0) else Remove(leases[LeaseIndex(leases, r.0)])
  }

  /** No live lease of another client has the resource, and no earlier part of the Reply named it. */
  ghost predicate Acceptable(leases: seq<Lease>, records: seq<(Lease, bool)>, k: nat)
    requires k < |records|
  {
    && (forall i :: 0 <= i < |leases| && SameResource(leases[i], records[k].0) ==> SameLease(leases[i], records[k].0))
    && (forall j :: 0 <= j < k && Effective(leases, records[j]) ==> !SameResource(records[j].0, records[k].0))
  }

  /** A Reply is staged if and only if every resource is acceptable, and then the batch consists of what
      its effective resources are staged as. */
  lemma {:induction false} StageAllExactly(leases: seq<Lease>, records: seq<(Lease, bool)>, start: int)
    ensures StageAll(leases, records, start).Some? <==> forall k :: 0 <= k < |records| ==> Acceptable(leases, records, k)
    ensures StageAll(leases, records, start).Some? ==>
              forall m :: m in StageAll(leases, records, start).value.0 <==>
                exists k :: 0 <= k < |records| && Effective(leases, records[k]) && m == StagedAs(leases, records[k])
    decreases |records|
  {
    if records != [] {
      var n := |records| - 1;
      var before, r := records[..n], records[n];
      StageAllExactly(leases, before, start);
      AcceptablePrefix(leases, records);
      var prior := StageAll(leases, before, start);
      if prior.Some? {
        var batch := prior.value.0;
        StagedTwice(leases, before, batch, r);
        hide SameLease, SameResource, LeaseIndex;
        assert Acceptable(leases, records, n) <==> StageRecord(leases, batch, prior.value.1, r.0, r.1).Some?;
        assert forall k :: 0 <= k < n ==> before[k] == records[k];
      } else {
        var k :| 0 <= k < n && !Acceptable(leases, before, k);
        assert !Acceptable(leases, records, k);
      }
    }
  }

  lemma AcceptablePrefix(leases: seq<Lease>, records: seq<(Lease, bool)>)
    requires records != []
    ensures forall k :: 0 <= k < |records| - 1 ==>
              (Acceptable(leases, records[..|records| - 1], k) <==> Acceptable(leases, records, k))
  {
    hide SameLease, SameResource, Effective;
  }

  /** A resource meets the batch exactly when it meets an effective resource before it. */
  lemma StagedTwice(leases: seq<Lease>, before: seq<(Lease, bool)>, batch: seq<Mutation>, r: (Lease, bool))
    requires forall m :: m in batch <==>
               exists k :: 0 <= k < |before| && Effective(leases, before[k]) && m == StagedAs(leases, before[k])
    ensures (exists k :: 0 <= k < |batch| && (SameLease(batch[k].lease, r.0) || SameResource(batch[k].lease, r.0)))
            <==> exists j :: 0 <= j < |before| && Effective(leases, before[j]) && SameResource(before[j].0, r.0)
  {
    if k :| 0 <= k < |batch| && (SameLease(batch[k].lease, r.0) || SameResource(batch[k].lease, r.0)) {
      assert batch[k] in batch;
      var j :| 0 <= j < |before| && Effective(leases, before[j]) && batch[k] == StagedAs(leases, before[j]);
      StagedResource(leases, before[j], r.0);
    }
    if j :| 0 <= j < |before| && Effective(leases, before[j]) && SameResource(before[j].0, r.0) {
      var m := StagedAs(leases, before[j]);
      assert m in batch;
      var k :| 0 <= k < |batch| && batch[k] == m;
      StagedResource(leases, before[j], r.0);
    }
  }

  lemma StagedResource(leases: seq<Lease>, r: (Lease, bool), l: Lease)
    requires Effective(leases, r)
    ensures SameResource(StagedAs(leases, r).lease, l) <==> SameResource(r.0, l)
  {
    hide LeaseIndex;
  }

  lemma SameIndex(leases: seq<Lease>, a: Lease, b: Lease)
    requires SameLease(a, b)
    ensures LeaseIndex(leases, a) == LeaseIndex(leases, b)
  {
  }

  lemma NewlyStaged(leases: seq<Lease>, l: Lease, m: Mutation)
    requires UniqueResources(leases) && LeaseIndex(leases, m.lease) == LeaseIndex(leases, l)
    requires m == Install(l) || (LeaseIndex(leases, l) < |leases| && m == Remove(leases[LeaseIndex(leases, l)]))
    requires forall k :: 0 <= k < |leases| && SameResource(leases[k], l) ==> SameLease(leases[k], l)
    ensures Staged(leases, m) && SameResource(m.lease, l)
  {
    var i := LeaseIndex(leases, l);
    hide LeaseIndex;
    assert forall j :: 0 <= j < |leases| && j != i && SameLease(leases[j], l) ==> i < j;
  }

  // ---------------------------------------------------------------- committing a batch

  /** The position `k` holds the only lease of a resource, and it is the named lease; or `k` is the
      length and the resource is free. */
  ghost predicate OnlyAt(leases: seq<Lease>, l: Lease, k: nat) {
    && k <= |leases|
    && (k < |leases| ==> SameLease(leases[k], l))
    && forall j :: 0 <= j < |leases| && j != k ==> !SameResource(leases[j], l)
  }

  lemma OnlyAtIndex(leases: seq<Lease>, l: Lease, k: nat)
    requires OnlyAt(leases, l, k)
    ensures LeaseIndex(leases, l) == k
  {
  }

  lemma OnlyAfterRemoval(leases: seq<Lease>, i: nat, l: Lease, k: nat)
    requires OnlyAt(leases, l, k) && i < |leases| && i != k
    ensures OnlyAt(DropAt(leases, i), l, Slot(k, i))
  {
    hide SameLease, SameResource;
  }

  /** A mutation of another resource changes neither the fit of a later one nor its count. */
  lemma StagedSurvives(leases: seq<Lease>, first: Mutation, later: Mutation, capacity: nat)
    requires UniqueResources(leases) && Staged(leases, first) && Staged(leases, later)
    requires !SameResource(first.lease, later.lease) && ApplyOne(leases, first, capacity).Some?
    ensures Staged(ApplyOne(leases, first, capacity).value, later)
    ensures Delta(ApplyOne(leases, first, capacity).value, later) == Delta(leases, later)
  {
    var leases' := ApplyOne(leases, first, capacity).value;
    var i, k := LeaseIndex(leases, first.lease), LeaseIndex(leases, later.lease);
    hide LeaseIndex, UniqueResources;
    assert OnlyAt(leases, later.lease, k);
    if first.Remove? {
      assert i != k;
      OnlyAfterRemoval(leases, i, later.lease, k);
      OnlyAtIndex(leases', later.lease, Slot(k, i));
    } else {
      var k' := if k < |leases| then k else |leases'|;
      assert OnlyAt(leases', later.lease, k');
      OnlyAtIndex(leases', later.lease, k');
    }
  }

  lemma StagedTail(leases: seq<Lease>, batch: seq<Mutation>, capacity: nat)
    requires UniqueResources(leases) && StagedBatch(leases, batch) && batch != []
    requires ApplyOne(leases, batch[0], capacity).Some?
    ensures var leases' := ApplyOne(leases, batch[0], capacity).value;
            && UniqueResources(leases') && StagedBatch(leases', batch[1..])
            && |leases'| == |leases| + Delta(leases, batch[0])
            && forall k :: 1 <= k < |batch| ==> Delta(leases', batch[k]) == Delta(leases, batch[k])
  {
    AppliedLeases([], leases, batch[0], capacity);
    var leases' := ApplyOne(leases, batch[0], capacity).value;
    hide UniqueResources, Staged, ApplyOne, Delta, SameResource;
    forall k | 1 <= k < |batch|
      ensures Staged(leases', batch[k]) && Delta(leases', batch[k]) == Delta(leases, batch[k])
    {
      StagedSurvives(leases, batch[0], batch[k], capacity);
    }
    SizeAfter(leases, batch[0], capacity);
  }

  lemma SizeAfter(leases: seq<Lease>, m: Mutation, capacity: nat)
    requires ApplyOne(leases, m, capacity).Some?
    ensures |ApplyOne(leases, m, capacity).value| == |leases| + Delta(leases, m)
  {
    hide LeaseIndex;
  }

  /** The number of leases after the first `k` mutations. */
  function Level(leases: seq<Lease>, batch: seq<Mutation>, k: nat): int
    requires k <= |batch|
  {
    |leases| + Net(leases, batch[..k])
  }

  lemma {:induction false} NetAlike(a: seq<Lease>, b: seq<Lease>, batch: seq<Mutation>)
    requires forall k :: 0 <= k < |batch| ==> Delta(a, batch[k]) == Delta(b, batch[k])
    ensures Net(a, batch) == Net(b, batch)
    decreases |batch|
  {
    if batch != [] {
      NetAlike(a, b, batch[..|batch| - 1]);
    }
  }

  lemma {:induction false} NetHead(leases: seq<Lease>, batch: seq<Mutation>)
    requires batch != []
    ensures Net(leases, batch) == Delta(leases, batch[0]) + Net(leases, batch[1..])
    decreases |batch|
  {
    hide Delta;
    if |batch| == 1 {
      assert batch[..0] == [] && batch[1..] == [];
      assert Net(leases, batch[..0]) == 0;
    } else {
      var before := batch[..|batch| - 1];
      NetHead(leases, before);
      assert batch[1..][..|batch[1..]| - 1] == before[1..];
    }
  }

  lemma LevelShift(leases: seq<Lease>, batch: seq<Mutation>, capacity: nat, k: nat)
    requires UniqueResources(leases) && StagedBatch(leases, batch) && 1 <= k <= |batch|
    requires ApplyOne(leases, batch[0], capacity).Some?
    ensures Level(ApplyOne(leases, batch[0], capacity).value, batch[1..], k - 1) == Level(leases, batch, k)
  {
    var leases' := ApplyOne(leases, batch[0], capacity).value;
    StagedTail(leases, batch, capacity);
    hide UniqueResources, StagedBatch, ApplyOne, Delta;
    NetHead(leases, batch[..k]);
    assert batch[..k][1..] == batch[1..][..k - 1];
    NetAlike(leases', leases, batch[1..][..k - 1]);
  }

  /** A staged batch is committed to its end exactly when the number of leases stays within the
      reserved space all the way, not only at the end; then it changes by the net of the batch. The
      preparation looks at the end alone. */
  lemma {:induction false} CommitCompletes(leases: seq<Lease>, batch: seq<Mutation>, capacity: nat)
    requires UniqueResources(leases) && StagedBatch(leases, batch) && |leases| <= capacity
    ensures Commit(leases, batch, capacity).1 <==> forall k :: 0 <= k <= |batch| ==> Level(leases, batch, k) <= capacity
    ensures UniqueResources(Commit(leases, batch, capacity).0)
    ensures Commit(leases, batch, capacity).1 ==>
              |Commit(leases, batch, capacity).0| == |leases| + Net(leases, batch)
    decreases |batch|
  {
    if batch == [] {
      assert batch[..0] == [];
    } else {
      hide UniqueResources, StagedBatch;
      FirstLevel(leases, batch, capacity);
      if ApplyOne(leases, batch[0], capacity).Some? {
        var leases' := ApplyOne(leases, batch[0], capacity).value;
        StagedTail(leases, batch, capacity);
        NetHead(leases, batch);
        assert batch[..|batch|] == batch && batch[1..][..|batch| - 1] == batch[1..];
        LevelShift(leases, batch, capacity, |batch|);
        hide ApplyOne, Delta, Level;
        if |leases'| <= capacity {
          CommitCompletes(leases', batch[1..], capacity);
          forall k | 1 <= k <= |batch|
            ensures Level(leases', batch[1..], k - 1) == Level(leases, batch, k)
          {
            LevelShift(leases, batch, capacity, k);
          }
          LevelsShift(leases, leases', batch, capacity);
        }
      }
    }
  }

  /** Leases of one interface. */
  function CountOn(leases: seq<Lease>, interface: nat): nat {
    if leases == [] then 0
    else CountOn(leases[..|leases| - 1], interface) + if leases[|leases| - 1].interface == interface then 1 else 0
  }

  lemma {:induction false} CountOfJoin(a: seq<Lease>, b: seq<Lease>, interface: nat)
    ensures CountOn(a + b, interface) == CountOn(a, interface) + CountOn(b, interface)
    decreases |b|
  {
    if b == [] {
      assert a + b == a;
    } else {
      assert (a + b)[..|a + b| - 1] == a + b[..|b| - 1];
      CountOfJoin(a, b[..|b| - 1], interface);
    }
  }

  lemma CountOfOne(l: Lease, interface: nat)
    ensures CountOn([l], interface) == if l.interface == interface then 1 else 0
  {
    assert [l][..0] == [];
  }

  lemma CountAfter(leases: seq<Lease>, m: Mutation, capacity: nat)
    requires ApplyOne(leases, m, capacity).Some?
    ensures CountOn(ApplyOne(leases, m, capacity).value, m.lease.interface)
         == CountOn(leases, m.lease.interface) + Delta(leases, m)
  {
    hide LeaseIndex, CountOn;
    var i, on := LeaseIndex(leases, m.lease), m.lease.interface;
    CountOfOne(m.lease, on);
    if i < |leases| {
      assert leases == (leases[..i] + [leases[i]]) + leases[i + 1..];
      CountOfJoin(leases[..i] + [leases[i]], leases[i + 1..], on);
      CountOfJoin(leases[..i], [leases[i]], on);
      CountOfOne(leases[i], on);
      CountOfJoin(leases[..i], leases[i + 1..], on);
      CountOfJoin(leases[..i] + [m.lease], leases[i + 1..], on);
      CountOfJoin(leases[..i], [m.lease], on);
      assert leases[i := m.lease] == (leases[..i] + [m.lease]) + leases[i + 1..];
    } else {
      CountOfJoin(leases, [m.lease], on);
    }
  }

  /** What preparation projects is what the interface has after the commit. */
  lemma {:induction false} ProjectionIsFinal(leases: seq<Lease>, batch: seq<Mutation>, capacity: nat, interface: nat)
    requires UniqueResources(leases) && StagedBatch(leases, batch) && Commit(leases, batch, capacity).1
    requires forall k :: 0 <= k < |batch| ==> batch[k].lease.interface == interface
    ensures CountOn(Commit(leases, batch, capacity).0, interface) == CountOn(leases, interface) + Net(leases, batch)
    decreases |batch|
  {
    if batch != [] {
      hide UniqueResources, StagedBatch, CountOn;
      StagedTail(leases, batch, capacity);
      CountAfter(leases, batch[0], capacity);
      NetHead(leases, batch);
      var leases' := ApplyOne(leases, batch[0], capacity).value;
      hide ApplyOne, Delta;
      NetAlike(leases', leases, batch[1..]);
      ProjectionIsFinal(leases', batch[1..], capacity, interface);
    }
  }

  lemma LevelsShift(leases: seq<Lease>, leases': seq<Lease>, batch: seq<Mutation>, capacity: nat)
    requires batch != [] && |leases| <= capacity
    requires forall k :: 1 <= k <= |batch| ==> Level(leases', batch[1..], k - 1) == Level(leases, batch, k)
    ensures (forall k :: 0 <= k <= |batch| - 1 ==> Level(leases', batch[1..], k) <= capacity)
            <==> (forall k :: 0 <= k <= |batch| ==> Level(leases, batch, k) <= capacity)
  {
    assert batch[..0] == [];
    assert Level(leases, batch, 0) == |leases|;
    hide Level;
    if forall k :: 0 <= k <= |batch| ==> Level(leases, batch, k) <= capacity {
      forall k | 0 <= k <= |batch| - 1
        ensures Level(leases', batch[1..], k) <= capacity
      {
        assert Level(leases', batch[1..], k + 1 - 1) == Level(leases, batch, k + 1);
      }
    }
    if forall k :: 0 <= k <= |batch| - 1 ==> Level(leases', batch[1..], k) <= capacity {
      forall k | 0 <= k <= |batch|
        ensures Level(leases, batch, k) <= capacity
      {
        if k > 0 {
          assert Level(leases', batch[1..], k - 1) == Level(leases, batch, k);
        }
      }
    }
  }

  lemma FirstLevel(leases: seq<Lease>, batch: seq<Mutation>, capacity: nat)
    requires batch != [] && |leases| <= capacity
    ensures Level(leases, batch, 1) == |leases| + Delta(leases, batch[0])
    ensures ApplyOne(leases, batch[0], capacity).Some? <==> Level(leases, batch, 1) <= capacity
  {
    hide LeaseIndex;
    var one := batch[..1];
    assert one == [batch[0]] && one[..|one| - 1] == [];
    assert Net(leases, []) == 0;
  }

  /** A Reply that assigns before it withdraws, at a full repository: preparation projects a count
      that fits, the commit stops half way, and the old lease stays. */
  lemma LateWithdrawalIsRefused(held: Lease, granted: Lease)
    requires !SameResource(held, granted)
    ensures var first := StageRecord([held], [], 1, granted, true);
            && first == Some(([Install(granted)], 2))
            && StageRecord([held], [Install(granted)], 2, held, false) == Some(([Install(granted), Remove(held)], 1))
            && Commit([held], [Install(granted), Remove(held)], 1) == ([held], false)
            && Commit([held], [Remove(held), Install(granted)], 1) == ([granted], true)
  {
    assert LeaseIndex([held][1..], granted) == 0;
    assert LeaseIndex([held], granted) == 1 && LeaseIndex([held], held) == 0;
    assert !SameResource(granted, held) && !SameLease(granted, held);
    assert [] + [Install(granted)] == [Install(granted)];
    assert [Install(granted)] + [Remove(held)] == [Install(granted), Remove(held)];
    assert DropAt([held], 0) == [];
    assert [Remove(held), Install(granted)][1..] == [Install(granted)];
    assert [] + [granted] == [granted] && [Install(granted)][1..] == [];
    assert LeaseIndex([], granted) == 0 && ApplyOne([], Install(granted), 1) == Some([granted]);
    assert Commit([], [Install(granted)], 1) == ([granted], true);
  }

  // ---------------------------------------------------------------- restoring a checkpoint

  /** The routes in lease order. */
  function Listed(policies: seq<Policy>, leases: seq<Lease>): (routes: seq<Route>)
    ensures forall r :: r in routes <==> Wanted(policies, leases, r)
    decreases |leases|
  {
    if leases == [] then []
    else
      WantedAppend(policies, leases[..|leases| - 1], leases[|leases| - 1]);
      assert leases == leases[..|leases| - 1] + [leases[|leases| - 1]];
      Listed(policies, leases[..|leases| - 1]) + RoutesFor(policies, leases[|leases| - 1])
  }

  lemma {:induction false} ListedAppend(policies: seq<Policy>, a: seq<Lease>, b: seq<Lease>)
    ensures Listed(policies, a + b) == Listed(policies, a) + Listed(policies, b)
    decreases |b|
  {
    if b == [] {
      assert a + b == a;
    } else {
      hide RoutesFor, Wanted;
      assert (a + b)[..|a + b| - 1] == a + b[..|b| - 1];
      ListedAppend(policies, a, b[..|b| - 1]);
    }
  }

  lemma ListedOne(policies: seq<Policy>, l: Lease)
    ensures Listed(policies, [l]) == RoutesFor(policies, l)
  {
    hide RoutesFor, Wanted;
    assert [l][..0] == [];
    assert Listed(policies, []) == [];
  }

  lemma {:induction false} RebuildIsListed(leases: seq<Lease>, policies: seq<Policy>, capacity: nat)
    requires Rebuild(leases, policies, capacity).Some?
    ensures Rebuild(leases, policies, capacity).value == Listed(policies, leases)
    decreases |leases|
  {
    if leases != [] {
      hide RoutesFor, AppendLease, Wanted, PolicyOf;
      var before, l := leases[..|leases| - 1], leases[|leases| - 1];
      RebuildIsListed(before, policies, capacity);
      AppendMembers(Rebuild(before, policies, capacity).value, l, policies, capacity);
    }
  }

  lemma {:induction false} EraseAppend(a: seq<Route>, b: seq<Route>, key: RouteKey)
    ensures Erase(a + b, key) == Erase(a, key) + Erase(b, key)
    decreases |a|
  {
    if a == [] {
      assert a + b == b;
    } else {
      assert (a + b)[1..] == a[1..] + b;
      EraseAppend(a[1..], b, key);
    }
  }

  lemma {:induction false} EraseNothing(a: seq<Route>, key: RouteKey)
    requires forall r :: r in a ==> KeyOf(r) != key
    ensures Erase(a, key) == a
    decreases |a|
  {
    if a != [] {
      EraseNothing(a[1..], key);
    }
  }

  lemma ClearedAppend(a: seq<Route>, b: seq<Route>, l: Lease)
    ensures Cleared(a + b, l) == Cleared(a, l) + Cleared(b, l)
  {
    hide Erase;
    EraseAppend(a, b, MainKey(l));
    EraseAppend(Erase(a, MainKey(l)), Erase(b, MainKey(l)), ExcludeKey(l));
  }

  lemma ClearedNothing(a: seq<Route>, l: Lease)
    requires forall r :: r in a ==> KeyOf(r) != MainKey(l) && (l.hasExcluded ==> KeyOf(r) != ExcludeKey(l))
    ensures Cleared(a, l) == a
  {
    hide Erase;
    EraseNothing(a, MainKey(l));
    if l.hasExcluded {
      EraseNothing(a, ExcludeKey(l));
    }
  }

  lemma ClearedOwn(policies: seq<Policy>, leases: seq<Lease>, m: Mutation)
    requires LeaseIndex(leases, m.lease) < |leases| && !LeavesStale(policies, leases, m)
    ensures Cleared(RoutesFor(policies, leases[LeaseIndex(leases, m.lease)]), m.lease) == []
  {
    hide PolicyOf, LeaseIndex, Erase;
    var own := RoutesFor(policies, leases[LeaseIndex(leases, m.lease)]);
    var cleared := Cleared(own, m.lease);
    ClearedMembers(own, m.lease);
    forall r
      ensures r !in cleared
    {
    }
    hide Cleared;
    NoMembers(cleared);
  }

  lemma NoMembers(routes: seq<Route>)
    requires forall r :: r !in routes
    ensures routes == []
  {
    assert forall r :: r in routes <==> r in multiset(routes);
    assert multiset(routes) == multiset{};
    assert |routes| == |multiset(routes)|;
  }

  /** A clean renewal moves the routes of the lease behind all others. */
  lemma RenewedList(policies: seq<Policy>, leases: seq<Lease>, m: Mutation, capacity: nat)
    requires UniqueResources(leases) && Staged(leases, m) && Separate(policies, leases)
    requires Reflects(policies, leases, Listed(policies, leases))
    requires m.Install? && LeaseIndex(leases, m.lease) < |leases|
    requires !LeavesStale(policies, leases, m) && !Collides(policies, leases, m)
    requires StageOne(Listed(policies, leases), m, policies, capacity).Some?
    ensures var k := LeaseIndex(leases, m.lease);
            StageOne(Listed(policies, leases), m, policies, capacity).value
            == Listed(policies, leases[..k]) + Listed(policies, leases[k + 1..]) + RoutesFor(policies, m.lease)
  {
    hide PolicyOf, LeaseIndex, Separate, UniqueResources, Staged, LeavesStale, Collides, RoutesFor, AppendLease,
      Listed, Cleared, NoDuplicates, HasKey;
    var k := LeaseIndex(leases, m.lease);
    var before, own, behind := Listed(policies, leases[..k]), RoutesFor(policies, leases[k]), Listed(policies, leases[k + 1..]);
    SplitList(policies, leases, k);
    ClearedReflectsOthers(policies, leases, Listed(policies, leases), m);
    ClearedOwn(policies, leases, m);
    ClearedMembers(Listed(policies, leases), m.lease);
    AppendMembers(Cleared(Listed(policies, leases), m.lease), m.lease, policies, capacity);
    OthersList(policies, leases, m);
    ClearedAppend(before + own, behind, m.lease);
    ClearedAppend(before, own, m.lease);
    hide Reflects, Wanted;
    ClearedNothing(before, m.lease);
    ClearedNothing(behind, m.lease);
  }

  lemma OthersList(policies: seq<Policy>, leases: seq<Lease>, m: Mutation)
    requires LeaseIndex(leases, m.lease) < |leases|
    ensures var k := LeaseIndex(leases, m.lease);
            forall r :: r in Listed(policies, leases[..k]) || r in Listed(policies, leases[k + 1..]) ==>
              Wanted(policies, Others(leases, m), r)
  {
    hide LeaseIndex, RoutesFor, Wanted;
    var k := LeaseIndex(leases, m.lease);
    ListedAppend(policies, leases[..k], leases[k + 1..]);
    assert Others(leases, m) == leases[..k] + leases[k + 1..];
    assert forall r :: r in Listed(policies, Others(leases, m)) ==> Wanted(policies, Others(leases, m), r);
  }

  lemma SplitList(policies: seq<Policy>, leases: seq<Lease>, k: nat)
    requires k < |leases|
    ensures Listed(policies, leases)
         == Listed(policies, leases[..k]) + RoutesFor(policies, leases[k]) + Listed(policies, leases[k + 1..])
  {
    hide Listed, RoutesFor;
    assert leases == (leases[..k] + [leases[k]]) + leases[k + 1..];
    ListedAppend(policies, leases[..k] + [leases[k]], leases[k + 1..]);
    ListedAppend(policies, leases[..k], [leases[k]]);
    ListedOne(policies, leases[k]);
  }

  /** Restore accepts a list of routes only in the order in which a rebuild yields them. */
  predicate Restorable(policies: seq<Policy>, leases: seq<Lease>, capacity: nat, state: seq<Route>) {
    Rebuild(leases, policies, capacity) == Some(state)
  }

  /** After one clean renewal of a rebuilt repository, its own checkpoint can be restored exactly when
      the renewed lease has no route or no later lease has one: the renewal put its routes last. */
  lemma RenewalRestorable(policies: seq<Policy>, leases: seq<Lease>, m: Mutation, capacity: nat, leaseCapacity: nat)
    requires UniqueResources(leases) && Staged(leases, m)
    requires m.Install? && LeaseIndex(leases, m.lease) < |leases|
    requires !LeavesStale(policies, leases, m) && !Collides(policies, leases, m)
    requires Rebuild(leases, policies, capacity).Some?
    requires StageOne(Rebuild(leases, policies, capacity).value, m, policies, capacity).Some?
    requires Rebuild(ApplyOne(leases, m, leaseCapacity).value, policies, capacity).Some?
    ensures Restorable(policies, ApplyOne(leases, m, leaseCapacity).value, capacity,
                       StageOne(Rebuild(leases, policies, capacity).value, m, policies, capacity).value)
            <==> RoutesFor(policies, m.lease) == [] || Listed(policies, leases[LeaseIndex(leases, m.lease) + 1..]) == []
  {
    hide PolicyOf, LeaseIndex, Separate, UniqueResources, Staged, LeavesStale, Collides, RoutesFor, StageOne, Rebuild,
      Listed, Reflects, KeyOf;
    var k := LeaseIndex(leases, m.lease);
    var leases' := ApplyOne(leases, m, leaseCapacity).value;
    RebuildReflects(leases, policies, capacity);
    RebuildIsListed(leases, policies, capacity);
    RebuildReflects(leases', policies, capacity);
    RebuildIsListed(leases', policies, capacity);
    RenewedList(policies, leases, m, capacity);
    SplitList(policies, leases', k);
    assert leases' == leases[k := m.lease];
    assert leases'[..k] == leases[..k] && leases'[k + 1..] == leases[k + 1..];
    var own, behind := RoutesFor(policies, m.lease), Listed(policies, leases[k + 1..]);
    DistinctRoutes(policies, leases', Rebuild(leases', policies, capacity).value);
    SwapNever(Listed(policies, leases[..k]), own, behind, Rebuild(leases', policies, capacity).value);
  }

  function Address(value: nat, rest: nat): Lease {
    Lease(1, value, 7, 1, 1, 128, NonTemporary, false, 0, 0, rest)
  }

  /** Two address leases, of which the first is renewed: the repository's own routes are refused. */
  lemma RenewalExample(value: nat, other: nat)
    requires value != other
    ensures var policies := [Policy(1, 10, true, true, true, true)];
            var held, second, renewed := Address(value, 0), Address(other, 0), Address(value, 1);
            && Rebuild([held, second], policies, 20) == Some([MainRoute(held), MainRoute(second)])
            && ApplyOne([held, second], Install(renewed), 10) == Some([renewed, second])
            && StageOne([MainRoute(held), MainRoute(second)], Install(renewed), policies, 20)
               == Some([MainRoute(second), MainRoute(renewed)])
            && !Restorable(policies, [renewed, second], 20, [MainRoute(second), MainRoute(renewed)])
  {
    var policies := [Policy(1, 10, true, true, true, true)];
    var held, second, renewed := Address(value, 0), Address(other, 0), Address(value, 1);
    TwoAddresses(held, second, policies);
    TwoAddresses(renewed, second, policies);
    assert LeaseIndex([held, second], renewed) == 0;
    assert [held, second][0 := renewed] == [renewed, second];
    var r, x := MainRoute(held), MainRoute(second);
    var key := MainKey(renewed);
    assert [r, x][1..] == [x] && [x][1..] == [] && Erase([], key) == [];
    assert Erase([x], key) == [x] + [] == [x];
    assert Erase([r, x], key) == [] + Erase([r, x][1..], key) == [x];
    assert PolicyOf(policies, 1) == Some(policies[0]);
    assert [x] + [MainRoute(renewed)] == [x, MainRoute(renewed)];
    assert AppendRoute([x], MainRoute(renewed), 20) == Some([x, MainRoute(renewed)]);
    assert [MainRoute(renewed), x][0] != [x, MainRoute(renewed)][0];
  }

  lemma TwoAddresses(a: Lease, b: Lease, policies: seq<Policy>)
    requires policies == [Policy(1, 10, true, true, true, true)] && a.interface == b.interface == 1 && a.value != b.value
    requires !a.hasExcluded && !b.hasExcluded
    ensures Rebuild([a, b], policies, 20) == Some([MainRoute(a), MainRoute(b)])
  {
    OneLease(policies, a);
    assert [a, b][..1] == [a];
    assert PolicyOf(policies, 1) == Some(policies[0]) && MainEnabled(b, policies[0]);
    assert [MainRoute(a)] + [MainRoute(b)] == [MainRoute(a), MainRoute(b)];
    assert AppendRoute([MainRoute(a)], MainRoute(b), 20) == Some([MainRoute(a), MainRoute(b)]);
  }

  lemma DistinctRoutes(policies: seq<Policy>, leases: seq<Lease>, routes: seq<Route>)
    requires Reflects(policies, leases, routes)
    ensures forall i, j :: 0 <= i < j < |routes| ==> routes[i] != routes[j]
  {
    hide Wanted;
  }

  lemma SwapNever(before: seq<Route>, own: seq<Route>, behind: seq<Route>, all: seq<Route>)
    requires all == before + own + behind
    requires forall i, j :: 0 <= i < j < |all| ==> all[i] != all[j]
    ensures all == before + behind + own <==> own == [] || behind == []
  {
    if own != [] && behind != [] {
      assert all[|before|] == own[0];
      assert all[|before| + |own|] == behind[0];
      assert (before + behind + own)[|before|] == behind[0];
    }
  }

  // ---------------------------------------------------------------- the owners in place

  datatype PreparedKind = Nothing | Reply | Expiry | OperatorClear

  class LeaseRepository {
    const capacity: nat
    var leases: seq<Lease>
    var prepared: seq<Mutation>
    var kind: PreparedKind

    /** The live leases fit and name distinct resources, and so does what is prepared. */
    ghost predicate Valid()
      reads this
    {
      && |leases| <= capacity && UniqueResources(leases) && (kind != Nothing ==> StagedBatch(leases, prepared))
    }

    constructor (capacity: nat)
      ensures Valid() && this.capacity == capacity && leases == [] && kind == Nothing
    {
      this.capacity := capacity;
      leases, prepared, kind := [], [], Nothing;
    }

    /** Stages a Reply resource by resource, and compares the count that the interface will end up with
        with its limit. A refusal leaves the leases alone and nothing to commit. */
    method PrepareReply(interface: nat, records: seq<(Lease, bool)>, limit: nat) returns (ok: bool)
      requires Valid() && forall k :: 0 <= k < |records| ==> records[k].0.interface == interface
      modifies this
      ensures Valid() && leases == old(leases) && (ok <==> kind == Reply) && (!ok ==> kind == Nothing)
      ensures var staged := StageAll(leases, records, CountOn(leases, interface));
              && (ok <==> staged.Some? && staged.value.1 <= limit)
              && (ok ==> prepared == staged.value.0)
      ensures ok ==> StagedBatch(leases, prepared) && CountOn(leases, interface) + Net(leases, prepared) <= limit
      ensures ok ==> forall k :: 0 <= k < |prepared| ==> prepared[k].lease.interface == interface
    {
      hide UniqueResources, StagedBatch, StageRecord, CountOn;
      prepared, kind := [], Nothing;
      var start := CountOn(leases, interface);
      var projected: int := start;
      StagedNothing(leases);
      for k := 0 to |records|
        invariant Valid() && leases == old(leases) && kind == Nothing
        invariant StagedBatch(leases, prepared) && projected == start + Net(leases, prepared)
        invariant forall j :: 0 <= j < |prepared| ==> prepared[j].lease.interface == interface
        invariant StageAll(leases, records[..k], start) == Some((prepared, projected))
      {
        assert records[..k + 1][..k] == records[..k];
        var r := StageRecord(leases, prepared, projected, records[k].0, records[k].1);
        if r.None? {
          StageAllStops(leases, records, start, k + 1);
          return false;
        }
        StageRecordExtends(leases, prepared, projected, records[k].0, records[k].1);
        prepared, projected := r.value.0, r.value.1;
      }
      assert records[..|records|] == records;
      if projected > limit {
        prepared := [];
        return false;
      }
      kind := Reply;
      return true;
    }

    /** Withdraws every lease of an interface, or of whatever `chosen` marks. */
    method PrepareRemoval(chosen: seq<bool>, reason: PreparedKind) returns (some: bool)
      requires Valid() && |chosen| == |leases| && reason != Nothing
      modifies this
      ensures Valid() && leases == old(leases) && (some <==> kind == reason) && (!some ==> kind == Nothing)
      ensures prepared == Removals(leases, chosen) && (some <==> prepared != [])
    {
      prepared, kind := [], Nothing;
      hide UniqueResources, StagedBatch;
      for k := 0 to |leases|
        invariant Valid() && leases == old(leases) && kind == Nothing
        invariant prepared == Removals(leases[..k], chosen[..k])
      {
        assert leases[..k + 1][..k] == leases[..k] && chosen[..k + 1][..k] == chosen[..k];
        if chosen[k] {
          prepared := prepared + [Remove(leases[k])];
        }
      }
      assert leases[..|leases|] == leases && chosen[..|leases|] == chosen;
      RemovalsAreStaged(leases, chosen);
      some := prepared != [];
      if some {
        kind := reason;
      }
    }

    /** Applies the prepared batch; refused when nothing is prepared. */
    method CommitPrepared() returns (ok: bool)
      requires Valid()
      modifies this
      ensures old(kind) == Nothing ==> !ok && leases == old(leases)
      ensures old(kind) != Nothing ==> (leases, ok) == Commit(old(leases), old(prepared), capacity)
      ensures Valid() || !ok
      ensures ok ==> kind == Nothing && |leases| == |old(leases)| + Net(old(leases), old(prepared))
    {
      hide UniqueResources, StagedBatch, ApplyOne;
      if kind == Nothing {
        return false;
      }
      CommitCompletes(leases, prepared, capacity);
      if Commit(leases, prepared, capacity).1 {
        LastLevel(leases, prepared);
      }
      ghost var start := leases;
      var k := 0;
      while k < |prepared|
        invariant k <= |prepared| && kind == old(kind) && prepared == old(prepared)
        invariant Commit(start, prepared, capacity) == Commit(leases, prepared[k..], capacity)
        decreases |prepared| - k
      {
        assert prepared[k..][0] == prepared[k] && prepared[k..][1..] == prepared[k + 1..];
        var after := ApplyOne(leases, prepared[k], capacity);
        if after.None? {
          return false;
        }
        leases := after.value;
        k := k + 1;
      }
      assert prepared[k..] == [];
      prepared, kind := [], Nothing;
      return true;
    }

    method DiscardPrepared()
      requires Valid()
      modifies this
      ensures Valid() && leases == old(leases) && kind == Nothing
    {
      prepared, kind := [], Nothing;
    }
  }

  lemma StagedNothing(leases: seq<Lease>)
    ensures StagedBatch(leases, []) && Net(leases, []) == 0
  {
  }

  lemma LastLevel(leases: seq<Lease>, batch: seq<Mutation>)
    ensures Level(leases, batch, |batch|) == |leases| + Net(leases, batch)
  {
    assert batch[..|batch|] == batch;
  }

  function Removals(leases: seq<Lease>, chosen: seq<bool>): (batch: seq<Mutation>)
    requires |chosen| == |leases|
    ensures forall m :: m in batch ==> m.Remove? && m.lease in leases
    decreases |leases|
  {
    if leases == [] then []
    else
      Removals(leases[..|leases| - 1], chosen[..|leases| - 1])
      + if chosen[|leases| - 1] then [Remove(leases[|leases| - 1])] else []
  }

  lemma {:induction false} RemovalsApart(leases: seq<Lease>, chosen: seq<bool>)
    requires |chosen| == |leases| && UniqueResources(leases)
    ensures Apart(Removals(leases, chosen))
    decreases |leases|
  {
    if leases != [] {
      var before, batch := leases[..|leases| - 1], Removals(leases[..|leases| - 1], chosen[..|leases| - 1]);
      hide SameResource;
      RemovalsApart(before, chosen[..|leases| - 1]);
      forall k | 0 <= k < |batch|
        ensures !SameResource(batch[k].lease, leases[|leases| - 1])
      {
        assert batch[k] in batch;
        var i :| 0 <= i < |before| && before[i] == batch[k].lease;
        assert leases[i] == before[i];
      }
    }
  }

  lemma RemovalsAreStaged(leases: seq<Lease>, chosen: seq<bool>)
    requires |chosen| == |leases| && UniqueResources(leases)
    ensures StagedBatch(leases, Removals(leases, chosen))
  {
    RemovalsApart(leases, chosen);
    var batch := Removals(leases, chosen);
    hide Removals, Apart;
    forall k | 0 <= k < |batch|
      ensures Staged(leases, batch[k])
    {
      assert batch[k] in batch;
      var i :| 0 <= i < |leases| && leases[i] == batch[k].lease;
      LiveIndex(leases, i);
    }
  }

  lemma LiveIndex(leases: seq<Lease>, i: nat)
    requires i < |leases| && UniqueResources(leases)
    ensures LeaseIndex(leases, leases[i]) == i && Staged(leases, Remove(leases[i]))
  {
    var k := LeaseIndex(leases, leases[i]);
    hide LeaseIndex;
    assert k < |leases| && k <= i;
    assert SameResource(leases[k], leases[i]);
    forall j | 0 <= j < |leases| && j != i
      ensures !SameResource(leases[j], leases[i])
    {
      assert j < i ==> !SameResource(leases[j], leases[i]);
      assert i < j ==> !SameResource(leases[i], leases[j]);
    }
  }

  class RouteRepository {
    const capacity: nat
    var routes: seq<Route>
    var staged: seq<Route>
    var prepared: bool

    constructor (capacity: nat)
      ensures this.capacity == capacity && routes == [] && !prepared
    {
      this.capacity := capacity;
      routes, staged, prepared := [], [], false;
    }

    /** Stages the batch on a copy of the live routes, which stay as they are. */
    method PrepareBatch(batch: seq<Mutation>, policies: seq<Policy>) returns (ok: bool)
      modifies this
      ensures routes == old(routes)
      ensures ok <==> |routes| <= capacity && Prepare(routes, batch, policies, capacity).Some?
      ensures prepared == ok && (ok ==> staged == Prepare(routes, batch, policies, capacity).value)
    {
      hide StageOne;
      staged, prepared := [], false;
      if |routes| > capacity {
        return false;
      }
      staged := routes;
      for k := 0 to |batch|
        invariant routes == old(routes) && !prepared
        invariant Prepare(routes, batch, policies, capacity) == Prepare(staged, batch[k..], policies, capacity)
      {
        assert batch[k..][0] == batch[k] && batch[k..][1..] == batch[k + 1..];
        var step := StageOne(staged, batch[k], policies, capacity);
        if step.None? {
          staged := [];
          return false;
        }
        staged := step.value;
      }
      assert batch[|batch|..] == [];
      prepared := true;
      return true;
    }

    method CommitStaged() returns (ok: bool)
      modifies this
      ensures ok <==> old(prepared)
      ensures routes == (if ok then old(staged) else old(routes)) && !prepared
    {
      if !prepared {
        return false;
      }
      routes := staged;
      staged, prepared := [], false;
      return true;
    }

    /** Replaces the live routes, or leaves them when the new set would not be complete. */
    method RebuildAll(leases: seq<Lease>, policies: seq<Policy>) returns (ok: bool)
      modifies this
      ensures ok <==> Rebuild(leases, policies, capacity).Some?
      ensures routes == if ok then Rebuild(leases, policies, capacity).value else old(routes)
    {
      hide AppendLease, PolicyOf;
      staged, prepared := [], false;
      for k := 0 to |leases|
        invariant routes == old(routes)
        invariant Rebuild(leases[..k], policies, capacity) == Some(staged)
      {
        assert leases[..k + 1][..k] == leases[..k];
        var policy := PolicyOf(policies, leases[k].interface);
        if policy.None? || AppendLease(staged, leases[k], policy.value, capacity).None? {
          RebuildFailsEarly(leases, k + 1, policies, capacity);
          staged := [];
          return false;
        }
        staged := AppendLease(staged, leases[k], policy.value, capacity).value;
      }
      assert leases[..|leases|] == leases;
      prepared := true;
      ok := CommitStaged();
    }
  }

  lemma {:induction false} RebuildFailsEarly(leases: seq<Lease>, k: nat, policies: seq<Policy>, capacity: nat)
    requires k <= |leases| && Rebuild(leases[..k], policies, capacity).None?
    ensures Rebuild(leases, policies, capacity).None?
    decreases |leases|
  {
    if k == |leases| {
      assert leases[..k] == leases;
    } else {
      assert leases[..|leases| - 1][..k] == leases[..k];
      RebuildFailsEarly(leases[..|leases| - 1], k, policies, capacity);
    }
  }
}
