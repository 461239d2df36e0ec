/** NSEC chains and the denial proofs drawn from them (core/src/dns/dnssec_nsec_chain.cpp and
    core/src/dns/dnssec_denial.cpp; section 4 of RFC 4034 and section 5.4 of RFC 4035). */
module Nsec {
  import opened Options
  import opened NsecOrder

  const NS: nat := 2
  const CNAME: nat := 5
  const DS: nat := 43
  const RRSIG: nat := 46
  const NSEC: nat := 47
  const NSEC3: nat := 50

  const STAR: Label := ['*' as nat]

  const MAX_NAME_OCTETS: nat := 255
  const MAX_LABEL_OCTETS: nat := 63

  datatype Nsec = Nsec(owner: Name, next: Name, types: set<nat>)

  // ---------------------------------------------------------------- names

  /** Length octet and octets of every label, and the root octet. */
  function Octets(n: Name): nat {
    if n == [] then 1 else Octets(n[..|n| - 1]) + 1 + |n[|n| - 1]|
  }

  predicate ValidLabel(l: Label) {
    0 < |l| <= MAX_LABEL_OCTETS && forall i :: 0 <= i < |l| ==> l[i] < 256
  }

  ghost predicate ValidName(n: Name) {
    Octets(n) <= MAX_NAME_OCTETS && forall i :: 0 <= i < |n| ==> ValidLabel(n[i])
  }

  /** `n` is `ancestor` or lies below it. */
  predicate IsSubdomain(n: Name, ancestor: Name) {
    |ancestor| <= |n| && Same(n[..|ancestor|], ancestor)
  }

  function Wildcard(encloser: Name): Name {
    encloser + [STAR]
  }

  // ---------------------------------------------------------------- denial

  /** `x` lies strictly between an owner and the next one, around the end of the zone if need be. */
  predicate Covers(n: Nsec, x: Name) {
    var toOwner, toNext, interval := Compare(n.owner, x), Compare(x, n.next), Compare(n.owner, n.next);
    && toOwner != 0
    && if interval < 0 then toOwner < 0 && toNext < 0
       else if interval > 0 then toOwner < 0 || toNext < 0
       else true
  }

  predicate HasOwner(chain: seq<Nsec>, x: Name) {
    exists i :: 0 <= i < |chain| && Same(chain[i].owner, x)
  }

  predicate Covered(chain: seq<Nsec>, x: Name) {
    exists i :: 0 <= i < |chain| && Covers(chain[i], x)
  }

  /** The number of labels, at most `count`, of the longest ancestor of `q` that owns an NSEC; 0 when
      there is none. The root itself is not looked for. */
  function ClosestDepth(chain: seq<Nsec>, q: Name, count: nat): (d: nat)
    requires count <= |q|
    ensures d <= count
    ensures d > 0 ==> HasOwner(chain, q[..d])
    ensures forall k :: d < k <= count ==> !HasOwner(chain, q[..k])
  {
    if count == 0 then 0
    else if HasOwner(chain, q[..count]) then count
    else ClosestDepth(chain, q, count - 1)
  }

  /** What a name-error proof consists of. */
  predicate Denied(chain: seq<Nsec>, q: Name) {
    && q != [] && !HasOwner(chain, q)
    && var d := ClosestDepth(chain, q, |q|);
       && 0 < d < |q| && Octets(q[..d]) + 2 <= MAX_NAME_OCTETS
       && Covered(chain, q[..d + 1]) && Covered(chain, Wildcard(q[..d]))
  }

  method ProveNameError(q: Name, chain: seq<Nsec>) returns (proved: bool)
    ensures proved <==> Denied(chain, q)
  {
    hide Covers, Same, Octets;
    if q == [] || HasOwner(chain, q) {
      return false;
    }
    var count: nat := |q|;
    while count > 0 && !HasOwner(chain, q[..count])
      invariant count <= |q| && ClosestDepth(chain, q, |q|) == ClosestDepth(chain, q, count)
    {
      count := count - 1;
    }
    assert q[..|q|] == q;
    if count == 0 || count >= |q| {
      return false;
    }
    if Octets(q[..count]) + 2 > MAX_NAME_OCTETS {
      return false;
    }
    return Covered(chain, q[..count + 1]) && Covered(chain, Wildcard(q[..count]));
  }

  // ---------------------------------------------------------------- complete chains

  /** Owners in strictly ascending canonical order. */
  ghost predicate Ascending(owners: seq<Name>) {
    forall i, j :: 0 <= i < j < |owners| ==> Compare(owners[i], owners[j]) < 0
  }

  function NextIndex(i: nat, n: nat): (j: nat)
    requires i < n
    ensures j == if i + 1 < n then i + 1 else 0
  {
    (i + 1) % n
  }

  /** Every owner with its successor, and the last with the first. */
  ghost predicate ChainOver(owners: seq<Name>, chain: seq<Nsec>) {
    && |chain| == |owners|
    && forall i :: 0 <= i < |chain| ==> chain[i].owner == owners[i] && chain[i].next == owners[NextIndex(i, |owners|)]
  }

  predicate Owns(owners: seq<Name>, x: Name) {
    exists i :: 0 <= i < |owners| && Same(owners[i], x)
  }

  /** How many owners come before `x`. */
  function Position(owners: seq<Name>, x: Name): (p: nat)
    ensures p <= |owners|
    ensures forall i :: 0 <= i < p ==> Compare(owners[i], x) < 0
    ensures p < |owners| ==> Compare(owners[p], x) >= 0
  {
    if owners == [] || Compare(owners[0], x) >= 0 then 0 else 1 + Position(owners[1..], x)
  }

  lemma PositionSplits(owners: seq<Name>, x: Name, i: nat)
    requires Ascending(owners) && Position(owners, x) <= i < |owners|
    ensures Compare(owners[i], x) >= 0
    ensures !Owns(owners, x) ==> Compare(owners[i], x) > 0
  {
    hide Compare, Same;
    var p := Position(owners, x);
    hide Position;
    if p < i {
      TotalOrder(owners[p], owners[i], x);
      TotalOrder(owners[i], x, owners[p]);
      TotalOrder(x, owners[p], owners[i]);
    }
    OrderEqual(owners[i], x);
  }

  /** The interval in which an absent name falls. */
  function IntervalOf(owners: seq<Name>, x: Name): (i: nat)
    requires owners != []
    ensures i < |owners|
  {
    var p := Position(owners, x);
    if p == 0 then |owners| - 1 else p - 1
  }

  /** The order of an owner and `x` is that of its index and the position of `x`. */
  lemma Side(owners: seq<Name>, x: Name, i: nat)
    requires Ascending(owners) && i < |owners|
    ensures var p := Position(owners, x);
            && (i < p ==> Compare(owners[i], x) < 0)
            && (i > p ==> Compare(owners[i], x) > 0)
            && (i == p ==> Compare(owners[i], x) == if Owns(owners, x) then 0 else 1)
    ensures Compare(x, owners[i]) == -Compare(owners[i], x)
    ensures Owns(owners, x) ==> Position(owners, x) < |owners|
  {
    hide Compare, Same, Owns;
    var p := Position(owners, x);
    OrderAntisymmetric(x, owners[i]);
    if Owns(owners, x) {
      OwnedAtPosition(owners, x);
    }
    if p <= i {
      PositionSplits(owners, x, i);
      hide Position;
      if p < i {
        TotalOrder(owners[i], x, owners[p]);
        TotalOrder(owners[p], owners[i], x);
        TotalOrder(x, owners[p], owners[i]);
        OrderAntisymmetric(owners[p], x);
      }
    }
  }

  lemma WhereCovered(owners: seq<Name>, chain: seq<Nsec>, x: Name, i: nat)
    requires Ascending(owners) && ChainOver(owners, chain) && i < |chain|
    ensures Covers(chain[i], x) <==> !Owns(owners, x) && i == IntervalOf(owners, x)
  {
    var n := |owners|;
    var next := if i + 1 < n then i + 1 else 0;
    Successor(owners, chain, i);
    hide Compare, Same, Position, Owns, ChainOver;
    Side(owners, x, i);
    Side(owners, x, next);
    var interval := Compare(owners[i], owners[next]);
    assert if i < next then interval < 0 else if i == next then interval == 0 else interval > 0 by {
      OrderAntisymmetric(owners[i], owners[next]);
      OrderEqual(owners[i], owners[next]);
      SameRefl(owners[i]);
    }
    hide Ascending;
  }

  lemma Successor(owners: seq<Name>, chain: seq<Nsec>, i: nat)
    requires ChainOver(owners, chain) && i < |chain|
    ensures chain[i].owner == owners[i] && chain[i].next == owners[if i + 1 < |owners| then i + 1 else 0]
  {
  }

  lemma SameRefl(n: Name)
    ensures Same(n, n)
  {
  }

  lemma OwnedAtPosition(owners: seq<Name>, x: Name)
    requires Ascending(owners) && Owns(owners, x)
    ensures Position(owners, x) < |owners| && Compare(owners[Position(owners, x)], x) == 0
  {
    hide Compare, Same;
    var i :| 0 <= i < |owners| && Same(owners[i], x);
    var p := Position(owners, x);
    hide Position;
    OrderEqual(owners[i], x);
    if p < i {
      TotalOrder(owners[p], owners[i], x);
      TotalOrder(owners[i], x, owners[p]);
      OrderAntisymmetric(owners[p], x);
    }
  }

  /** Every name that is not an owner falls in exactly one interval, and an owner in none. */
  lemma ExactlyOneInterval(owners: seq<Name>, chain: seq<Nsec>, x: Name)
    requires Ascending(owners) && ChainOver(owners, chain) && owners != []
    ensures Covered(chain, x) <==> !Owns(owners, x)
    ensures forall i, j :: 0 <= i < |chain| && 0 <= j < |chain| && Covers(chain[i], x) && Covers(chain[j], x) ==> i == j
  {
    hide Compare, Same, Covers, Ascending, IntervalOf, Owns;
    forall i | 0 <= i < |chain|
      ensures Covers(chain[i], x) <==> !Owns(owners, x) && i == IntervalOf(owners, x)
    {
      WhereCovered(owners, chain, x, i);
    }
    var k := IntervalOf(owners, x);
    assert |chain| == |owners|;
    hide ChainOver;
    assert Covers(chain[k], x) <==> !Owns(owners, x);
  }

  // ---------------------------------------------------------------- what a complete chain proves

  lemma OwnersOfChain(owners: seq<Name>, chain: seq<Nsec>, x: Name)
    requires ChainOver(owners, chain)
    ensures HasOwner(chain, x) <==> Owns(owners, x)
  {
    hide Same;
    if Owns(owners, x) {
      var i :| 0 <= i < |owners| && Same(owners[i], x);
      assert Same(chain[i].owner, x);
    }
  }

  /** The depth, at most `count`, of the longest ancestor of `q` that is an owner; 0 for none. */
  function OwnerDepth(owners: seq<Name>, q: Name, count: nat): (d: nat)
    requires count <= |q|
    ensures d <= count
    ensures d > 0 ==> Owns(owners, q[..d])
    ensures forall k :: d < k <= count ==> !Owns(owners, q[..k])
  {
    if count == 0 then 0
    else if Owns(owners, q[..count]) then count
    else OwnerDepth(owners, q, count - 1)
  }

  lemma {:induction false} SameDepth(owners: seq<Name>, chain: seq<Nsec>, q: Name, count: nat)
    requires ChainOver(owners, chain) && count <= |q|
    ensures ClosestDepth(chain, q, count) == OwnerDepth(owners, q, count)
    decreases count
  {
    hide ChainOver, HasOwner, Owns;
    if count > 0 {
      OwnersOfChain(owners, chain, q[..count]);
      SameDepth(owners, chain, q, count - 1);
    }
  }

  lemma {:induction false} OctetsOfPrefix(q: Name, d: nat)
    requires d < |q|
    ensures Octets(q[..d]) + 1 + |q[d]| <= Octets(q)
    decreases |q|
  {
    if d == |q| - 1 {
      assert q[..d + 1] == q;
    } else {
      var before := q[..|q| - 1];
      OctetsOfPrefix(before, d);
      assert before[..d] == q[..d] && before[d] == q[d];
    }
  }

  /** Over a complete chain, the name error of `q` is proved exactly when `q` is not an owner, some
      ancestor other than the root is, and the wildcard at the deepest such ancestor is not. */
  lemma DeniedExactly(owners: seq<Name>, chain: seq<Nsec>, q: Name)
    requires Ascending(owners) && ChainOver(owners, chain) && owners != [] && ValidName(q)
    ensures Denied(chain, q) <==>
              var d := OwnerDepth(owners, q, |q|);
              !Owns(owners, q) && d > 0 && !Owns(owners, Wildcard(q[..d]))
  {
    hide Ascending, ChainOver, Covered, HasOwner, Owns, Wildcard;
    SameDepth(owners, chain, q, |q|);
    OwnersOfChain(owners, chain, q);
    assert q[..|q|] == q;
    var d := OwnerDepth(owners, q, |q|);
    hide OwnerDepth, ClosestDepth;
    if 0 < d < |q| {
      OctetsOfPrefix(q, d);
      hide Octets;
      ExactlyOneInterval(owners, chain, q[..d + 1]);
      ExactlyOneInterval(owners, chain, Wildcard(q[..d]));
    }
  }

  lemma OwnsAlike(owners: seq<Name>, a: Name, b: Name)
    requires Owns(owners, a) && (Same(a, b) || Same(b, a))
    ensures Owns(owners, b)
  {
    var i :| 0 <= i < |owners| && Same(owners[i], a);
    hide SameLabel;
    SameLabelLaws();
    assert Same(owners[i], b);
  }

  lemma SameLabelLaws()
    ensures forall a, b :: SameLabel(a, b) <==> SameLabel(b, a)
    ensures forall a, b, c :: SameLabel(a, b) && SameLabel(b, c) ==> SameLabel(a, c)
  {
  }

  // ---------------------------------------------------------------- building the chain of a zone

  datatype Record = Record(owner: Name, kind: nat)

  predicate IsCut(origin: Name, r: Record) {
    r.kind == NS && !Same(r.owner, origin) && IsSubdomain(r.owner, origin)
  }

  predicate BelowCut(origin: Name, records: seq<Record>, n: Name) {
    exists i :: 0 <= i < |records| && IsCut(origin, records[i])
                && !Same(n, records[i].owner) && IsSubdomain(n, records[i].owner)
  }

  predicate Generated(kind: nat) {
    kind == RRSIG || kind == NSEC || kind == NSEC3
  }

  /** The record makes its owner an authoritative name of the zone. */
  predicate Authoritative(origin: Name, records: seq<Record>, r: Record) {
    IsSubdomain(r.owner, origin) && !BelowCut(origin, records, r.owner) && !Generated(r.kind)
  }

  /** The authoritative names among the first `count` records, each once, as first written. */
  function Collected(origin: Name, records: seq<Record>, count: nat): (owners: seq<Name>)
    requires count <= |records|
  {
    if count == 0 then []
    else
      var before, r := Collected(origin, records, count - 1), records[count - 1];
      if Authoritative(origin, records, r) && !Owns(before, r.owner) then before + [r.owner] else before
  }

  function Inserted(sorted: seq<Name>, n: Name): (r: seq<Name>)
    ensures |r| == |sorted| + 1
  {
    if sorted == [] || Compare(n, sorted[0]) < 0 then [n] + sorted
    else [sorted[0]] + Inserted(sorted[1..], n)
  }

  /** The owners in canonical order. */
  function Sorted(owners: seq<Name>): (r: seq<Name>)
    ensures |r| == |owners|
  {
    if owners == [] then [] else Inserted(Sorted(owners[..|owners| - 1]), owners[|owners| - 1])
  }

  function TypesAt(origin: Name, records: seq<Record>, owner: Name): set<nat> {
    (set i | 0 <= i < |records| && Shown(origin, records, owner, records[i]) :: records[i].kind) + {NSEC, RRSIG}
  }

  /** At a delegation only NS and DS belong to this zone. */
  predicate Shown(origin: Name, records: seq<Record>, owner: Name, r: Record) {
    && Same(r.owner, owner) && !Generated(r.kind)
    && (AtCut(origin, records, owner) ==> r.kind == NS || r.kind == DS)
  }

  predicate AtCut(origin: Name, records: seq<Record>, owner: Name) {
    exists i :: 0 <= i < |records| && IsCut(origin, records[i]) && Same(records[i].owner, owner)
  }

  function BuildChain(origin: Name, records: seq<Record>): Option<seq<Nsec>> {
    var owners := Sorted(Collected(origin, records, |records|));
    if !Owns(owners, origin) then None
    else
      Some(seq(|owners|, i requires 0 <= i < |owners| =>
        Nsec(owners[i], owners[NextIndex(i, |owners|)], TypesAt(origin, records, owners[i]))))
  }

  ghost predicate AllDifferent(owners: seq<Name>) {
    forall i, j :: 0 <= i < j < |owners| ==> !Same(owners[i], owners[j])
  }

  /** What the zone has authority over. */
  ghost predicate InZone(origin: Name, records: seq<Record>, n: Name) {
    exists i :: 0 <= i < |records| && Authoritative(origin, records, records[i]) && Same(records[i].owner, n)
  }

  lemma {:induction false} CollectedOwners(origin: Name, records: seq<Record>, count: nat, n: Name)
    requires count <= |records|
    ensures AllDifferent(Collected(origin, records, count))
    ensures Owns(Collected(origin, records, count), n) <==>
              exists i :: 0 <= i < count && Authoritative(origin, records, records[i]) && Same(records[i].owner, n)
    decreases count
  {
    if count > 0 {
      hide Authoritative, SameLabel;
      CollectedOwners(origin, records, count - 1, n);
      var before, r := Collected(origin, records, count - 1), records[count - 1];
      CollectedOwners(origin, records, count - 1, r.owner);
      hide Collected;
      SameLaws(r.owner, n);
      OwnsAfter(before, r.owner, n);
      if Owns(before, r.owner) && Same(r.owner, n) {
        OwnsAlike(before, r.owner, n);
      }
      if exists i :: 0 <= i < count - 1 && Authoritative(origin, records, records[i]) && Same(records[i].owner, n) {
        var i :| 0 <= i < count - 1 && Authoritative(origin, records, records[i]) && Same(records[i].owner, n);
        assert 0 <= i < count;
      }
    }
  }

  lemma SameLaws(a: Name, b: Name)
    ensures Same(a, b) <==> Same(b, a)
  {
    SameLabelLaws();
    hide SameLabel;
  }

  lemma OwnsAfter(before: seq<Name>, o: Name, n: Name)
    ensures Owns(before + [o], n) <==> Owns(before, n) || Same(o, n)
  {
    hide Same;
    var after := before + [o];
    assert after[|before|] == o;
    if Owns(before, n) {
      var i :| 0 <= i < |before| && Same(before[i], n);
      assert Same(after[i], n);
    }
  }

  /** Inserting a new name keeps the order and adds exactly this name. */
  lemma {:induction false} InsertedAscends(sorted: seq<Name>, n: Name)
    requires Ascending(sorted) && !Owns(sorted, n)
    ensures Ascending(Inserted(sorted, n))
    ensures forall x :: x in Inserted(sorted, n) <==> x in sorted || x == n
    decreases |sorted|
  {
    hide Compare, Same;
    if sorted != [] {
      OrderEqual(sorted[0], n);
      OrderAntisymmetric(sorted[0], n);
      if Compare(n, sorted[0]) < 0 {
        forall j | 0 < j < |sorted|
          ensures Compare(n, sorted[j]) < 0
        {
          TotalOrder(n, sorted[0], sorted[j]);
        }
      } else {
        var rest := sorted[1..];
        forall i | 0 <= i < |rest|
          ensures !Same(rest[i], n)
        {
          assert rest[i] == sorted[i + 1];
        }
        InsertedAscends(rest, n);
        var r := Inserted(rest, n);
        hide Inserted;
        forall j | 0 <= j < |r|
          ensures Compare(sorted[0], r[j]) < 0
        {
          assert r[j] in r;
        }
      }
    }
  }

  lemma {:induction false} SortedAscends(owners: seq<Name>)
    requires AllDifferent(owners)
    ensures Ascending(Sorted(owners))
    ensures forall x :: x in Sorted(owners) <==> x in owners
    decreases |owners|
  {
    if owners != [] {
      hide Compare, Same;
      var before, o := owners[..|owners| - 1], owners[|owners| - 1];
      SortedAscends(before);
      var sorted := Sorted(before);
      forall i | 0 <= i < |sorted|
        ensures !Same(sorted[i], o)
      {
        assert sorted[i] in before;
        var j :| 0 <= j < |before| && before[j] == sorted[i];
        assert before[j] == owners[j];
      }
      InsertedAscends(sorted, o);
    }
  }

  lemma OwnsByMembers(a: seq<Name>, b: seq<Name>, n: Name)
    requires forall x :: x in a <==> x in b
    requires Owns(a, n)
    ensures Owns(b, n)
  {
    hide Same;
    var i :| 0 <= i < |a| && Same(a[i], n);
    assert a[i] in b;
  }

  lemma ChainShape(origin: Name, records: seq<Record>)
    requires BuildChain(origin, records).Some?
    ensures var owners, chain := Sorted(Collected(origin, records, |records|)), BuildChain(origin, records).value;
            && ChainOver(owners, chain) && Owns(owners, origin)
            && forall i :: 0 <= i < |owners| ==> chain[i].types == TypesAt(origin, records, owners[i])
  {
    hide Collected, Sorted, TypesAt, Owns;
  }

  /** The owners of the chain in canonical order are exactly the authoritative names of the zone. */
  lemma ChainOfZone(origin: Name, records: seq<Record>) returns (owners: seq<Name>)
    requires BuildChain(origin, records).Some?
    ensures Ascending(owners) && ChainOver(owners, BuildChain(origin, records).value) && Owns(owners, origin)
    ensures forall n :: Owns(owners, n) <==> InZone(origin, records, n)
    ensures forall i :: 0 <= i < |owners| ==>
              BuildChain(origin, records).value[i].types == TypesAt(origin, records, owners[i])
  {
    hide Compare, Same, Authoritative, TypesAt, Collected, Sorted, BuildChain, Ascending, AllDifferent, Owns;
    var collected := Collected(origin, records, |records|);
    owners := Sorted(collected);
    ChainShape(origin, records);
    CollectedOwners(origin, records, |records|, origin);
    SortedAscends(collected);
    forall n
      ensures Owns(owners, n) <==> InZone(origin, records, n)
    {
      CollectedOwners(origin, records, |records|, n);
      if Owns(owners, n) {
        OwnsByMembers(owners, collected, n);
      }
      if Owns(collected, n) {
        OwnsByMembers(collected, owners, n);
      }
    }
  }

  /** The chain of a zone covers every name that the zone has no authority over, in one interval, and
      no other name. */
  lemma ZoneCoversAbsentNames(origin: Name, records: seq<Record>, x: Name)
    requires BuildChain(origin, records).Some?
    ensures Covered(BuildChain(origin, records).value, x) <==> !InZone(origin, records, x)
    ensures var chain := BuildChain(origin, records).value;
            forall i, j :: 0 <= i < |chain| && 0 <= j < |chain| && Covers(chain[i], x) && Covers(chain[j], x) ==> i == j
  {
    hide BuildChain, InZone, Covers, Covered, Owns, Ascending, TypesAt;
    var owners := ChainOfZone(origin, records);
    assert owners != [] by { OwnedNonempty(owners, origin); }
    ExactlyOneInterval(owners, BuildChain(origin, records).value, x);
  }

  lemma OwnedNonempty(owners: seq<Name>, n: Name)
    requires Owns(owners, n)
    ensures owners != []
  {
  }

  // ---------------------------------------------------------------- no data

  /** The first NSEC of the name decides. */
  function ProveNoData(q: Name, kind: nat, chain: seq<Nsec>): bool {
    if chain == [] then false
    else if Same(chain[0].owner, q) then kind !in chain[0].types && CNAME !in chain[0].types
    else ProveNoData(q, kind, chain[1..])
  }

  lemma {:induction false} NoDataAt(q: Name, kind: nat, chain: seq<Nsec>, k: nat)
    requires k < |chain| && Same(chain[k].owner, q)
    requires forall i :: 0 <= i < k ==> !Same(chain[i].owner, q)
    ensures ProveNoData(q, kind, chain) <==> kind !in chain[k].types && CNAME !in chain[k].types
    decreases k
  {
    hide Same;
    if k > 0 {
      NoDataAt(q, kind, chain[1..], k - 1);
    }
  }

  lemma {:induction false} NoDataNowhere(q: Name, kind: nat, chain: seq<Nsec>)
    requires forall i :: 0 <= i < |chain| ==> !Same(chain[i].owner, q)
    ensures !ProveNoData(q, kind, chain)
    decreases |chain|
  {
    hide Same;
    if chain != [] {
      NoDataNowhere(q, kind, chain[1..]);
    }
  }

  /** The zone shows a record of this kind at the name. */
  ghost predicate HasKind(origin: Name, records: seq<Record>, owner: Name, kind: nat) {
    exists i :: 0 <= i < |records| && records[i].kind == kind && Shown(origin, records, owner, records[i])
  }

  /** The absence of a kind is proved exactly for an authoritative name that has neither a record of
      the kind nor a CNAME; never for the kinds that signing adds. */
  lemma NoDataExactly(origin: Name, records: seq<Record>, q: Name, kind: nat)
    requires BuildChain(origin, records).Some?
    ensures ProveNoData(q, kind, BuildChain(origin, records).value) <==>
              && InZone(origin, records, q) && kind != NSEC && kind != RRSIG
              && !HasKind(origin, records, q, kind) && !HasKind(origin, records, q, CNAME)
  {
    hide BuildChain, InZone, Compare, Same, Shown;
    var owners := ChainOfZone(origin, records);
    var chain := BuildChain(origin, records).value;
    if Owns(owners, q) {
      var k :| 0 <= k < |owners| && Same(owners[k], q);
      forall i | 0 <= i < k
        ensures !Same(chain[i].owner, q)
      {
        OrderEqual(owners[i], q);
        OrderEqual(owners[k], q);
        TotalOrder(owners[i], q, owners[k]);
        OrderAntisymmetric(owners[k], q);
      }
      NoDataAt(q, kind, chain, k);
      KindsAlike(origin, records, owners[k], q, kind);
      KindsAlike(origin, records, owners[k], q, CNAME);
    } else {
      assert forall i :: 0 <= i < |chain| ==> chain[i].owner == owners[i];
      NoDataNowhere(q, kind, chain);
    }
  }

  lemma KindsAlike(origin: Name, records: seq<Record>, a: Name, q: Name, kind: nat)
    requires Same(a, q)
    ensures kind in TypesAt(origin, records, a) <==> kind == NSEC || kind == RRSIG || HasKind(origin, records, q, kind)
  {
    hide Same;
    SameThrough(a, q);
    forall i | 0 <= i < |records|
      ensures Shown(origin, records, a, records[i]) <==> Shown(origin, records, q, records[i])
    {
      assert AtCut(origin, records, a) <==> AtCut(origin, records, q);
    }
    hide Shown;
  }

  lemma SameThrough(a: Name, b: Name)
    requires Same(a, b)
    ensures forall x :: Same(x, a) <==> Same(x, b)
  {
    SameLabelLaws();
    hide SameLabel;
  }
}
