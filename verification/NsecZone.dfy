/** When the name-error proof over the NSEC chain of a zone is right (core/src/dns/dnssec_denial.cpp and
    core/src/dns/dnssec_nsec_chain.cpp).

    What exists is decided by the records of the zone, those at and below delegations included, and
    not by the owners that the chain happens to list. */
module NsecZones {
  import opened Options
  import opened NsecOrder
  import opened Nsec

  /** Zone data, as opposed to generated denial and signature records. */
  predicate IsData(origin: Name, r: Record) {
    IsSubdomain(r.owner, origin) && !Generated(r.kind)
  }

  /** Every name of the zone data is well formed. */
  ghost predicate ValidZone(origin: Name, records: seq<Record>) {
    ValidName(origin) && forall i :: 0 <= i < |records| ==> ValidName(records[i].owner)
  }

  /** A name exists when it owns data or lies above a name that does, as an empty non-terminal. */
  ghost predicate Exists(origin: Name, records: seq<Record>, x: Name) {
    exists i :: 0 <= i < |records| && IsData(origin, records[i]) && IsSubdomain(records[i].owner, x)
  }

  /** The depth of the closest encloser of `q`: its deepest existing ancestor, which may be the root. */
  ghost function ExistDepth(origin: Name, records: seq<Record>, q: Name, count: nat): (e: nat)
    requires count <= |q|
    ensures e <= count
    ensures e > 0 ==> Exists(origin, records, q[..e])
    ensures forall k :: e < k <= count ==> !Exists(origin, records, q[..k])
  {
    if count == 0 then 0
    else if Exists(origin, records, q[..count]) then count
    else ExistDepth(origin, records, q, count - 1)
  }

  /** The depth of the deepest authoritative name among `q` and its ancestors, the root not counted. */
  ghost function AuthDepth(origin: Name, records: seq<Record>, q: Name, count: nat): (d: nat)
    requires count <= |q|
    ensures d <= count
    ensures d > 0 ==> InZone(origin, records, q[..d])
    ensures forall k :: d < k <= count ==> !InZone(origin, records, q[..k])
  {
    if count == 0 then 0
    else if InZone(origin, records, q[..count]) then count
    else AuthDepth(origin, records, q, count - 1)
  }

  /** The zone answers "no such name": it has not delegated the name, the name does not exist, and
      neither does the wildcard at its closest encloser. A wildcard without records of its own still
      answers "no data". */
  ghost predicate NameError(origin: Name, records: seq<Record>, q: Name) {
    && !BelowCut(origin, records, q) && !Exists(origin, records, q)
    && !Exists(origin, records, Wildcard(q[..ExistDepth(origin, records, q, |q|)]))
  }

  // ---------------------------------------------------------------- names up to case

  lemma SameIsEquivalence(a: Name, b: Name, c: Name)
    ensures Same(a, a) && (Same(a, b) <==> Same(b, a)) && (Same(a, b) && Same(b, c) ==> Same(a, c))
  {
    SameLabelLaws();
    SameRefl(a);
    hide SameLabel;
  }

  lemma SubdomainAlike(a: Name, b: Name, ancestor: Name)
    requires Same(a, b)
    ensures IsSubdomain(a, ancestor) <==> IsSubdomain(b, ancestor)
  {
    SameLabelLaws();
    hide SameLabel;
    if |ancestor| <= |a| {
      assert Same(a[..|ancestor|], b[..|ancestor|]);
    }
  }

  lemma SubdomainTransitive(a: Name, b: Name, c: Name)
    requires IsSubdomain(a, b) && IsSubdomain(b, c)
    ensures IsSubdomain(a, c)
  {
    SameLabelLaws();
    hide SameLabel;
    assert a[..|b|][..|c|] == a[..|c|];
    assert Same(a[..|b|][..|c|], b[..|c|]);
  }

  /** A prefix of a name is an ancestor; two ancestors of one name are above each other. */
  lemma PrefixAbove(q: Name, k: nat)
    requires k <= |q|
    ensures IsSubdomain(q, q[..k])
  {
    SameRefl(q[..k]);
  }

  lemma AncestorsNested(q: Name, c: Name, k: nat)
    requires IsSubdomain(q, c) && |c| <= k <= |q|
    ensures IsSubdomain(q[..k], c)
  {
    assert q[..k][..|c|] == q[..|c|];
  }

  lemma InZoneAlike(origin: Name, records: seq<Record>, a: Name, b: Name)
    requires InZone(origin, records, a) && Same(a, b)
    ensures InZone(origin, records, b)
  {
    hide Authoritative, Same;
    var i :| 0 <= i < |records| && Authoritative(origin, records, records[i]) && Same(records[i].owner, a);
    SameIsEquivalence(records[i].owner, a, b);
  }

  lemma BelowCutAlike(origin: Name, records: seq<Record>, a: Name, b: Name)
    requires BelowCut(origin, records, a) && Same(a, b)
    ensures BelowCut(origin, records, b)
  {
    hide Same, IsCut, IsSubdomain;
    var i :| 0 <= i < |records| && IsCut(origin, records[i])
             && !Same(a, records[i].owner) && IsSubdomain(a, records[i].owner);
    SubdomainAlike(a, b, records[i].owner);
    SameIsEquivalence(a, b, records[i].owner);
    SameIsEquivalence(b, a, records[i].owner);
  }

  /** Authoritative names exist and are not delegated. */
  lemma InZoneExists(origin: Name, records: seq<Record>, n: Name)
    requires InZone(origin, records, n)
    ensures Exists(origin, records, n) && !BelowCut(origin, records, n) && IsSubdomain(n, origin)
  {
    hide Same, BelowCut;
    var i :| 0 <= i < |records| && Authoritative(origin, records, records[i]) && Same(records[i].owner, n);
    SameIsEquivalence(records[i].owner, n, n);
    SameIsEquivalence(n, records[i].owner, n);
    if BelowCut(origin, records, n) {
      BelowCutAlike(origin, records, n, records[i].owner);
      assert false;
    }
    SubdomainAlike(records[i].owner, n, origin);
    PrefixAbove(n, |n|);
    assert n[..|n|] == n;
    SubdomainAlike(records[i].owner, n, n);
  }

  // ---------------------------------------------------------------- what the chain of a zone denies

  lemma {:induction false} DepthOfOwners(origin: Name, records: seq<Record>, owners: seq<Name>, q: Name, count: nat)
    requires count <= |q| && forall n :: Owns(owners, n) <==> InZone(origin, records, n)
    ensures OwnerDepth(owners, q, count) == AuthDepth(origin, records, q, count)
    decreases count
  {
    hide Owns, InZone;
    if count > 0 {
      DepthOfOwners(origin, records, owners, q, count - 1);
    }
  }

  /** The proof over the chain of a zone, in terms of its records. */
  lemma DeniedInZone(origin: Name, records: seq<Record>, q: Name)
    requires BuildChain(origin, records).Some? && ValidName(q)
    ensures InZone(origin, records, origin)
    ensures Denied(BuildChain(origin, records).value, q) <==>
              var d := AuthDepth(origin, records, q, |q|);
              !InZone(origin, records, q) && d > 0 && !InZone(origin, records, Wildcard(q[..d]))
  {
    hide BuildChain, InZone, Owns, Ascending, ChainOver, TypesAt, Denied, OwnerDepth, AuthDepth, Wildcard;
    var owners := ChainOfZone(origin, records);
    OwnedNonempty(owners, origin);
    DeniedExactly(owners, BuildChain(origin, records).value, q);
    DepthOfOwners(origin, records, owners, q, |q|);
  }

  /** Authoritative ancestors exist, and the origin is one of them. */
  lemma Depths(origin: Name, records: seq<Record>, q: Name)
    requires InZone(origin, records, origin) && IsSubdomain(q, origin)
    ensures |origin| <= AuthDepth(origin, records, q, |q|) <= ExistDepth(origin, records, q, |q|)
    ensures q != [] ==> (Exists(origin, records, q) <==> ExistDepth(origin, records, q, |q|) == |q|)
    ensures Exists(origin, records, q[..ExistDepth(origin, records, q, |q|)])
  {
    hide InZone, Exists, Same;
    var d, e := AuthDepth(origin, records, q, |q|), ExistDepth(origin, records, q, |q|);
    hide AuthDepth, ExistDepth;
    SameIsEquivalence(q[..|origin|], origin, origin);
    InZoneAlike(origin, records, origin, q[..|origin|]);
    InZoneExists(origin, records, q[..|origin|]);
    if d > 0 {
      InZoneExists(origin, records, q[..d]);
    }
    assert q[..|q|] == q;
  }

  // ---------------------------------------------------------------- delegations

  /** The cut `records[i]` lies strictly above `q`. */
  predicate CutAbove(origin: Name, records: seq<Record>, q: Name, i: nat)
    requires i < |records|
  {
    IsCut(origin, records[i]) && !Same(q, records[i].owner) && IsSubdomain(q, records[i].owner)
  }

  /** Above a delegated name there is a cut that is not itself delegated. */
  lemma {:induction false} TopCut(origin: Name, records: seq<Record>, q: Name, i: nat) returns (top: nat)
    requires i < |records| && CutAbove(origin, records, q, i)
    ensures top < |records| && CutAbove(origin, records, q, top) && !BelowCut(origin, records, records[top].owner)
    decreases |records[i].owner|
  {
    if BelowCut(origin, records, records[i].owner) {
      var j :| 0 <= j < |records| && IsCut(origin, records[j])
               && !Same(records[i].owner, records[j].owner) && IsSubdomain(records[i].owner, records[j].owner);
      ShorterAncestor(records[i].owner, records[j].owner);
      ShorterAncestor(q, records[i].owner);
      hide Same, IsCut, BelowCut;
      SubdomainTransitive(q, records[i].owner, records[j].owner);
      assert |records[j].owner| < |q|;
      DifferentLength(q, records[j].owner);
      top := TopCut(origin, records, q, j);
    } else {
      top := i;
    }
  }

  lemma ShorterAncestor(n: Name, ancestor: Name)
    requires IsSubdomain(n, ancestor) && !Same(n, ancestor)
    ensures |ancestor| < |n|
  {
    assert n[..|n|] == n;
  }

  lemma DifferentLength(a: Name, b: Name)
    requires |a| != |b|
    ensures !Same(a, b)
  {
  }

  /** Below a cut nothing is authoritative. */
  lemma NothingBelowCut(origin: Name, records: seq<Record>, n: Name, i: nat)
    requires i < |records| && IsCut(origin, records[i]) && IsSubdomain(n, records[i].owner) && |records[i].owner| < |n|
    ensures BelowCut(origin, records, n) && !InZone(origin, records, n)
  {
    DifferentLength(n, records[i].owner);
    hide Same;
    if InZone(origin, records, n) {
      InZoneExists(origin, records, n);
      assert false;
    }
  }

  /** Every name below a delegation is denied, although the zone has handed it to another: the deepest
      owner above it is the delegation, and no wildcard is authoritative there. */
  lemma DelegatedIsDenied(origin: Name, records: seq<Record>, q: Name)
    requires BuildChain(origin, records).Some? && ValidName(q) && BelowCut(origin, records, q)
    ensures Denied(BuildChain(origin, records).value, q) && !NameError(origin, records, q)
  {
    hide BuildChain, Denied;
    DeniedInZone(origin, records, q);
    var i :| 0 <= i < |records| && IsCut(origin, records[i])
             && !Same(q, records[i].owner) && IsSubdomain(q, records[i].owner);
    var top := TopCut(origin, records, q, i);
    DelegationIsDeepest(origin, records, q, top);
  }

  lemma DelegationIsDeepest(origin: Name, records: seq<Record>, q: Name, top: nat)
    requires top < |records| && CutAbove(origin, records, q, top) && !BelowCut(origin, records, records[top].owner)
    ensures AuthDepth(origin, records, q, |q|) == |records[top].owner| > 0
    ensures !InZone(origin, records, q) && !InZone(origin, records, Wildcard(q[..|records[top].owner|]))
  {
    var c := records[top].owner;
    ShorterAncestor(q, c);
    ShorterAncestor(c, origin);
    assert Authoritative(origin, records, records[top]);
    SameIsEquivalence(q[..|c|], c, c);
    SameRefl(c);
    assert InZone(origin, records, c);
    InZoneAlike(origin, records, c, q[..|c|]);
    hide Same, InZone, BelowCut, Authoritative;
    forall k | |c| < k <= |q|
      ensures !InZone(origin, records, q[..k])
    {
      AncestorsNested(q, c, k);
      NothingBelowCut(origin, records, q[..k], top);
    }
    assert q[..|q|] == q;
    var w := Wildcard(q[..|c|]);
    assert w[..|c|] == q[..|c|];
    NothingBelowCut(origin, records, w, top);
  }

  // ---------------------------------------------------------------- when the proof is right

  /** A name between the origin and a record that owns no data itself. */
  ghost predicate EmptyNonTerminal(origin: Name, records: seq<Record>, t: Name) {
    && IsSubdomain(t, origin) && Exists(origin, records, t)
    && !InZone(origin, records, t) && !BelowCut(origin, records, t)
  }

  /** A wildcard answers for the absent children of `t`, or there are none. */
  ghost predicate ChildrenAnswered(origin: Name, records: seq<Record>, t: Name) {
    Exists(origin, records, Wildcard(t)) || forall l :: ValidName(t + [l]) ==> Exists(origin, records, t + [l])
  }

  /** The proof stops at the deepest authoritative ancestor of `t`: that is the root, or has a wildcard. */
  ghost predicate ProofStops(origin: Name, records: seq<Record>, t: Name) {
    var d := AuthDepth(origin, records, t, |t|);
    d == 0 || InZone(origin, records, Wildcard(t[..d]))
  }

  /** What a zone must be like for its name errors to be proved exactly: it delegates no name that can
      have children; every empty non-terminal has a wildcard beside it and one below it; and a zone at
      the root has a wildcard at the root. */
  ghost predicate Provable(origin: Name, records: seq<Record>) {
    && (forall i :: 0 <= i < |records| && IsCut(origin, records[i]) ==> Octets(records[i].owner) + 2 > MAX_NAME_OCTETS)
    && (forall t :: ValidName(t) && EmptyNonTerminal(origin, records, t) ==>
          ProofStops(origin, records, t) && ChildrenAnswered(origin, records, t))
    && (origin == [] ==> ChildrenAnswered(origin, records, []))
  }

  ghost predicate Agrees(origin: Name, records: seq<Record>, q: Name)
    requires BuildChain(origin, records).Some?
  {
    Denied(BuildChain(origin, records).value, q) <==> NameError(origin, records, q)
  }

  lemma {:induction false} OctetsAlike(a: Name, b: Name)
    requires Same(a, b)
    ensures Octets(a) == Octets(b)
    decreases |a|
  {
    if a != [] {
      OctetsAlike(a[..|a| - 1], b[..|b| - 1]);
    }
  }

  /** A proper descendant is at least two octets longer. */
  lemma RoomBelow(q: Name, c: Name)
    requires ValidName(q) && IsSubdomain(q, c) && |c| < |q|
    ensures Octets(c) + 2 <= Octets(q) <= MAX_NAME_OCTETS
  {
    OctetsOfPrefix(q, |c|);
    OctetsAlike(q[..|c|], c);
  }

  lemma ValidPrefix(q: Name, k: nat)
    requires ValidName(q) && k <= |q|
    ensures ValidName(q[..k])
  {
    if k < |q| {
      OctetsOfPrefix(q, k);
    } else {
      assert q[..k] == q;
    }
  }

  /** In a provable zone no valid name is delegated. */
  lemma NothingDelegated(origin: Name, records: seq<Record>, q: Name)
    requires Provable(origin, records) && ValidName(q)
    ensures !BelowCut(origin, records, q)
  {
    NoRoomNoDelegation(origin, records, q);
  }

  /** The children of an existing name that do not exist themselves are answered by its wildcard only. */
  lemma AbsentChild(origin: Name, records: seq<Record>, t: Name, l: Label)
    requires Exists(origin, records, t) && !Exists(origin, records, t + [l])
    ensures ExistDepth(origin, records, t + [l], |t| + 1) == |t|
    ensures AuthDepth(origin, records, t + [l], |t| + 1) == AuthDepth(origin, records, t, |t|)
  {
    var q := t + [l];
    assert q[..|t| + 1] == q && q[..|t|] == t;
    if InZone(origin, records, q) {
      InZoneExists(origin, records, q);
      assert false;
    }
    hide Exists, InZone;
    AuthOfPrefix(origin, records, t, q, |t|);
  }

  lemma {:induction false} AuthOfPrefix(origin: Name, records: seq<Record>, t: Name, q: Name, count: nat)
    requires count <= |t| <= |q| && q[..|t|] == t
    ensures AuthDepth(origin, records, q, count) == AuthDepth(origin, records, t, count)
    decreases count
  {
    hide InZone;
    if count > 0 {
      assert q[..count] == t[..count];
      AuthOfPrefix(origin, records, t, q, count - 1);
    }
  }

  /** Sufficiency, name by name. */
  lemma ProvableAgrees(origin: Name, records: seq<Record>, q: Name)
    requires BuildChain(origin, records).Some? && Provable(origin, records) && ValidName(q) && IsSubdomain(q, origin)
    ensures Agrees(origin, records, q)
  {
    hide BuildChain, Denied, InZone, Exists, BelowCut, Same, Wildcard;
    DeniedInZone(origin, records, q);
    NothingDelegated(origin, records, q);
    Depths(origin, records, q);
    assert q[..|q|] == q;
    if InZone(origin, records, q) {
      InZoneExists(origin, records, q);
    } else if Exists(origin, records, q) {
      assert EmptyNonTerminal(origin, records, q);
    } else {
      ProvableAgreesOnAbsent(origin, records, q);
    }
  }

  lemma ProvableAgreesOnAbsent(origin: Name, records: seq<Record>, q: Name)
    requires Provable(origin, records) && ValidName(q) && IsSubdomain(q, origin) && InZone(origin, records, origin)
    requires !Exists(origin, records, q)
    ensures var d, e := AuthDepth(origin, records, q, |q|), ExistDepth(origin, records, q, |q|);
            d > 0 && !InZone(origin, records, Wildcard(q[..d])) <==> !Exists(origin, records, Wildcard(q[..e]))
  {
    hide Provable, ChildrenAnswered, ValidName, AuthDepth, ExistDepth, InZone, Exists, BelowCut, IsSubdomain, Wildcard;
    var d, e := AuthDepth(origin, records, q, |q|), ExistDepth(origin, records, q, |q|);
    Depths(origin, records, q);
    assert q[..|q|] == q;
    assert e < |q| && !Exists(origin, records, q[..e + 1]);
    var t := q[..e];
    assert q[..e + 1] == t + [q[e]];
    ValidPrefix(q, e + 1);
    ValidPrefix(q, e);
    AbsentIsAnswered(origin, records, t, q[e]);
    if d == 0 && e == 0 {
      AtRoot(origin, records, q);
    } else if d < e {
      StopsAtEmpty(origin, records, q, e);
    } else {
      AncestorsNested(q, origin, e);
      WildcardOwned(origin, records, t, q[e]);
    }
  }

  lemma AbsentIsAnswered(origin: Name, records: seq<Record>, t: Name, l: Label)
    requires ValidName(t + [l]) && !Exists(origin, records, t + [l])
    ensures ChildrenAnswered(origin, records, t) ==> Exists(origin, records, Wildcard(t))
  {
    hide ValidName, Exists, Wildcard;
  }

  lemma AtRoot(origin: Name, records: seq<Record>, q: Name)
    requires Provable(origin, records) && q != [] && ValidName(q[..1]) && !Exists(origin, records, q[..1])
    requires |origin| == 0
    ensures Exists(origin, records, Wildcard(q[..0]))
  {
    hide ValidName, Exists, EmptyNonTerminal, ProofStops;
    assert q[..1] == [] + [q[0]] && q[..0] == [];
  }

  /** A closest encloser without records stops the proof of the names below it. */
  lemma StopsAtEmpty(origin: Name, records: seq<Record>, q: Name, e: nat)
    requires Provable(origin, records) && ValidName(q) && IsSubdomain(q, origin) && |origin| <= e <= |q|
    requires Exists(origin, records, q[..e]) && AuthDepth(origin, records, q, |q|) < e
    requires forall k :: e < k <= |q| ==> !Exists(origin, records, q[..k])
    ensures var d := AuthDepth(origin, records, q, |q|);
            d == 0 || InZone(origin, records, Wildcard(q[..d]))
    ensures ChildrenAnswered(origin, records, q[..e])
  {
    hide InZone, Exists, BelowCut, Same, Wildcard, ValidName, ChildrenAnswered;
    var d, t := AuthDepth(origin, records, q, |q|), q[..e];
    ValidPrefix(q, e);
    NothingDelegated(origin, records, t);
    AncestorsNested(q, origin, e);
    DepthAtClosest(origin, records, q, e, |q|);
    assert EmptyNonTerminal(origin, records, t);
    assert ProofStops(origin, records, t);
    assert |t| == e && t[..d] == q[..d];
  }

  lemma ValidWildcard(t: Name, l: Label)
    requires ValidName(t + [l])
    ensures ValidName(Wildcard(t))
  {
    assert (t + [l])[..|t|] == t && Wildcard(t)[..|t|] == t;
    assert (t + [l])[|t|] == l;
    assert forall i :: 0 <= i < |t| ==> Wildcard(t)[i] == (t + [l])[i];
  }

  /** In a provable zone the wildcard below an authoritative name is no empty non-terminal. */
  lemma WildcardOwned(origin: Name, records: seq<Record>, t: Name, l: Label)
    requires Provable(origin, records) && ValidName(t + [l])
    requires IsSubdomain(t, origin) && t != [] && InZone(origin, records, t)
    ensures InZone(origin, records, Wildcard(t)) <==> Exists(origin, records, Wildcard(t))
  {
    hide InZone, Exists, BelowCut, Same;
    var w := Wildcard(t);
    ValidWildcard(t, l);
    hide ValidName;
    if InZone(origin, records, w) {
      InZoneExists(origin, records, w);
    } else if Exists(origin, records, w) {
      NothingDelegated(origin, records, w);
      ChildBelow(t, STAR, origin);
      assert EmptyNonTerminal(origin, records, w);
      EmptyWildcardGoesOn(origin, records, t);
      assert false;
    }
  }

  /** At a wildcard without records below an authoritative name the proof does not stop. */
  lemma EmptyWildcardGoesOn(origin: Name, records: seq<Record>, t: Name)
    requires t != [] && InZone(origin, records, t) && !InZone(origin, records, Wildcard(t))
    ensures !ProofStops(origin, records, Wildcard(t))
  {
    hide InZone;
    var w := Wildcard(t);
    assert w[..|t|] == t && w[..|w|] == w && t[..|t|] == t;
    assert AuthDepth(origin, records, w, |t| + 1) == AuthDepth(origin, records, w, |t|) == |t|;
  }

  /** Below the closest encloser nothing is authoritative. */
  lemma {:induction false} DepthAtClosest(origin: Name, records: seq<Record>, q: Name, e: nat, count: nat)
    requires e <= count <= |q| && forall k :: e < k <= |q| ==> !Exists(origin, records, q[..k])
    ensures AuthDepth(origin, records, q, count) == AuthDepth(origin, records, q[..e], e)
    decreases count
  {
    hide InZone, Exists;
    if count == e {
      AuthOfPrefix(origin, records, q[..e], q, e);
    } else {
      if InZone(origin, records, q[..count]) {
        InZoneExists(origin, records, q[..count]);
        assert false;
      }
      DepthAtClosest(origin, records, q, e, count - 1);
    }
  }

  /** Necessity: an empty non-terminal of a zone whose proofs are right. */
  lemma RightAtEmptyNonTerminal(origin: Name, records: seq<Record>, t: Name)
    requires BuildChain(origin, records).Some? && ValidName(t) && EmptyNonTerminal(origin, records, t)
    requires Agrees(origin, records, t)
    requires forall l :: ValidName(t + [l]) ==> Agrees(origin, records, t + [l]) && !BelowCut(origin, records, t + [l])
    ensures ProofStops(origin, records, t) && ChildrenAnswered(origin, records, t)
  {
    hide BuildChain, Denied, InZone, Exists, BelowCut, Same, Wildcard, ValidName;
    DeniedInZone(origin, records, t);
    assert ProofStops(origin, records, t);
    if l :| ValidName(t + [l]) && !Exists(origin, records, t + [l]) {
      var q := t + [l];
      assert |q| == |t| + 1 && q[..|t|] == t;
      DeniedInZone(origin, records, q);
      AbsentChild(origin, records, t, l);
      var d := AuthDepth(origin, records, t, |t|);
      assert q[..d] == t[..d];
    }
  }

  lemma RightAtRoot(records: seq<Record>)
    requires BuildChain([], records).Some?
    requires forall l :: ValidName([l]) ==> Agrees([], records, [l]) && !BelowCut([], records, [l])
    ensures ChildrenAnswered([], records, [])
  {
    hide BuildChain, Denied, InZone, Exists, BelowCut, Same, Wildcard, ValidName;
    if l :| ValidName([] + [l]) && !Exists([], records, [] + [l]) {
      var q: Name := [l];
      assert [] + [l] == q && q[..0] == [] && q[..1] == q;
      DeniedInZone([], records, q);
      InZoneExists([], records, []);
      AbsentChild([], records, [], l);
    }
  }

  /** A cut that can have children has one, and it is denied. */
  lemma RightAtCut(origin: Name, records: seq<Record>, i: nat)
    requires BuildChain(origin, records).Some? && i < |records| && IsCut(origin, records[i]) && ValidName(records[i].owner)
    requires Octets(records[i].owner) + 2 <= MAX_NAME_OCTETS
    ensures var q := Wildcard(records[i].owner);
            ValidName(q) && IsSubdomain(q, origin) && !Agrees(origin, records, q)
  {
    var c := records[i].owner;
    var q := Wildcard(c);
    assert q[..|q| - 1] == c && q[..|c|] == c;
    assert ValidName(q);
    hide ValidName, Octets, BuildChain, Denied;
    SameRefl(c);
    SubdomainTransitive(q, c, origin);
    DifferentLength(q, c);
    DelegatedIsDenied(origin, records, q);
  }

  /** The name errors of a zone are proved exactly (for every valid name of the zone, the proof over its
      chain succeeds if and only if the zone answers that there is no such name) if and only if the zone
      is provable. */
  lemma ZoneProvedExactly(origin: Name, records: seq<Record>)
    requires BuildChain(origin, records).Some? && ValidZone(origin, records)
    ensures (forall q :: ValidName(q) && IsSubdomain(q, origin) ==> Agrees(origin, records, q))
            <==> Provable(origin, records)
  {
    hide BuildChain, Denied, InZone, Exists, Same, ValidName, Octets, Agrees, ProofStops, ChildrenAnswered, BelowCut, IsCut;
    if Provable(origin, records) {
      forall q | ValidName(q) && IsSubdomain(q, origin)
        ensures Agrees(origin, records, q)
      {
        ProvableAgrees(origin, records, q);
      }
    }
    if forall q :: ValidName(q) && IsSubdomain(q, origin) ==> Agrees(origin, records, q) {
      AllAgreeIsProvable(origin, records);
    }
  }

  lemma AllAgreeIsProvable(origin: Name, records: seq<Record>)
    requires BuildChain(origin, records).Some? && ValidZone(origin, records)
    requires forall q :: ValidName(q) && IsSubdomain(q, origin) ==> Agrees(origin, records, q)
    ensures Provable(origin, records)
  {
    hide BuildChain, Denied, InZone, Exists, Same, ValidName, Octets, Agrees, ProofStops, ChildrenAnswered, BelowCut, IsCut;
    forall i | 0 <= i < |records| && IsCut(origin, records[i])
      ensures Octets(records[i].owner) + 2 > MAX_NAME_OCTETS
    {
      if Octets(records[i].owner) + 2 <= MAX_NAME_OCTETS {
        RightAtCut(origin, records, i);
        assert false;
      }
    }
    forall q | ValidName(q) && IsSubdomain(q, origin)
      ensures !BelowCut(origin, records, q)
    {
      NoRoomNoDelegation(origin, records, q);
    }
    forall t | ValidName(t) && EmptyNonTerminal(origin, records, t)
      ensures ProofStops(origin, records, t) && ChildrenAnswered(origin, records, t)
    {
      forall l | ValidName(t + [l])
        ensures IsSubdomain(t + [l], origin)
      {
        ChildBelow(t, l, origin);
      }
      RightAtEmptyNonTerminal(origin, records, t);
    }
    if origin == [] {
      forall l: Label
        ensures IsSubdomain([l], [])
      {
        PrefixAbove([l], 0);
      }
      RightAtRoot(records);
    }
  }

  lemma ChildBelow(t: Name, l: Label, origin: Name)
    requires IsSubdomain(t, origin)
    ensures IsSubdomain(t + [l], origin)
  {
    assert (t + [l])[..|origin|] == t[..|origin|];
  }

  lemma NoRoomNoDelegation(origin: Name, records: seq<Record>, q: Name)
    requires ValidName(q)
    requires forall i :: 0 <= i < |records| && IsCut(origin, records[i]) ==> Octets(records[i].owner) + 2 > MAX_NAME_OCTETS
    ensures !BelowCut(origin, records, q)
  {
    hide ValidName, Same;
    forall i | 0 <= i < |records| && IsCut(origin, records[i]) && IsSubdomain(q, records[i].owner)
      ensures Same(q, records[i].owner)
    {
      if !Same(q, records[i].owner) {
        ShorterAncestor(q, records[i].owner);
        RoomBelow(q, records[i].owner);
        assert false;
      }
    }
  }

  /** The simple case: in a zone below the root without delegations, in which every name between the
      origin and a record owns records itself, the proof is sound and complete. */
  lemma PlainZonesAreDenied(origin: Name, records: seq<Record>, q: Name)
    requires BuildChain(origin, records).Some? && origin != []
    requires forall i :: 0 <= i < |records| ==> !IsCut(origin, records[i])
    requires forall t :: IsSubdomain(t, origin) && Exists(origin, records, t) ==> InZone(origin, records, t)
    requires ValidName(q) && IsSubdomain(q, origin)
    ensures Denied(BuildChain(origin, records).value, q) <==> NameError(origin, records, q)
  {
    hide BuildChain, Denied, NameError, InZone, Exists, ValidName, Same;
    assert Provable(origin, records);
    ProvableAgrees(origin, records, q);
  }

  // ---------------------------------------------------------------- the three ways to fail

  const SOA: nat := 6
  const A: nat := 1

  /** A chain is built exactly when the origin is authoritative. */
  lemma BuiltExactly(origin: Name, records: seq<Record>)
    ensures BuildChain(origin, records).Some? <==> InZone(origin, records, origin)
  {
    hide Compare, Same, Authoritative, TypesAt, Collected, Sorted;
    var collected := Collected(origin, records, |records|);
    CollectedOwners(origin, records, |records|, origin);
    SortedAscends(collected);
    if Owns(collected, origin) {
      OwnsByMembers(collected, Sorted(collected), origin);
    }
    if Owns(Sorted(collected), origin) {
      OwnsByMembers(Sorted(collected), collected, origin);
    }
  }

  /** A name that exists only as an empty non-terminal is denied unless the proof stops beside it. */
  lemma EmptyNonTerminalIsDenied(origin: Name, records: seq<Record>, t: Name)
    requires BuildChain(origin, records).Some? && ValidName(t) && EmptyNonTerminal(origin, records, t)
    ensures Denied(BuildChain(origin, records).value, t) <==> !ProofStops(origin, records, t)
    ensures !NameError(origin, records, t)
  {
    hide BuildChain, Denied, InZone, AuthDepth;
    DeniedInZone(origin, records, t);
  }

  /** So is every absent child of an authoritative name whose wildcard exists without records, although
      that wildcard answers "no data" for it. */
  lemma EmptyWildcardIsDenied(origin: Name, records: seq<Record>, t: Name, l: Label)
    requires BuildChain(origin, records).Some? && ValidName(t + [l]) && t != []
    requires InZone(origin, records, t) && !Exists(origin, records, t + [l])
    requires Exists(origin, records, Wildcard(t)) && !InZone(origin, records, Wildcard(t))
    ensures Denied(BuildChain(origin, records).value, t + [l]) && !NameError(origin, records, t + [l])
  {
    hide BuildChain, Denied, InZone, Exists, BelowCut, Same, Wildcard, ValidName;
    var q := t + [l];
    DeniedInZone(origin, records, q);
    InZoneExists(origin, records, t);
    AbsentChild(origin, records, t, l);
    assert q[..|t|] == t && q[..|q|] == q && t[..|t|] == t;
    if InZone(origin, records, q) {
      InZoneExists(origin, records, q);
      assert false;
    }
    assert AuthDepth(origin, records, t, |t|) == |t|;
  }

  /** x delegates b.x, and a.b.x has a record: it is denied. */
  lemma DelegationExample(x: Label, b: Label, a: Label)
    requires ValidLabel(x) && ValidLabel(b) && ValidLabel(a)
    ensures var records := [Record([x], SOA), Record([x, b], NS), Record([x, b, a], A)];
            && BuildChain([x], records).Some?
            && Denied(BuildChain([x], records).value, [x, b, a])
            && Exists([x], records, [x, b, a]) && !NameError([x], records, [x, b, a])
  {
    var origin: Name, cut: Name, q: Name := [x], [x, b], [x, b, a];
    var records := [Record(origin, SOA), Record(cut, NS), Record(q, A)];
    ShortNames(x, b, a);
    hide ValidName, Octets, BuildChain, Denied;
    Lined(x, b, a);
    assert !BelowCut(origin, records, origin);
    assert Authoritative(origin, records, records[0]);
    SameRefl(origin);
    assert InZone(origin, records, origin);
    BuiltExactly(origin, records);
    assert IsCut(origin, records[1]);
    assert BelowCut(origin, records, q);
    DelegatedIsDenied(origin, records, q);
    SameRefl(q);
    assert IsData(origin, records[2]) && q[..3] == q && IsSubdomain(records[2].owner, q);
  }

  lemma Lined(x: Label, b: Label, a: Label)
    ensures IsSubdomain([x, b, a], [x, b]) && IsSubdomain([x, b, a], [x]) && IsSubdomain([x, b], [x]) && IsSubdomain([x], [x])
    ensures !IsSubdomain([x], [x, b]) && !IsSubdomain([x, b], [x, b, a]) && !IsSubdomain([x], [x, b, a])
  {
    assert [x, b, a][..2] == [x, b] && [x, b, a][..1] == [x] && [x, b][..1] == [x] && [x][..1] == [x];
    SameRefl([x, b]);
    SameRefl([x]);
  }

  lemma ShortNames(x: Label, b: Label, a: Label)
    requires ValidLabel(x) && ValidLabel(b) && ValidLabel(a)
    ensures ValidName([x]) && ValidName([x, b]) && ValidName([x, b, a])
  {
    assert [x, b, a][..2] == [x, b] && [x, b][..1] == [x] && [x][..0] == [];
    assert Octets([]) == 1 && Octets([x]) == 2 + |x| && Octets([x, b]) == 3 + |x| + |b|;
  }

  /** a.b.x has a record and b.x none: b.x exists and is denied. */
  lemma EmptyNonTerminalExample(x: Label, b: Label, a: Label)
    requires ValidLabel(x) && ValidLabel(b) && ValidLabel(a)
    ensures var records := [Record([x], SOA), Record([x, b, a], A)];
            && BuildChain([x], records).Some?
            && Denied(BuildChain([x], records).value, [x, b])
            && Exists([x], records, [x, b]) && !NameError([x], records, [x, b])
  {
    var origin: Name, t: Name, q: Name := [x], [x, b], [x, b, a];
    var records := [Record(origin, SOA), Record(q, A)];
    ShortNames(x, b, a);
    hide ValidName, Octets, BuildChain, Denied;
    Lined(x, b, a);
    NoCuts(origin, records);
    SameRefl(origin);
    DifferentLength(origin, t);
    DifferentLength(q, t);
    var w := Wildcard(origin);
    assert |w| == 2;
    DifferentLength(origin, w);
    DifferentLength(q, w);
    assert t[..2] == t && t[..1] == origin;
    hide Same;
    AllAuthoritative(origin, records, origin);
    AllAuthoritative(origin, records, t);
    AllAuthoritative(origin, records, w);
    assert Same(records[0].owner, origin);
    assert InZone(origin, records, origin) && !InZone(origin, records, t) && !InZone(origin, records, w);
    hide InZone;
    BuiltExactly(origin, records);
    assert IsData(origin, records[1]) && IsSubdomain(records[1].owner, t);
    assert AuthDepth(origin, records, t, 1) == 1 && AuthDepth(origin, records, t, 2) == 1;
    EmptyNonTerminalIsDenied(origin, records, t);
  }

  lemma NoCuts(origin: Name, records: seq<Record>)
    requires forall i :: 0 <= i < |records| ==> records[i].kind != NS
    ensures forall n :: !BelowCut(origin, records, n)
  {
  }

  lemma AllAuthoritative(origin: Name, records: seq<Record>, n: Name)
    requires forall i :: 0 <= i < |records| ==> IsData(origin, records[i]) && !BelowCut(origin, records, records[i].owner)
    ensures InZone(origin, records, n) <==> exists i :: 0 <= i < |records| && Same(records[i].owner, n)
  {
    hide Same, BelowCut;
  }

  /** The root zone with nothing but its origin: no top-level name exists, and none is denied. */
  lemma RootZoneExample(l: Label)
    requires ValidLabel(l)
    ensures var records := [Record([], SOA)];
            && BuildChain([], records).Some?
            && NameError([], records, [l]) && !Denied(BuildChain([], records).value, [l])
  {
    var origin: Name, q: Name := [], [l];
    var records := [Record(origin, SOA)];
    ShortNames(l, l, l);
    hide ValidName, Octets, BuildChain, Denied;
    var w := Wildcard(origin);
    assert |w| == 1 && q[..1] == q && q[..0] == origin;
    NoCuts(origin, records);
    SameRefl(origin);
    assert IsData(origin, records[0]) by {
      assert origin[..0] == origin;
    }
    DifferentLength(origin, q);
    DifferentLength(origin, w);
    AllAuthoritative(origin, records, origin);
    AllAuthoritative(origin, records, q);
    AllAuthoritative(origin, records, w);
    hide Same, BelowCut, Wildcard;
    assert Same(records[0].owner, origin);
    assert InZone(origin, records, origin) && !InZone(origin, records, q) && !InZone(origin, records, w);
    assert !Exists(origin, records, q) && !Exists(origin, records, w);
    hide InZone, Exists;
    BuiltExactly(origin, records);
    assert AuthDepth(origin, records, q, 1) == 0 && ExistDepth(origin, records, q, 1) == 0;
    DeniedInZone(origin, records, q);
  }

  // ---------------------------------------------------------------- the chain, record by record

  /** `ancestor` is strictly above `n`. */
  ghost predicate StrictlyAbove(ancestor: Name, n: Name) {
    |ancestor| < |n| && Same(n[..|ancestor|], ancestor)
  }

  /** The records hand `n` to another zone: it is not the origin, lies below it and has name servers. */
  ghost predicate Delegates(origin: Name, records: seq<Record>, n: Name) {
    StrictlyAbove(origin, n) && exists i :: 0 <= i < |records| && records[i].kind == 2 && Same(records[i].owner, n)
  }

  /** `n` owns a record that is neither a signature nor a denial record, at or below the origin, and no name
      above it is delegated. */
  ghost predicate OwnsRecords(origin: Name, records: seq<Record>, n: Name) {
    && (Same(n, origin) || StrictlyAbove(origin, n))
    && (exists i :: 0 <= i < |records| && Same(records[i].owner, n) && records[i].kind !in {46, 47, 50})
    && forall i :: 0 <= i < |records| && records[i].kind == 2 && StrictlyAbove(origin, records[i].owner) ==>
                     !StrictlyAbove(records[i].owner, n)
  }

  lemma AboveOrSame(a: Name, n: Name)
    ensures IsSubdomain(n, a) <==> Same(n, a) || StrictlyAbove(a, n)
    ensures StrictlyAbove(a, n) ==> !Same(n, a)
  {
    assert |n| == |a| ==> n[..|a|] == n;
  }

  lemma AboveAlike(a: Name, b: Name, n: Name, m: Name)
    requires Same(a, b) && Same(n, m)
    ensures StrictlyAbove(a, n) <==> StrictlyAbove(b, m)
  {
    SameLabelLaws();
    hide SameLabel;
    if |a| < |n| {
      assert Same(n[..|a|], m[..|a|]);
    }
  }

  lemma BelowCutMeans(origin: Name, records: seq<Record>, n: Name)
    ensures BelowCut(origin, records, n) <==>
              exists i :: 0 <= i < |records| && records[i].kind == 2 && StrictlyAbove(origin, records[i].owner)
                          && StrictlyAbove(records[i].owner, n)
  {
    hide Same, StrictlyAbove, IsSubdomain;
    forall i | 0 <= i < |records|
      ensures IsCut(origin, records[i]) <==> records[i].kind == 2 && StrictlyAbove(origin, records[i].owner)
      ensures (!Same(n, records[i].owner) && IsSubdomain(n, records[i].owner)) <==> StrictlyAbove(records[i].owner, n)
    {
      AboveOrSame(origin, records[i].owner);
      AboveOrSame(records[i].owner, n);
    }
  }

  lemma InZoneMeans(origin: Name, records: seq<Record>, n: Name)
    ensures InZone(origin, records, n) <==> OwnsRecords(origin, records, n)
  {
    hide Same, StrictlyAbove, IsSubdomain, BelowCut;
    forall i | 0 <= i < |records| && Same(records[i].owner, n)
      ensures Authoritative(origin, records, records[i]) <==>
                && records[i].kind !in {46, 47, 50} && (Same(n, origin) || StrictlyAbove(origin, n))
                && forall j :: 0 <= j < |records| && records[j].kind == 2 && StrictlyAbove(origin, records[j].owner) ==>
                                 !StrictlyAbove(records[j].owner, n)
    {
      var o := records[i].owner;
      BelowCutMeans(origin, records, o);
      AboveOrSame(origin, o);
      SameIsEquivalence(o, n, origin);
      SameIsEquivalence(n, o, origin);
      SameIsEquivalence(origin, origin, origin);
      AboveAlike(origin, origin, o, n);
      forall j | 0 <= j < |records|
        ensures StrictlyAbove(records[j].owner, o) <==> StrictlyAbove(records[j].owner, n)
      {
        SameIsEquivalence(records[j].owner, records[j].owner, records[j].owner);
        AboveAlike(records[j].owner, records[j].owner, o, n);
      }
    }
  }

  /** The kinds of record that the chain shows at a name: what it owns, at a delegation only its name servers
      and delegation signer, and always signatures and the denial record itself. */
  ghost predicate ShowsKind(origin: Name, records: seq<Record>, n: Name, kind: nat) {
    || kind == 46 || kind == 47
    || (kind != 50 && (Delegates(origin, records, n) ==> kind == 2 || kind == 43)
        && exists i :: 0 <= i < |records| && records[i].kind == kind && Same(records[i].owner, n))
  }

  lemma TypesMean(origin: Name, records: seq<Record>, n: Name, kind: nat)
    ensures kind in TypesAt(origin, records, n) <==> ShowsKind(origin, records, n, kind)
  {
    hide Same, StrictlyAbove, IsSubdomain;
    forall i | 0 <= i < |records| && Same(records[i].owner, n)
      ensures IsCut(origin, records[i]) <==> records[i].kind == 2 && StrictlyAbove(origin, n)
    {
      AboveOrSame(origin, records[i].owner);
      SameIsEquivalence(origin, origin, origin);
      AboveAlike(origin, origin, records[i].owner, n);
    }
    assert AtCut(origin, records, n) <==> Delegates(origin, records, n);
  }

  /** The chain has a denial record for the name. */
  ghost predicate InChain(chain: seq<Nsec>, n: Name) {
    exists i :: 0 <= i < |chain| && Same(chain[i].owner, n)
  }

  /** The chain of a zone: one record for every name that owns records, in canonical order and beginning
      with the origin; each names the one after it, the last one the origin; and each shows the kinds of
      record there are. */
  lemma ChainMeans(origin: Name, records: seq<Record>)
    requires BuildChain(origin, records).Some?
    ensures var chain := BuildChain(origin, records).value;
            && chain != [] && Same(chain[0].owner, origin)
            && (forall i :: 0 <= i < |chain| ==> chain[i].next == chain[if i + 1 < |chain| then i + 1 else 0].owner)
            && (forall i, j :: 0 <= i < j < |chain| ==> Precedes(chain[i].owner, chain[j].owner))
            && (forall n :: InChain(chain, n) <==> OwnsRecords(origin, records, n))
            && (forall i, kind :: 0 <= i < |chain| ==> (kind in chain[i].types <==> ShowsKind(origin, records, chain[i].owner, kind)))
  {
    hide BuildChain, InZone, TypesAt, OwnsRecords, ShowsKind, Compare, Same, Precedes;
    var owners := ChainOfZone(origin, records);
    OriginFirst(origin, records, owners);
    ChainAscends(origin, records, owners);
    ChainOwners(origin, records, owners);
    ChainKinds(origin, records, owners);
    hide Ascending, Owns;
  }

  lemma ChainAscends(origin: Name, records: seq<Record>, owners: seq<Name>)
    requires BuildChain(origin, records).Some? && Ascending(owners) && ChainOver(owners, BuildChain(origin, records).value)
    ensures var chain := BuildChain(origin, records).value;
            forall i, j :: 0 <= i < j < |chain| ==> Precedes(chain[i].owner, chain[j].owner)
  {
    hide BuildChain, Compare, Precedes;
    forall i, j | 0 <= i < j < |owners|
      ensures Precedes(owners[i], owners[j])
    {
      FirstDifference(owners[i], owners[j]);
    }
  }

  lemma ChainOwners(origin: Name, records: seq<Record>, owners: seq<Name>)
    requires BuildChain(origin, records).Some? && ChainOver(owners, BuildChain(origin, records).value)
    requires forall n :: Owns(owners, n) <==> InZone(origin, records, n)
    ensures var chain := BuildChain(origin, records).value;
            forall n :: InChain(chain, n) <==> OwnsRecords(origin, records, n)
  {
    hide BuildChain, InZone, OwnsRecords, Same, InChain, Owns;
    var chain := BuildChain(origin, records).value;
    forall n
      ensures InChain(chain, n) <==> OwnsRecords(origin, records, n)
    {
      InZoneMeans(origin, records, n);
      OwnerInChain(owners, chain, n);
    }
  }

  lemma OwnerInChain(owners: seq<Name>, chain: seq<Nsec>, n: Name)
    requires ChainOver(owners, chain)
    ensures InChain(chain, n) <==> Owns(owners, n)
  {
    hide Same;
    if InChain(chain, n) {
      var i :| 0 <= i < |chain| && Same(chain[i].owner, n);
      assert Same(owners[i], n);
    }
    if Owns(owners, n) {
      var i :| 0 <= i < |owners| && Same(owners[i], n);
      assert Same(chain[i].owner, n);
    }
  }

  lemma ChainKinds(origin: Name, records: seq<Record>, owners: seq<Name>)
    requires BuildChain(origin, records).Some? && ChainOver(owners, BuildChain(origin, records).value)
    requires forall i :: 0 <= i < |owners| ==> BuildChain(origin, records).value[i].types == TypesAt(origin, records, owners[i])
    ensures var chain := BuildChain(origin, records).value;
            forall i, kind :: 0 <= i < |chain| ==> (kind in chain[i].types <==> ShowsKind(origin, records, chain[i].owner, kind))
  {
    hide BuildChain, TypesAt, ShowsKind;
    var chain := BuildChain(origin, records).value;
    forall i, kind | 0 <= i < |chain|
      ensures kind in chain[i].types <==> ShowsKind(origin, records, chain[i].owner, kind)
    {
      TypesMean(origin, records, owners[i], kind);
    }
  }

  /** The origin is above every other name of the zone, so it comes first. */
  lemma OriginFirst(origin: Name, records: seq<Record>, owners: seq<Name>)
    requires Ascending(owners) && Owns(owners, origin)
    requires forall n :: Owns(owners, n) <==> InZone(origin, records, n)
    ensures owners != [] && Same(owners[0], origin)
  {
    hide InZone, Compare, Same, StrictlyAbove, IsSubdomain;
    SameIsEquivalence(owners[0], owners[0], owners[0]);
    assert Owns(owners, owners[0]);
    InZoneExists(origin, records, owners[0]);
    AboveOrSame(origin, owners[0]);
    if StrictlyAbove(origin, owners[0]) {
      var k :| 0 <= k < |owners| && Same(owners[k], origin);
      AncestorBefore(origin, owners[0]);
      OrderEqual(owners[k], origin);
      TotalOrder(owners[k], origin, owners[0]);
      OrderAntisymmetric(owners[0], owners[k]);
      assert false;
    }
  }

  lemma AncestorBefore(a: Name, n: Name)
    requires StrictlyAbove(a, n)
    ensures Compare(a, n) < 0
  {
    AncestorsFirst(n, a);
  }
}
