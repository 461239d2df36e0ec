/** Agreement between the IKE SA owners of the control shard and the SAD of the forwarding shard.

    Any number of owners share one SAD. A request crosses to the forwarding shard once, at any later
    time; an acknowledgement may arrive late, repeatedly or never. The invariant assigns every SA id
    in the SAD to exactly one CHILD SA of exactly one owner. */
module ChildSaProtocol {
  import opened Options
  import opened SecurityAssociations
  import opened ChildSas

  datatype Request = Install(install: InstallRequest) | Remove(remove: RemoveRequest)

  datatype Ack = InstallAck(owner: nat, request: nat, committed: bool) | RemoveAck(owner: nat, request: nat, erased: bool)

  datatype System = System(
    sas: map<nat, Sa>, entries: seq<Association>, capacity: nat, transit: set<Request>, acks: set<Ack>)

  datatype Move =
    | StartIke(owner: nat, spi: nat, now: int)
    | DeriveKeys(owner: nat, spi: nat, keys: nat, now: int)
    | Authenticate(owner: nat, ok: bool, now: int)
    | AskInstall(owner: nat, child: nat, inbound: Association, outbound: Association)
    | AskRekey(owner: nat, replaced: nat, child: nat, inbound: Association, outbound: Association)
    | AskDelete(owner: nat, child: nat)
    | AskIkeDelete(owner: nat)
    | FinishIkeDelete(owner: nat)
    | Activity(owner: nat, now: int)
    | Poll(owner: nat, now: int)
    | Forward(request: Request)
    | Acknowledge(ack: Ack, now: int)

  function Send(sys: System, owner: nat, sa: Sa, request: Option<InstallRequest>): System {
    sys.(sas := sys.sas[owner := sa],
         transit := if request.Some? then sys.transit + {Install(request.value)} else sys.transit)
  }

  function Process(sys: System, request: Request): System {
    if request !in sys.transit then sys
    else
      match request
      case Install(r) =>
        var (entries, result) := InstallPairInto(sys.entries, sys.capacity, r.inbound, r.outbound);
        sys.(entries := entries, transit := sys.transit - {request},
             acks := sys.acks + {InstallAck(r.owner, r.id, result.committed)})
      case Remove(r) =>
        var (entries, result) := ErasePairFrom(sys.entries, r.inbound, r.outbound);
        sys.(entries := entries, transit := sys.transit - {request},
             acks := sys.acks + {RemoveAck(r.owner, r.id, result == Erased)})
  }

  function Learn(sa: Sa, ack: Ack, now: int): Sa {
    match ack
    case InstallAck(_, request, committed) => CompleteInstall(sa, request, committed, now).0
    case RemoveAck(_, request, erased) => CompleteDelete(sa, request, erased).0
  }

  predicate Enabled(sys: System, m: Move) {
    match m
    case Forward(request) => request in sys.transit
    case Acknowledge(ack, _) => ack in sys.acks && ack.owner in sys.sas
    case _ => m.owner in sys.sas
  }

  function Next(sys: System, m: Move): System
    requires Enabled(sys, m)
  {
    match m
    case Forward(request) => Process(sys, request)
    case Acknowledge(ack, now) => sys.(sas := sys.sas[ack.owner := Learn(sys.sas[ack.owner], ack, now)])
    case AskInstall(k, child, inbound, outbound) =>
      var (sa, r) := BeginInstall(sys.sas[k], child, 0, inbound, outbound); Send(sys, k, sa, r)
    case AskRekey(k, replaced, child, inbound, outbound) =>
      var (sa, r) := BeginRekey(sys.sas[k], replaced, child, inbound, outbound); Send(sys, k, sa, r)
    case AskDelete(k, child) =>
      var (sa, r) := BeginDelete(sys.sas[k], child);
      sys.(sas := sys.sas[k := sa], transit := if r.Some? then sys.transit + {Remove(r.value)} else sys.transit)
    case _ => sys.(sas := sys.sas[m.owner := Quietly(sys.sas[m.owner], m)])
  }

  /** The moves that concern neither a CHILD SA nor the other shard. */
  function Quietly(sa: Sa, m: Move): Sa {
    match m
    case StartIke(_, spi, now) => BeginInitial(sa, spi, now).0
    case DeriveKeys(_, spi, keys, now) => CompleteInitial(sa, spi, keys, now).0
    case Authenticate(_, ok, now) => CompleteAuthentication(sa, ok, now).0
    case AskIkeDelete(_) => BeginIkeDelete(sa).0
    case FinishIkeDelete(_) => CompleteIkeDelete(sa).0
    case Activity(_, now) => NoteActivity(sa, now).0
    case Poll(_, now) => PollLiveness(sa, now).0
    case _ => sa
  }

  // ---------------------------------------------------------------- claims

  /** A pair of SA ids that an owner answers for; `live` when the SAD holds it. */
  datatype Claim = Claim(pair: Pair, live: bool)

  datatype Key = Key(owner: nat, child: nat)

  type Claims = map<Key, Claim>

  ghost predicate Gone(sa: Sa, acks: set<Ack>, c: nat) {
    sa.remove.Some? && sa.remove.value.child == c && RemoveAck(sa.id, sa.remove.value.id, true) in acks
  }

  ghost function BoundClaims(sa: Sa, acks: set<Ack>): map<nat, Claim>
    requires DistinctChildren(sa.children)
  {
    map c | c in Pairs(sa.children) :: Claim(Pairs(sa.children)[c], !Gone(sa, acks, c))
  }

  ghost function PendingClaim(sa: Sa, acks: set<Ack>): Claim
    requires sa.install.Some?
  {
    var r := sa.install.value;
    Claim(Pair(r.inbound.id, r.outbound.id), InstallAck(sa.id, r.id, true) in acks)
  }

  ghost function LocalClaims(sa: Sa, acks: set<Ack>): map<nat, Claim>
    requires DistinctChildren(sa.children)
  {
    if sa.install.Some? then BoundClaims(sa, acks)[sa.install.value.child := PendingClaim(sa, acks)]
    else BoundClaims(sa, acks)
  }

  ghost predicate Backed(claims: Claims, id: nat) {
    exists key :: key in claims && claims[key].live && Member(id, claims[key].pair)
  }

  /** No SA id is claimed twice. */
  ghost predicate Disjoint(claims: Claims) {
    && (forall key :: key in claims ==> claims[key].pair.inbound != claims[key].pair.outbound)
    && (forall key, other :: key in claims && other in claims && key != other ==>
          Apart(claims[key].pair, claims[other].pair))
  }

  /** Live claims are whole pairs of the SAD. */
  ghost predicate Present(m: map<nat, Association>, claims: Claims) {
    forall key :: key in claims && claims[key].live ==>
      HoldsPair(m, claims[key].pair.inbound, claims[key].pair.outbound)
  }

  /** No SA id is claimed twice, live claims are whole pairs of the SAD, and it holds nothing else. */
  ghost predicate Accounted(m: map<nat, Association>, claims: Claims) {
    Disjoint(claims) && Present(m, claims) && forall id :: id in m ==> Backed(claims, id)
  }

  ghost predicate Unclaimed(claims: Claims, id: nat) {
    forall key :: key in claims ==> !Member(id, claims[key].pair)
  }

  lemma BackedElsewhere(claims: Claims, claims': Claims, key: Key, id: nat)
    requires Backed(claims, id)
    requires forall other :: other in claims && other != key ==> other in claims' && claims'[other] == claims[other]
    requires key in claims && claims[key].live ==> !Member(id, claims[key].pair)
    ensures Backed(claims', id)
  {
    var other :| other in claims && claims[other].live && Member(id, claims[other].pair);
    assert other in claims' && claims'[other].live;
  }

  /** A new claim on unclaimed ids. */
  lemma ClaimAdded(m: map<nat, Association>, claims: Claims, key: Key, pair: Pair)
    requires Accounted(m, claims) && key !in claims
    requires Unclaimed(claims, pair.inbound) && Unclaimed(claims, pair.outbound) && pair.inbound != pair.outbound
    ensures Accounted(m, claims[key := Claim(pair, false)])
  {
    hide Backed, HoldsPair;
    var claims' := claims[key := Claim(pair, false)];
    forall id | id in m
      ensures Backed(claims', id)
    {
      BackedElsewhere(claims, claims', key, id);
    }
  }

  lemma DisjointRelabelled(claims: Claims, key: Key, live: bool)
    requires Disjoint(claims) && key in claims
    ensures Disjoint(claims[key := claims[key].(live := live)])
  {
  }

  /** The SAD now holds the pair. */
  lemma ClaimCommitted(m: map<nat, Association>, m': map<nat, Association>, claims: Claims, key: Key)
    requires Accounted(m, claims) && key in claims && !claims[key].live
    requires m'.Keys == m.Keys + {claims[key].pair.inbound, claims[key].pair.outbound}
    requires forall id :: id in m && !Member(id, claims[key].pair) ==> m'[id] == m[id]
    requires HoldsPair(m', claims[key].pair.inbound, claims[key].pair.outbound)
    ensures Accounted(m', claims[key := claims[key].(live := true)])
  {
    hide Backed, Matched;
    var claims' := claims[key := claims[key].(live := true)];
    DisjointRelabelled(claims, key, true);
    forall id | id in m'
      ensures Backed(claims', id)
    {
      if Member(id, claims[key].pair) {
        BackedBy(claims', key, id);
      } else {
        BackedElsewhere(claims, claims', key, id);
      }
    }
    forall other | other in claims' && claims'[other].live
      ensures HoldsPair(m', claims'[other].pair.inbound, claims'[other].pair.outbound)
    {
      if other != key {
        StillHeld(m, m', claims, key, other);
      }
    }
  }

  lemma BackedBy(claims: Claims, key: Key, id: nat)
    requires key in claims && claims[key].live && Member(id, claims[key].pair)
    ensures Backed(claims, id)
  {
  }

  lemma StillHeld(m: map<nat, Association>, m': map<nat, Association>, claims: Claims, key: Key, other: Key)
    requires Disjoint(claims) && Present(m, claims)
    requires key in claims && other in claims && other != key && claims[other].live
    requires forall id :: id in m && !Member(id, claims[key].pair) ==> id in m' && m'[id] == m[id]
    ensures HoldsPair(m', claims[other].pair.inbound, claims[other].pair.outbound)
  {
    assert Apart(claims[other].pair, claims[key].pair);
  }

  /** The SAD no longer holds the pair. */
  lemma ClaimErased(m: map<nat, Association>, claims: Claims, key: Key)
    requires Accounted(m, claims) && key in claims
    ensures Accounted(m - {claims[key].pair.inbound, claims[key].pair.outbound},
                      claims[key := claims[key].(live := false)])
  {
    hide Backed, Matched;
    var m' := m - {claims[key].pair.inbound, claims[key].pair.outbound};
    var claims' := claims[key := claims[key].(live := false)];
    DisjointRelabelled(claims, key, false);
    forall id | id in m'
      ensures Backed(claims', id)
    {
      BackedElsewhere(claims, claims', key, id);
    }
    forall other | other in claims' && claims'[other].live
      ensures HoldsPair(m', claims'[other].pair.inbound, claims'[other].pair.outbound)
    {
      StillHeld(m, m', claims, key, other);
    }
  }

  /** A claim that is not live can be given up. */
  lemma ClaimDropped(m: map<nat, Association>, claims: Claims, key: Key)
    requires Accounted(m, claims) && key in claims && !claims[key].live
    ensures Accounted(m, claims - {key})
  {
    hide Backed, HoldsPair;
    forall id | id in m
      ensures Backed(claims - {key}, id)
    {
      BackedElsewhere(claims, claims - {key}, key, id);
    }
  }

  // ---------------------------------------------------------------- the invariant

  predicate Used(sa: Sa, request: nat) {
    0 < request && (sa.nextRequest == 0 || request < sa.nextRequest)
  }

  predicate Childless(p: Phase) {
    p == Created || p == InitialExchange || p == Authenticating || p == Closed
  }

  /** One owner on its own. */
  ghost predicate Consistent(sa: Sa) {
    && DistinctChildren(sa.children) && |sa.children| <= sa.maximumChildren + 1
    && (sa.install.Some? ==>
          var r := sa.install.value;
          && sa.remove.None? && r.owner == sa.id && Used(sa, r.id) && |sa.children| <= sa.maximumChildren
          && r.child != 0 && r.child !in Pairs(sa.children) && Proposable(r.inbound, r.outbound)
          && (r.supersedes != 0 ==> r.supersedes in Pairs(sa.children)))
    && (sa.remove.Some? ==>
          var r := sa.remove.value;
          && r.owner == sa.id && Used(sa, r.id)
          && r.child in Pairs(sa.children) && Pairs(sa.children)[r.child] == Pair(r.inbound, r.outbound))
    && (Childless(sa.phase) ==>
          sa.children == [] && sa.install.None? && sa.remove.None?)
  }

  /** A pending request is in transit until it has been answered, once. */
  ghost predicate Posted(sa: Sa, transit: set<Request>, acks: set<Ack>) {
    && (sa.install.Some? ==>
          var yes, no := InstallAck(sa.id, sa.install.value.id, true), InstallAck(sa.id, sa.install.value.id, false);
          && (Install(sa.install.value) in transit <==> yes !in acks && no !in acks)
          && !(yes in acks && no in acks))
    && (sa.remove.Some? ==>
          var yes, no := RemoveAck(sa.id, sa.remove.value.id, true), RemoveAck(sa.id, sa.remove.value.id, false);
          && (Remove(sa.remove.value) in transit <==> yes !in acks && no !in acks)
          && !(yes in acks && no in acks))
  }

  function Owner(request: Request): nat {
    match request
    case Install(r) => r.owner
    case Remove(r) => r.owner
  }

  predicate Pending(sa: Sa, request: Request) {
    match request
    case Install(r) => sa.install == Some(r)
    case Remove(r) => sa.remove == Some(r)
  }

  ghost predicate Mailboxes(sys: System) {
    && (forall k :: k in sys.sas ==> sys.sas[k].id == k && Consistent(sys.sas[k]) && Posted(sys.sas[k], sys.transit, sys.acks))
    && (forall q :: q in sys.transit ==> Owner(q) in sys.sas && Pending(sys.sas[Owner(q)], q))
    && (forall a :: a in sys.acks ==> a.owner in sys.sas && Used(sys.sas[a.owner], a.request) && Favourable(a))
  }

  /** No removal is ever rejected. */
  predicate Favourable(a: Ack) {
    a.RemoveAck? ==> a.erased
  }

  ghost function ClaimsOf(sys: System): (claims: Claims)
    requires Mailboxes(sys)
    ensures forall key: Key :: key in claims <==> key.owner in sys.sas && key.child in LocalClaims(sys.sas[key.owner], sys.acks)
    ensures forall key: Key :: key in claims ==> claims[key] == LocalClaims(sys.sas[key.owner], sys.acks)[key.child]
  {
    map key | key in (set k, c | k in sys.sas && c in LocalClaims(sys.sas[k], sys.acks) :: Key(k, c)) ::
      LocalClaims(sys.sas[key.owner], sys.acks)[key.child]
  }

  ghost predicate Agreement(sys: System) {
    && ValidEntries(sys.entries, sys.capacity) && Mailboxes(sys)
    && Accounted(Contents(sys.entries), ClaimsOf(sys))
  }

  // ---------------------------------------------------------------- one owner's steps

  /** The pairs, requests and request ids are as before. */
  predicate SameBusiness(sa: Sa, sa': Sa) {
    sa'.(phase := sa.phase, keys := sa.keys, deadline := sa.deadline, unanswered := sa.unanswered) == sa
  }

  lemma QuietMove(sa: Sa, m: Move)
    requires Consistent(sa)
    ensures SameBusiness(sa, Quietly(sa, m)) && Consistent(Quietly(sa, m))
  {
    hide Pairs, DistinctChildren, DeadlineFrom;
  }

  lemma BeginInstallMove(sa: Sa, child: nat, supersedes: nat, inbound: Association, outbound: Association)
    requires Consistent(sa) && (supersedes != 0 ==> ChildIndex(sa.children, supersedes) < |sa.children|)
    ensures var (sa', r) := BeginInstall(sa, child, supersedes, inbound, outbound);
            && Consistent(sa')
            && (r.None? ==> sa' == sa)
            && (r.Some? ==> && sa.install.None? && sa.remove.None? && sa' == sa.(install := r, nextRequest := sa'.nextRequest)
                            && r.value.id == sa.nextRequest && Used(sa', r.value.id) && !Used(sa, r.value.id)
                            && r.value.child == child && r.value.inbound == inbound && r.value.outbound == outbound
                            && r.value.owner == sa.id && r.value.supersedes == supersedes)
    ensures forall request :: Used(sa, request) ==> Used(BeginInstall(sa, child, supersedes, inbound, outbound).0, request)
  {
    hide Pairs, DistinctChildren, ChildIndex;
    PairsByIndex(sa.children, child);
    PairsByIndex(sa.children, supersedes);
  }

  lemma BeginDeleteMove(sa: Sa, child: nat)
    requires Consistent(sa)
    ensures var (sa', r) := BeginDelete(sa, child);
            && Consistent(sa')
            && (r.None? ==> sa' == sa)
            && (r.Some? ==> && sa.install.None? && sa.remove.None? && sa'.remove == r && sa'.install.None? && sa'.id == sa.id
                            && r.value.owner == sa.id && r.value.child == child
                            && Used(sa', r.value.id) && !Used(sa, r.value.id)
                            && Pairs(sa'.children) == Pairs(sa.children))
    ensures forall request :: Used(sa, request) ==> Used(BeginDelete(sa, child).0, request)
  {
    hide Pairs, ChildIndex;
    PairsByIndex(sa.children, child);
    var i := ChildIndex(sa.children, child);
    if i < |sa.children| {
      PairsOfRelabel(sa.children, i, Retiring);
    }
    hide DistinctChildren;
  }

  lemma CompleteInstallMove(sa: Sa, request: nat, committed: bool, now: int)
    requires Consistent(sa)
    ensures var sa' := CompleteInstall(sa, request, committed, now).0;
            && Consistent(sa') && sa'.id == sa.id && sa'.nextRequest == sa.nextRequest && sa'.remove == sa.remove
            && (sa.install.None? || sa.install.value.id != request ==> sa' == sa)
            && (sa' != sa ==>
                 && sa.install.Some? && sa.install.value.id == request && sa'.install.None? && sa.remove.None?
                 && Pairs(sa'.children) ==
                      if committed then Pairs(sa.children)[sa.install.value.child :=
                        Pair(sa.install.value.inbound.id, sa.install.value.outbound.id)]
                      else Pairs(sa.children))
  {
    hide Pairs, WithInstalled, DeadlineFrom, Proposable, Used, DistinctChildren;
    if sa.phase == Established && sa.install.Some? && sa.install.value.id == request && committed {
      PairsOfInstalled(sa.children, sa.install.value, now);
    }
  }

  lemma CompleteDeleteMove(sa: Sa, request: nat, erased: bool)
    requires Consistent(sa)
    ensures var sa' := CompleteDelete(sa, request, erased).0;
            && Consistent(sa') && sa'.id == sa.id && sa'.nextRequest == sa.nextRequest && sa'.install == sa.install
            && (sa.remove.None? || sa.remove.value.id != request ==> sa' == sa)
            && (sa' != sa ==>
                 && sa.remove.Some? && sa.remove.value.id == request && sa'.remove.None? && sa.install.None?
                 && Pairs(sa'.children) ==
                      if erased then Pairs(sa.children) - {sa.remove.value.child} else Pairs(sa.children))
  {
    hide Pairs, ChildIndex;
    if sa.remove.Some? {
      PairsByIndex(sa.children, sa.remove.value.child);
      var i := ChildIndex(sa.children, sa.remove.value.child);
      PairsOfRelabel(sa.children, i, sa.previous);
      PairsOfErase(sa.children, i);
      hide DistinctChildren;
    }
  }

  // ---------------------------------------------------------------- steps of the whole system

  /** Only owner `k`, its messages and the SAD changed. */
  ghost predicate Local(sys: System, sys': System, k: nat) {
    && k in sys.sas && k in sys'.sas && sys'.sas == sys.sas[k := sys'.sas[k]]
    && (forall q :: Owner(q) != k ==> (q in sys'.transit <==> q in sys.transit))
    && (forall a: Ack :: a.owner != k ==> (a in sys'.acks <==> a in sys.acks))
  }

  ghost predicate OwnMail(sa: Sa, transit: set<Request>, acks: set<Ack>, k: nat) {
    && sa.id == k && Consistent(sa) && Posted(sa, transit, acks)
    && (forall q :: q in transit && Owner(q) == k ==> Pending(sa, q))
    && (forall a :: a in acks && a.owner == k ==> Used(sa, a.request) && Favourable(a))
  }

  lemma MailStep(sys: System, sys': System, k: nat)
    requires Mailboxes(sys) && Local(sys, sys', k)
    requires OwnMail(sys'.sas[k], sys'.transit, sys'.acks, k)
    ensures Mailboxes(sys')
  {
    hide Pairs, DistinctChildren, Proposable, Used;
    forall l | l in sys'.sas
      ensures sys'.sas[l].id == l && Consistent(sys'.sas[l]) && Posted(sys'.sas[l], sys'.transit, sys'.acks)
    {
      if l != k {
        assert sys'.sas[l] == sys.sas[l];
        PostedElsewhere(sys.sas[l], sys.transit, sys.acks, sys'.transit, sys'.acks);
      }
    }
  }

  lemma PostedElsewhere(sa: Sa, transit: set<Request>, acks: set<Ack>, transit': set<Request>, acks': set<Ack>)
    requires Consistent(sa) && Posted(sa, transit, acks)
    requires forall q :: Owner(q) == sa.id ==> (q in transit' <==> q in transit)
    requires forall a: Ack :: a.owner == sa.id ==> (a in acks' <==> a in acks)
    ensures Posted(sa, transit', acks')
  {
    hide Pairs, DistinctChildren, Proposable, Used;
    if sa.install.Some? {
      assert Owner(Install(sa.install.value)) == sa.id;
    }
    if sa.remove.Some? {
      assert Owner(Remove(sa.remove.value)) == sa.id;
    }
  }

  lemma ClaimsElsewhere(sys: System, sys': System, k: nat, key: Key)
    requires Mailboxes(sys) && Mailboxes(sys') && Local(sys, sys', k) && key.owner != k
    ensures key in ClaimsOf(sys') <==> key in ClaimsOf(sys)
    ensures key in ClaimsOf(sys) ==> ClaimsOf(sys')[key] == ClaimsOf(sys)[key]
  {
    hide Pairs, Posted, Pending, Used;
    if key.owner in sys.sas {
      var sa := sys.sas[key.owner];
      assert sys'.sas[key.owner] == sa;
      assert LocalClaims(sa, sys'.acks) == LocalClaims(sa, sys.acks) by {
        LocalByOwnAcks(sa, sys.acks, sys'.acks);
      }
    }
  }

  lemma LocalByOwnAcks(sa: Sa, acks: set<Ack>, acks': set<Ack>)
    requires DistinctChildren(sa.children)
    requires forall a: Ack :: a.owner == sa.id ==> (a in acks' <==> a in acks)
    ensures LocalClaims(sa, acks') == LocalClaims(sa, acks)
  {
    hide Pairs, DistinctChildren;
    assert BoundClaims(sa, acks') == BoundClaims(sa, acks);
  }

  ghost predicate ByOwner(claims: Claims, k: nat, own: map<nat, Claim>) {
    forall key: Key :: key.owner == k ==>
      (key in claims <==> key.child in own) && (key in claims ==> claims[key] == own[key.child])
  }

  ghost predicate Elsewhere(claims: Claims, claims': Claims, k: nat) {
    forall key: Key :: key.owner != k ==>
      (key in claims' <==> key in claims) && (key in claims ==> claims'[key] == claims[key])
  }

  lemma ClaimsByOwner(sys: System, sys': System, k: nat)
    requires Mailboxes(sys) && Mailboxes(sys') && Local(sys, sys', k)
    ensures ByOwner(ClaimsOf(sys), k, LocalClaims(sys.sas[k], sys.acks))
    ensures ByOwner(ClaimsOf(sys'), k, LocalClaims(sys'.sas[k], sys'.acks))
    ensures Elsewhere(ClaimsOf(sys), ClaimsOf(sys'), k)
  {
    hide LocalClaims, Mailboxes;
    forall key: Key | key.owner != k
      ensures key in ClaimsOf(sys') <==> key in ClaimsOf(sys)
      ensures key in ClaimsOf(sys) ==> ClaimsOf(sys')[key] == ClaimsOf(sys)[key]
    {
      ClaimsElsewhere(sys, sys', k, key);
    }
  }

  lemma ClaimsPut(claims: Claims, claims': Claims, k: nat, own: map<nat, Claim>, c: nat, claim: Claim)
    requires ByOwner(claims, k, own) && ByOwner(claims', k, own[c := claim]) && Elsewhere(claims, claims', k)
    ensures claims' == claims[Key(k, c) := claim]
  {
    forall key: Key
      ensures key in claims' <==> key in claims[Key(k, c) := claim]
      ensures key in claims' ==> claims'[key] == claims[Key(k, c) := claim][key]
    {
    }
  }

  lemma ClaimsCut(claims: Claims, claims': Claims, k: nat, own: map<nat, Claim>, c: nat)
    requires ByOwner(claims, k, own) && ByOwner(claims', k, own - {c}) && Elsewhere(claims, claims', k)
    ensures claims' == claims - {Key(k, c)}
  {
    forall key: Key
      ensures key in claims' <==> key in claims - {Key(k, c)}
      ensures key in claims' ==> claims'[key] == (claims - {Key(k, c)})[key]
    {
    }
  }

  lemma ClaimsSame(claims: Claims, claims': Claims, k: nat, own: map<nat, Claim>)
    requires ByOwner(claims, k, own) && ByOwner(claims', k, own) && Elsewhere(claims, claims', k)
    ensures claims' == claims
  {
    forall key: Key
      ensures key in claims' <==> key in claims
      ensures key in claims' ==> claims'[key] == claims[key]
    {
    }
  }

  // ---------------------------------------------------------------- every move keeps agreement

  /** A caller proposes only SA ids that no owner answers for. */
  ghost predicate Careful(sys: System, m: Move)
    requires Mailboxes(sys)
  {
    m.AskInstall? || m.AskRekey? ==>
      Unclaimed(ClaimsOf(sys), m.inbound.id) && Unclaimed(ClaimsOf(sys), m.outbound.id)
  }

  lemma QuietStep(sys: System, m: Move)
    requires Agreement(sys) && Enabled(sys, m)
    requires !m.Forward? && !m.Acknowledge? && !m.AskInstall? && !m.AskRekey? && !m.AskDelete?
    ensures Agreement(Next(sys, m))
  {
    hide Pairs, DistinctChildren, Accounted, ClaimsOf, Quietly, Proposable, Contents, ValidEntries;
    var k, sys' := m.owner, Next(sys, m);
    QuietMove(sys.sas[k], m);
    hide Consistent;
    MailStep(sys, sys', k);
    ClaimsByOwner(sys, sys', k);
    assert LocalClaims(sys'.sas[k], sys'.acks) == LocalClaims(sys.sas[k], sys.acks) by {
      assert BoundClaims(sys'.sas[k], sys'.acks) == BoundClaims(sys.sas[k], sys.acks);
    }
    ClaimsSame(ClaimsOf(sys), ClaimsOf(sys'), k, LocalClaims(sys.sas[k], sys.acks));
  }

  /** What a request does, once the owner has decided to send it. */
  lemma AskStep(sys: System, sys': System, k: nat, r: InstallRequest)
    requires Agreement(sys) && k in sys.sas && k in sys'.sas
    requires sys' == sys.(sas := sys.sas[k := sys'.sas[k]], transit := sys.transit + {Install(r)})
    requires Unclaimed(ClaimsOf(sys), r.inbound.id) && Unclaimed(ClaimsOf(sys), r.outbound.id)
    requires var sa, sa' := sys.sas[k], sys'.sas[k];
             && sa.install.None? && sa.remove.None? && sa' == sa.(install := Some(r), nextRequest := sa'.nextRequest)
             && Consistent(sa') && !Used(sa, r.id) && forall q :: Used(sa, q) ==> Used(sa', q)
    ensures Agreement(sys')
  {
    hide Pairs, DistinctChildren, Accounted, ClaimsOf, Contents, ValidEntries, Used;
    var sa, sa' := sys.sas[k], sys'.sas[k];
    assert forall q :: q in sys.transit ==> Owner(q) != k;
    MailStep(sys, sys', k);
    ClaimsByOwner(sys, sys', k);
    var own, claim := LocalClaims(sa, sys.acks), Claim(Pair(r.inbound.id, r.outbound.id), false);
    assert LocalClaims(sa', sys'.acks) == own[r.child := claim] by {
      assert BoundClaims(sa', sys'.acks) == BoundClaims(sa, sys.acks);
    }
    assert r.child !in own;
    hide Consistent, Posted, Mailboxes, LocalClaims;
    ClaimsPut(ClaimsOf(sys), ClaimsOf(sys'), k, own, r.child, claim);
    ValidIsDistinct(sys.entries, sys.capacity);
    ClaimAdded(Contents(sys.entries), ClaimsOf(sys), Key(k, r.child), claim.pair);
  }

  lemma AskInstallStep(sys: System, m: Move)
    requires Agreement(sys) && Enabled(sys, m) && Careful(sys, m) && (m.AskInstall? || m.AskRekey?)
    ensures Agreement(Next(sys, m))
  {
    hide Pairs, DistinctChildren, Accounted, ClaimsOf, Contents, ValidEntries, Used, Consistent, Posted, Unclaimed,
      BeginInstall, ChildIndex, Proposable;
    var k, sa := m.owner, sys.sas[m.owner];
    var supersedes := if m.AskInstall? then 0 else m.replaced;
    if m.AskRekey? && HasActive(sa.children, supersedes) {
      ActiveIndex(sa.children, supersedes);
    }
    if m.AskInstall? || (supersedes != 0 && supersedes != m.child && HasActive(sa.children, supersedes)) {
      BeginInstallMove(sa, m.child, supersedes, m.inbound, m.outbound);
      var (sa', r) := BeginInstall(sa, m.child, supersedes, m.inbound, m.outbound);
      if r.Some? {
        AskStep(sys, Next(sys, m), k, r.value);
      } else {
        assert Next(sys, m) == sys;
      }
    } else {
      assert Next(sys, m) == sys;
    }
  }

  lemma ActiveIndex(children: seq<Binding>, child: nat)
    requires HasActive(children, child)
    ensures ChildIndex(children, child) < |children|
  {
  }

  lemma AskDeleteStep(sys: System, k: nat, child: nat)
    requires Agreement(sys) && k in sys.sas
    ensures Agreement(Next(sys, AskDelete(k, child)))
  {
    hide Pairs, DistinctChildren, Accounted, ClaimsOf, Contents, ValidEntries, Used, BeginDelete;
    var sa, sys' := sys.sas[k], Next(sys, AskDelete(k, child));
    BeginDeleteMove(sa, child);
    var (sa', r) := BeginDelete(sa, child);
    if r.None? {
      assert sys' == sys;
    } else {
      assert forall q :: q in sys.transit ==> Owner(q) != k;
      MailStep(sys, sys', k);
      ClaimsByOwner(sys, sys', k);
      assert LocalClaims(sa', sys'.acks) == LocalClaims(sa, sys.acks) by {
        assert BoundClaims(sa', sys'.acks) == BoundClaims(sa, sys.acks);
      }
      hide Consistent, Posted, Mailboxes, LocalClaims;
      ClaimsSame(ClaimsOf(sys), ClaimsOf(sys'), k, LocalClaims(sa, sys.acks));
    }
  }

  /** The messages of owner `k` when its pending request is answered. */
  lemma AnswerMail(sys: System, sys': System, q: Request, yes: bool)
    requires Mailboxes(sys) && q in sys.transit && (q.Remove? ==> yes)
    requires sys'.sas == sys.sas && sys'.transit == sys.transit - {q}
    requires sys'.acks == sys.acks + {if q.Install? then InstallAck(Owner(q), q.install.id, yes) else RemoveAck(Owner(q), q.remove.id, yes)}
    ensures Mailboxes(sys') && Local(sys, sys', Owner(q))
  {
    hide Pairs, DistinctChildren, Proposable;
    var k := Owner(q);
    assert sys'.sas == sys.sas[k := sys'.sas[k]];
    MailStep(sys, sys', k);
  }

  lemma AnsweredInstall(sys: System, r: InstallRequest, yes: bool)
    requires Mailboxes(sys) && Install(r) in sys.transit
    ensures r.owner in sys.sas && DistinctChildren(sys.sas[r.owner].children)
    ensures var sa := sys.sas[r.owner];
            var own := LocalClaims(sa, sys.acks);
            && r.child in own && own[r.child] == Claim(Pair(r.inbound.id, r.outbound.id), false)
            && LocalClaims(sa, sys.acks + {InstallAck(r.owner, r.id, yes)}) == own[r.child := own[r.child].(live := yes)]
  {
    hide Pairs, DistinctChildren, Used, Proposable;
    assert Pending(sys.sas[Owner(Install(r))], Install(r));
    var sa, acks' := sys.sas[r.owner], sys.acks + {InstallAck(r.owner, r.id, yes)};
    assert BoundClaims(sa, acks') == BoundClaims(sa, sys.acks);
  }

  lemma ForwardInstallStep(sys: System, r: InstallRequest)
    requires Agreement(sys) && Install(r) in sys.transit
    ensures Agreement(Process(sys, Install(r)))
  {
    hide Pairs, DistinctChildren, Accounted, ClaimsOf, Contents, ValidEntries, InstallPairInto, Admissible,
      LocalClaims, Mailboxes, Local, HoldsPair;
    AnsweredInstall(sys, r, InstallPairInto(sys.entries, sys.capacity, r.inbound, r.outbound).1.committed);
    var k, sys' := r.owner, Process(sys, Install(r));
    var own := LocalClaims(sys.sas[k], sys.acks);
    var (entries, result) := InstallPairInto(sys.entries, sys.capacity, r.inbound, r.outbound);
    AnswerMail(sys, sys', Install(r), result.committed);
    ClaimsByOwner(sys, sys', k);
    ClaimsPut(ClaimsOf(sys), ClaimsOf(sys'), k, own, r.child, own[r.child].(live := result.committed));
    OwnClaim(ClaimsOf(sys), k, own, r.child);
    InstallPairIsAtomic(sys.entries, sys.capacity, r.inbound, r.outbound);
    ValidIsDistinct(sys.entries, sys.capacity);
    ValidIsDistinct(entries, sys.capacity);
    if result.committed {
      ClaimCommitted(Contents(sys.entries), Contents(entries), ClaimsOf(sys), Key(k, r.child));
    } else {
      assert ClaimsOf(sys') == ClaimsOf(sys);
    }
  }

  lemma OwnClaim(claims: Claims, k: nat, own: map<nat, Claim>, c: nat)
    requires ByOwner(claims, k, own) && c in own
    ensures Key(k, c) in claims && claims[Key(k, c)] == own[c]
  {
    assert Key(k, c).owner == k;
  }

  /** A removal that reaches the SAD always finds its pair whole. */
  lemma ForwardRemoveStep(sys: System, r: RemoveRequest)
    requires Agreement(sys) && Remove(r) in sys.transit
    ensures ErasePairFrom(sys.entries, r.inbound, r.outbound).1 == Erased
    ensures Agreement(Process(sys, Remove(r)))
  {
    hide Pairs, DistinctChildren, Accounted, ClaimsOf, Contents, ValidEntries, ErasePairFrom,
      LocalClaims, Mailboxes, Local, HoldsPair;
    AnsweredRemove(sys, r);
    var k, sys' := r.owner, Process(sys, Remove(r));
    var own, key := LocalClaims(sys.sas[k], sys.acks), Key(r.owner, r.child);
    var (entries, result) := ErasePairFrom(sys.entries, r.inbound, r.outbound);
    ValidIsDistinct(sys.entries, sys.capacity);
    ClaimsByOwner(sys, sys, k);
    OwnClaim(ClaimsOf(sys), k, own, r.child);
    LiveIsHeld(Contents(sys.entries), ClaimsOf(sys), key);
    ErasePairIsAtomic(sys.entries, sys.capacity, r.inbound, r.outbound);
    ValidIsDistinct(entries, sys.capacity);
    AnswerMail(sys, sys', Remove(r), true);
    ClaimsByOwner(sys, sys', k);
    ClaimsPut(ClaimsOf(sys), ClaimsOf(sys'), k, own, r.child, own[r.child].(live := false));
    ClaimErased(Contents(sys.entries), ClaimsOf(sys), key);
  }

  lemma AnsweredRemove(sys: System, r: RemoveRequest)
    requires Mailboxes(sys) && Remove(r) in sys.transit
    ensures r.owner in sys.sas && DistinctChildren(sys.sas[r.owner].children) && Local(sys, sys, r.owner)
    ensures var sa := sys.sas[r.owner];
            var own := LocalClaims(sa, sys.acks);
            && r.child in own && own[r.child] == Claim(Pair(r.inbound, r.outbound), true)
            && LocalClaims(sa, sys.acks + {RemoveAck(r.owner, r.id, true)}) == own[r.child := own[r.child].(live := false)]
  {
    hide Pairs, DistinctChildren, Used, Proposable;
    assert Pending(sys.sas[Owner(Remove(r))], Remove(r));
    var sa, acks' := sys.sas[r.owner], sys.acks + {RemoveAck(r.owner, r.id, true)};
    var own := BoundClaims(sa, sys.acks);
    assert BoundClaims(sa, acks') == own[r.child := own[r.child].(live := false)];
    assert sys.sas == sys.sas[r.owner := sa];
  }

  lemma LiveIsHeld(m: map<nat, Association>, claims: Claims, key: Key)
    requires Accounted(m, claims) && key in claims && claims[key].live
    ensures HoldsPair(m, claims[key].pair.inbound, claims[key].pair.outbound)
  {
  }

  lemma LearnedInstall(sa: Sa, acks: set<Ack>, a: Ack, now: int)
    requires a.InstallAck? && a in acks && a.owner == sa.id && Consistent(sa) && Learn(sa, a, now) != sa
    requires sa.install.Some? ==> !(InstallAck(sa.id, sa.install.value.id, true) in acks
                                    && InstallAck(sa.id, sa.install.value.id, false) in acks)
    ensures var sa' := Learn(sa, a, now);
            && sa.install.Some? && sa'.install.None? && sa.remove.None? && sa'.remove.None?
            && DistinctChildren(sa.children) && DistinctChildren(sa'.children)
            && var own, c := LocalClaims(sa, acks), sa.install.value.child;
               && c in own && own[c].live == a.committed
               && LocalClaims(sa', acks) == if a.committed then own else own - {c}
  {
    hide Pairs, DistinctChildren, Used, CompleteInstall, Proposable, Childless;
    CompleteInstallMove(sa, a.request, a.committed, now);
    var sa' := Learn(sa, a, now);
    if a.committed {
      assert BoundClaims(sa', acks) == LocalClaims(sa, acks);
    } else {
      assert BoundClaims(sa', acks) == BoundClaims(sa, acks);
    }
  }

  lemma InstallAckStep(sys: System, a: Ack, now: int)
    requires Agreement(sys) && a.InstallAck? && a in sys.acks
    ensures a.owner in sys.sas && Agreement(Next(sys, Acknowledge(a, now)))
  {
    hide Pairs, DistinctChildren, Accounted, ClaimsOf, Contents, ValidEntries, Used, CompleteInstall, Consistent, LocalClaims;
    var k, sys' := a.owner, Next(sys, Acknowledge(a, now));
    var sa, sa' := sys.sas[k], sys'.sas[k];
    CompleteInstallMove(sa, a.request, a.committed, now);
    if sa' == sa {
      assert sys' == sys;
    } else {
      LearnedInstall(sa, sys.acks, a, now);
      UsedAlike(sa, sa');
      assert forall q :: q in sys.transit ==> Owner(q) != k;
      MailStep(sys, sys', k);
      ClaimsByOwner(sys, sys', k);
      var own, c := LocalClaims(sa, sys.acks), sa.install.value.child;
      hide Posted, Mailboxes;
      OwnClaim(ClaimsOf(sys), k, own, c);
      ValidIsDistinct(sys.entries, sys.capacity);
      if a.committed {
        ClaimsSame(ClaimsOf(sys), ClaimsOf(sys'), k, own);
      } else {
        ClaimsCut(ClaimsOf(sys), ClaimsOf(sys'), k, own, c);
        ClaimDropped(Contents(sys.entries), ClaimsOf(sys), Key(k, c));
      }
    }
  }

  lemma UsedAlike(sa: Sa, sa': Sa)
    requires sa'.nextRequest == sa.nextRequest
    ensures forall q :: Used(sa', q) <==> Used(sa, q)
  {
  }

  lemma LearnedRemove(sa: Sa, acks: set<Ack>, a: Ack, now: int)
    requires a.RemoveAck? && a in acks && a.owner == sa.id && a.erased && Consistent(sa) && Learn(sa, a, now) != sa
    ensures var sa' := Learn(sa, a, now);
            && sa.remove.Some? && sa.install.None? && sa'.install.None? && sa'.remove.None?
            && DistinctChildren(sa.children) && DistinctChildren(sa'.children)
            && var own, c := LocalClaims(sa, acks), sa.remove.value.child;
               c in own && !own[c].live && LocalClaims(sa', acks) == own - {c}
  {
    hide Pairs, DistinctChildren, Used, CompleteDelete, Proposable, Childless;
    CompleteDeleteMove(sa, a.request, a.erased);
    var sa' := Learn(sa, a, now);
    assert BoundClaims(sa', acks) == BoundClaims(sa, acks) - {sa.remove.value.child};
  }

  lemma RemoveAckStep(sys: System, a: Ack, now: int)
    requires Agreement(sys) && a.RemoveAck? && a in sys.acks
    ensures a.owner in sys.sas && Agreement(Next(sys, Acknowledge(a, now)))
  {
    hide Pairs, DistinctChildren, Accounted, ClaimsOf, Contents, ValidEntries, Used, CompleteDelete, Consistent, LocalClaims;
    var k, sys' := a.owner, Next(sys, Acknowledge(a, now));
    var sa, sa' := sys.sas[k], sys'.sas[k];
    assert Favourable(a);
    CompleteDeleteMove(sa, a.request, a.erased);
    if sa' == sa {
      assert sys' == sys;
    } else {
      LearnedRemove(sa, sys.acks, a, now);
      UsedAlike(sa, sa');
      assert forall q :: q in sys.transit ==> Owner(q) != k;
      MailStep(sys, sys', k);
      ClaimsByOwner(sys, sys', k);
      var own, c := LocalClaims(sa, sys.acks), sa.remove.value.child;
      hide Posted, Mailboxes;
      OwnClaim(ClaimsOf(sys), k, own, c);
      ValidIsDistinct(sys.entries, sys.capacity);
      ClaimsCut(ClaimsOf(sys), ClaimsOf(sys'), k, own, c);
      ClaimDropped(Contents(sys.entries), ClaimsOf(sys), Key(k, c));
    }
  }

  /** Every move keeps both shards in agreement. */
  lemma NextKeepsAgreement(sys: System, m: Move)
    requires Agreement(sys) && Enabled(sys, m) && Careful(sys, m)
    ensures Agreement(Next(sys, m))
  {
    hide Agreement, Next, Careful;
    match m
    case Forward(q) =>
      assert Next(sys, m) == Process(sys, q) by { ForwardIsProcess(sys, q); }
      if q.Install? { ForwardInstallStep(sys, q.install); } else { ForwardRemoveStep(sys, q.remove); }
    case Acknowledge(a, now) =>
      if a.InstallAck? { InstallAckStep(sys, a, now); } else { RemoveAckStep(sys, a, now); }
    case AskDelete(k, child) => AskDeleteStep(sys, k, child);
    case AskInstall(_, _, _, _) => AskInstallStep(sys, m);
    case AskRekey(_, _, _, _, _) => AskInstallStep(sys, m);
    case _ => QuietStep(sys, m);
  }

  lemma ForwardIsProcess(sys: System, q: Request)
    requires Enabled(sys, Forward(q))
    ensures Next(sys, Forward(q)) == Process(sys, q)
  {
  }

  // ---------------------------------------------------------------- runs

  /** A move that is not possible is skipped. */
  function Step(sys: System, m: Move): System {
    if Enabled(sys, m) then Next(sys, m) else sys
  }

  function Run(sys: System, moves: seq<Move>): System
    decreases |moves|
  {
    if moves == [] then sys else Run(Step(sys, moves[0]), moves[1..])
  }

  ghost predicate CarefulRun(sys: System, moves: seq<Move>)
    decreases |moves|
  {
    moves == [] ||
    (Mailboxes(sys) && Careful(sys, moves[0]) && CarefulRun(Step(sys, moves[0]), moves[1..]))
  }

  /** Owners without children and an empty SAD agree. */
  lemma StartsInAgreement(sys: System)
    requires sys.entries == [] && sys.transit == {} && sys.acks == {}
    requires forall k :: k in sys.sas ==>
               sys.sas[k].id == k && sys.sas[k].children == [] && sys.sas[k].install.None? && sys.sas[k].remove.None?
    ensures Agreement(sys)
  {
    assert forall k :: k in sys.sas ==> Pairs(sys.sas[k].children) == map[];
    assert Mailboxes(sys);
    assert ClaimsOf(sys) == map[];
  }

  lemma StepKeepsAgreement(sys: System, m: Move)
    requires Agreement(sys) && Careful(sys, m)
    ensures Agreement(Step(sys, m))
  {
    hide Agreement, Next, Careful;
    if Enabled(sys, m) {
      NextKeepsAgreement(sys, m);
    }
  }

  lemma {:induction false} RunKeepsAgreement(sys: System, moves: seq<Move>)
    requires Agreement(sys) && CarefulRun(sys, moves)
    ensures Agreement(Run(sys, moves))
    decreases |moves|
  {
    if moves != [] {
      hide Agreement, Careful, Mailboxes, Step;
      StepKeepsAgreement(sys, moves[0]);
      RunKeepsAgreement(Step(sys, moves[0]), moves[1..]);
    }
  }

  ghost function LivePairs(claims: Claims): set<Pair> {
    set key | key in claims && claims[key].live :: claims[key].pair
  }

  /** In agreement the SAD never holds half of a pair. */
  lemma AgreementLeavesNoHalves(sys: System)
    requires Agreement(sys)
    ensures DistinctIds(sys.entries) && PairedBy(Contents(sys.entries), LivePairs(ClaimsOf(sys)))
  {
    hide Mailboxes, ClaimsOf, HoldsPair, Contents;
    ValidIsDistinct(sys.entries, sys.capacity);
    hide ValidEntries, DistinctIds, Apart;
    var m, claims := Contents(sys.entries), ClaimsOf(sys);
    forall id | id in m
      ensures Covered(LivePairs(claims), id)
    {
      assert Backed(claims, id);
      var key :| key in claims && claims[key].live && Member(id, claims[key].pair);
      assert claims[key].pair in LivePairs(claims);
    }
  }

  /** CHILD SA `c` of owner `k` is bound to `pair` and nobody is removing it. */
  ghost predicate Bound(sys: System, k: nat, c: nat, pair: Pair)
    requires Mailboxes(sys)
  {
    && k in sys.sas && c in Pairs(sys.sas[k].children) && Pairs(sys.sas[k].children)[c] == pair
    && !(sys.sas[k].remove.Some? && sys.sas[k].remove.value.child == c)
  }

  /** A binding that nobody is removing has both directions installed. */
  lemma BoundIsInstalled(sys: System, k: nat, c: nat, pair: Pair)
    requires Agreement(sys) && Bound(sys, k, c, pair)
    ensures DistinctIds(sys.entries) && HoldsPair(Contents(sys.entries), pair.inbound, pair.outbound)
  {
    hide Pairs, HoldsPair, Contents, DistinctChildren;
    ValidIsDistinct(sys.entries, sys.capacity);
    hide ValidEntries, DistinctIds;
    var key := Key(k, c);
    assert c in BoundClaims(sys.sas[k], sys.acks);
    assert key in ClaimsOf(sys) && ClaimsOf(sys)[key] == Claim(pair, true);
  }

  /** What `Bound` says about the owner. */
  ghost predicate Keeps(sa: Sa, c: nat, pair: Pair) {
    && DistinctChildren(sa.children)
    && c in Pairs(sa.children) && Pairs(sa.children)[c] == pair
    && !(sa.remove.Some? && sa.remove.value.child == c)
  }

  lemma OwnerKeeps(sa: Sa, m: Move, c: nat, pair: Pair)
    requires Consistent(sa) && Keeps(sa, c, pair) && !m.Forward? && !m.Acknowledge? && !(m.AskDelete? && m.child == c)
    ensures Keeps(match m
                  case AskInstall(_, child, inbound, outbound) => BeginInstall(sa, child, 0, inbound, outbound).0
                  case AskRekey(_, replaced, child, inbound, outbound) => BeginRekey(sa, replaced, child, inbound, outbound).0
                  case AskDelete(_, child) => BeginDelete(sa, child).0
                  case _ => Quietly(sa, m), c, pair)
  {
    hide Pairs, DistinctChildren, BeginInstall, BeginDelete, Quietly, Used, Proposable, ChildIndex;
    match m
    case AskDelete(_, child) => BeginDeleteMove(sa, child);
    case AskInstall(_, child, inbound, outbound) => BeginInstallMove(sa, child, 0, inbound, outbound);
    case AskRekey(_, replaced, child, inbound, outbound) =>
      if HasActive(sa.children, replaced) {
        ActiveIndex(sa.children, replaced);
        BeginInstallMove(sa, child, replaced, inbound, outbound);
      }
    case _ => QuietMove(sa, m);
  }

  lemma LearnKeeps(sa: Sa, a: Ack, now: int, c: nat, pair: Pair)
    requires Consistent(sa) && Keeps(sa, c, pair)
    ensures Keeps(Learn(sa, a, now), c, pair)
  {
    hide Pairs, DistinctChildren, CompleteInstall, CompleteDelete, Used, Proposable;
    if a.InstallAck? {
      CompleteInstallMove(sa, a.request, a.committed, now);
    } else {
      CompleteDeleteMove(sa, a.request, a.erased);
    }
  }

  lemma BoundStays(sys: System, m: Move, k: nat, c: nat, pair: Pair)
    requires Agreement(sys) && Careful(sys, m) && Bound(sys, k, c, pair) && m != AskDelete(k, c)
    ensures Agreement(Step(sys, m)) && Bound(Step(sys, m), k, c, pair)
  {
    hide Agreement, Careful, Consistent, Posted, Pairs, DistinctChildren, Process, BeginInstall, BeginDelete,
      BeginRekey, Learn, Quietly;
    AgreementPosts(sys);
    StepKeepsAgreement(sys, m);
    AgreementPosts(Step(sys, m));
    ConsistentOwner(sys, k);
    assert Keeps(sys.sas[k], c, pair);
    if Enabled(sys, m) && m.Acknowledge? && m.ack.owner == k {
      LearnKeeps(sys.sas[k], m.ack, m.now, c, pair);
    } else if Enabled(sys, m) && !m.Forward? && !m.Acknowledge? && m.owner == k {
      OwnerKeeps(sys.sas[k], m, c, pair);
    } else {
      ProcessKeepsOwners(sys, m, k);
    }
    assert Keeps(Step(sys, m).sas[k], c, pair);
  }

  lemma AgreementPosts(sys: System)
    requires Agreement(sys)
    ensures Mailboxes(sys)
  {
  }

  lemma ProcessKeepsOwners(sys: System, m: Move, k: nat)
    requires k in sys.sas
    requires Enabled(sys, m) ==> m.Forward? || k != (if m.Acknowledge? then m.ack.owner else m.owner)
    ensures k in Step(sys, m).sas && Step(sys, m).sas[k] == sys.sas[k]
  {
  }

  /** Make before break: until somebody asks to delete it, a bound CHILD SA keeps its binding and both
      directions of its pair, whatever else happens, its own replacement included. */
  lemma {:induction false} PairServesUntilDeleted(sys: System, moves: seq<Move>, k: nat, c: nat, pair: Pair)
    requires Agreement(sys) && CarefulRun(sys, moves) && Bound(sys, k, c, pair)
    requires AskDelete(k, c) !in moves
    ensures Agreement(Run(sys, moves)) && Bound(Run(sys, moves), k, c, pair)
    ensures DistinctIds(Run(sys, moves).entries)
    ensures HoldsPair(Contents(Run(sys, moves).entries), pair.inbound, pair.outbound)
    decreases |moves|
  {
    hide Agreement, Bound, Careful, Mailboxes, Step, HoldsPair, DistinctIds, Contents;
    if moves == [] {
      BoundIsInstalled(sys, k, c, pair);
    } else {
      BoundStays(sys, moves[0], k, c, pair);
      PairServesUntilDeleted(Step(sys, moves[0]), moves[1..], k, c, pair);
    }
  }

  /** The first binding of a CHILD SA is in this state. */
  predicate InState(children: seq<Binding>, c: nat, state: ChildState) {
    var i := ChildIndex(children, c);
    i < |children| && children[i].state == state
  }

  /** When a rekey commits, the replacement is active and the replaced CHILD SA retiring, and both
      have their pairs in the SAD. */
  lemma RekeyOverlaps(sys: System, k: nat, now: int)
    requires Agreement(sys) && k in sys.sas && sys.sas[k].phase == Established
    requires sys.sas[k].install.Some? && sys.sas[k].install.value.supersedes != 0
    requires InstallAck(k, sys.sas[k].install.value.id, true) in sys.acks
    ensures var r := sys.sas[k].install.value;
            var sys' := Next(sys, Acknowledge(InstallAck(k, r.id, true), now));
            && Agreement(sys')
            && InState(sys'.sas[k].children, r.child, Active) && Bound(sys', k, r.child, Pair(r.inbound.id, r.outbound.id))
            && InState(sys'.sas[k].children, r.supersedes, Retiring)
            && r.supersedes in Pairs(sys.sas[k].children)
            && Bound(sys', k, r.supersedes, Pairs(sys.sas[k].children)[r.supersedes])
  {
    hide Agreement, Pairs, InState, CompleteInstall, Posted, DistinctChildren, Proposable, Used;
    var sa := sys.sas[k];
    var r := sa.install.value;
    var a := InstallAck(k, r.id, true);
    AgreementPosts(sys);
    InstallAckStep(sys, a, now);
    AgreementPosts(Next(sys, Acknowledge(a, now)));
    CompleteInstallMove(sa, r.id, true, now);
    RekeyStates(sa, now);
  }

  lemma RekeyStates(sa: Sa, now: int)
    requires Consistent(sa) && sa.phase == Established && sa.install.Some? && sa.install.value.supersedes != 0
    ensures var r := sa.install.value;
            var children := CompleteInstall(sa, r.id, true, now).0.children;
            && InState(children, r.child, Active) && InState(children, r.supersedes, Retiring)
            && children != sa.children
  {
    hide Pairs, DeadlineFrom;
    var r := sa.install.value;
    PairsByIndex(sa.children, r.child);
    PairsByIndex(sa.children, r.supersedes);
    var added := sa.children + [Binding(r.child, r.inbound.id, r.outbound.id, now, Active)];
    var i := ChildIndex(sa.children, r.supersedes);
    var children := MarkRetiring(added, r.supersedes);
    IndexIs(added, r.supersedes, i);
    assert children == added[i := added[i].(state := Retiring)];
    IndexIs(children, r.supersedes, i);
    IndexIs(children, r.child, |sa.children|);
  }

  lemma IndexIs(children: seq<Binding>, c: nat, i: nat)
    requires i < |children| && children[i].child == c && forall j :: 0 <= j < i ==> children[j].child != c
    ensures ChildIndex(children, c) == i
  {
  }

  /** A closed IKE SA answers for nothing, so the SAD holds none of its pairs. */
  lemma ClosedIsDrained(sys: System, key: Key)
    requires Agreement(sys) && key in ClaimsOf(sys)
    ensures key.owner in sys.sas && !Childless(sys.sas[key.owner].phase)
  {
    hide Agreement, Consistent, Posted, LocalClaims;
    AgreementPosts(sys);
    if Childless(sys.sas[key.owner].phase) {
      IdleClaimsNothing(sys.sas[key.owner], sys.acks);
    }
  }

  lemma IdleClaimsNothing(sa: Sa, acks: set<Ack>)
    requires Consistent(sa) && Childless(sa.phase)
    ensures LocalClaims(sa, acks) == map[]
  {
    hide Pairs, Used, Proposable, DistinctChildren;
    NoPairs(sa.children);
    assert BoundClaims(sa, acks) == map[];
  }

  lemma NoPairs(children: seq<Binding>)
    requires children == []
    ensures DistinctChildren(children) && Pairs(children) == map[]
  {
  }

  // ---------------------------------------------------------------- does deletion finish?

  /** An owner that left Established with an installation pending. */
  predicate Stranded(sa: Sa, r: InstallRequest) {
    sa.install == Some(r) && (sa.phase == Deleting || sa.phase == Failed)
  }

  lemma StrandedStays(sys: System, m: Move, k: nat, r: InstallRequest)
    requires k in sys.sas && Stranded(sys.sas[k], r)
    ensures k in Step(sys, m).sas && Stranded(Step(sys, m).sas[k], r)
  {
    hide ChildIndex, HasActive, DeadlineFrom, Process, MarkRetiring;
    if !Enabled(sys, m) || m.Forward? {
      ProcessKeepsOwners(sys, m, k);
    }
  }

  /** Once stranded, always stranded: the answer is refused in this phase, no deletion can start, and
      the IKE SA never closes. */
  lemma {:induction false} StrandedForever(sys: System, moves: seq<Move>, k: nat, r: InstallRequest)
    requires k in sys.sas && Stranded(sys.sas[k], r)
    ensures k in Run(sys, moves).sas && Stranded(Run(sys, moves).sas[k], r)
    decreases |moves|
  {
    if moves != [] {
      hide Step, Stranded;
      StrandedStays(sys, moves[0], k, r);
      StrandedForever(Step(sys, moves[0]), moves[1..], k, r);
    }
  }

  function RequestsLeft(sa: Sa): int {
    if sa.nextRequest == 0 then 0 else MAX_U64 - sa.nextRequest + 1
  }

  /** Removals that are still to be requested. */
  function RemovalsToAsk(sa: Sa): int {
    |sa.children| - if sa.remove.Some? then 1 else 0
  }

  ghost predicate Draining(sys: System, k: nat) {
    && Agreement(sys) && k in sys.sas && sys.sas[k].phase == Deleting && sys.sas[k].install.None?
    && sys.sas[k].nextRequest <= MAX_U64 && RequestsLeft(sys.sas[k]) >= RemovalsToAsk(sys.sas[k])
  }

  predicate Plain(m: Move) {
    !m.AskInstall? && !m.AskRekey?
  }

  lemma PlainIsCareful(sys: System, m: Move)
    requires Agreement(sys) && Plain(m)
    ensures Mailboxes(sys) && Careful(sys, m) && Agreement(Step(sys, m))
  {
    AgreementPosts(sys);
    StepKeepsAgreement(sys, m);
  }

  lemma ConsistentOwner(sys: System, k: nat)
    requires Agreement(sys) && k in sys.sas
    ensures sys.sas[k].id == k && Consistent(sys.sas[k]) && Posted(sys.sas[k], sys.transit, sys.acks)
  {
  }

  lemma FinishMove(sys: System, k: nat)
    requires Draining(sys, k) && sys.sas[k].children == [] && sys.sas[k].remove.None?
    ensures k in Step(sys, FinishIkeDelete(k)).sas && Step(sys, FinishIkeDelete(k)).sas[k].phase == Closed
  {
    hide Agreement;
  }

  lemma AskMove(sys: System, k: nat)
    requires Draining(sys, k) && sys.sas[k].children != [] && sys.sas[k].remove.None?
    ensures var sys' := Step(sys, AskDelete(k, sys.sas[k].children[0].child));
            Draining(sys', k) && sys'.sas[k].remove.Some? && |sys'.sas[k].children| == |sys.sas[k].children|
  {
    hide Agreement, Pairs, Posted, Used, Proposable;
    ConsistentOwner(sys, k);
    PlainIsCareful(sys, AskDelete(k, sys.sas[k].children[0].child));
  }

  /** The pending removal has been answered. */
  predicate Answered(sys: System, k: nat)
    requires k in sys.sas && sys.sas[k].remove.Some?
  {
    RemoveAck(k, sys.sas[k].remove.value.id, true) in sys.acks
  }

  lemma ForwardMove(sys: System, k: nat)
    requires Draining(sys, k) && sys.sas[k].remove.Some? && !Answered(sys, k)
    ensures var sys' := Step(sys, Forward(Remove(sys.sas[k].remove.value)));
            Draining(sys', k) && sys'.sas == sys.sas && Answered(sys', k)
  {
    hide Agreement, Pairs, Used, Proposable, ErasePairFrom, DistinctChildren;
    var r := sys.sas[k].remove.value;
    ConsistentOwner(sys, k);
    assert Remove(r) in sys.transit by {
      NoRejection(sys, RemoveAck(k, r.id, false));
    }
    ForwardRemoveStep(sys, r);
  }

  lemma NoRejection(sys: System, a: Ack)
    requires Agreement(sys) && !Favourable(a)
    ensures a !in sys.acks
  {
  }

  lemma LearnMove(sys: System, k: nat)
    requires Draining(sys, k) && sys.sas[k].remove.Some? && Answered(sys, k)
    ensures var sys' := Step(sys, Acknowledge(RemoveAck(k, sys.sas[k].remove.value.id, true), 0));
            Draining(sys', k) && sys'.sas[k].remove.None? && |sys'.sas[k].children| == |sys.sas[k].children| - 1
  {
    hide Agreement, Pairs, Used, Proposable, Posted, DistinctChildren;
    var sa := sys.sas[k];
    ConsistentOwner(sys, k);
    RemoveAckStep(sys, RemoveAck(k, sa.remove.value.id, true), 0);
    PairsByIndex(sa.children, sa.remove.value.child);
  }

  lemma RunMore(sys: System, m: Move, moves: seq<Move>)
    ensures Run(sys, [m] + moves) == Run(Step(sys, m), moves)
    ensures Mailboxes(sys) && Careful(sys, m) && CarefulRun(Step(sys, m), moves) ==> CarefulRun(sys, [m] + moves)
  {
    hide Step, Careful, Mailboxes;
    assert ([m] + moves)[1..] == moves;
  }

  ghost predicate Closes(sys: System, moves: seq<Move>, k: nat) {
    CarefulRun(sys, moves) && k in Run(sys, moves).sas && Run(sys, moves).sas[k].phase == Closed
  }

  lemma ClosesAfter(sys: System, m: Move, moves: seq<Move>, k: nat)
    requires Agreement(sys) && Plain(m) && Closes(Step(sys, m), moves, k)
    ensures Closes(sys, [m] + moves, k)
  {
    hide Agreement, Step, Careful, Mailboxes, Run, CarefulRun;
    PlainIsCareful(sys, m);
    RunMore(sys, m, moves);
  }

  /** Every CHILD SA can be deleted, and then the IKE SA. A pending removal is completed first. */
  lemma {:induction false} DrainCloses(sys: System, k: nat) returns (moves: seq<Move>)
    requires Draining(sys, k)
    ensures Closes(sys, moves, k)
    decreases |sys.sas[k].children|, if sys.sas[k].remove.None? then 2 else if !Answered(sys, k) then 1 else 0
  {
    hide Agreement, Step, Careful, Mailboxes, RequestsLeft, Closes;
    var sa := sys.sas[k];
    var m: Move;
    if sa.remove.None? && sa.children == [] {
      m, moves := FinishIkeDelete(k), [];
      FinishMove(sys, k);
      ClosedNow(Step(sys, m), k);
    } else {
      if sa.remove.None? {
        m := AskDelete(k, sa.children[0].child);
        AskMove(sys, k);
      } else if !Answered(sys, k) {
        m := Forward(Remove(sa.remove.value));
        ForwardMove(sys, k);
      } else {
        m := Acknowledge(RemoveAck(k, sa.remove.value.id, true), 0);
        LearnMove(sys, k);
      }
      moves := DrainCloses(Step(sys, m), k);
    }
    ClosesAfter(sys, m, moves, k);
    moves := [m] + moves;
  }

  lemma ClosedNow(sys: System, k: nat)
    requires k in sys.sas && sys.sas[k].phase == Closed
    ensures Closes(sys, [], k)
  {
  }

  /** An IKE SA that is being deleted can still be closed exactly when no installation was pending as
      it left Established. Only the orderly deletion checks that; the liveness poll does not. */
  lemma DeletionFinishes(sys: System, k: nat)
    requires Agreement(sys) && k in sys.sas && sys.sas[k].phase == Deleting
    requires sys.sas[k].nextRequest <= MAX_U64 && RequestsLeft(sys.sas[k]) >= RemovalsToAsk(sys.sas[k])
    ensures (exists moves :: Closes(sys, moves, k)) <==> sys.sas[k].install.None?
  {
    hide Agreement, RequestsLeft, Run, CarefulRun;
    if sys.sas[k].install.None? {
      var moves := DrainCloses(sys, k);
    } else {
      forall moves
        ensures !Closes(sys, moves, k)
      {
        StrandedForever(sys, moves, k, sys.sas[k].install.value);
      }
    }
  }

  // ---------------------------------------------------------------- stranded pairs

  lemma {:induction false} AcksStay(sys: System, moves: seq<Move>, a: Ack)
    requires a in sys.acks
    ensures a in Run(sys, moves).acks
    decreases |moves|
  {
    if moves != [] {
      StepKeepsAck(sys, moves[0], a);
      hide Step;
      AcksStay(Step(sys, moves[0]), moves[1..], a);
    }
  }

  lemma StepKeepsAck(sys: System, m: Move, a: Ack)
    requires a in sys.acks
    ensures a in Step(sys, m).acks
  {
    hide BeginInstall, BeginRekey, BeginDelete, InstallPairInto, ErasePairFrom, Quietly, Learn;
  }

  /** A pending installation that the SAD has committed is in the SAD. */
  lemma PendingIsInstalled(sys: System, k: nat, r: InstallRequest)
    requires Agreement(sys) && k in sys.sas && sys.sas[k].install == Some(r) && InstallAck(k, r.id, true) in sys.acks
    ensures DistinctIds(sys.entries) && HoldsPair(Contents(sys.entries), r.inbound.id, r.outbound.id)
  {
    hide Pairs, HoldsPair, Contents, DistinctChildren;
    ValidIsDistinct(sys.entries, sys.capacity);
    hide ValidEntries, DistinctIds;
    var key := Key(k, r.child);
    assert LocalClaims(sys.sas[k], sys.acks)[r.child] == Claim(Pair(r.inbound.id, r.outbound.id), true);
    assert key in ClaimsOf(sys) && ClaimsOf(sys)[key] == Claim(Pair(r.inbound.id, r.outbound.id), true);
  }

  /** Once the SAD has committed the installation of a stranded owner, every later run keeps both
      directions in the SAD, although no owner has bound them. */
  lemma StrandedPairStays(sys: System, moves: seq<Move>, k: nat, r: InstallRequest)
    requires Agreement(sys) && CarefulRun(sys, moves)
    requires k in sys.sas && Stranded(sys.sas[k], r) && InstallAck(k, r.id, true) in sys.acks
    ensures var end := Run(sys, moves);
            && k in end.sas && Stranded(end.sas[k], r)
            && DistinctIds(end.entries) && HoldsPair(Contents(end.entries), r.inbound.id, r.outbound.id)
  {
    hide Agreement, CarefulRun, Run, HoldsPair, Contents;
    RunKeepsAgreement(sys, moves);
    StrandedForever(sys, moves, k, r);
    AcksStay(sys, moves, InstallAck(k, r.id, true));
    PendingIsInstalled(Run(sys, moves), k, r);
  }

  /** An owner that allows one unanswered probe, and an empty SAD. */
  function LoneOwner(capacity: nat): System {
    System(map[1 := Sa(1, 1, 1, 1, Created, 0, 1, None, None, Active, [], 0, 0)], [], capacity, {}, {})
  }

  function OwnerIn(phase: Phase, keys: nat, next: nat, install: Option<InstallRequest>, deadline: int, unanswered: nat): Sa {
    Sa(1, 1, 1, 1, phase, keys, next, install, None, Active, [], deadline, unanswered)
  }

  function StrandingMoves(inbound: Association, outbound: Association): seq<Move> {
    [StartIke(1, 5, 0), DeriveKeys(1, 6, 7, 0), Authenticate(1, true, 0), AskInstall(1, 9, inbound, outbound),
     Poll(1, SECOND), Poll(1, 2 * SECOND)]
  }

  /** A careful run from agreement strands owner `k`, and after its first `n` moves the orderly deletion
      would have been refused. */
  ghost predicate Strands(start: System, moves: seq<Move>, n: nat, k: nat, r: InstallRequest)
    requires n <= |moves|
  {
    && Agreement(start) && CarefulRun(start, moves)
    && k in Run(start, moves).sas && Stranded(Run(start, moves).sas[k], r)
    && k in Run(start, moves[..n]).sas && BeginIkeDelete(Run(start, moves[..n]).sas[k]).1 == RequestPending
  }

  /** The poll does strand: the initial exchange, one installation request and two polls without an answer
      are enough. */
  lemma PollStrands(inbound: Association, outbound: Association, capacity: nat)
    requires Proposable(inbound, outbound)
    ensures Strands(LoneOwner(capacity), StrandingMoves(inbound, outbound), 4, 1, InstallRequest(1, 1, 9, 0, inbound, outbound))
  {
    var m, r := StrandingMoves(inbound, outbound), InstallRequest(1, 1, 9, 0, inbound, outbound);
    var states := StrandingStates(capacity, r);
    assert |m| == 6;
    StrandingEnds(capacity, r);
    LoneOwnerAgrees(capacity);
    StrandingSteps(capacity, inbound, outbound);
    hide Step, Agreement, Run, CarefulRun, StrandingMoves, StrandingStates, LoneOwner, Along, BeginIkeDelete, Stranded;
    AlongIsRun(states, m);
    AlongPrefix(states, m, 4);
    AlongIsRun(states[..5], m[..4]);
  }

  lemma StrandingEnds(capacity: nat, r: InstallRequest)
    ensures var states := StrandingStates(capacity, r);
            && |states| == 7 && states[0] == LoneOwner(capacity)
            && 1 in states[6].sas && Stranded(states[6].sas[1], r)
            && 1 in states[4].sas && BeginIkeDelete(states[4].sas[1]).1 == RequestPending
  {
    hide LoneOwner;
  }

  lemma LoneOwnerAgrees(capacity: nat)
    ensures Agreement(LoneOwner(capacity))
  {
    var sys := LoneOwner(capacity);
    hide Agreement;
    StartsInAgreement(sys);
  }

  lemma AlongPrefix(s: seq<System>, m: seq<Move>, n: nat)
    requires Along(s, m) && n <= |m|
    ensures Along(s[..n + 1], m[..n])
  {
    hide Step, Bare;
  }

  function StrandingStates(capacity: nat, r: InstallRequest): seq<System> {
    var start := LoneOwner(capacity);
    var asked := start.(transit := {Install(r)});
    [start,
     start.(sas := map[1 := OwnerIn(InitialExchange, 0, 1, None, SECOND, 0)]),
     start.(sas := map[1 := OwnerIn(Authenticating, 7, 1, None, SECOND, 0)]),
     start.(sas := map[1 := OwnerIn(Established, 7, 1, None, SECOND, 0)]),
     asked.(sas := map[1 := OwnerIn(Established, 7, 2, Some(r), SECOND, 0)]),
     asked.(sas := map[1 := OwnerIn(Established, 7, 2, Some(r), 2 * SECOND, 1)]),
     asked.(sas := map[1 := OwnerIn(Deleting, 7, 2, Some(r), 2 * SECOND, 1)])]
  }

  lemma StrandingSteps(capacity: nat, inbound: Association, outbound: Association)
    requires Proposable(inbound, outbound)
    ensures Along(StrandingStates(capacity, InstallRequest(1, 1, 9, 0, inbound, outbound)), StrandingMoves(inbound, outbound))
  {
    hide Step, Along, StrandingStates, Bare;
    var m, r := StrandingMoves(inbound, outbound), InstallRequest(1, 1, 9, 0, inbound, outbound);
    FirstThree(capacity, r, m);
    LastThree(capacity, r, m);
    SixSteps(StrandingStates(capacity, r), m);
  }

  lemma FirstThree(capacity: nat, r: InstallRequest, m: seq<Move>)
    requires m == StrandingMoves(r.inbound, r.outbound)
    ensures var s := StrandingStates(capacity, r);
            |s| == 7 && Step(s[0], m[0]) == s[1] && Step(s[1], m[1]) == s[2] && Step(s[2], m[2]) == s[3] && Bare(s[3])
  {
    hide Step;
    EstablishingSteps(LoneOwner(capacity), m, capacity);
    hide LoneOwner;
  }

  lemma LastThree(capacity: nat, r: InstallRequest, m: seq<Move>)
    requires m == StrandingMoves(r.inbound, r.outbound) && Proposable(r.inbound, r.outbound)
    requires r == InstallRequest(1, 1, 9, 0, r.inbound, r.outbound)
    ensures var s := StrandingStates(capacity, r);
            |s| == 7 && Step(s[3], m[3]) == s[4] && Step(s[4], m[4]) == s[5] && Step(s[5], m[5]) == s[6]
  {
    hide Step;
    var s := StrandingStates(capacity, r);
    assert s[3].transit == {};
    InstallingStep(s[3], r.inbound, r.outbound);
    PollingSteps(s[4], r);
    hide LoneOwner;
  }

  lemma SixSteps(s: seq<System>, m: seq<Move>)
    requires |m| == 6 && |s| == 7
    requires Step(s[0], m[0]) == s[1] && Step(s[1], m[1]) == s[2] && Step(s[2], m[2]) == s[3]
    requires Step(s[3], m[3]) == s[4] && Step(s[4], m[4]) == s[5] && Step(s[5], m[5]) == s[6]
    requires Plain(m[0]) && Plain(m[1]) && Plain(m[2]) && Bare(s[3]) && Plain(m[4]) && Plain(m[5])
    ensures Along(s, m)
  {
    hide Step, Bare, Plain;
    forall i | 0 <= i < 6
      ensures Step(s[i], m[i]) == s[i + 1] && (Plain(m[i]) || Bare(s[i]))
    {
      assert i == 0 || i == 1 || i == 2 || i == 3 || i == 4 || i == 5;
    }
  }

  ghost predicate Bare(sys: System) {
    forall k :: k in sys.sas ==> sys.sas[k].children == [] && sys.sas[k].install.None?
  }

  /** The states that a run passes through, where SA ids are proposed only before anybody has claimed one. */
  ghost predicate Along(s: seq<System>, m: seq<Move>) {
    && |s| == |m| + 1
    && forall i :: 0 <= i < |m| ==> Step(s[i], m[i]) == s[i + 1] && (Plain(m[i]) || Bare(s[i]))
  }

  lemma {:induction false} AlongIsRun(s: seq<System>, m: seq<Move>)
    requires Along(s, m) && Agreement(s[0])
    ensures Run(s[0], m) == s[|m|] && CarefulRun(s[0], m)
    decreases |m|
  {
    hide Step, Agreement;
    if m != [] {
      assert Step(s[0], m[0]) == s[1];
      if Plain(m[0]) {
        PlainIsCareful(s[0], m[0]);
      } else {
        NobodyClaims(s[0], m[0]);
        StepKeepsAgreement(s[0], m[0]);
      }
      hide Careful, Mailboxes, Plain, Bare;
      AlongIsRun(s[1..], m[1..]);
    }
  }

  lemma EstablishingSteps(start: System, m: seq<Move>, capacity: nat)
    requires start == LoneOwner(capacity)
    requires |m| >= 3 && m[0] == StartIke(1, 5, 0) && m[1] == DeriveKeys(1, 6, 7, 0) && m[2] == Authenticate(1, true, 0)
    ensures Step(start, m[0]) == start.(sas := map[1 := OwnerIn(InitialExchange, 0, 1, None, SECOND, 0)])
    ensures Step(start.(sas := map[1 := OwnerIn(InitialExchange, 0, 1, None, SECOND, 0)]), m[1])
         == start.(sas := map[1 := OwnerIn(Authenticating, 7, 1, None, SECOND, 0)])
    ensures Step(start.(sas := map[1 := OwnerIn(Authenticating, 7, 1, None, SECOND, 0)]), m[2])
         == start.(sas := map[1 := OwnerIn(Established, 7, 1, None, SECOND, 0)])
  {
  }

  lemma InstallingStep(s3: System, inbound: Association, outbound: Association)
    requires Proposable(inbound, outbound)
    requires s3.sas == map[1 := OwnerIn(Established, 7, 1, None, SECOND, 0)] && s3.transit == {}
    ensures var r := InstallRequest(1, 1, 9, 0, inbound, outbound);
            Step(s3, AskInstall(1, 9, inbound, outbound))
            == s3.(sas := map[1 := OwnerIn(Established, 7, 2, Some(r), SECOND, 0)], transit := {Install(r)})
  {
    var none: seq<Binding> := [];
    assert ChildIndex(none, 9) == 0;
  }

  lemma PollingSteps(s4: System, r: InstallRequest)
    requires s4.sas == map[1 := OwnerIn(Established, 7, 2, Some(r), SECOND, 0)]
    ensures Step(s4, Poll(1, SECOND)) == s4.(sas := map[1 := OwnerIn(Established, 7, 2, Some(r), 2 * SECOND, 1)])
    ensures Step(s4.(sas := map[1 := OwnerIn(Established, 7, 2, Some(r), 2 * SECOND, 1)]), Poll(1, 2 * SECOND))
         == s4.(sas := map[1 := OwnerIn(Deleting, 7, 2, Some(r), 2 * SECOND, 1)])
  {
  }

  /** Where no owner has a child or a request, every SA id is unclaimed. */
  lemma NobodyClaims(sys: System, m: Move)
    requires Agreement(sys) && Bare(sys)
    ensures Mailboxes(sys) && Careful(sys, m)
  {
    AgreementPosts(sys);
    hide Agreement;
    NoClaims(sys);
  }

  lemma NoClaims(sys: System)
    requires Mailboxes(sys) && Bare(sys)
    ensures ClaimsOf(sys) == map[]
  {
    hide Posted, LocalClaims, Consistent;
    forall k | k in sys.sas
      ensures LocalClaims(sys.sas[k], sys.acks) == map[]
    {
      NothingClaimed(sys.sas[k], sys.acks);
    }
    assert ClaimsOf(sys).Keys == {};
  }

  lemma NothingClaimed(sa: Sa, acks: set<Ack>)
    requires DistinctChildren(sa.children) && sa.children == [] && sa.install.None?
    ensures LocalClaims(sa, acks) == map[]
  {
    hide Pairs;
    NoPairs(sa.children);
    assert BoundClaims(sa, acks) == map[];
  }
}
