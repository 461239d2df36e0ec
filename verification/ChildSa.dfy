/** The IKE SA owner and its CHILD SAs (core/src/security/ikev2_sa.cpp). The owner runs on the
    control shard and never touches the SAD; it sends one install or remove request at a time to the
    forwarding shard and commits when the acknowledgement arrives. */
module ChildSas {
  import opened Options
  import opened SecurityAssociations

  const MAX_U64: nat := 0xFFFF_FFFF_FFFF_FFFF
  const CLOCK_MAX: int := 0x7FFF_FFFF_FFFF_FFFF
  const SECOND: nat := 1_000_000_000

  datatype Phase = Created | InitialExchange | Authenticating | Established | Deleting | Closed | Failed

  datatype ChildState = Active | Retiring

  datatype Binding = Binding(child: nat, inbound: nat, outbound: nat, installedAt: int, state: ChildState)

  datatype InstallRequest = InstallRequest(
    id: nat, owner: nat, child: nat, supersedes: nat, inbound: Association, outbound: Association)

  datatype RemoveRequest = RemoveRequest(id: nat, owner: nat, child: nat, inbound: nat, outbound: nat)

  datatype Result = Applied | InvalidState | InvalidValue | RequestPending | RequestMismatch | ForwardingRejected

  datatype Liveness = NoAction | SendEmptyInformational | DeleteIkeSa

  datatype Sa = Sa(
    id: nat, maximumChildren: nat, idle: nat, maximumUnanswered: nat, phase: Phase, keys: nat,
    nextRequest: nat, install: Option<InstallRequest>, remove: Option<RemoveRequest>,
    previous: ChildState, children: seq<Binding>, deadline: int, unanswered: nat)

  // ---------------------------------------------------------------- the owner's transitions

  /** Index of the first binding of this CHILD SA, or the length. */
  function ChildIndex(children: seq<Binding>, child: nat): (i: nat)
    ensures i <= |children|
    ensures i < |children| ==> children[i].child == child
    ensures forall j :: 0 <= j < i ==> children[j].child != child
  {
    if children == [] then 0
    else if children[0].child == child then 0
    else 1 + ChildIndex(children[1..], child)
  }

  /** The idle deadline restarts unless the clock cannot represent it. */
  function DeadlineFrom(sa: Sa, now: int): Option<int> {
    if sa.idle * SECOND > CLOCK_MAX || sa.idle == 0 || now > CLOCK_MAX - sa.idle * SECOND then None
    else Some(now + sa.idle * SECOND)
  }

  function Fail(sa: Sa): Sa {
    sa.(phase := Failed, keys := 0)
  }

  function BeginInitial(sa: Sa, spi: nat, now: int): (Sa, Result) {
    if sa.phase != Created then (sa, InvalidState)
    else if spi == 0 || DeadlineFrom(sa, now).None? then (sa, InvalidValue)
    else (sa.(phase := InitialExchange, deadline := DeadlineFrom(sa, now).value), Applied)
  }

  function CompleteInitial(sa: Sa, spi: nat, keys: nat, now: int): (Sa, Result) {
    if sa.phase != InitialExchange then (sa, InvalidState)
    else if spi == 0 || keys == 0 || DeadlineFrom(sa, now).None? then (sa, InvalidValue)
    else (sa.(phase := Authenticating, keys := keys, deadline := DeadlineFrom(sa, now).value), Applied)
  }

  function CompleteAuthentication(sa: Sa, ok: bool, now: int): (Sa, Result) {
    if sa.phase != Authenticating then (sa, InvalidState)
    else if !ok then (Fail(sa), ForwardingRejected)
    else if DeadlineFrom(sa, now).None? then (Fail(sa), InvalidValue)
    else (sa.(phase := Established, unanswered := 0, deadline := DeadlineFrom(sa, now).value), Applied)
  }

  function AfterRequest(id: nat): nat {
    if id == MAX_U64 then 0 else id + 1
  }

  predicate Proposable(inbound: Association, outbound: Association) {
    && !inbound.outbound && outbound.outbound && inbound.id != 0 && outbound.id != 0
    && inbound.id != outbound.id && inbound.policy == outbound.policy
  }

  /** `supersedes` is 0 for an ordinary installation; a rekey may use one binding more. */
  function BeginInstall(sa: Sa, child: nat, supersedes: nat, inbound: Association, outbound: Association)
    : (Sa, Option<InstallRequest>)
  {
    if || sa.phase != Established || sa.install.Some? || sa.remove.Some? || child == 0
       || (supersedes == 0 && |sa.children| >= sa.maximumChildren)
       || (supersedes != 0 && |sa.children| > sa.maximumChildren)
       || ChildIndex(sa.children, child) < |sa.children|
       || !Proposable(inbound, outbound) || sa.nextRequest == 0 then (sa, None)
    else
      var r := InstallRequest(sa.nextRequest, sa.id, child, supersedes, inbound, outbound);
      (sa.(install := Some(r), nextRequest := AfterRequest(sa.nextRequest)), Some(r))
  }

  predicate HasActive(children: seq<Binding>, child: nat) {
    exists k :: 0 <= k < |children| && children[k].child == child && children[k].state == Active
  }

  function BeginRekey(sa: Sa, replaced: nat, child: nat, inbound: Association, outbound: Association)
    : (Sa, Option<InstallRequest>)
  {
    if replaced == 0 || replaced == child || !HasActive(sa.children, replaced) then (sa, None)
    else BeginInstall(sa, child, replaced, inbound, outbound)
  }

  function MarkRetiring(children: seq<Binding>, child: nat): (r: seq<Binding>)
    ensures |r| == |children|
  {
    var i := ChildIndex(children, child);
    if i < |children| then children[i := children[i].(state := Retiring)] else children
  }

  /** The new pair is bound, and the one it supersedes is marked for deletion. */
  function WithInstalled(children: seq<Binding>, r: InstallRequest, now: int): seq<Binding> {
    var added := children + [Binding(r.child, r.inbound.id, r.outbound.id, now, Active)];
    if r.supersedes != 0 then MarkRetiring(added, r.supersedes) else added
  }

  function CompleteInstall(sa: Sa, request: nat, committed: bool, now: int): (Sa, Result) {
    if sa.phase != Established then (sa, InvalidState)
    else if sa.install.None? then (sa, RequestPending)
    else if sa.install.value.id != request then (sa, RequestMismatch)
    else if !committed then (sa.(install := None), ForwardingRejected)
    else
      var done := sa.(children := WithInstalled(sa.children, sa.install.value, now), install := None, unanswered := 0);
      if DeadlineFrom(sa, now).None? then (Fail(done), Applied)
      else (done.(deadline := DeadlineFrom(sa, now).value), Applied)
  }

  function BeginDelete(sa: Sa, child: nat): (Sa, Option<RemoveRequest>) {
    var i := ChildIndex(sa.children, child);
    if || (sa.phase != Established && sa.phase != Deleting) || sa.install.Some? || sa.remove.Some?
       || child == 0 || i == |sa.children| || sa.nextRequest == 0 then (sa, None)
    else
      var b := sa.children[i];
      var r := RemoveRequest(sa.nextRequest, sa.id, b.child, b.inbound, b.outbound);
      (sa.(previous := b.state, children := MarkRetiring(sa.children, child), remove := Some(r),
           nextRequest := AfterRequest(sa.nextRequest)), Some(r))
  }

  function CompleteDelete(sa: Sa, request: nat, erased: bool): (Sa, Result) {
    if sa.phase != Established && sa.phase != Deleting then (sa, InvalidState)
    else if sa.remove.None? then (sa, RequestPending)
    else if sa.remove.value.id != request then (sa, RequestMismatch)
    else
      var i := ChildIndex(sa.children, sa.remove.value.child);
      var done := sa.(remove := None);
      if i == |sa.children| then (done, if erased then Applied else ForwardingRejected)
      else if !erased then
        (done.(children := sa.children[i := sa.children[i].(state := sa.previous)]), ForwardingRejected)
      else (done.(children := sa.children[..i] + sa.children[i + 1..]), Applied)
  }

  function BeginIkeDelete(sa: Sa): (Sa, Result) {
    if sa.phase != Established then (sa, InvalidState)
    else if sa.install.Some? || sa.remove.Some? then (sa, RequestPending)
    else (sa.(phase := Deleting), Applied)
  }

  function CompleteIkeDelete(sa: Sa): (Sa, Result) {
    if sa.phase != Deleting then (sa, InvalidState)
    else if sa.children != [] || sa.install.Some? || sa.remove.Some? then (sa, RequestPending)
    else (sa.(phase := Closed, keys := 0, deadline := 0, unanswered := 0), Applied)
  }

  function NoteActivity(sa: Sa, now: int): (Sa, Result) {
    if sa.phase != Established then (sa, InvalidState)
    else if DeadlineFrom(sa, now).None? then (sa, InvalidValue)
    else (sa.(deadline := DeadlineFrom(sa, now).value, unanswered := 0), Applied)
  }

  function PollLiveness(sa: Sa, now: int): (Sa, Liveness) {
    if sa.phase != Established || now < sa.deadline then (sa, NoAction)
    else if sa.unanswered >= sa.maximumUnanswered then (sa.(phase := Deleting), DeleteIkeSa)
    else if DeadlineFrom(sa, now).None? then (Fail(sa), DeleteIkeSa)
    else (sa.(deadline := DeadlineFrom(sa, now).value, unanswered := sa.unanswered + 1), SendEmptyInformational)
  }

  // ---------------------------------------------------------------- the owner's bindings

  ghost predicate DistinctChildren(children: seq<Binding>) {
    && (forall k :: 0 <= k < |children| ==> children[k].child != 0)
    && (forall j, k :: 0 <= j < k < |children| ==> children[j].child != children[k].child)
  }

  /** The SA pair of every CHILD SA. */
  ghost function Pairs(children: seq<Binding>): (m: map<nat, Pair>)
    requires DistinctChildren(children)
    ensures forall b :: b in children ==> b.child in m && m[b.child] == Pair(b.inbound, b.outbound)
    ensures forall c :: c in m ==> exists b :: b in children && b.child == c
  {
    ChildrenOf(children);
    map c | c in (set b | b in children :: b.child) ::
      Pair(children[ChildIndex(children, c)].inbound, children[ChildIndex(children, c)].outbound)
  }

  lemma ChildrenOf(children: seq<Binding>)
    requires DistinctChildren(children)
    ensures forall b :: b in children ==>
              ChildIndex(children, b.child) < |children| && children[ChildIndex(children, b.child)] == b
  {
    hide ChildIndex;
    forall b | b in children
      ensures ChildIndex(children, b.child) < |children| && children[ChildIndex(children, b.child)] == b
    {
      var k :| 0 <= k < |children| && children[k] == b;
      var i := ChildIndex(children, b.child);
      assert i <= k;
    }
  }

  lemma PairsByIndex(children: seq<Binding>, c: nat)
    requires DistinctChildren(children)
    ensures c in Pairs(children) <==> ChildIndex(children, c) < |children|
    ensures c in Pairs(children) ==>
      var b := children[ChildIndex(children, c)]; Pairs(children)[c] == Pair(b.inbound, b.outbound)
    ensures 0 !in Pairs(children)
  {
    hide Pairs;
    var i := ChildIndex(children, c);
    if i < |children| {
      assert children[i] in children;
    }
  }

  /** Bindings that agree up to their state have the same pairs. */
  lemma PairsOfRelabel(children: seq<Binding>, i: nat, state: ChildState)
    requires DistinctChildren(children) && i < |children|
    ensures DistinctChildren(children[i := children[i].(state := state)])
    ensures Pairs(children[i := children[i].(state := state)]) == Pairs(children)
  {
    var children' := children[i := children[i].(state := state)];
    assert DistinctChildren(children');
    hide Pairs, DistinctChildren;
    var m := Pairs(children);
    forall b | b in children'
      ensures b.child in m && m[b.child] == Pair(b.inbound, b.outbound)
    {
      var k :| 0 <= k < |children'| && children'[k] == b;
      assert children[k] in children;
    }
    forall c | c in m
      ensures exists b :: b in children' && b.child == c
    {
      var b :| b in children && b.child == c;
      var k :| 0 <= k < |children| && children[k] == b;
      assert children'[k] in children';
    }
    PairsByMembers(children', m);
  }

  lemma PairsOfAppend(children: seq<Binding>, b: Binding)
    requires DistinctChildren(children) && b.child != 0 && b.child !in Pairs(children)
    ensures DistinctChildren(children + [b])
    ensures Pairs(children + [b]) == Pairs(children)[b.child := Pair(b.inbound, b.outbound)]
  {
    assert forall k :: 0 <= k < |children| ==> children[k] in children;
    assert DistinctChildren(children + [b]);
    hide DistinctChildren;
    PairsByMembers(children + [b], Pairs(children)[b.child := Pair(b.inbound, b.outbound)]);
  }

  lemma PairsOfInstalled(children: seq<Binding>, r: InstallRequest, now: int)
    requires DistinctChildren(children) && r.child != 0 && r.child !in Pairs(children)
    ensures DistinctChildren(WithInstalled(children, r, now))
    ensures |WithInstalled(children, r, now)| == |children| + 1
    ensures Pairs(WithInstalled(children, r, now)) == Pairs(children)[r.child := Pair(r.inbound.id, r.outbound.id)]
  {
    hide Pairs, ChildIndex;
    var b := Binding(r.child, r.inbound.id, r.outbound.id, now, Active);
    PairsOfAppend(children, b);
    var i := ChildIndex(children + [b], r.supersedes);
    if i < |children + [b]| {
      PairsOfRelabel(children + [b], i, Retiring);
    }
  }

  /** The pairs are determined by the bindings, whatever their order. */
  lemma PairsByMembers(children: seq<Binding>, m: map<nat, Pair>)
    requires DistinctChildren(children)
    requires forall b :: b in children ==> b.child in m && m[b.child] == Pair(b.inbound, b.outbound)
    requires forall c :: c in m ==> exists b :: b in children && b.child == c
    ensures Pairs(children) == m
  {
    hide Pairs, DistinctChildren;
    forall c
      ensures c in Pairs(children) <==> c in m
      ensures c in m ==> Pairs(children)[c] == m[c]
    {
    }
  }

  lemma PairsOfErase(children: seq<Binding>, i: nat)
    requires DistinctChildren(children) && i < |children|
    ensures DistinctChildren(children[..i] + children[i + 1..])
    ensures Pairs(children[..i] + children[i + 1..]) == Pairs(children) - {children[i].child}
  {
    hide Pairs;
    var children' := children[..i] + children[i + 1..];
    assert forall k :: 0 <= k < |children'| ==> children'[k] == children[if k < i then k else k + 1];
    forall b
      ensures b in children' <==> b in children && b.child != children[i].child
    {
      if b in children && b.child != children[i].child {
        var k :| 0 <= k < |children| && children[k] == b;
        assert children'[if k < i then k else k - 1] == b;
      }
    }
    assert DistinctChildren(children');
    hide DistinctChildren;
    var m := Pairs(children) - {children[i].child};
    forall c | c in m
      ensures exists b :: b in children' && b.child == c
    {
      var b :| b in children && b.child == c;
      assert b in children';
    }
    PairsByMembers(children', m);
  }

  // ---------------------------------------------------------------- the owner in place

  class IkeSaOwner {
    const id: nat
    const maximumChildren: nat
    const idle: nat
    const maximumUnanswered: nat
    var phase: Phase
    var keys: nat
    var nextRequest: nat
    var install: Option<InstallRequest>
    var remove: Option<RemoveRequest>
    var previous: ChildState
    var children: seq<Binding>
    var deadline: int
    var unanswered: nat

    function State(): Sa
      reads this
    {
      Sa(id, maximumChildren, idle, maximumUnanswered, phase, keys, nextRequest, install, remove, previous,
         children, deadline, unanswered)
    }

    constructor (id: nat, maximumChildren: nat, idle: nat, maximumUnanswered: nat)
      ensures State() == Sa(id, maximumChildren, idle, maximumUnanswered,
                            if id == 0 || idle == 0 || maximumUnanswered == 0 then Failed else Created,
                            0, 1, None, None, Active, [], 0, 0)
    {
      this.id, this.maximumChildren, this.idle, this.maximumUnanswered := id, maximumChildren, idle, maximumUnanswered;
      phase := if id == 0 || idle == 0 || maximumUnanswered == 0 then Failed else Created;
      keys, nextRequest, install, remove, previous := 0, 1, None, None, Active;
      children, deadline, unanswered := [], 0, 0;
    }

    method SetDeadline(now: int) returns (ok: bool)
      modifies this
      ensures ok <==> DeadlineFrom(old(State()), now).Some?
      ensures State() == if ok then old(State()).(deadline := DeadlineFrom(old(State()), now).value) else old(State())
    {
      if idle * SECOND > CLOCK_MAX || idle == 0 || now > CLOCK_MAX - idle * SECOND {
        return false;
      }
      deadline := now + idle * SECOND;
      return true;
    }

    method AllocateRequestId() returns (request: nat)
      modifies this
      ensures request == old(nextRequest)
      ensures State() == old(State()).(nextRequest := if request == 0 then 0 else AfterRequest(request))
    {
      request := nextRequest;
      if request != 0 {
        nextRequest := if request == MAX_U64 then 0 else request + 1;
      }
    }

    method StartInstall(child: nat, supersedes: nat, inbound: Association, outbound: Association)
      returns (request: Option<InstallRequest>)
      modifies this
      ensures (State(), request) == BeginInstall(old(State()), child, supersedes, inbound, outbound)
    {
      hide ChildIndex, AfterRequest;
      var ordinary := supersedes == 0;
      if || phase != Established || install.Some? || remove.Some? || child == 0
         || (ordinary && |children| >= maximumChildren) || (!ordinary && |children| > maximumChildren)
         || ChildIndex(children, child) < |children| {
        return None;
      }
      if || inbound.outbound || !outbound.outbound || inbound.id == 0 || outbound.id == 0
         || inbound.id == outbound.id || inbound.policy != outbound.policy {
        return None;
      }
      var number := AllocateRequestId();
      if number == 0 {
        return None;
      }
      install := Some(InstallRequest(number, id, child, supersedes, inbound, outbound));
      return install;
    }

    method StartRekey(replaced: nat, child: nat, inbound: Association, outbound: Association)
      returns (request: Option<InstallRequest>)
      modifies this
      ensures (State(), request) == BeginRekey(old(State()), replaced, child, inbound, outbound)
    {
      if replaced == 0 || replaced == child || !HasActive(children, replaced) {
        return None;
      }
      request := StartInstall(child, replaced, inbound, outbound);
    }

    method FinishInstall(request: nat, committed: bool, now: int) returns (r: Result)
      modifies this
      ensures (State(), r) == CompleteInstall(old(State()), request, committed, now)
    {
      hide ChildIndex;
      if phase != Established {
        return InvalidState;
      }
      if install.None? {
        return RequestPending;
      }
      if install.value.id != request {
        return RequestMismatch;
      }
      if !committed {
        install := None;
        return ForwardingRejected;
      }
      children := children + [Binding(install.value.child, install.value.inbound.id, install.value.outbound.id, now, Active)];
      if install.value.supersedes != 0 {
        var i := ChildIndex(children, install.value.supersedes);
        if i < |children| {
          children := children[i := children[i].(state := Retiring)];
        }
      }
      install := None;
      unanswered := 0;
      var ok := SetDeadline(now);
      if !ok {
        phase, keys := Failed, 0;
      }
      return Applied;
    }

    method StartDelete(child: nat) returns (request: Option<RemoveRequest>)
      modifies this
      ensures (State(), request) == BeginDelete(old(State()), child)
    {
      hide ChildIndex, AfterRequest;
      if (phase != Established && phase != Deleting) || install.Some? || remove.Some? || child == 0 {
        return None;
      }
      var i := ChildIndex(children, child);
      if i == |children| {
        return None;
      }
      var number := AllocateRequestId();
      if number == 0 {
        return None;
      }
      previous := children[i].state;
      children := children[i := children[i].(state := Retiring)];
      remove := Some(RemoveRequest(number, id, children[i].child, children[i].inbound, children[i].outbound));
      return remove;
    }

    method FinishDelete(request: nat, erased: bool) returns (r: Result)
      modifies this
      ensures (State(), r) == CompleteDelete(old(State()), request, erased)
    {
      hide ChildIndex;
      if phase != Established && phase != Deleting {
        return InvalidState;
      }
      if remove.None? {
        return RequestPending;
      }
      if remove.value.id != request {
        return RequestMismatch;
      }
      var i := ChildIndex(children, remove.value.child);
      if !erased {
        if i < |children| {
          children := children[i := children[i].(state := previous)];
        }
        remove := None;
        return ForwardingRejected;
      }
      if i < |children| {
        children := children[..i] + children[i + 1..];
      }
      remove := None;
      return Applied;
    }

    method FinishIke() returns (r: Result)
      modifies this
      ensures (State(), r) == CompleteIkeDelete(old(State()))
    {
      if phase != Deleting {
        return InvalidState;
      }
      if children != [] || install.Some? || remove.Some? {
        return RequestPending;
      }
      keys, deadline, unanswered, phase := 0, 0, 0, Closed;
      return Applied;
    }

    method Poll(now: int) returns (action: Liveness)
      modifies this
      ensures (State(), action) == PollLiveness(old(State()), now)
    {
      if phase != Established || now < deadline {
        return NoAction;
      }
      if unanswered >= maximumUnanswered {
        phase := Deleting;
        return DeleteIkeSa;
      }
      var ok := SetDeadline(now);
      if !ok {
        phase, keys := Failed, 0;
        return DeleteIkeSa;
      }
      unanswered := unanswered + 1;
      return SendEmptyInformational;
    }
  }
}
