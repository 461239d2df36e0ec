/** What one IKE SA owner keeps over every run, and its timers (core/src/security/ikev2_sa.cpp). */
module ChildSaOwners {
  import opened Options
  import opened SecurityAssociations
  import opened ChildSas
  import opened ChildSaProtocol

  // ---------------------------------------------------------------- every run

  /** Keys exist exactly between key derivation and closing or failure; the CHILD SAs stay within the limit
      and one replacement, the pending one included; unanswered probes stay within theirs. */
  ghost predicate Sound(sa: Sa) {
    && (sa.keys != 0 <==> sa.phase in {Authenticating, Established, Deleting})
    && |sa.children| <= sa.maximumChildren + 1
    && (sa.install.Some? ==>
          if sa.install.value.supersedes == 0 then |sa.children| < sa.maximumChildren
          else |sa.children| <= sa.maximumChildren)
    && sa.unanswered <= sa.maximumUnanswered
  }

  lemma OwnerStaysSound(sa: Sa, m: Move)
    requires Sound(sa)
    ensures Sound(Quietly(sa, m))
    ensures m.AskInstall? ==> Sound(BeginInstall(sa, m.child, 0, m.inbound, m.outbound).0)
    ensures m.AskRekey? ==> Sound(BeginRekey(sa, m.replaced, m.child, m.inbound, m.outbound).0)
    ensures m.AskDelete? ==> Sound(BeginDelete(sa, m.child).0)
    ensures m.Acknowledge? ==> Sound(Learn(sa, m.ack, m.now))
  {
    hide ChildIndex, HasActive;
  }

  ghost predicate AllSound(sys: System) {
    forall k :: k in sys.sas ==> Sound(sys.sas[k])
  }

  /** Over every run, whatever is asked, answered, repeated or lost. */
  lemma {:induction false} RunStaysSound(sys: System, moves: seq<Move>)
    requires AllSound(sys)
    ensures AllSound(Run(sys, moves))
    decreases |moves|
  {
    if moves != [] {
      hide Sound;
      StepStaysSound(sys, moves[0]);
      hide AllSound;
      RunStaysSound(Step(sys, moves[0]), moves[1..]);
    }
  }

  lemma StepStaysSound(sys: System, m: Move)
    requires AllSound(sys)
    ensures AllSound(Step(sys, m))
  {
    hide Sound, BeginInstall, BeginRekey, BeginDelete, Quietly, Learn, InstallPairInto, ErasePairFrom;
    if Enabled(sys, m) && !m.Forward? {
      OwnerStaysSound(sys.sas[if m.Acknowledge? then m.ack.owner else m.owner], m);
    }
  }

  // ---------------------------------------------------------------- what is asked of the other shard

  /** Established, with nothing pending and a request number left. */
  ghost predicate Unoccupied(sa: Sa) {
    sa.install == None && sa.remove == None && sa.nextRequest != 0
  }

  ghost predicate Bound(sa: Sa, child: nat) {
    exists b :: b in sa.children && b.child == child
  }

  /** An inbound and an outbound association of one policy, each with an id of its own. */
  ghost predicate TwoDirections(inbound: Association, outbound: Association) {
    && {inbound.outbound, outbound.outbound} == {false, true} && outbound.outbound
    && |{0, inbound.id, outbound.id}| == 3 && inbound.policy == outbound.policy
  }

  /** When a CHILD SA may be asked for, and what is asked. */
  lemma InstallAskedExactly(sa: Sa, child: nat, inbound: Association, outbound: Association)
    ensures var (asked, r) := BeginInstall(sa, child, 0, inbound, outbound);
            && (r.Some? <==> sa.phase == Established && Unoccupied(sa) && child != 0 && !Bound(sa, child)
                             && |sa.children| < sa.maximumChildren && TwoDirections(inbound, outbound))
            && (r.Some? ==> Asked(sa, asked, r.value, child, 0, inbound, outbound))
            && (r.None? ==> asked == sa)
  {
    BoundByIndex(sa, child);
    ThreeIds(inbound.id, outbound.id);
    hide ChildIndex;
  }

  /** A rekey replaces an active CHILD SA and may take one place more. */
  lemma RekeyAskedExactly(sa: Sa, replaced: nat, child: nat, inbound: Association, outbound: Association)
    ensures var (asked, r) := BeginRekey(sa, replaced, child, inbound, outbound);
            && (r.Some? <==> sa.phase == Established && Unoccupied(sa) && child != 0 && !Bound(sa, child) && replaced != 0
                             && (exists b :: b in sa.children && b.child == replaced && b.state == Active)
                             && |sa.children| <= sa.maximumChildren && TwoDirections(inbound, outbound))
            && (r.Some? ==> Asked(sa, asked, r.value, child, replaced, inbound, outbound))
            && (r.None? ==> asked == sa)
  {
    BoundByIndex(sa, child);
    ThreeIds(inbound.id, outbound.id);
    hide ChildIndex;
    if b :| b in sa.children && b.child == replaced && b.state == Active {
      var k :| 0 <= k < |sa.children| && sa.children[k] == b;
      assert HasActive(sa.children, replaced);
    }
  }

  ghost predicate Asked(sa: Sa, asked: Sa, r: InstallRequest, child: nat, supersedes: nat, inbound: Association, outbound: Association) {
    && r == InstallRequest(sa.nextRequest, sa.id, child, supersedes, inbound, outbound)
    && asked == sa.(install := Some(r), nextRequest := asked.nextRequest)
    && (asked.nextRequest == sa.nextRequest + 1 || (asked.nextRequest == 0 && sa.nextRequest == 0xffff_ffff_ffff_ffff))
  }

  lemma BoundByIndex(sa: Sa, child: nat)
    ensures Bound(sa, child) <==> ChildIndex(sa.children, child) < |sa.children|
  {
    var i := ChildIndex(sa.children, child);
    if i < |sa.children| {
      assert sa.children[i] in sa.children;
    }
  }

  lemma ThreeIds(a: nat, b: nat)
    ensures |{0, a, b}| == 3 <==> a != 0 && b != 0 && a != b
  {
    if a == 0 {
      assert {0, a, b} == {0, b};
    } else if b == 0 || a == b {
      assert {0, a, b} == {0, a};
    }
  }

  /** A removal names the SA ids of the binding and marks it retiring; the orderly deletion of the IKE SA
      waits for what is pending, stops new CHILD SAs and keeps everything else. */
  lemma RemovalAskedExactly(sa: Sa, child: nat)
    ensures var (asked, r) := BeginDelete(sa, child);
            && (r.Some? <==> sa.phase in {Established, Deleting} && Unoccupied(sa) && child != 0 && Bound(sa, child))
            && (r.Some? ==> && r.value.id == sa.nextRequest && r.value.owner == sa.id && r.value.child == child
                            && asked.remove == r && asked.phase == sa.phase && |asked.children| == |sa.children|
                            && exists b :: b in sa.children && b.child == child
                                           && r.value.inbound == b.inbound && r.value.outbound == b.outbound
                                           && b.(state := Retiring) in asked.children)
            && (r.None? ==> asked == sa)
    ensures var (deleting, result) := BeginIkeDelete(sa);
            && (result == Applied <==> sa.phase == Established && sa.install == None && sa.remove == None)
            && deleting == if result == Applied then sa.(phase := Deleting) else sa
  {
    BoundByIndex(sa, child);
    var i := ChildIndex(sa.children, child);
    if i < |sa.children| {
      assert sa.children[i] in sa.children;
      var marked := MarkRetiring(sa.children, child);
      assert marked[i] == sa.children[i].(state := Retiring) && marked[i] in marked;
    }
    hide ChildIndex;
  }

  // ---------------------------------------------------------------- a refused removal

  /** A removal that the SAD refuses leaves the binding as it was, its label included: one that was serving
      serves again, one that was retiring stays so. */
  lemma RefusedRemovalRestores(sa: Sa, child: nat)
    requires BeginDelete(sa, child).1.Some?
    ensures var (asked, r) := BeginDelete(sa, child);
            && (exists k :: 0 <= k < |asked.children| && asked.children[k].child == child && asked.children[k].state == Retiring)
            && CompleteDelete(asked, r.value.id, false).1 == ForwardingRejected
            && CompleteDelete(asked, r.value.id, false).0.children == sa.children
            && CompleteDelete(asked, r.value.id, false).0.remove == None
  {
    var (asked, r) := BeginDelete(sa, child);
    var i := ChildIndex(sa.children, child);
    assert asked.children[i].child == child;
    SameIndex(sa.children, asked.children, child);
    assert asked.children[i := asked.children[i].(state := sa.children[i].state)] == sa.children;
  }

  lemma {:induction false} SameIndex(a: seq<Binding>, b: seq<Binding>, child: nat)
    requires |a| == |b| && forall k :: 0 <= k < |a| ==> a[k].child == b[k].child
    ensures ChildIndex(a, child) == ChildIndex(b, child)
  {
  }

  // ---------------------------------------------------------------- liveness

  /** Any traffic or probe puts the next poll off by exactly the idle time. */
  lemma IdleTime(sa: Sa, now: int, later: int)
    ensures NoteActivity(sa, now).1 == Applied ==>
              var busy := NoteActivity(sa, now).0;
              busy.unanswered == 0 && (PollLiveness(busy, later).1 == NoAction <==> later < now + sa.idle * SECOND)
    ensures PollLiveness(sa, now).1 == SendEmptyInformational ==>
              var probed := PollLiveness(sa, now).0;
              && probed.unanswered == sa.unanswered + 1
              && (PollLiveness(probed, later).1 == NoAction <==> later < now + sa.idle * SECOND)
  {
  }

  /** The clock can represent the end of one idle time from `now`. */
  ghost predicate CanWait(sa: Sa, now: int) {
    0 < sa.idle && now + sa.idle * SECOND <= CLOCK_MAX && sa.idle * SECOND <= CLOCK_MAX
  }

  /** The handshake goes from key exchange by key derivation to authentication, each step in its phase only;
      SPIs and keys must be there, a failed authentication leaves no keys, and every step restarts the idle
      time. */
  lemma HandshakeExactly(sa: Sa, spi: nat, keys: nat, ok: bool, now: int)
    ensures BeginInitial(sa, spi, now).1 == Applied <==> sa.phase == Created && spi > 0 && CanWait(sa, now)
    ensures BeginInitial(sa, spi, now).1 == Applied ==>
              BeginInitial(sa, spi, now).0 == sa.(phase := InitialExchange, deadline := now + sa.idle * SECOND)
    ensures CompleteInitial(sa, spi, keys, now).1 == Applied <==>
              sa.phase == InitialExchange && spi > 0 && keys > 0 && CanWait(sa, now)
    ensures CompleteInitial(sa, spi, keys, now).1 == Applied ==>
              CompleteInitial(sa, spi, keys, now).0
              == sa.(phase := Authenticating, keys := keys, deadline := now + sa.idle * SECOND)
    ensures CompleteAuthentication(sa, ok, now).1 == Applied <==> sa.phase == Authenticating && ok && CanWait(sa, now)
    ensures sa.phase == Authenticating ==>
              CompleteAuthentication(sa, ok, now).0
              == (if ok && CanWait(sa, now)
                  then sa.(phase := Established, unanswered := 0, deadline := now + sa.idle * SECOND)
                  else sa.(phase := Failed, keys := 0))
  {
  }

  /** A committed installation counts as activity; when the clock cannot represent another idle time the
      IKE SA fails, its CHILD SA installed all the same. */
  lemma InstallationIsActivity(sa: Sa, request: nat, now: int)
    requires CompleteInstall(sa, request, true, now).1 == Applied
    ensures var done := CompleteInstall(sa, request, true, now).0;
            && done.unanswered == 0 && |done.children| == |sa.children| + 1 && done.install == None
            && (if CanWait(sa, now) then done.phase == Established && done.deadline == now + sa.idle * SECOND
                else done.phase == Failed && done.keys == 0)
  {
  }

  function Polls(sa: Sa, times: seq<int>): (r: seq<Liveness>)
    ensures |r| == |times|
    decreases |times|
  {
    if times == [] then [] else [PollLiveness(sa, times[0]).1] + Polls(PollLiveness(sa, times[0]).0, times[1..])
  }

  /** `count` instants, each one idle time after the one before. */
  function Every(first: int, span: int, count: nat): (times: seq<int>)
    ensures |times| == count && forall i :: 0 <= i < count ==> times[i] == first + i * span
  {
    seq(count, i => first + i * span)
  }

  /** A peer that is silent is probed as often as the limit says, once per idle time, and then the IKE SA
      is deleted. */
  lemma {:induction false} SilentPeerIsDeleted(sa: Sa)
    requires sa.phase == Established && sa.unanswered <= sa.maximumUnanswered && sa.idle > 0
    requires sa.deadline + (sa.maximumUnanswered - sa.unanswered) * (sa.idle * SECOND) <= CLOCK_MAX
    requires sa.deadline >= 0
    ensures var left := sa.maximumUnanswered - sa.unanswered;
            var results := Polls(sa, Every(sa.deadline, sa.idle * SECOND, left + 1));
            results[left] == DeleteIkeSa && forall i :: 0 <= i < left ==> results[i] == SendEmptyInformational
    decreases sa.maximumUnanswered - sa.unanswered
  {
    var left, span := sa.maximumUnanswered - sa.unanswered, sa.idle * SECOND;
    var times := Every(sa.deadline, span, left + 1);
    assert times[0] == sa.deadline;
    if left > 0 {
      assert left * span == span + (left - 1) * span && (left - 1) * span >= 0;
      var probed := PollLiveness(sa, sa.deadline).0;
      assert probed.deadline == sa.deadline + span;
      SilentPeerIsDeleted(probed);
      forall i | 0 <= i < left
        ensures times[1..][i] == Every(probed.deadline, span, left)[i]
      {
        assert (i + 1) * span == span + i * span;
      }
      assert times[1..] == Every(probed.deadline, span, left);
    }
  }
}
