/** IKEv2 window-one request reliability
    (core/include/router/ikev2_exchange.hpp, core/src/security/ikev2_exchange.cpp).

    `Tracker` and `Responder` are the values of the two owners' private fields, with one function
    for each public call; the classes hold the same fields in place. The protocol puts one requester
    and one responder on a network that loses, duplicates and reorders at will, and lets either side
    be checkpointed and moved in the middle of a run. */
module Ikev2Exchange {
  import opened Options

  const U32: nat := 0x1_0000_0000
  const MAX_TIME: int := 0x7fff_ffff_ffff_ffff
  const MILLISECOND: int := 1_000_000

  type MessageId = x: nat | x < U32 witness 0

  /** Zero marks the absence of a packet. */
  type Token = nat

  // ---------------------------------------------------------------- request tracker

  /** Intervals are milliseconds. */
  datatype Policy = Policy(initial: int, maximum: int, retransmissions: nat) {
    predicate Valid() {
      initial > 0 && maximum >= initial && retransmissions > 0
    }
  }

  datatype Tracker = Tracker(
    policy: Policy, deadline: int, id: MessageId, token: Token, resent: nat, active: bool)

  datatype StartResult = Started | AlreadyActive | InvalidPolicy | InvalidToken
  datatype ResponseResult = Matched | Stale | Unexpected
  datatype TimerResult = Idle | Retransmit(token: Token, id: MessageId) | Failed(failed: MessageId)

  function AddDeadline(now: int, delay: int): Option<int> {
    if delay < 0 || delay > MAX_TIME || now > MAX_TIME - delay then None else Some(now + delay)
  }

  /** `x` doubled `k` times. */
  function Doubled(x: int, k: nat): int {
    if k == 0 then x else 2 * Doubled(x, k - 1)
  }

  function Min(a: int, b: int): int {
    if a < b then a else b
  }

  /** Doubles `result` so many times, and gives the maximum as soon as another doubling would pass it. */
  function Backoff(p: Policy, result: int, times: nat): int
    decreases times
  {
    if times == 0 then Min(result, p.maximum)
    else if result >= p.maximum / 2 then p.maximum
    else Backoff(p, result * 2, times - 1)
  }

  function Interval(p: Policy, resent: nat): int {
    Backoff(p, p.initial, resent)
  }

  function Start(t: Tracker, id: MessageId, token: Token, now: int): (Tracker, StartResult) {
    if t.active then (t, AlreadyActive)
    else if !t.policy.Valid() then (t, InvalidPolicy)
    else if token == 0 then (t, InvalidToken)
    else
      match AddDeadline(now, t.policy.initial * MILLISECOND)
      case None => (t.(id := id, token := 0, resent := 0), InvalidPolicy)
      case Some(deadline) =>
        (t.(id := id, token := token, resent := 0, deadline := deadline, active := true), Started)
  }

  function ReceiveResponse(t: Tracker, id: MessageId): (Tracker, ResponseResult) {
    if !t.active then (t, Unexpected)
    else if id != t.id then (t, if id < t.id then Stale else Unexpected)
    else (t.(active := false, token := 0), Matched)
  }

  function Poll(t: Tracker, now: int): (Tracker, TimerResult) {
    if !t.active || now < t.deadline then (t, Idle)
    else if t.resent >= t.policy.retransmissions then
      (t.(active := false, token := 0), Failed(t.id))
    else
      var t1 := t.(resent := t.resent + 1);
      match AddDeadline(now, Interval(t1.policy, t1.resent) * MILLISECOND)
      case None => (t1.(active := false, token := 0), Failed(t.id))
      case Some(deadline) => (t1.(deadline := deadline), Retransmit(t.token, t.id))
  }

  datatype RequestCheckpoint = RequestCheckpoint(
    active: bool, id: MessageId, token: Token, resent: nat, remaining: int)

  function Checkpoint(t: Tracker, now: int): RequestCheckpoint {
    RequestCheckpoint(t.active, t.id, t.token, t.resent,
                      if t.active && t.deadline > now then t.deadline - now else 0)
  }

  function RestoreTracker(t: Tracker, c: RequestCheckpoint, now: int): (Tracker, bool) {
    if || !t.policy.Valid()
       || (c.active && c.token == 0)
       || c.resent > t.policy.retransmissions
       || c.remaining < 0
    then (t, false)
    else
      match AddDeadline(now, if c.active then c.remaining else 0)
      case None => (t, false)
      case Some(deadline) =>
        (t.(active := c.active, id := c.id, token := if c.active then c.token else 0,
            resent := c.resent, deadline := deadline), true)
  }

  class RequestTracker {
    const policy: Policy
    var deadline: int
    var id: MessageId
    var token: Token
    var resent: nat
    var active: bool

    ghost function State(): Tracker
      reads this
    {
      Tracker(policy, deadline, id, token, resent, active)
    }

    constructor (policy: Policy)
      ensures State() == Tracker(policy, 0, 0, 0, 0, false)
    {
      this.policy := policy;
      deadline, id, token, resent, active := 0, 0, 0, 0, false;
    }

    method StartRequest(id': MessageId, token': Token, now: int) returns (r: StartResult)
      modifies this
      ensures (State(), r) == Start(old(State()), id', token', now)
    {
      if active {
        return AlreadyActive;
      }
      if !policy.Valid() {
        return InvalidPolicy;
      }
      if token' == 0 {
        return InvalidToken;
      }
      id, token, resent := id', token', 0;
      var due := AddDeadline(now, policy.initial * MILLISECOND);
      if due.None? {
        token := 0;
        return InvalidPolicy;
      }
      deadline := due.value;
      active := true;
      return Started;
    }

    method ReceiveResponseId(id': MessageId) returns (r: ResponseResult)
      modifies this
      ensures (State(), r) == ReceiveResponse(old(State()), id')
    {
      if !active {
        return Unexpected;
      }
      if id' != id {
        return if id' < id then Stale else Unexpected;
      }
      active, token := false, 0;
      return Matched;
    }

    /** The doubling loop; no value it computes exceeds the maximum. */
    method CurrentInterval() returns (r: int)
      requires policy.Valid()
      ensures r == Interval(policy, resent) && 0 < r <= policy.maximum
    {
      r := policy.initial;
      for index := 0 to resent
        invariant Interval(policy, resent) == Backoff(policy, r, resent - index) && 0 < r <= policy.maximum
      {
        if r >= policy.maximum / 2 {
          return policy.maximum;
        }
        r := r * 2;
      }
      r := Min(r, policy.maximum);
    }

    method PollTimer(now: int) returns (r: TimerResult)
      requires active ==> policy.Valid()
      modifies this
      ensures (State(), r) == Poll(old(State()), now)
    {
      if !active || now < deadline {
        return Idle;
      }
      if resent >= policy.retransmissions {
        active, token := false, 0;
        return Failed(id);
      }
      resent := resent + 1;
      var interval := CurrentInterval();
      var due := AddDeadline(now, interval * MILLISECOND);
      if due.None? {
        active, token := false, 0;
        return Failed(id);
      }
      deadline := due.value;
      return Retransmit(token, id);
    }
  }

  lemma {:induction false} DoubledGrows(x: int, j: nat, k: nat)
    requires x > 0 && j <= k
    ensures x <= Doubled(x, j) <= Doubled(x, k)
    decreases k
  {
    if j < k {
      DoubledGrows(x, j, k - 1);
    } else if k > 0 {
      DoubledGrows(x, k - 1, k - 1);
    }
  }

  lemma {:induction false} DoubledFromTwice(x: int, k: nat)
    ensures Doubled(2 * x, k) == 2 * Doubled(x, k)
    decreases k
  {
    if k > 0 {
      DoubledFromTwice(x, k - 1);
    }
  }

  /** The test against half of the maximum, rounded down, gives plain capped doubling except for one
      value: one below the maximum is lifted to it. */
  lemma {:induction false} BackoffClosed(p: Policy, x: int, k: nat)
    requires 0 < x <= p.maximum
    ensures Backoff(p, x, k) ==
              if k > 0 && Doubled(x, k) == p.maximum - 1 then p.maximum else Min(Doubled(x, k), p.maximum)
    decreases k
  {
    if k > 0 {
      DoubledFromTwice(x, k - 1);
      if x < p.maximum / 2 {
        BackoffClosed(p, 2 * x, k - 1);
      } else {
        DoubledGrows(2 * x, 0, k - 1);
      }
    }
  }

  /** The interval is capped doubling if and only if doubling does not land exactly one millisecond below
      the maximum. */
  lemma BackoffIsCappedDoubling(p: Policy, k: nat)
    requires p.Valid()
    ensures (Interval(p, k) == Min(Doubled(p.initial, k), p.maximum))
       <==> !(k > 0 && Doubled(p.initial, k) == p.maximum - 1)
    ensures 0 < Interval(p, k) <= p.maximum
  {
    BackoffClosed(p, p.initial, k);
    DoubledGrows(p.initial, 0, k);
  }

  /** From one millisecond and a maximum of three, the first doubling gives three instead of two. */
  lemma BackoffSkipsOne()
    ensures Interval(Policy(1, 3, 5), 1) == 3 && Min(Doubled(1, 1), 3) == 2
  {
    assert Doubled(1, 1) == 2 * Doubled(1, 0);
  }

  // ---------------------------------------------------------------- what is accepted

  /** A policy has a positive first interval, none longer than the maximum, and at least one resend. */
  ghost predicate Usable(p: Policy) {
    0 < p.initial <= p.maximum && p.retransmissions >= 1
  }

  /** The instant lies on the 64-bit clock. */
  ghost predicate OnClock(time: int) {
    time <= 0x7fff_ffff_ffff_ffff
  }

  /** A request starts when none is outstanding, the policy is usable, there is a packet and the clock can
      represent its first deadline. */
  lemma StartedExactly(t: Tracker, id: MessageId, token: Token, now: int)
    ensures Start(t, id, token, now).1 == Started <==>
              && !t.active && Usable(t.policy) && token != 0
              && OnClock(t.policy.initial * 1_000_000) && OnClock(now + t.policy.initial * 1_000_000)
    ensures Start(t, id, token, now).1 == Started ==>
              Start(t, id, token, now).0
              == Tracker(t.policy, now + t.policy.initial * 1_000_000, id, token, 0, true)
    ensures t.active ==> Start(t, id, token, now) == (t, AlreadyActive)
    ensures Start(t, id, token, now).1 != Started ==> Start(t, id, token, now).0.active == t.active
  {
  }

  /** A response completes exactly the outstanding request; to an earlier one it is stale, otherwise it is
      unexpected, and neither changes anything. */
  lemma ResponseExactly(t: Tracker, id: MessageId)
    ensures ReceiveResponse(t, id).1 == Matched <==> t.active && id == t.id
    ensures ReceiveResponse(t, id).1 == Stale <==> t.active && id < t.id
    ensures ReceiveResponse(t, id).1 == Matched ==> ReceiveResponse(t, id).0 == t.(active := false, token := 0)
    ensures ReceiveResponse(t, id).1 != Matched ==> ReceiveResponse(t, id).0 == t
  {
  }

  /** A checkpoint is restored when the policy is usable, an outstanding request has its packet, the resends
      are within the limit and the time left is not negative and ends on the clock. */
  lemma RestoredExactly(t: Tracker, c: RequestCheckpoint, now: int)
    ensures RestoreTracker(t, c, now).1 <==>
              && Usable(t.policy) && (c.active ==> c.token != 0) && c.resent <= t.policy.retransmissions
              && c.remaining >= 0
              && OnClock(now) && (c.active ==> OnClock(c.remaining) && OnClock(now + c.remaining))
    ensures RestoreTracker(t, c, now).1 ==>
              RestoreTracker(t, c, now).0
              == Tracker(t.policy, if c.active then now + c.remaining else now, c.id, if c.active then c.token else 0,
                         c.resent, c.active)
    ensures !RestoreTracker(t, c, now).1 ==> RestoreTracker(t, c, now).0 == t
  {
  }

  // ---------------------------------------------------------------- the timer over time

  /** Milliseconds to wait after the `k`-th resend. */
  function Wait(p: Policy, k: nat): int {
    if k > 0 && Doubled(p.initial, k) == p.maximum - 1 then p.maximum else Min(Doubled(p.initial, k), p.maximum)
  }

  lemma WaitInRange(p: Policy, k: nat)
    requires p.Valid()
    ensures Interval(p, k) == Wait(p, k) && 0 < Wait(p, k) <= p.maximum
  {
    BackoffClosed(p, p.initial, k);
    DoubledGrows(p.initial, 0, k);
  }

  /** A started request is quiet until its first interval has passed. */
  lemma FirstTimer(t: Tracker, id: MessageId, token: Token, now: int, later: int)
    requires Start(t, id, token, now).1 == Started
    ensures Poll(Start(t, id, token, now).0, later).1 == Idle <==> later < now + t.policy.initial * MILLISECOND
  {
  }

  /** After a resend the timer is quiet until the doubled interval has passed, counted from the resend. */
  lemma NextTimer(t: Tracker, now: int, later: int)
    requires t.policy.Valid() && Poll(t, now).1.Retransmit?
    ensures Poll(Poll(t, now).0, later).1 == Idle <==> later < now + Wait(t.policy, t.resent + 1) * MILLISECOND
  {
    hide Doubled;
    WaitInRange(t.policy, t.resent + 1);
    hide Wait, Interval;
  }

  function Polls(t: Tracker, times: seq<int>): (r: seq<TimerResult>)
    ensures |r| == |times|
    decreases |times|
  {
    if times == [] then [] else [Poll(t, times[0]).1] + Polls(Poll(t, times[0]).0, times[1..])
  }

  /** When the timer of a request is due that was sent for the `resent`-th time again at `now`. */
  function DueTimes(p: Policy, now: int, resent: nat): seq<int>
    decreases if resent <= p.retransmissions then p.retransmissions - resent + 1 else 0
  {
    if resent > p.retransmissions then []
    else
      var due := now + Wait(p, resent) * MILLISECOND;
      [due] + DueTimes(p, due, resent + 1)
  }

  ghost predicate Representable(times: seq<int>) {
    forall i :: 0 <= i < |times| ==> times[i] <= MAX_TIME
  }

  /** A request that nobody answers is resent at every due time up to the limit, and at the last one it
      fails. */
  lemma {:induction false} UnansweredFails(t: Tracker, now: int)
    requires t.active && t.policy.Valid() && t.resent <= t.policy.retransmissions
    requires t.deadline == now + Wait(t.policy, t.resent) * MILLISECOND
    requires t.policy.maximum * MILLISECOND <= MAX_TIME && Representable(DueTimes(t.policy, now, t.resent))
    ensures var results := Polls(t, DueTimes(t.policy, now, t.resent));
            && |results| == t.policy.retransmissions - t.resent + 1
            && results[|results| - 1] == Failed(t.id)
            && forall i :: 0 <= i < |results| - 1 ==> results[i] == Retransmit(t.token, t.id)
    decreases t.policy.retransmissions - t.resent
  {
    hide Wait, Interval, Representable;
    var times := DueTimes(t.policy, now, t.resent);
    var due := t.deadline;
    assert times == [due] + DueTimes(t.policy, due, t.resent + 1) && times[1..] == DueTimes(t.policy, due, t.resent + 1);
    if t.resent < t.policy.retransmissions {
      WaitInRange(t.policy, t.resent + 1);
      RepresentableTail(times);
      var rest := times[1..];
      assert rest[0] == due + Wait(t.policy, t.resent + 1) * MILLISECOND;
      RepresentableHead(rest);
      var t' := Poll(t, due).0;
      UnansweredFails(t', due);
      assert Polls(t, times) == [Retransmit(t.token, t.id)] + Polls(t', rest);
    } else {
      assert Polls(t, times) == [Failed(t.id)] + Polls(Poll(t, due).0, []);
    }
  }

  lemma RepresentableTail(times: seq<int>)
    requires times != [] && Representable(times)
    ensures Representable(times[1..])
  {
  }

  lemma RepresentableHead(times: seq<int>)
    requires times != [] && Representable(times)
    ensures times[0] <= MAX_TIME
  {
  }

  /** What a tracker in use keeps: no packet while idle, and no resend beyond the limit. */
  ghost predicate InUse(t: Tracker) {
    && t.policy.Valid() && t.resent <= t.policy.retransmissions && (t.active <==> t.token != 0)
  }

  function TimeLeft(deadline: int, now: int): nat {
    if deadline > now then deadline - now else 0
  }

  /** The same request, with the same time left, seen at `base` and at `base'`. */
  ghost predicate SameTimeLeft(t: Tracker, u: Tracker, base: int, base': int) {
    && u == t.(deadline := u.deadline)
    && (t.active ==> TimeLeft(t.deadline, base) == TimeLeft(u.deadline, base'))
  }

  function Offset(base: int, delays: seq<nat>): (times: seq<int>)
    ensures |times| == |delays| && forall i :: 0 <= i < |times| ==> times[i] == base + delays[i]
  {
    seq(|delays|, i requires 0 <= i < |delays| => base + delays[i])
  }

  /** Both clocks stay representable however long a resend may wait. */
  ghost predicate InClock(p: Policy, base: int, delays: seq<nat>) {
    p.maximum * MILLISECOND <= MAX_TIME
    && forall i :: 0 <= i < |delays| ==> base + delays[i] + p.maximum * MILLISECOND <= MAX_TIME
  }

  lemma PollAlike(t: Tracker, u: Tracker, base: int, base': int, d: nat)
    requires t.policy.Valid() && SameTimeLeft(t, u, base, base')
    requires InClock(t.policy, base, [d]) && InClock(t.policy, base', [d])
    ensures Poll(t, base + d).1 == Poll(u, base' + d).1
    ensures SameTimeLeft(Poll(t, base + d).0, Poll(u, base' + d).0, base, base')
  {
    assert [d][0] == d;
    WaitInRange(t.policy, t.resent + 1);
    hide Interval, Wait;
  }

  lemma {:induction false} PollsAlike(t: Tracker, u: Tracker, base: int, base': int, delays: seq<nat>)
    requires t.policy.Valid() && SameTimeLeft(t, u, base, base')
    requires InClock(t.policy, base, delays) && InClock(t.policy, base', delays)
    ensures Polls(t, Offset(base, delays)) == Polls(u, Offset(base', delays))
    decreases |delays|
  {
    if delays != [] {
      var d, rest := delays[0], delays[1..];
      assert Offset(base, delays)[1..] == Offset(base, rest) && Offset(base', delays)[1..] == Offset(base', rest);
      PollAlike(t, u, base, base', d);
      hide SameTimeLeft;
      assert Poll(t, base + d).0.policy == t.policy;
      PollsAlike(Poll(t, base + d).0, Poll(u, base' + d).0, base, base', rest);
    }
  }

  /** A tracker saved at `base` and restored at `base'` behaves at every later time as the original would
      have: it resends and fails after the same delays. */
  lemma RestoredTrackerResumes(t: Tracker, base: int, base': int, delays: seq<nat>)
    requires InUse(t) && (t.active ==> t.deadline <= base + t.policy.maximum * MILLISECOND)
    requires InClock(t.policy, base, [0] + delays) && InClock(t.policy, base', [0] + delays)
    ensures var (u, ok) := RestoreTracker(Tracker(t.policy, 0, 0, 0, 0, false), Checkpoint(t, base), base');
            ok && Polls(u, Offset(base', delays)) == Polls(t, Offset(base, delays))
  {
    var (u, ok) := RestoreTracker(Tracker(t.policy, 0, 0, 0, 0, false), Checkpoint(t, base), base');
    var all := [0] + delays;
    assert all[0] == 0 && forall i :: 0 <= i < |delays| ==> all[i + 1] == delays[i];
    assert SameTimeLeft(t, u, base, base');
    PollsAlike(t, u, base, base', delays);
  }

  // ---------------------------------------------------------------- responder

  datatype Responder = Responder(
    expected: MessageId, last: MessageId, response: Token, hasCompleted: bool, pending: bool)

  datatype Decision = NewRequest | Cached(token: Token) | NotReady | OutsideWindow

  const FRESH: Responder := Responder(0, 0, 0, false, false)

  function Receive(r: Responder, id: MessageId): (Responder, Decision) {
    if id == r.expected && !r.pending then (r.(pending := true), NewRequest)
    else if id == r.expected then (r, NotReady)
    else if r.hasCompleted && id == r.last then
      (r, if r.response != 0 then Cached(r.response) else NotReady)
    else (r, OutsideWindow)
  }

  function CacheResponse(r: Responder, id: MessageId, token: Token): (Responder, bool) {
    if !r.pending || id != r.expected || token == 0 || r.expected == U32 - 1 then (r, false)
    else (Responder(r.expected + 1, id, token, true, false), true)
  }

  function RestoreResponder(r: Responder, c: Responder): (Responder, bool) {
    if || (c.hasCompleted && (c.response == 0 || c.expected == 0 || c.last != c.expected - 1))
       || (!c.hasCompleted && (c.expected != 0 || c.last != 0 || c.response != 0))
    then (r, false)
    else (c, true)
  }

  /** A responder's checkpoint is restored when it is one a responder can be in: either nothing was completed
      and the first request is expected, or the request completed last is the one before the expected and
      its response is there. */
  lemma ResponderRestoredExactly(r: Responder, c: Responder)
    ensures RestoreResponder(r, c).1 <==>
              if c.hasCompleted then c.response != 0 && c.expected == c.last + 1
              else c.expected == c.last == c.response == 0
    ensures RestoreResponder(r, c).0 == if RestoreResponder(r, c).1 then c else r
  {
  }

  class ResponderMessageIds {
    var expected: MessageId
    var last: MessageId
    var response: Token
    var hasCompleted: bool
    var pending: bool

    ghost function State(): Responder
      reads this
    {
      Responder(expected, last, response, hasCompleted, pending)
    }

    constructor ()
      ensures State() == FRESH
    {
      expected, last, response, hasCompleted, pending := 0, 0, 0, false, false;
    }

    method ReceiveRequest(id: MessageId) returns (d: Decision)
      modifies this
      ensures (State(), d) == Receive(old(State()), id)
    {
      if id == expected && !pending {
        pending := true;
        return NewRequest;
      }
      if id == expected {
        return NotReady;
      }
      if hasCompleted && id == last {
        return if response != 0 then Cached(response) else NotReady;
      }
      return OutsideWindow;
    }

    method CacheResponseToken(id: MessageId, token: Token) returns (ok: bool)
      modifies this
      ensures (State(), ok) == CacheResponse(old(State()), id, token)
    {
      if !pending || id != expected || token == 0 || expected == U32 - 1 {
        return false;
      }
      last, response, hasCompleted, pending := id, token, true, false;
      expected := expected + 1;
      return true;
    }
  }

  // ---------------------------------------------------------------- protocol

  /** A request or a response on the wire: its Message ID and the packet it carries. */
  datatype Packet = Packet(id: MessageId, token: Token)

  /** `requests` and `responses` hold every packet ever sent, so delivering any of them any number
      of times, in any order or never, is a behaviour. The remaining fields record history:
      `executed` the requests the responder reported as new, `answers` the responses it cached,
      `started` the exchanges of the requester, `matched` those a response completed, and `resends`
      the retransmissions of the current exchange. */
  datatype System = System(
    requester: Tracker, responder: Responder,
    requests: set<Packet>, responses: set<Packet>,
    executed: seq<Packet>, answers: seq<Token>,
    started: seq<Packet>, matched: seq<Packet>, resends: nat)

  datatype Move =
    | StartMove(id: MessageId, token: Token, now: int)
    | DeliverRequest(packet: Packet)
    | Answer(id: MessageId, token: Token)
    | DeliverResponse(packet: Packet)
    | PollMove(now: int)
    | MoveRequester(now: int, now': int)
    | MoveResponder

  function Initial(policy: Policy): System {
    System(Tracker(policy, 0, 0, 0, 0, false), FRESH, {}, {}, [], [], [], [], 0)
  }

  function Next(s: System, m: Move): System {
    match m
    case StartMove(id, token, now) =>
      var (t, r) := Start(s.requester, id, token, now);
      if r == Started then
        s.(requester := t, requests := s.requests + {Packet(id, token)},
           started := s.started + [Packet(id, token)], resends := 0)
      else s.(requester := t)
    case DeliverRequest(packet) =>
      if packet !in s.requests then s
      else
        var (r, d) := Receive(s.responder, packet.id);
        if d.NewRequest? then s.(responder := r, executed := s.executed + [packet])
        else if d.Cached? then
          s.(responder := r, responses := s.responses + {Packet(packet.id, d.token)})
        else s.(responder := r)
    case Answer(id, token) =>
      var (r, ok) := CacheResponse(s.responder, id, token);
      if ok then s.(responder := r, answers := s.answers + [token],
                    responses := s.responses + {Packet(id, token)})
      else s
    case DeliverResponse(packet) =>
      if packet !in s.responses then s
      else
        var (t, r) := ReceiveResponse(s.requester, packet.id);
        if r == Matched then
          s.(requester := t, matched := s.matched + [Packet(packet.id, s.requester.token)])
        else s.(requester := t)
    case PollMove(now) =>
      var (t, r) := Poll(s.requester, now);
      if r.Retransmit? then
        s.(requester := t, requests := s.requests + {Packet(r.id, r.token)}, resends := s.resends + 1)
      else s.(requester := t)
    case MoveRequester(now, now') =>
      var blank := Tracker(s.requester.policy, 0, 0, 0, 0, false);
      var (t, ok) := RestoreTracker(blank, Checkpoint(s.requester, now), now');
      if ok then s.(requester := t) else s
    case MoveResponder =>
      var (r, ok) := RestoreResponder(FRESH, s.responder);
      if ok then s.(responder := r) else s
  }

  function Run(s: System, moves: seq<Move>): System
    decreases |moves|
  {
    if moves == [] then s else Run(Next(s, moves[0]), moves[1..])
  }

  /** Ready for the next exchange: nobody waits, and the requester's clock has room for one resend. */
  ghost predicate Ready(s: System, token: Token, now: int) {
    && !s.requester.active && s.requester.policy.Valid() && token != 0
    && !s.responder.pending && s.responder.expected < U32 - 1
    && now >= 0 && now + 2 * (s.requester.policy.maximum * MILLISECOND) <= MAX_TIME
  }

  /** The state in which the request has been executed and answered and the requester still waits. */
  lemma AnsweredState(s: System, token: Token, answer: Token, now: int) returns (s3: System)
    requires Ready(s, token, now) && answer != 0
    ensures var id := s.responder.expected;
            && s3 == Next(Next(Next(s, StartMove(id, token, now)), DeliverRequest(Packet(id, token))), Answer(id, answer))
            && s3.requester == Tracker(s.requester.policy, now + s.requester.policy.initial * MILLISECOND, id, token, 0, true)
            && s3.responder == Responder(id + 1, id, answer, true, false) && s3.resends == 0
            && s3.executed == s.executed + [Packet(id, token)] && s3.answers == s.answers + [answer] && s3.matched == s.matched
            && Packet(id, token) in s3.requests && Packet(id, answer) in s3.responses
  {
    var id := s.responder.expected;
    s3 := Next(Next(Next(s, StartMove(id, token, now)), DeliverRequest(Packet(id, token))), Answer(id, answer));
  }

  lemma RunThree(s: System, a: Move, b: Move, c: Move, rest: seq<Move>)
    ensures Run(s, [a, b, c] + rest) == Run(Next(Next(Next(s, a), b), c), rest)
  {
    hide Next;
    var m := [a, b, c] + rest;
    var tail, last := m[1..], m[1..][1..];
    assert m[0] == a && tail[0] == b && last[0] == c && last[1..] == rest;
    assert Run(Next(Next(s, a), b), last) == Run(Next(Next(Next(s, a), b), c), rest);
    assert Run(Next(s, a), tail) == Run(Next(Next(s, a), b), last);
  }

  /** An exchange that nothing disturbs completes: the request is executed once and answered, and its
      answer completes the very request. */
  lemma ExchangeCompletes(s: System, token: Token, answer: Token, now: int)
    requires Ready(s, token, now) && answer != 0
    ensures var id := s.responder.expected;
            var end := Run(s, [StartMove(id, token, now), DeliverRequest(Packet(id, token)), Answer(id, answer)]
                              + [DeliverResponse(Packet(id, answer))]);
            && end.executed == s.executed + [Packet(id, token)] && end.answers == s.answers + [answer]
            && end.matched == s.matched + [Packet(id, token)]
            && !end.requester.active && end.resends == 0
            && end.responder.expected == id + 1 && !end.responder.pending
  {
    var id := s.responder.expected;
    var s3 := AnsweredState(s, token, answer, now);
    RunThree(s, StartMove(id, token, now), DeliverRequest(Packet(id, token)), Answer(id, answer), [DeliverResponse(Packet(id, answer))]);
    assert [DeliverResponse(Packet(id, answer))][1..] == [];
    assert Run(s3, [DeliverResponse(Packet(id, answer))]) == Next(s3, DeliverResponse(Packet(id, answer)));
  }

  /** An exchange whose answer is lost completes as well: the request is resent when its timer is due, the
      responder recognizes it and gives the answer again without executing it again. */
  lemma LostAnswerIsRecovered(s: System, token: Token, answer: Token, now: int)
    requires Ready(s, token, now) && answer != 0
    ensures var id := s.responder.expected;
            var due := now + s.requester.policy.initial * MILLISECOND;
            var end := Run(s, [StartMove(id, token, now), DeliverRequest(Packet(id, token)), Answer(id, answer)]
                              + ([PollMove(due), DeliverRequest(Packet(id, token)), DeliverResponse(Packet(id, answer))] + []));
            && end.executed == s.executed + [Packet(id, token)] && end.answers == s.answers + [answer]
            && end.matched == s.matched + [Packet(id, token)]
            && !end.requester.active && end.resends == 1 && end.responder.expected == id + 1
  {
    var id := s.responder.expected;
    var due := now + s.requester.policy.initial * MILLISECOND;
    var s3 := AnsweredState(s, token, answer, now);
    var a, b, c := PollMove(due), DeliverRequest(Packet(id, token)), DeliverResponse(Packet(id, answer));
    RunThree(s, StartMove(id, token, now), b, Answer(id, answer), [a, b, c] + []);
    RunThree(s3, a, b, c, []);
    hide Run;
    WaitInRange(s.requester.policy, 1);
    RecoverySteps(s3, due, Packet(id, token), Packet(id, answer));
    RunNothing(Next(Next(Next(s3, a), b), c));
  }

  lemma RunNothing(s: System)
    ensures Run(s, []) == s
  {
  }

  lemma RecoverySteps(s: System, due: int, request: Packet, response: Packet)
    requires s.requester == Tracker(s.requester.policy, due, request.id, request.token, 0, true) && s.requester.policy.Valid()
    requires request.id < U32 - 1 && s.responder == Responder(request.id + 1, request.id, response.token, true, false)
    requires response.id == request.id && response.token != 0 && request in s.requests && response in s.responses
    requires due + s.requester.policy.maximum * MILLISECOND <= MAX_TIME && s.requester.policy.maximum * MILLISECOND <= MAX_TIME
    ensures var end := Next(Next(Next(s, PollMove(due)), DeliverRequest(request)), DeliverResponse(response));
            && end.executed == s.executed && end.answers == s.answers && end.matched == s.matched + [request]
            && !end.requester.active && end.resends == s.resends + 1 && end.responder == s.responder
  {
    WaitInRange(s.requester.policy, 1);
    hide Interval, Wait;
  }

  /** Moving a party in the middle of a run changes nothing but the requester's deadline, which keeps the
      time that was left. */
  lemma MovesKeepTheExchange(s: System, now: int, now': int)
    requires ResponderInvariant(s) && RequesterInvariant(s)
    ensures Next(s, MoveResponder) == s
    ensures InUse(s.requester) && s.requester.active && s.requester.deadline <= now + s.requester.policy.maximum * MILLISECOND
            && s.requester.policy.maximum * MILLISECOND <= MAX_TIME
            && now' + s.requester.policy.maximum * MILLISECOND <= MAX_TIME && now' <= MAX_TIME ==>
              var moved := Next(s, MoveRequester(now, now'));
              && moved == s.(requester := s.requester.(deadline := moved.requester.deadline))
              && TimeLeft(moved.requester.deadline, now') == TimeLeft(s.requester.deadline, now)
  {
  }

  /** The responder's side: it has executed Message IDs 0, 1, 2, ... in order and once each, and
      every response ever sent is the single answer cached for its ID. */
  ghost predicate ResponderInvariant(s: System) {
    var r := s.responder;
    && |s.answers| == r.expected
    && |s.executed| == r.expected + (if r.pending then 1 else 0)
    && (forall i :: 0 <= i < |s.executed| ==> s.executed[i].id == i && s.executed[i] in s.requests)
    && (forall p :: p in s.responses ==> p.id < |s.answers| && p.token == s.answers[p.id])
    && (r.hasCompleted <==> r.expected > 0)
    && (r.hasCompleted ==> r.last == r.expected - 1 && r.response == s.answers[r.last] && r.response != 0)
    && (!r.hasCompleted ==> r.last == 0 && r.response == 0)
  }

  /** The requester's side: its current exchange is the last one started, and it has been resent no
      more often than the policy allows. */
  ghost predicate RequesterInvariant(s: System) {
    var t := s.requester;
    && s.resends <= t.policy.retransmissions
    && (t.active ==>
          && t.policy.Valid() && t.token != 0 && t.resent == s.resends
          && s.started != [] && s.started[|s.started| - 1] == Packet(t.id, t.token))
    && t.resent <= t.policy.retransmissions
    && (forall p :: p in s.requests <==> p in s.started)
  }

  lemma NextKeepsResponder(s: System, m: Move)
    requires ResponderInvariant(s) && RequesterInvariant(s)
    ensures ResponderInvariant(Next(s, m))
  {
    hide Interval;
  }

  lemma NextKeepsRequester(s: System, m: Move)
    requires RequesterInvariant(s)
    ensures RequesterInvariant(Next(s, m))
  {
    hide Interval;
    var s' := Next(s, m);
    if s'.started != s.started {
      assert s'.started == s.started + [Packet(m.id, m.token)];
    }
  }

  lemma {:induction false} RunKeepsInvariants(s: System, moves: seq<Move>)
    requires ResponderInvariant(s) && RequesterInvariant(s)
    ensures ResponderInvariant(Run(s, moves)) && RequesterInvariant(Run(s, moves))
    decreases |moves|
  {
    if moves != [] {
      NextKeepsResponder(s, moves[0]);
      NextKeepsRequester(s, moves[0]);
      RunKeepsInvariants(Next(s, moves[0]), moves[1..]);
    }
  }

  /** At most once and in order: whatever the network does, the i-th request the responder reports as
      new has Message ID i, so no ID is ever reported twice; and all responses to one ID that were
      ever sent carry the same packet. */
  lemma AtMostOnce(policy: Policy, moves: seq<Move>)
    ensures var s := Run(Initial(policy), moves);
            && (forall i :: 0 <= i < |s.executed| ==> s.executed[i].id == i)
            && (forall p, q :: p in s.responses && q in s.responses && p.id == q.id ==> p == q)
            && s.resends <= policy.retransmissions
  {
    RunKeepsInvariants(Initial(policy), moves);
    RunKeepsPolicy(Initial(policy), moves);
  }

  lemma {:induction false} RunKeepsPolicy(s: System, moves: seq<Move>)
    ensures Run(s, moves).requester.policy == s.requester.policy
    decreases |moves|
  {
    if moves != [] {
      RunKeepsPolicy(Next(s, moves[0]), moves[1..]);
    }
  }

  // ---------------------------------------------------------------- end to end

  ghost predicate DistinctIds(packets: seq<Packet>) {
    forall i, j :: 0 <= i < j < |packets| ==> packets[i].id != packets[j].id
  }

  /** The requester never reuses a Message ID. */
  ghost predicate NeverReuses(s: System, moves: seq<Move>)
    decreases |moves|
  {
    && (moves == [] ==> DistinctIds(s.started))
    && (moves != [] ==> NeverReuses(Next(s, moves[0]), moves[1..]))
  }

  /** What a match means: the matched exchange was executed by the responder, as that very packet,
      and nothing is matched twice. An active exchange has not been matched yet. */
  ghost predicate MatchInvariant(s: System) {
    && (forall i :: 0 <= i < |s.matched| ==>
          s.matched[i].id < |s.executed| && s.executed[s.matched[i].id] == s.matched[i]
          && s.matched[i] in s.started)
    && DistinctIds(s.matched)
    && (s.requester.active ==> forall i :: 0 <= i < |s.matched| ==> s.matched[i].id != s.requester.id)
  }

  lemma StartedOnlyGrows(s: System, m: Move)
    ensures s.started <= Next(s, m).started
  {
    hide Interval;
  }

  lemma {:induction false} EarlierStartsDistinct(s: System, moves: seq<Move>)
    requires NeverReuses(s, moves)
    ensures DistinctIds(s.started)
    decreases |moves|
  {
    if moves != [] {
      EarlierStartsDistinct(Next(s, moves[0]), moves[1..]);
      StartedOnlyGrows(s, moves[0]);
      var later := Next(s, moves[0]).started;
      assert forall i :: 0 <= i < |s.started| ==> s.started[i] == later[i];
    }
  }

  lemma StartKeepsMatches(s: System, m: Move)
    requires m.StartMove? && RequesterInvariant(s) && MatchInvariant(s)
    requires DistinctIds(Next(s, m).started)
    ensures MatchInvariant(Next(s, m))
  {
    var s' := Next(s, m);
    if s'.started != s.started {
      assert s'.started == s.started + [Packet(m.id, m.token)];
      forall i | 0 <= i < |s.matched|
        ensures s.matched[i].id != m.id && s.matched[i] in s'.started
      {
        assert s.matched[i] in s.started;
        var k :| 0 <= k < |s.started| && s.started[k] == s.matched[i];
        assert s'.started[k].id != s'.started[|s.started|].id;
      }
    }
  }

  lemma ResponseKeepsMatches(s: System, m: Move)
    requires m.DeliverResponse?
    requires ResponderInvariant(s) && RequesterInvariant(s) && MatchInvariant(s) && DistinctIds(s.started)
    ensures MatchInvariant(Next(s, m))
  {
    var s' := Next(s, m);
    if s'.matched != s.matched {
      var current := Packet(s.requester.id, s.requester.token);
      var executed := s.executed[m.packet.id];
      assert s'.matched == s.matched + [current];
      assert executed in s.started && current in s.started && executed.id == current.id;
      var j :| 0 <= j < |s.started| && s.started[j] == executed;
      var k :| 0 <= k < |s.started| && s.started[k] == current;
      assert executed == current;
    }
  }

  lemma NextKeepsMatches(s: System, m: Move)
    requires ResponderInvariant(s) && RequesterInvariant(s) && MatchInvariant(s)
    requires DistinctIds(Next(s, m).started)
    ensures MatchInvariant(Next(s, m))
  {
    hide Interval;
    if m.StartMove? {
      StartKeepsMatches(s, m);
    } else if m.DeliverResponse? {
      ResponseKeepsMatches(s, m);
    }
  }

  /** If Message IDs are not reused, every completed exchange was executed exactly once by the
      responder, as the very request that the requester had outstanding, and completed once. */
  lemma {:induction false} MatchedMeansExecuted(s: System, moves: seq<Move>)
    requires ResponderInvariant(s) && RequesterInvariant(s) && MatchInvariant(s)
    requires NeverReuses(s, moves)
    ensures MatchInvariant(Run(s, moves))
    decreases |moves|
  {
    if moves != [] {
      var s1 := Next(s, moves[0]);
      NextKeepsResponder(s, moves[0]);
      NextKeepsRequester(s, moves[0]);
      EarlierStartsDistinct(s1, moves[1..]);
      NextKeepsMatches(s, moves[0]);
      MatchedMeansExecuted(s1, moves[1..]);
    }
  }

  /** What has been executed stays executed. */
  lemma {:induction false} ExecutedOnlyGrows(s: System, moves: seq<Move>)
    ensures s.executed <= Run(s, moves).executed
    decreases |moves|
  {
    if moves != [] {
      hide Interval;
      ExecutedOnlyGrows(Next(s, moves[0]), moves[1..]);
      assert s.executed <= Next(s, moves[0]).executed;
    }
  }

  /** Not reusing Message IDs is necessary: wherever an ID has been answered and the requester is idle,
      starting another request under that ID has a continuation that completes it, although the
      responder has not executed it and never will, whatever happens later. */
  lemma ReuseAlwaysMisleads(s: System, answer: Packet, token: Token, now: int, moves: seq<Move>)
    requires ResponderInvariant(s) && RequesterInvariant(s)
    requires !s.requester.active && s.requester.policy.Valid() && answer in s.responses
    requires token != 0 && token != s.executed[answer.id].token
    requires AddDeadline(now, s.requester.policy.initial * MILLISECOND).Some?
    ensures var reused := Packet(answer.id, token);
            var s' := Run(s, [StartMove(answer.id, token, now), DeliverResponse(answer)]);
            && s'.matched == s.matched + [reused] && !MatchInvariant(s')
            && reused !in Run(s', moves).executed
  {
    hide Interval;
    var m := [StartMove(answer.id, token, now), DeliverResponse(answer)];
    var reused := Packet(answer.id, token);
    var s1 := Next(s, m[0]);
    var s2 := Next(s1, m[1]);
    assert m[1..] == [m[1]] && m[1..][1..] == [];
    assert Run(s2, []) == s2 && Run(s1, m[1..]) == s2 && Run(s, m) == s2;
    assert s1.requester.active && s1.requester.id == answer.id && s1.requester.token == token;
    assert s1.responses == s.responses && s1.executed == s.executed == s2.executed && s1.matched == s.matched;
    assert s2.matched == s.matched + [reused] && s2.matched[|s.matched|] == reused;
    assert s.executed[answer.id] != reused;
    assert !MatchInvariant(s2);
    NextKeepsResponder(s, m[0]);
    NextKeepsRequester(s, m[0]);
    NextKeepsResponder(s1, m[1]);
    NextKeepsRequester(s1, m[1]);
    NeverExecuted(s2, answer.id, reused, moves);
  }

  lemma NeverExecuted(s: System, id: MessageId, p: Packet, moves: seq<Move>)
    requires ResponderInvariant(s) && RequesterInvariant(s) && id < |s.executed| && p.id == id && s.executed[id] != p
    ensures p !in Run(s, moves).executed
  {
    hide Run, Next;
    RunKeepsInvariants(s, moves);
    ExecutedOnlyGrows(s, moves);
    var executed := Run(s, moves).executed;
    assert executed[id] == s.executed[id];
    assert forall i :: 0 <= i < |executed| ==> executed[i].id == i;
  }

  /** Reuse really breaks it: request 41 for ID 0 is answered, its exchange is given up before the
      answer arrives, and request 42 started with the same ID is completed by the late answer to 41
      although the responder never executed 42. */
  lemma ReuseMatchesWrongRequest()
    ensures var s0 := Initial(Policy(1, 1, 1));
            var s := Run(s0, [StartMove(0, 41, 0), DeliverRequest(Packet(0, 41)), Answer(0, 500),
                              PollMove(10_000_000), PollMove(20_000_000), StartMove(0, 42, 30_000_000),
                              DeliverResponse(Packet(0, 500))]);
            s.matched == [Packet(0, 42)] && s.executed == [Packet(0, 41)]
  {
    var s0 := Initial(Policy(1, 1, 1));
    var m := [StartMove(0, 41, 0), DeliverRequest(Packet(0, 41)), Answer(0, 500),
              PollMove(10_000_000), PollMove(20_000_000), StartMove(0, 42, 30_000_000),
              DeliverResponse(Packet(0, 500))];
    var s1 := Next(s0, m[0]);
    var s2 := Next(s1, m[1]);
    var s3 := Next(s2, m[2]);
    assert Interval(Policy(1, 1, 1), 1) == 1;
    var s4 := Next(s3, m[3]);
    var s5 := Next(s4, m[4]);
    var s6 := Next(s5, m[5]);
    var s7 := Next(s6, m[6]);
    assert s7.matched == [Packet(0, 42)] && s7.executed == [Packet(0, 41)];
    assert Run(s6, m[6..]) == s7 by { assert m[6..][1..] == []; }
    assert Run(s5, m[5..]) == s7 by { assert m[5..][1..] == m[6..]; }
    assert Run(s4, m[4..]) == s7 by { assert m[4..][1..] == m[5..]; }
    assert Run(s3, m[3..]) == s7 by { assert m[3..][1..] == m[4..]; }
    assert Run(s2, m[2..]) == s7 by { assert m[2..][1..] == m[3..]; }
    assert Run(s1, m[1..]) == s7 by { assert m[1..][1..] == m[2..]; }
    assert Run(s0, m) == s7 by { assert m[1..] == m[1..]; }
  }
}
