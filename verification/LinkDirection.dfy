/** One direction of a full-duplex Ethernet link (core/include/router/link_direction.hpp).

    `Direction` is the value of one direction's private state; `Step` gives the effect of each
    public call on that value. The class `LinkDirection` holds the state in place, over the ring
    queue, and each of its methods is proved to perform the corresponding step. The theorems are
    about `Run`, which folds `Step` over an arbitrary list of calls. Times are nanosecond counts. */
module LinkDirections {
  import opened Options
  import opened BoundedQueues
  import opened WireTime

  const CAPACITY: nat := 256

  datatype InFlight = InFlight(handle: nat, delivered: int)

  datatype Direction = Direction(bps: Rate, propagation: int, available: int, inFlight: seq<InFlight>)

  // ---------------------------------------------------------------- steps

  datatype Event =
    | Transmit(handle: nat, octets: nat, now: int)
    | Pop(now: int)
    | SetPropagation(propagation: int)
    | SetRate(bps: Rate)

  datatype Outcome =
    | Admitted(started: int, delivered: int)
    | Refused
    | Delivered(handle: nat)
    | NothingDue
    | Configured

  function Step(d: Direction, e: Event): (r: (Direction, Outcome)) {
    match e
    case Transmit(handle, octets, now) =>
      if |d.inFlight| == CAPACITY || d.bps == 0 then (d, Refused)
      else
        var start := Max(now, d.available);
        var delivered := start + NanosecondsFor(DeliveryBits(octets), d.bps) + d.propagation;
        (d.(available := start + NanosecondsFor(SpacingBits(octets), d.bps),
            inFlight := d.inFlight + [InFlight(handle, delivered)]),
         Admitted(start, delivered))
    case Pop(now) =>
      if d.inFlight == [] || d.inFlight[0].delivered > now then (d, NothingDue)
      else (d.(inFlight := d.inFlight[1..]), Delivered(d.inFlight[0].handle))
    case SetPropagation(propagation) => (d.(propagation := propagation), Configured)
    case SetRate(bps) => (d.(bps := bps), Configured)
  }

  /** An admitted frame starts no earlier than now and than the transmitter is free, and as soon as both
      hold; it arrives after preamble, frame and FCS and the propagation delay, and the transmitter is
      free again after the gap as well. */
  lemma AdmittedTimes(d: Direction, handle: nat, octets: nat, now: int)
    requires |d.inFlight| < CAPACITY && Exact(octets, d.bps)
    ensures var (d', o) := Step(d, Transmit(handle, octets, now));
            && o.Admitted? && o.started >= now && o.started >= d.available
            && (o.started == now || o.started == d.available)
            && o.delivered == o.started + Ceiling((8 + Max(octets + 4, 64)) * 8, d.bps) + d.propagation
            && d' == Direction(d.bps, d.propagation, o.started + Ceiling((8 + Max(octets + 4, 64) + 12) * 8, d.bps),
                               d.inFlight + [InFlight(handle, o.delivered)])
  {
    ExactBits(octets);
    ExactTiming(octets, d.bps);
    hide NanosecondsFor, DeliveryBits, SpacingBits, Ceiling;
  }

  function Run(d: Direction, events: seq<Event>): (r: (Direction, seq<Outcome>))
    ensures |r.1| == |events|
    decreases |events|
  {
    if events == [] then (d, [])
    else
      var (d1, outcome) := Step(d, events[0]);
      var (d2, outcomes) := Run(d1, events[1..]);
      (d2, [outcome] + outcomes)
  }

  // ---------------------------------------------------------------- checkpoint and restore

  datatype Stored = Stored(handle: nat, remaining: nat)

  datatype Checkpoint = Checkpoint(transmitterRemaining: nat, inFlight: seq<Stored>)

  function Remaining(deadline: int, now: int): nat {
    if deadline > now then deadline - now else 0
  }

  ghost function Saved(d: Direction, now: int): Checkpoint {
    Checkpoint(Remaining(d.available, now),
               seq(|d.inFlight|, i requires 0 <= i < |d.inFlight| =>
                 Stored(d.inFlight[i].handle, Remaining(d.inFlight[i].delivered, now))))
  }

  ghost function Restored(d: Direction, state: Checkpoint, now: int): Direction {
    d.(available := now + state.transmitterRemaining,
       inFlight := seq(|state.inFlight|, i requires 0 <= i < |state.inFlight| =>
         InFlight(state.inFlight[i].handle, now + state.inFlight[i].remaining)))
  }

  /** Handles of a checkpoint replaced by newly allocated ones. */
  ghost function Relabel(state: Checkpoint, rho: nat -> nat): Checkpoint {
    state.(inFlight := seq(|state.inFlight|, i requires 0 <= i < |state.inFlight| =>
      Stored(rho(state.inFlight[i].handle), state.inFlight[i].remaining)))
  }

  class LinkDirection {
    var bps: Rate
    var propagation: int
    var available: int
    const queue: BoundedQueue<InFlight>

    ghost predicate Valid()
      reads this, queue
    {
      queue.Valid() && queue.slots.Length == CAPACITY
    }

    ghost function State(): (d: Direction)
      requires Valid()
      reads this, queue, queue.slots
    {
      Direction(bps, propagation, available, queue.Contents())
    }

    constructor (bps: Rate, propagation: int)
      ensures Valid() && fresh(queue) && fresh(queue.slots)
      ensures State() == Direction(bps, propagation, 0, [])
    {
      this.bps, this.propagation, this.available := bps, propagation, 0;
      queue := new BoundedQueue(CAPACITY);
    }

    method Configure(e: Event)
      requires Valid()
      requires e.SetPropagation? || e.SetRate?
      modifies this
      ensures Valid() && State() == Step(old(State()), e).0
    {
      match e
      case SetPropagation(p) => propagation := p;
      case SetRate(b) => bps := b;
    }

    /** A refusal leaves the whole state as it was: the push after the deadline update cannot fail. */
    method TryTransmit(handle: nat, octets: nat, now: int) returns (outcome: Outcome)
      requires Valid()
      modifies this, queue, queue.slots
      ensures Valid()
      ensures (State(), outcome) == Step(old(State()), Transmit(handle, octets, now))
    {
      if queue.size == CAPACITY || bps == 0 {
        return Refused;
      }
      var start := Max(now, available);
      var duration := NanosecondsFor(DeliveryBits(octets), bps);
      available := start + NanosecondsFor(SpacingBits(octets), bps);
      var delivered := start + duration + propagation;
      var pushed := queue.TryPush(InFlight(handle, delivered));
      if !pushed {
        return Refused;
      }
      return Admitted(start, delivered);
    }

    method PopDelivered(now: int) returns (outcome: Outcome)
      requires Valid()
      modifies this, queue
      ensures Valid()
      ensures (State(), outcome) == Step(old(State()), Pop(now))
    {
      var front := queue.TryPeek();
      if front.None? || front.value.delivered > now {
        return NothingDue;
      }
      ghost var before := queue.Contents();
      var popped := queue.TryPop();
      assert queue.Contents() == before[1..];
      return Delivered(front.value.handle);
    }

    method TakeCheckpoint(now: int) returns (state: Checkpoint)
      requires Valid()
      ensures state == Saved(State(), now)
    {
      var stored: seq<Stored> := [];
      for index := 0 to queue.size
        invariant |stored| == index
        invariant forall i :: 0 <= i < index ==>
          stored[i] == Stored(queue.Contents()[i].handle, Remaining(queue.Contents()[i].delivered, now))
      {
        var value := queue.CopyAt(index);
        stored := stored + [Stored(value.value.handle, Remaining(value.value.delivered, now))];
      }
      state := Checkpoint(Remaining(available, now), stored);
    }

    method Restore(state: Checkpoint, now: int) returns (ok: bool)
      requires Valid()
      modifies this, queue, queue.slots
      ensures Valid()
      ensures ok <==> |state.inFlight| <= CAPACITY
      ensures State() == if ok then Restored(old(State()), state, now) else old(State())
    {
      if |state.inFlight| > CAPACITY {
        return false;
      }
      ghost var target := Restored(State(), state, now);
      queue.Clear();
      available := now + state.transmitterRemaining;
      for index := 0 to |state.inFlight|
        invariant Valid() && queue.Contents() == target.inFlight[..index]
        invariant Direction(bps, propagation, available, target.inFlight) == target
      {
        var pushed := queue.TryPush(
          InFlight(state.inFlight[index].handle, now + state.inFlight[index].remaining));
        if !pushed {
          assert false;
        }
      }
      return true;
    }
  }

  // ---------------------------------------------------------------- time-shift bisimulation

  /** `d'` behaves like `d` with all times moved by `delta`, for an observer who looks only at
      instants from `n` on. Deadlines before `n` need not correspond exactly. */
  ghost predicate Shifted(d: Direction, d': Direction, n: int, delta: int, rho: nat -> nat) {
    && d'.bps == d.bps
    && d'.propagation == d.propagation
    && Max(d'.available, n + delta) == Max(d.available, n) + delta
    && |d'.inFlight| == |d.inFlight|
    && forall i :: 0 <= i < |d.inFlight| ==>
         && d'.inFlight[i].handle == rho(d.inFlight[i].handle)
         && Max(d'.inFlight[i].delivered, n + delta) == Max(d.inFlight[i].delivered, n) + delta
  }

  ghost predicate NotBefore(events: seq<Event>, n: int) {
    forall e :: e in events && (e.Transmit? || e.Pop?) ==> e.now >= n
  }

  function ShiftEvent(e: Event, delta: int, rho: nat -> nat): Event {
    match e
    case Transmit(handle, octets, now) => Transmit(rho(handle), octets, now + delta)
    case Pop(now) => Pop(now + delta)
    case SetPropagation(_) => e
    case SetRate(_) => e
  }

  function ShiftOutcome(o: Outcome, delta: int, rho: nat -> nat): Outcome {
    match o
    case Admitted(started, delivered) => Admitted(started + delta, delivered + delta)
    case Delivered(handle) => Delivered(rho(handle))
    case _ => o
  }

  ghost function ShiftEvents(events: seq<Event>, delta: int, rho: nat -> nat): seq<Event> {
    seq(|events|, i requires 0 <= i < |events| => ShiftEvent(events[i], delta, rho))
  }

  ghost function ShiftOutcomes(outcomes: seq<Outcome>, delta: int, rho: nat -> nat): seq<Outcome> {
    seq(|outcomes|, i requires 0 <= i < |outcomes| => ShiftOutcome(outcomes[i], delta, rho))
  }

  lemma StepShifts(d: Direction, d': Direction, n: int, delta: int, rho: nat -> nat, e: Event)
    requires Shifted(d, d', n, delta, rho)
    requires NotBefore([e], n)
    ensures Step(d', ShiftEvent(e, delta, rho)).1 == ShiftOutcome(Step(d, e).1, delta, rho)
    ensures Shifted(Step(d, e).0, Step(d', ShiftEvent(e, delta, rho)).0, n, delta, rho)
  {
    assert e in [e];
  }

  lemma {:induction false} RunShifts(
      d: Direction, d': Direction, n: int, delta: int, rho: nat -> nat, events: seq<Event>)
    requires Shifted(d, d', n, delta, rho)
    requires NotBefore(events, n)
    ensures Run(d', ShiftEvents(events, delta, rho)).1 == ShiftOutcomes(Run(d, events).1, delta, rho)
    ensures Shifted(Run(d, events).0, Run(d', ShiftEvents(events, delta, rho)).0, n, delta, rho)
    decreases |events|
  {
    if events != [] {
      StepShifts(d, d', n, delta, rho, events[0]);
      assert ShiftEvents(events, delta, rho)[1..] == ShiftEvents(events[1..], delta, rho);
      RunShifts(Step(d, events[0]).0, Step(d', ShiftEvent(events[0], delta, rho)).0,
                n, delta, rho, events[1..]);
    }
  }

  /** Checkpoint at `n`, restore at `n'` into a direction with the same rate and propagation and
      with fresh handles: every later run gives the same outcomes, moved by `n' - n`, even though
      overdue deadlines and an idle transmitter were clamped. */
  lemma RestoreResumesRun(
      d: Direction, target: Direction, n: int, n': int, rho: nat -> nat, events: seq<Event>)
    requires target.bps == d.bps && target.propagation == d.propagation
    requires NotBefore(events, n)
    ensures Run(Restored(target, Relabel(Saved(d, n), rho), n'), ShiftEvents(events, n' - n, rho)).1
         == ShiftOutcomes(Run(d, events).1, n' - n, rho)
  {
    var d' := Restored(target, Relabel(Saved(d, n), rho), n');
    assert Shifted(d, d', n, n' - n, rho);
    RunShifts(d, d', n, n' - n, rho, events);
  }

  // ---------------------------------------------------------------- delivery order

  ghost function Handles(flights: seq<InFlight>): seq<nat> {
    seq(|flights|, i requires 0 <= i < |flights| => flights[i].handle)
  }

  ghost function AdmittedBy(e: Event, o: Outcome): seq<nat> {
    if e.Transmit? && o.Admitted? then [e.handle] else []
  }

  ghost function DeliveredBy(o: Outcome): seq<nat> {
    if o.Delivered? then [o.handle] else []
  }

  ghost function AdmittedHandles(events: seq<Event>, outcomes: seq<Outcome>): seq<nat>
    requires |events| == |outcomes|
  {
    if events == [] then []
    else AdmittedBy(events[0], outcomes[0]) + AdmittedHandles(events[1..], outcomes[1..])
  }

  ghost function DeliveredHandles(outcomes: seq<Outcome>): seq<nat> {
    if outcomes == [] then [] else DeliveredBy(outcomes[0]) + DeliveredHandles(outcomes[1..])
  }

  lemma StepConserves(d: Direction, e: Event)
    requires |d.inFlight| <= CAPACITY
    ensures var (d1, o) := Step(d, e);
            && Handles(d.inFlight) + AdmittedBy(e, o) == DeliveredBy(o) + Handles(d1.inFlight)
            && |d1.inFlight| <= CAPACITY
  {
    hide NanosecondsFor, DeliveryBits, SpacingBits;
  }

  /** Nothing is lost, duplicated or reordered: what was in flight followed by what is admitted
      equals what is delivered followed by what remains in flight, and the bound is kept. */
  lemma {:induction false} FifoConservation(d: Direction, events: seq<Event>)
    requires |d.inFlight| <= CAPACITY
    ensures var (last, outcomes) := Run(d, events);
            && Handles(d.inFlight) + AdmittedHandles(events, outcomes)
               == DeliveredHandles(outcomes) + Handles(last.inFlight)
            && |last.inFlight| <= CAPACITY
    decreases |events|
  {
    var (last, outcomes) := Run(d, events);
    if events != [] {
      var (d1, o) := Step(d, events[0]);
      assert outcomes[0] == o && outcomes[1..] == Run(d1, events[1..]).1;
      hide Step;
      StepConserves(d, events[0]);
      FifoConservation(d1, events[1..]);
      var admitted, delivered := AdmittedHandles(events[1..], outcomes[1..]), DeliveredHandles(outcomes[1..]);
      calc {
        Handles(d.inFlight) + (AdmittedBy(events[0], o) + admitted);
        Handles(d.inFlight) + AdmittedBy(events[0], o) + admitted;
        DeliveredBy(o) + Handles(d1.inFlight) + admitted;
        DeliveredBy(o) + (Handles(d1.inFlight) + admitted);
        DeliveredBy(o) + (delivered + Handles(last.inFlight));
        DeliveredBy(o) + delivered + Handles(last.inFlight);
      }
    }
  }

  // ---------------------------------------------------------------- promptness

  ghost predicate Increasing(flights: seq<InFlight>) {
    forall i, j :: 0 <= i < j < |flights| ==> flights[i].delivered < flights[j].delivered
  }

  /** Deadlines strictly increase, and the next admission cannot be due before the last one. */
  ghost predicate Ordered(d: Direction) {
    && Increasing(d.inFlight)
    && forall i :: 0 <= i < |d.inFlight| ==> d.inFlight[i].delivered <= d.available + d.propagation
  }

  /** Every frame is exactly timed and propagation never decreases. */
  ghost predicate Steady(d: Direction, events: seq<Event>)
    decreases |events|
  {
    events == [] ||
    (&& (events[0].Transmit? ==> d.bps == 0 || Exact(events[0].octets, d.bps))
     && (events[0].SetPropagation? ==> events[0].propagation >= d.propagation)
     && Steady(Step(d, events[0]).0, events[1..]))
  }

  lemma {:induction false} DeadlinesStayOrdered(d: Direction, events: seq<Event>)
    requires Ordered(d) && Steady(d, events)
    ensures Ordered(Run(d, events).0)
    decreases |events|
  {
    if events != [] {
      var e := events[0];
      if e.Transmit? && d.bps != 0 {
        ExactTiming(e.octets, d.bps);
      }
      DeadlinesStayOrdered(Step(d, e).0, events[1..]);
    }
  }

  /** Popping at `t` until nothing is due. */
  ghost function Drain(d: Direction, t: int): (r: Direction)
    decreases |d.inFlight|
  {
    if Step(d, Pop(t)).1.Delivered? then Drain(Step(d, Pop(t)).0, t) else d
  }

  ghost predicate NoneDue(d: Direction, t: int) {
    forall i :: 0 <= i < |d.inFlight| ==> d.inFlight[i].delivered > t
  }

  lemma {:induction false} DrainStopsAtFirstPending(d: Direction, t: int, k: nat)
    requires k < |d.inFlight| && d.inFlight[k].delivered > t
    ensures var rest := Drain(d, t).inFlight;
            |d.inFlight| - k <= |rest| <= |d.inFlight| && rest == d.inFlight[|d.inFlight| - |rest|..]
    decreases |d.inFlight|
  {
    if Step(d, Pop(t)).1.Delivered? {
      DrainStopsAtFirstPending(Step(d, Pop(t)).0, t, k - 1);
    }
  }

  lemma {:induction false} DrainOfSorted(d: Direction, t: int)
    requires forall i, j :: 0 <= i < j < |d.inFlight| ==> d.inFlight[i].delivered <= d.inFlight[j].delivered
    ensures NoneDue(Drain(d, t), t)
    decreases |d.inFlight|
  {
    if Step(d, Pop(t)).1.Delivered? {
      DrainOfSorted(Step(d, Pop(t)).0, t);
    }
  }

  /** Draining leaves no due frame behind at any instant exactly when deadlines never decrease along
      the queue: with one decreasing pair there is an instant at which a due frame is stuck. */
  lemma PromptExactlyWhenSorted(d: Direction)
    ensures (forall t :: NoneDue(Drain(d, t), t))
       <==> (forall i, j :: 0 <= i < j < |d.inFlight| ==>
               d.inFlight[i].delivered <= d.inFlight[j].delivered)
  {
    if forall i, j :: 0 <= i < j < |d.inFlight| ==> d.inFlight[i].delivered <= d.inFlight[j].delivered {
      forall t ensures NoneDue(Drain(d, t), t) {
        DrainOfSorted(d, t);
      }
    } else {
      var i, j :| 0 <= i < j < |d.inFlight| && d.inFlight[i].delivered > d.inFlight[j].delivered;
      var t := d.inFlight[j].delivered;
      DrainStopsAtFirstPending(d, t, i);
      var rest := Drain(d, t).inFlight;
      assert rest[j - (|d.inFlight| - |rest|)].delivered == t;
      assert !NoneDue(Drain(d, t), t);
    }
  }

  /** From an idle direction, every steady run can be drained promptly at every instant. */
  lemma SteadyRunsArePrompt(d: Direction, events: seq<Event>, t: int)
    requires d.inFlight == [] && Steady(d, events)
    ensures NoneDue(Drain(Run(d, events).0, t), t)
  {
    DeadlinesStayOrdered(d, events);
    DrainOfSorted(Run(d, events).0, t);
  }

  /** Lowering propagation between two admissions really does leave a due frame behind. */
  lemma LoweredPropagationBlocks()
    ensures var d := Direction(1_000_000_000, 1_000_000, 0, []);
            var events := [Transmit(7, 60, 0), SetPropagation(0), Transmit(8, 60, 0)];
            !NoneDue(Drain(Run(d, events).0, 2000), 2000)
  {
    var d := Direction(1_000_000_000, 1_000_000, 0, []);
    var e0, e1, e2 := Transmit(7, 60, 0), SetPropagation(0), Transmit(8, 60, 0);
    assert NanosecondsFor(DeliveryBits(60), 1_000_000_000) == 576;
    assert NanosecondsFor(SpacingBits(60), 1_000_000_000) == 672;
    var d1 := Direction(1_000_000_000, 1_000_000, 672, [InFlight(7, 1_000_576)]);
    var d2 := d1.(propagation := 0);
    var d3 := Direction(1_000_000_000, 0, 1344, [InFlight(7, 1_000_576), InFlight(8, 1248)]);
    assert Step(d, e0).0 == d1 && Step(d1, e1).0 == d2 && Step(d2, e2).0 == d3;
    hide NanosecondsFor, DeliveryBits, SpacingBits;
    assert Run(d2, [e2]).0 == d3;
    assert [e1, e2][1..] == [e2];
    assert Run(d1, [e1, e2]).0 == d3;
    assert [e0, e1, e2][1..] == [e1, e2];
    assert Run(d, [e0, e1, e2]).0 == d3;
    assert d3.inFlight[1].delivered <= 2000 < d3.inFlight[0].delivered;
    assert Drain(d3, 2000) == d3;
  }

  // ---------------------------------------------------------------- line rate

  datatype Sent = Sent(started: int, octets: nat)

  /** Start time and size of the admitted frames of a run, in order. */
  ghost function Admissions(events: seq<Event>, outcomes: seq<Outcome>): seq<Sent>
    requires |events| == |outcomes|
  {
    if events == [] then []
    else (if events[0].Transmit? && outcomes[0].Admitted?
          then [Sent(outcomes[0].started, events[0].octets)] else [])
         + Admissions(events[1..], outcomes[1..])
  }

  ghost predicate FixedRate(events: seq<Event>, bps: Rate) {
    && bps > 0
    && forall e :: e in events ==> !e.SetRate? && (e.Transmit? ==> Exact(e.octets, bps))
  }

  /** The transmitter never waits for a frame: each transmit call finds it still busy. */
  ghost predicate Backlogged(d: Direction, events: seq<Event>)
    decreases |events|
  {
    events == [] ||
    (&& (events[0].Transmit? ==> events[0].now <= d.available)
     && Backlogged(Step(d, events[0]).0, events[1..]))
  }

  /** Starts are at least, or with `tight` exactly, one rounded spacing apart. */
  ghost predicate Apart(first: Sent, second: Sent, bps: Rate, tight: bool)
    requires bps > 0
  {
    var gap := second.started - first.started;
    Ceiling(SpacingBits(first.octets), bps) <= gap &&
    (tight ==> gap == Ceiling(SpacingBits(first.octets), bps))
  }

  ghost predicate Spaced(sent: seq<Sent>, bps: Rate, tight: bool)
    requires bps > 0
  {
    |sent| <= 1 || (Apart(sent[0], sent[1], bps, tight) && Spaced(sent[1..], bps, tight))
  }

  lemma {:induction false} StartsAreSpaced(d: Direction, events: seq<Event>, tight: bool)
    requires FixedRate(events, d.bps)
    requires tight ==> Backlogged(d, events)
    ensures var sent := Admissions(events, Run(d, events).1);
            && Spaced(sent, d.bps, tight)
            && (sent != [] ==> d.available <= sent[0].started)
            && (sent != [] && tight ==> d.available == sent[0].started)
    decreases |events|
  {
    if events != [] {
      hide NanosecondsFor, DeliveryBits, SpacingBits, Ceiling;
      var (d1, outcome) := Step(d, events[0]);
      StartsAreSpaced(d1, events[1..], tight);
      var outcomes := Run(d, events).1;
      assert outcomes[0] == outcome && outcomes[1..] == Run(d1, events[1..]).1;
      var rest := Admissions(events[1..], outcomes[1..]);
      if outcome.Admitted? {
        assert events[0] in events;
        ExactTiming(events[0].octets, d.bps);
        var sent := [Sent(outcome.started, events[0].octets)] + rest;
        assert sent[1..] == rest;
        assert Admissions(events, outcomes) == sent;
      } else {
        assert Admissions(events, outcomes) == [] + rest == rest;
      }
    }
  }

  ghost function TotalBits(sent: seq<Sent>): nat {
    if sent == [] then 0 else SpacingBits(sent[0].octets) + TotalBits(sent[1..])
  }

  /** From the first start to the last, at least the exact serialization time of all frames before
      the last has passed; with `tight`, less than one nanosecond a frame more than that. */
  ghost predicate WithinLineRate(sent: seq<Sent>, bps: Rate, tight: bool)
    requires bps > 0 && sent != []
  {
    var n := |sent| - 1;
    var elapsed := (sent[n].started - sent[0].started) * bps;
    var ideal := TotalBits(sent[..n]) * NANOSECONDS;
    && ideal <= elapsed
    && (tight ==> elapsed <= ideal + n * (bps - 1))
  }

  /** One more gap added to a sum of gaps keeps both bounds. */
  lemma AddGap(gap: int, bits: nat, rest: int, total: nat, n: nat, bps: Rate, tight: bool)
    requires bps > 0
    requires Ceiling(bits, bps) <= gap && (tight ==> gap == Ceiling(bits, bps))
    requires total * NANOSECONDS <= rest * bps
    requires tight ==> rest * bps <= total * NANOSECONDS + n * (bps - 1)
    ensures (bits + total) * NANOSECONDS <= (gap + rest) * bps
    ensures tight ==> (gap + rest) * bps <= (bits + total) * NANOSECONDS + (n + 1) * (bps - 1)
  {
    CeilingBounds(bits, bps);
    hide Ceiling;
    var ceiling := Ceiling(bits, bps);
    assert gap * bps == ceiling * bps + (gap - ceiling) * bps;
    assert (gap - ceiling) * bps >= 0;
    assert (gap + rest) * bps == gap * bps + rest * bps;
    assert (n + 1) * (bps - 1) == n * (bps - 1) + (bps - 1);
  }

  lemma {:induction false} SpacingSums(sent: seq<Sent>, bps: Rate, tight: bool)
    requires bps > 0 && sent != [] && Spaced(sent, bps, tight)
    ensures WithinLineRate(sent, bps, tight)
    decreases |sent|
  {
    hide SpacingBits, Ceiling;
    var n := |sent| - 1;
    if n > 0 {
      var rest := sent[1..];
      SpacingSums(rest, bps, tight);
      assert sent[..n][1..] == rest[..n - 1];
      AddGap(sent[1].started - sent[0].started, SpacingBits(sent[0].octets),
             rest[n - 1].started - rest[0].started, TotalBits(rest[..n - 1]), n - 1, bps, tight);
    }
  }

  /** The line rate is never exceeded by the admitted frames of any run at a fixed rate, and a
      backlogged sender loses less than one nanosecond a frame against it. */
  lemma LineRate(d: Direction, events: seq<Event>)
    requires FixedRate(events, d.bps)
    ensures var sent := Admissions(events, Run(d, events).1);
            sent != [] ==> WithinLineRate(sent, d.bps, Backlogged(d, events))
  {
    var sent := Admissions(events, Run(d, events).1);
    StartsAreSpaced(d, events, Backlogged(d, events));
    if sent != [] {
      SpacingSums(sent, d.bps, Backlogged(d, events));
    }
  }
}
