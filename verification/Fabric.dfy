/** The multi-link Ethernet fabric (core/include/router/multi_device_fabric.hpp,
    core/src/forwarding/multi_device_fabric.cpp) over its packet pool
    (core/include/router/packet_pool.hpp).

    A frame moves TX queue, in-flight list, RX queue, callback. Read in the order RX, in flight, TX,
    the three stages of a direction form one pipe, oldest frame first: enqueueing appends to it,
    transmission does not change it, delivery takes from its front and draining empties it. Pool
    references and drop counters are accounted against the pipes. */
module Fabrics {
  import opened FabricSlab
  import opened WireTime

  const QUEUE_CAPACITY: nat := 256
  const WORK_BUDGET: nat := 64
  const MAXIMUM_REFERENCES: nat := 65535

  // ---------------------------------------------------------------- packet pool

  /** Free stack, reference counts and frame sizes of the pool slots. */
  datatype Pool = Pool(free: seq<nat>, references: seq<nat>, sizes: seq<FrameSize>)

  ghost predicate ValidPool(p: Pool) {
    && |p.sizes| == |p.references|
    && (forall k :: 0 <= k < |p.free| ==> p.free[k] < |p.references| && p.references[p.free[k]] == 0)
    && (forall j, k :: 0 <= j < k < |p.free| ==> p.free[j] != p.free[k])
    && (forall h :: 0 <= h < |p.references| && p.references[h] == 0 ==> h in p.free)
  }

  function Allocate(p: Pool, size: FrameSize): (Pool, nat)
    requires p.free != [] && p.free[|p.free| - 1] < |p.references| == |p.sizes|
  {
    var h := p.free[|p.free| - 1];
    (Pool(p.free[..|p.free| - 1], p.references[h := 1], p.sizes[h := size]), h)
  }

  predicate Retainable(p: Pool, h: nat) {
    h < |p.references| && p.references[h] != 0 && p.references[h] != MAXIMUM_REFERENCES
  }

  /** Somebody holds the frame, and fewer references are counted than a 16-bit count can hold. */
  ghost predicate Shareable(p: Pool, h: nat) {
    h < |p.references| && p.references[h] !in {0, 0xffff}
  }

  function Retain(p: Pool, h: nat): Pool
    requires Retainable(p, h)
  {
    p.(references := p.references[h := p.references[h] + 1])
  }

  /** The source asserts that the reference is held; LeaveBalances shows that it always is. */
  function Release(p: Pool, h: nat): (r: Pool)
    ensures |r.references| == |p.references|
  {
    if h >= |p.references| || p.references[h] == 0 then p
    else if p.references[h] > 1 then p.(references := p.references[h := p.references[h] - 1])
    else p.(references := p.references[h := 0], free := p.free + [h])
  }

  lemma AllocateValid(p: Pool, size: FrameSize)
    requires ValidPool(p) && p.free != []
    ensures ValidPool(Allocate(p, size).0)
  {
    var (p', h) := Allocate(p, size);
    forall g | 0 <= g < |p'.references| && p'.references[g] == 0
      ensures g in p'.free
    {
      var k :| 0 <= k < |p.free| && p.free[k] == g;
      assert p'.free[k] == g;
    }
  }

  lemma ReleaseValid(p: Pool, h: nat)
    requires ValidPool(p)
    ensures ValidPool(Release(p, h))
  {
    var p' := Release(p, h);
    forall g | p' != p && 0 <= g < |p'.references| && p'.references[g] == 0
      ensures g in p'.free
    {
      if g == h {
        assert p'.free[|p.free|] == h;
      } else {
        var k :| 0 <= k < |p.free| && p.free[k] == g;
        assert p'.free[k] == g;
      }
    }
  }

  // ---------------------------------------------------------------- accounting

  /** All references held by the medium. */
  ghost function Held(pipes: seq<seq<nat>>): multiset<nat> {
    if pipes == [] then multiset{} else multiset(pipes[0]) + Held(pipes[1..])
  }

  lemma {:induction false} HeldOfUpdate(pipes: seq<seq<nat>>, d: nat, pipe: seq<nat>)
    requires d < |pipes|
    ensures Held(pipes[d := pipe]) + multiset(pipes[d]) == Held(pipes) + multiset(pipe)
    ensures multiset(pipes[d]) <= Held(pipes)
    decreases |pipes|
  {
    if d == 0 {
      assert pipes[d := pipe][1..] == pipes[1..];
    } else {
      assert pipes[d := pipe][1..] == pipes[1..][d - 1 := pipe];
      HeldOfUpdate(pipes[1..], d - 1, pipe);
      var first, rest, rest' := multiset(pipes[0]), Held(pipes[1..]), Held(pipes[1..][d - 1 := pipe]);
      assert (first + rest') + multiset(pipes[d]) == first + (rest' + multiset(pipes[d]));
      assert (first + rest) + multiset(pipe) == first + (rest + multiset(pipe));
    }
  }

  lemma Cancel(a: multiset<nat>, b: multiset<nat>, common: multiset<nat>)
    requires a + common == b + common
    ensures a == b
  {
    assert a == (a + common) - common;
    assert b == (b + common) - common;
  }

  lemma HeldOfAppend(pipes: seq<seq<nat>>, d: nat, h: nat)
    requires d < |pipes|
    ensures Held(pipes[d := pipes[d] + [h]]) == Held(pipes) + multiset{h}
  {
    HeldOfUpdate(pipes, d, pipes[d] + [h]);
    hide Held;
    var m := multiset(pipes[d]);
    assert multiset(pipes[d] + [h]) == m + multiset{h};
    assert Held(pipes) + (m + multiset{h}) == (Held(pipes) + multiset{h}) + m;
    Cancel(Held(pipes[d := pipes[d] + [h]]), Held(pipes) + multiset{h}, m);
  }

  lemma WithoutOne(pipe: seq<nat>, k: nat)
    requires k < |pipe|
    ensures multiset(pipe) == multiset(Without(pipe, k)) + multiset{pipe[k]}
  {
    assert pipe == pipe[..k] + [pipe[k]] + pipe[k + 1..];
  }

  lemma HeldOfRemove(pipes: seq<seq<nat>>, d: nat, k: nat)
    requires d < |pipes| && k < |pipes[d]|
    ensures Held(pipes) == Held(pipes[d := Without(pipes[d], k)]) + multiset{pipes[d][k]}
  {
    hide Held, Without;
    var rest, h := Without(pipes[d], k), pipes[d][k];
    HeldOfUpdate(pipes, d, rest);
    WithoutOne(pipes[d], k);
    var m := multiset(rest);
    assert Held(pipes[d := rest]) + (m + multiset{h}) == (Held(pipes[d := rest]) + multiset{h}) + m;
    Cancel(Held(pipes), Held(pipes[d := rest]) + multiset{h}, m);
  }

  lemma {:induction false} HeldOfEmpty(pipes: seq<seq<nat>>)
    requires forall d :: 0 <= d < |pipes| ==> pipes[d] == []
    ensures Held(pipes) == multiset{}
    decreases |pipes|
  {
    if pipes != [] {
      HeldOfEmpty(pipes[1..]);
    }
  }

  /** If every pipe is as long as its list, and the pipe of `d` longer, more is held than listed. */
  lemma {:induction false} HeldCoversFlights(pipes: seq<seq<nat>>, lists: seq<seq<nat>>, d: int)
    requires |pipes| == |lists| && d < |pipes|
    requires forall e :: 0 <= e < |pipes| ==> |pipes[e]| >= |lists[e]| + if e == d then 1 else 0
    ensures |Held(pipes)| >= TotalLength(lists) + if d >= 0 then 1 else 0
    decreases |pipes|
  {
    if pipes != [] {
      HeldCoversFlights(pipes[1..], lists[1..], d - 1);
    }
  }

  lemma {:induction false} UnsharedFits(held: multiset<nat>, n: nat)
    requires forall h :: h in held ==> h < n && held[h] <= 1
    ensures |held| <= n
  {
    if n == 0 {
      assert held == multiset{};
    } else {
      var rest := held[n - 1 := 0];
      assert held == rest + (if n - 1 in held then multiset{n - 1} else multiset{});
      UnsharedFits(rest, n - 1);
    }
  }

  /** The ledger of the fabric. `external` are references held outside the medium (a switch);
      `offered`, `dropped` and `delivered` count frames. */
  datatype Ledger = Ledger(
    pipes: seq<seq<nat>>, pool: Pool, external: multiset<nat>,
    offered: nat, dropped: nat, delivered: nat)

  /** The reference counts are the multiplicities in `held`. */
  ghost predicate Counts(references: seq<nat>, held: multiset<nat>) {
    && (forall h :: h in held ==> h < |references|)
    && (forall h :: 0 <= h < |references| ==> references[h] == held[h])
  }

  lemma CountsAdd(references: seq<nat>, held: multiset<nat>, h: nat)
    requires Counts(references, held) && h < |references|
    ensures Counts(references[h := references[h] + 1], held + multiset{h})
  {
  }

  lemma CountsRemove(references: seq<nat>, held: multiset<nat>, h: nat)
    requires Counts(references, held + multiset{h})
    ensures h < |references| && references[h] > 0
    ensures Counts(references[h := references[h] - 1], held)
  {
    assert h in held + multiset{h};
    assert (held + multiset{h})[h] == held[h] + 1;
    forall g | g in held
      ensures g < |references|
    {
      assert g in held + multiset{h};
    }
  }

  /** Every pool reference has exactly one holder, and every frame ever offered was dropped, was
      delivered, or is in exactly one pipe. */
  ghost predicate Balanced(l: Ledger) {
    && ValidPool(l.pool)
    && Counts(l.pool.references, Held(l.pipes) + l.external)
    && l.offered == l.dropped + l.delivered + |Held(l.pipes)|
  }

  /** A frame that is refused before it enters a pipe. */
  function Refuse(l: Ledger): Ledger {
    l.(offered := l.offered + 1, dropped := l.dropped + 1)
  }

  /** A new frame enters the pipe of direction `d`. */
  ghost function Admit(l: Ledger, d: nat, size: FrameSize): Ledger
    requires d < |l.pipes| && l.pool.free != [] && l.pool.free[|l.pool.free| - 1] < |l.pool.references| == |l.pool.sizes|
  {
    var (pool, h) := Allocate(l.pool, size);
    l.(pool := pool, pipes := l.pipes[d := l.pipes[d] + [h]], offered := l.offered + 1)
  }

  ghost predicate Admitted(before: Ledger, now: Ledger, d: nat, size: FrameSize) {
    && d < |before.pipes| && before.pool.free != []
    && before.pool.free[|before.pool.free| - 1] < |before.pool.references| == |before.pool.sizes|
    && now == Admit(before, d, size)
  }

  /** One more reference to a frame that somebody holds enters the pipe of direction `d`. */
  ghost function Share(l: Ledger, d: nat, h: nat): Ledger
    requires d < |l.pipes| && Retainable(l.pool, h)
  {
    l.(pool := Retain(l.pool, h), pipes := l.pipes[d := l.pipes[d] + [h]], offered := l.offered + 1)
  }

  function Without(pipe: seq<nat>, k: nat): seq<nat>
    requires k < |pipe|
  {
    pipe[..k] + pipe[k + 1..]
  }

  /** The `k`-th frame of direction `d` leaves its pipe and its reference is released. */
  ghost function Leave(l: Ledger, d: nat, k: nat, asDrop: bool): Ledger
    requires d < |l.pipes| && k < |l.pipes[d]|
  {
    l.(pool := Release(l.pool, l.pipes[d][k]), pipes := l.pipes[d := Without(l.pipes[d], k)],
       dropped := l.dropped + (if asDrop then 1 else 0),
       delivered := l.delivered + (if asDrop then 0 else 1))
  }

  /** The caller obtains a reference of its own: by allocation, or to a frame that somebody holds. */
  ghost function Take(l: Ledger, size: FrameSize): Ledger
    requires l.pool.free != [] && l.pool.free[|l.pool.free| - 1] < |l.pool.references| == |l.pool.sizes|
  {
    var (pool, h) := Allocate(l.pool, size);
    l.(pool := pool, external := l.external + multiset{h})
  }

  ghost function Keep(l: Ledger, h: nat): Ledger
    requires Retainable(l.pool, h)
  {
    l.(pool := Retain(l.pool, h), external := l.external + multiset{h})
  }

  /** A reference of the caller's becomes the newest frame of `d`, or is given up. */
  ghost function Publish(l: Ledger, d: nat, h: nat): Ledger
    requires d < |l.pipes|
  {
    l.(external := l.external - multiset{h}, pipes := l.pipes[d := l.pipes[d] + [h]], offered := l.offered + 1)
  }

  ghost function Discard(l: Ledger, h: nat): Ledger {
    Refuse(l).(external := l.external - multiset{h}, pool := Release(l.pool, h))
  }

  lemma TakeBalances(l: Ledger, size: FrameSize)
    requires Balanced(l) && l.pool.free != []
    ensures Balanced(Take(l, size))
  {
    hide Held, Counts;
    var h := l.pool.free[|l.pool.free| - 1];
    AllocateValid(l.pool, size);
    CountsAdd(l.pool.references, Held(l.pipes) + l.external, h);
    hide ValidPool;
    assert Held(l.pipes) + (l.external + multiset{h}) == (Held(l.pipes) + l.external) + multiset{h};
  }

  lemma KeepBalances(l: Ledger, h: nat)
    requires Balanced(l) && Retainable(l.pool, h)
    ensures Balanced(Keep(l, h))
  {
    hide Held, Counts;
    CountsAdd(l.pool.references, Held(l.pipes) + l.external, h);
    assert Held(l.pipes) + (l.external + multiset{h}) == (Held(l.pipes) + l.external) + multiset{h};
  }

  lemma PublishBalances(l: Ledger, d: nat, h: nat)
    requires Balanced(l) && d < |l.pipes| && h in l.external
    ensures Balanced(Publish(l, d, h))
  {
    hide Held, Counts, ValidPool;
    HeldOfAppend(l.pipes, d, h);
    var rest := l.external - multiset{h};
    assert l.external == rest + multiset{h};
    assert (Held(l.pipes) + multiset{h}) + rest == Held(l.pipes) + l.external;
  }

  lemma DiscardBalances(l: Ledger, h: nat)
    requires Balanced(l) && h in l.external
    ensures Balanced(Discard(l, h))
  {
    hide Held, Counts;
    var rest := l.external - multiset{h};
    assert l.external == rest + multiset{h};
    assert (Held(l.pipes) + rest) + multiset{h} == Held(l.pipes) + l.external;
    CountsRemove(l.pool.references, Held(l.pipes) + rest, h);
    ReleaseValid(l.pool, h);
  }

  /** Taking or keeping a reference and publishing it admits or shares the frame; taking or keeping
      it and giving it up only counts a refusal. */
  lemma EnqueueOutcomes(l: Ledger, d: nat, h: nat, size: FrameSize)
    requires Balanced(l) && d < |l.pipes|
    ensures l.pool.free != [] ==>
      && l.pool.free[|l.pool.free| - 1] < |l.pool.references| == |l.pool.sizes|
      && Publish(Take(l, size), d, l.pool.free[|l.pool.free| - 1]) == Admit(l, d, size)
      && Refused(l, Discard(Take(l, size), l.pool.free[|l.pool.free| - 1]))
    ensures Retainable(l.pool, h) ==>
      Publish(Keep(l, h), d, h) == Share(l, d, h) && Discard(Keep(l, h), h) == Refuse(l)
  {
    hide Balanced, Take, Publish, Discard, Admit, Keep, Share, Refuse, Refused;
    if Retainable(l.pool, h) {
      KeepOutcomes(l, d, h);
    }
    if l.pool.free != [] {
      TakeOutcomes(l, d, size);
    }
  }

  lemma KeepOutcomes(l: Ledger, d: nat, h: nat)
    requires d < |l.pipes| && Retainable(l.pool, h)
    ensures Publish(Keep(l, h), d, h) == Share(l, d, h) && Discard(Keep(l, h), h) == Refuse(l)
  {
    AddRemove(l.external, h);
    KeepAndRelease(l.pool, h);
    hide Release, Retain;
  }

  lemma TakeOutcomes(l: Ledger, d: nat, size: FrameSize)
    requires Balanced(l) && d < |l.pipes| && l.pool.free != []
    ensures l.pool.free[|l.pool.free| - 1] < |l.pool.references| == |l.pool.sizes|
    ensures Publish(Take(l, size), d, l.pool.free[|l.pool.free| - 1]) == Admit(l, d, size)
    ensures Refused(l, Discard(Take(l, size), l.pool.free[|l.pool.free| - 1]))
  {
    hide Held, Counts, ValidPool, Release, Allocate;
    AddRemove(l.external, l.pool.free[|l.pool.free| - 1]);
    TakeAndRelease(l.pool, size);
  }

  lemma AddRemove(m: multiset<nat>, h: nat)
    ensures (m + multiset{h}) - multiset{h} == m
  {
  }

  lemma KeepAndRelease(p: Pool, h: nat)
    requires Retainable(p, h)
    ensures Release(Retain(p, h), h) == p
  {
    assert Release(Retain(p, h), h).references == p.references;
  }

  /** Allocating and releasing at once gives the pool back, apart from the size of the slot. */
  lemma TakeAndRelease(p: Pool, size: FrameSize)
    requires ValidPool(p) && p.free != []
    ensures p.free[|p.free| - 1] < |p.references| == |p.sizes| && Allocate(p, size).1 == p.free[|p.free| - 1]
    ensures var q := Release(Allocate(p, size).0, p.free[|p.free| - 1]);
            q.references == p.references && q.free == p.free
  {
    var h := p.free[|p.free| - 1];
    assert p.references[h] == 0;
    var q := Release(Allocate(p, size).0, h);
    assert q.references == p.references && q.free == p.free;
  }

  /** Only the refusal was counted; the size of a free pool slot is of no account. */
  ghost predicate Refused(before: Ledger, now: Ledger) {
    && now == Refuse(before).(pool := now.pool)
    && now.pool.references == before.pool.references && now.pool.free == before.pool.free
  }

  /** A frame in a pipe holds a reference, and releasing it keeps the books. */
  lemma LeaveBalances(l: Ledger, d: nat, k: nat, asDrop: bool)
    requires Balanced(l) && d < |l.pipes| && k < |l.pipes[d]|
    ensures l.pipes[d][k] < |l.pool.references| && l.pool.references[l.pipes[d][k]] > 0
    ensures Balanced(Leave(l, d, k, asDrop))
  {
    var h, pipes' := l.pipes[d][k], l.pipes[d := Without(l.pipes[d], k)];
    HeldOfRemove(l.pipes, d, k);
    hide Held, Counts;
    assert (Held(pipes') + multiset{h}) + l.external == (Held(pipes') + l.external) + multiset{h};
    CountsRemove(l.pool.references, Held(pipes') + l.external, h);
    ReleaseValid(l.pool, h);
  }

  // ---------------------------------------------------------------- the fabric in place

  datatype Slot = Slot(generation: nat, active: bool, carrier: bool, endpoints: (nat, nat))

  datatype Timing = Timing(bps: Rate, propagation: int, available: int)

  datatype DropReason = NoDrop | StaleLink | CarrierDown | PoolFull | QueueFull

  datatype Link = Link(index: nat, generation: nat)

  function SizeOf(p: Pool, h: nat): FrameSize {
    if h < |p.sizes| then p.sizes[h] else 0
  }

  function StartAt(now: int, t: Timing): int {
    if now < t.available then t.available else now
  }

  /** Preamble and frame have left the transmitter and crossed the cable. */
  function DueAt(now: int, t: Timing, size: FrameSize): int
    requires t.bps > 0
  {
    StartAt(now, t) + NanosecondsFor(DeliveryBits(size), t.bps) + t.propagation
  }

  /** The interframe gap has passed as well. */
  function FreeAt(now: int, t: Timing, size: FrameSize): int
    requires t.bps > 0
  {
    StartAt(now, t) + NanosecondsFor(SpacingBits(size), t.bps)
  }

  /** The times are the exact ones rounded up if and only if the 64-bit numerators do not wrap, which
      they do for no rate of the catalog. */
  lemma FlightTimesExactly(now: int, t: Timing, size: FrameSize)
    requires t.bps > 0
    ensures DueAt(now, t, size) == StartAt(now, t) + Ceiling((8 + Max(size + 4, 64)) * 8, t.bps) + t.propagation
       <==> (8 + Max(size + 4, 64)) * 8 * NANOSECONDS + t.bps - 1 < U64
    ensures FreeAt(now, t, size) == StartAt(now, t) + Ceiling((8 + Max(size + 4, 64) + 12) * 8, t.bps)
       <==> (8 + Max(size + 4, 64) + 12) * 8 * NANOSECONDS + t.bps - 1 < U64
    ensures t.bps <= MAXIMUM_BITS_PER_SECOND ==> Exact(MAXIMUM_FRAME_OCTETS, t.bps)
  {
    hide NanosecondsFor, Ceiling;
    ExactBits(size);
    DurationIsExact(DeliveryBits(size), t.bps);
    DurationIsExact(SpacingBits(size), t.bps);
    CeilingInRange(DeliveryBits(size), t.bps);
    CeilingInRange(SpacingBits(size), t.bps);
  }

  /** A frame that is sent starts no earlier than now and than the transmitter is free, and as soon as both
      hold; it arrives after its exact time on the wire and the propagation delay, and the transmitter is
      free again after the gap. An idle direction starts at once. */
  lemma SentFrameTimes(now: int, t: Timing, size: FrameSize) returns (start: int)
    requires Exact(size, t.bps)
    ensures start >= now && start >= t.available && (start == now || start == t.available)
    ensures DueAt(now, t, size) == start + Ceiling((8 + Max(size + 4, 64)) * 8, t.bps) + t.propagation
    ensures FreeAt(now, t, size) == start + Ceiling((8 + Max(size + 4, 64) + 12) * 8, t.bps)
    ensures (DueAt(now, t, size) - t.propagation - now) * t.bps >= (8 + Max(size + 4, 64)) * 8 * NANOSECONDS
    ensures (FreeAt(now, t, size) - start) * t.bps >= (8 + Max(size + 4, 64) + 12) * 8 * NANOSECONDS
  {
    start := StartAt(now, t);
    ExactBits(size);
    ExactTiming(size, t.bps);
    hide NanosecondsFor, DeliveryBits, SpacingBits, Ceiling;
    var short, long := (8 + Max(size + 4, 64)) * 8, (8 + Max(size + 4, 64) + 12) * 8;
    ScaledSpan(start - now, short, t.bps);
    ScaledSpan(0, long, t.bps);
    hide Max, Exact;
  }

  /** A wait and the exact time of `bits` together are at least the exact time. */
  lemma ScaledSpan(wait: int, bits: nat, bps: nat)
    requires bps > 0 && wait >= 0
    ensures (wait + Ceiling(bits, bps)) * bps >= bits * NANOSECONDS
  {
    CeilingBounds(bits, bps);
    hide Ceiling;
    assert (wait + Ceiling(bits, bps)) * bps == wait * bps + Ceiling(bits, bps) * bps;
    assert wait * bps >= 0;
  }

  /** A frame offered to one direction: when, and how long. */
  datatype Send = Send(now: int, size: FrameSize)

  function TimingAfter(t: Timing, sends: seq<Send>): Timing
    requires t.bps > 0
    decreases |sends|
  {
    if sends == [] then t
    else TimingAfter(t.(available := FreeAt(sends[0].now, t, sends[0].size)), sends[1..])
  }

  /** Octets on the wire with preamble, padding, FCS and gap, in bits. */
  function WireBits(sends: seq<Send>): nat
    decreases |sends|
  {
    if sends == [] then 0 else (8 + Max(sends[0].size + 4, 64) + 12) * 8 + WireBits(sends[1..])
  }

  /** Over any rounds, the frames of one direction take at least the exact time of all of them, from the
      moment the first may start: a direction never exceeds its rate. */
  lemma {:induction false} DirectionKeepsRate(t: Timing, sends: seq<Send>)
    requires Exact(MAXIMUM_FRAME_OCTETS, t.bps)
    ensures (TimingAfter(t, sends).available - t.available) * t.bps >= WireBits(sends) * NANOSECONDS
    ensures sends != [] ==>
              (TimingAfter(t, sends).available - sends[0].now) * t.bps >= WireBits(sends) * NANOSECONDS
    decreases |sends|
  {
    if sends != [] {
      var s, rest := sends[0], sends[1..];
      ExactForAll(s.size, t.bps);
      var start := SentFrameTimes(s.now, t, s.size);
      var next := t.(available := FreeAt(s.now, t, s.size));
      DirectionKeepsRate(next, rest);
      hide FreeAt, TimingAfter, WireBits;
      var end := TimingAfter(next, rest).available;
      AddSpans(end - next.available, next.available - start, start - t.available, t.bps);
      AddSpans(end - next.available, next.available - start, start - s.now, t.bps);
    }
  }

  lemma AddSpans(a: int, b: int, c: int, scale: nat)
    requires c >= 0
    ensures (a + b + c) * scale >= a * scale + b * scale
  {
    assert (a + b + c) * scale == a * scale + b * scale + c * scale;
  }

  lemma CeilingInRange(bits: nat, bps: Rate)
    requires bps > 0 && bits <= 80_000
    ensures Ceiling(bits, bps) < I64
  {
    CeilingBounds(bits, bps);
    var c := Ceiling(bits, bps);
    hide Ceiling;
    assert c >= I64 ==> c * bps >= I64 * bps;
    assert I64 * bps >= bps + 80_000 * NANOSECONDS;
  }

  /** The frames in flight arrive one after the other, the last of them no later than a frame sent
      next could, at every rate that is exact for the longest frame. */
  ghost predicate InOrder(flights: seq<Flight>, t: Timing) {
    Exact(MAXIMUM_FRAME_OCTETS, t.bps) ==>
      && (forall j, k :: 0 <= j < k < |flights| ==> flights[j].delivered < flights[k].delivered)
      && (flights != [] ==> flights[|flights| - 1].delivered <= t.available + t.propagation)
  }

  ghost predicate Ordered(flights: seq<seq<Flight>>, timing: seq<Timing>)
    requires |flights| == |timing|
  {
    forall d :: 0 <= d < |flights| ==> InOrder(flights[d], timing[d])
  }

  /** A frame sent behind others arrives behind them, whenever it is sent and whatever its size. */
  lemma ArrivalsInOrder(flights: seq<Flight>, t: Timing, now: int, h: nat, size: FrameSize)
    requires t.bps > 0 && InOrder(flights, t)
    ensures InOrder(flights + [Flight(h, DueAt(now, t, size))], t.(available := FreeAt(now, t, size)))
  {
    hide NanosecondsFor, DeliveryBits, SpacingBits, Ceiling;
    if Exact(MAXIMUM_FRAME_OCTETS, t.bps) {
      ExactForAll(size, t.bps);
      ExactTiming(size, t.bps);
    }
  }

  lemma OrderedOverTransmit(flights: seq<seq<Flight>>, timing: seq<Timing>, d: nat, now: int, h: nat, size: FrameSize)
    requires d < |flights| == |timing| && Ordered(flights, timing) && timing[d].bps > 0
    ensures Ordered(flights[d := flights[d] + [Flight(h, DueAt(now, timing[d], size))]],
                    timing[d := timing[d].(available := FreeAt(now, timing[d], size))])
  {
    hide InOrder, DueAt, FreeAt;
    ArrivalsInOrder(flights[d], timing[d], now, h, size);
  }

  lemma OrderedOverRemoval(flights: seq<seq<Flight>>, timing: seq<Timing>, d: nat)
    requires d < |flights| == |timing| && Ordered(flights, timing) && flights[d] != []
    ensures Ordered(flights[d := flights[d][1..]], timing)
  {
    assert InOrder(flights[d][1..], timing[d]);
    hide InOrder;
  }

  lemma OrderedOverTiming(flights: seq<seq<Flight>>, timing: seq<Timing>, d: nat, t: Timing)
    requires d < |flights| == |timing| && Ordered(flights, timing) && flights[d] == []
    ensures Ordered(flights, timing[d := t])
  {
  }

  ghost function Packets(flights: seq<Flight>): (s: seq<nat>)
    ensures |s| == |flights|
  {
    seq(|flights|, i requires 0 <= i < |flights| => flights[i].packet)
  }

  /** The frames of every direction, oldest first. */
  ghost function PipesOf(rx: seq<seq<nat>>, flights: seq<seq<Flight>>, tx: seq<seq<nat>>): (p: seq<seq<nat>>)
    requires |rx| == |flights| == |tx|
    ensures |p| == |rx|
    ensures forall d :: 0 <= d < |p| ==> p[d] == rx[d] + Packets(flights[d]) + tx[d]
  {
    seq(|rx|, d requires 0 <= d < |rx| => rx[d] + Packets(flights[d]) + tx[d])
  }

  /** Enqueueing appends to the pipe. */
  lemma PipesOverEnqueue(rx: seq<seq<nat>>, flights: seq<seq<Flight>>, tx: seq<seq<nat>>, d: nat, h: nat)
    requires d < |rx| == |flights| == |tx|
    ensures PipesOf(rx, flights, tx[d := tx[d] + [h]])
         == PipesOf(rx, flights, tx)[d := PipesOf(rx, flights, tx)[d] + [h]]
  {
    assert rx[d] + Packets(flights[d]) + (tx[d] + [h]) == rx[d] + Packets(flights[d]) + tx[d] + [h];
    assert PipesOf(rx, flights, tx[d := tx[d] + [h]])
        == PipesOf(rx, flights, tx)[d := PipesOf(rx, flights, tx)[d] + [h]];
  }

  /** Moving the oldest queued frame behind the newest frame in flight changes no pipe. */
  lemma PipesOverTransmit(rx: seq<seq<nat>>, flights: seq<seq<Flight>>, tx: seq<seq<nat>>, d: nat, f: Flight)
    requires d < |rx| == |flights| == |tx| && tx[d] != [] && f.packet == tx[d][0]
    ensures PipesOf(rx, flights[d := flights[d] + [f]], tx[d := tx[d][1..]]) == PipesOf(rx, flights, tx)
  {
    assert Packets(flights[d] + [f]) == Packets(flights[d]) + [f.packet];
    assert rx[d] + Packets(flights[d] + [f]) + tx[d][1..] == rx[d] + Packets(flights[d]) + tx[d];
    assert PipesOf(rx, flights[d := flights[d] + [f]], tx[d := tx[d][1..]]) == PipesOf(rx, flights, tx);
  }

  /** Moving the oldest frame in flight behind the newest received frame changes no pipe. */
  lemma PipesOverArrival(rx: seq<seq<nat>>, flights: seq<seq<Flight>>, tx: seq<seq<nat>>, d: nat)
    requires d < |rx| == |flights| == |tx| && flights[d] != []
    ensures PipesOf(rx[d := rx[d] + [flights[d][0].packet]], flights[d := flights[d][1..]], tx)
         == PipesOf(rx, flights, tx)
  {
    assert Packets(flights[d]) == [flights[d][0].packet] + Packets(flights[d][1..]);
    assert rx[d] + [flights[d][0].packet] + Packets(flights[d][1..]) + tx[d]
        == rx[d] + Packets(flights[d]) + tx[d];
    assert PipesOf(rx[d := rx[d] + [flights[d][0].packet]], flights[d := flights[d][1..]], tx)
        == PipesOf(rx, flights, tx);
  }

  /** Taking the oldest element of a stage takes the element at that place of the pipe. */
  lemma PipesOverRemoval(rx: seq<seq<nat>>, flights: seq<seq<Flight>>, tx: seq<seq<nat>>, d: nat)
    requires d < |rx| == |flights| == |tx|
    ensures rx[d] != [] ==>
              && PipesOf(rx, flights, tx)[d][0] == rx[d][0]
              && PipesOf(rx[d := rx[d][1..]], flights, tx)
                 == PipesOf(rx, flights, tx)[d := Without(PipesOf(rx, flights, tx)[d], 0)]
    ensures flights[d] != [] ==>
              && PipesOf(rx, flights, tx)[d][|rx[d]|] == flights[d][0].packet
              && PipesOf(rx, flights[d := flights[d][1..]], tx)
                 == PipesOf(rx, flights, tx)[d := Without(PipesOf(rx, flights, tx)[d], |rx[d]|)]
    ensures tx[d] != [] ==>
              && PipesOf(rx, flights, tx)[d][|rx[d]| + |flights[d]|] == tx[d][0]
              && PipesOf(rx, flights, tx[d := tx[d][1..]])
                 == PipesOf(rx, flights, tx)[d := Without(PipesOf(rx, flights, tx)[d], |rx[d]| + |flights[d]|)]
  {
    var pipes := PipesOf(rx, flights, tx);
    if flights[d] != [] {
      assert Packets(flights[d]) == [flights[d][0].packet] + Packets(flights[d][1..]);
      assert rx[d] + Packets(flights[d][1..]) + tx[d] == Without(pipes[d], |rx[d]|);
      assert PipesOf(rx, flights[d := flights[d][1..]], tx) == pipes[d := Without(pipes[d], |rx[d]|)];
    }
    if rx[d] != [] {
      assert rx[d][1..] + Packets(flights[d]) + tx[d] == Without(pipes[d], 0);
      assert PipesOf(rx[d := rx[d][1..]], flights, tx) == pipes[d := Without(pipes[d], 0)];
    }
    if tx[d] != [] {
      assert rx[d] + Packets(flights[d]) + tx[d][1..] == Without(pipes[d], |rx[d]| + |flights[d]|);
      assert PipesOf(rx, flights, tx[d := tx[d][1..]])
          == pipes[d := Without(pipes[d], |rx[d]| + |flights[d]|)];
    }
  }

  /** A link without carrier holds no frame. */
  ghost predicate Quiet(slots: seq<Slot>, pipes: seq<seq<nat>>)
    requires |pipes| == 2 * |slots|
  {
    forall d :: 0 <= d < |pipes| ==> (slots[d / 2].active && slots[d / 2].carrier) || pipes[d] == []
  }

  /** Every active link has a rate. */
  ghost predicate Rated(slots: seq<Slot>, timing: seq<Timing>)
    requires |timing| == 2 * |slots|
  {
    forall d :: 0 <= d < |timing| && slots[d / 2].active ==> timing[d].bps > 0
  }

  lemma RatedOverUpdate(slots: seq<Slot>, timing: seq<Timing>, d: nat, available: int)
    requires |timing| == 2 * |slots| && d < |timing| && Rated(slots, timing)
    ensures Rated(slots, timing[d := timing[d].(available := available)])
  {
  }

  lemma SlotUpdate(slots: seq<Slot>, timing: seq<Timing>, pipes: seq<seq<nat>>, i: nat, slot: Slot)
    requires i < |slots| && |timing| == |pipes| == 2 * |slots| && Rated(slots, timing) && Quiet(slots, pipes)
    requires slot.active ==> timing[2 * i].bps > 0 && timing[2 * i + 1].bps > 0
    requires (slot.active && slot.carrier) || (pipes[2 * i] == [] && pipes[2 * i + 1] == [])
    ensures Rated(slots[i := slot], timing) && Quiet(slots[i := slot], pipes)
  {
    forall d | 0 <= d < |pipes|
      ensures d / 2 == i ==> d == 2 * i || d == 2 * i + 1
    {
    }
  }

  /** Link `i` was emptied: all its frames, and no others, were dropped and counted. */
  ghost predicate Emptied(before: Ledger, now: Ledger, i: nat)
    requires 2 * i + 1 < |before.pipes|
  {
    && now.pipes == before.pipes[2 * i := []][2 * i + 1 := []]
    && now.dropped == before.dropped + |before.pipes[2 * i]| + |before.pipes[2 * i + 1]|
    && now.offered == before.offered && now.delivered == before.delivered
    && now.external == before.external
  }

  class Fabric {
    const slab: Slab
    var pool: Pool
    var slots: seq<Slot>
    var tx: seq<seq<nat>>
    var rx: seq<seq<nat>>
    var timing: seq<Timing>
    var dropped: nat
    var transmitCursor: nat
    var deliveryCursor: nat
    ghost var external: multiset<nat>
    ghost var offered: nat
    ghost var delivered: nat

    /** Direction `2 * i + e` carries what endpoint `e` of link slot `i` sends. */
    ghost predicate Shape()
      reads this, slab, slab.nodes, slab.free
    {
      && slab.Valid() && slab.nodes.Length == |pool.references|
      && 0 < |slots| && |slab.flights| == 2 * |slots| == |tx| == |rx| == |timing|
      && transmitCursor < |slots| && deliveryCursor < |slots|
      && (forall d :: 0 <= d < |tx| ==> |tx[d]| <= QUEUE_CAPACITY)
      && (forall d :: 0 <= d < |rx| ==> |rx[d]| <= QUEUE_CAPACITY)
      && Rated(slots, timing)
    }

    ghost function Books(): Ledger
      requires Shape()
      reads this, slab, slab.nodes, slab.free
    {
      Ledger(PipesOf(rx, slab.flights, tx), pool, external, offered, dropped, delivered)
    }

    /** The books balance, a link without carrier is quiet, and frames arrive in the order sent. */
    ghost predicate Valid()
      reads this, slab, slab.nodes, slab.free
    {
      && Shape()
      && Balanced(Books())
      && Quiet(slots, Books().pipes)
      && Ordered(slab.flights, timing)
    }

    constructor (capacity: nat, links: nat)
      requires capacity <= NO_NODE && links > 0
      ensures Valid() && fresh(slab) && fresh(slab.nodes) && fresh(slab.free)
      ensures dropped == 0 && offered == 0 && delivered == 0 && external == multiset{}
      ensures slab.nodes.Length == capacity && |slots| == links
      ensures forall d :: 0 <= d < |tx| ==> Books().pipes[d] == []
    {
      slab := new Slab(capacity, 2 * links);
      pool := FullPool(capacity);
      slots := seq(links, i => Slot(0, false, false, (0, 0)));
      tx := seq(2 * links, i => []);
      rx := seq(2 * links, i => []);
      timing := seq(2 * links, i => Timing(0, 0, 0));
      dropped, transmitCursor, deliveryCursor := 0, 0, 0;
      external, offered, delivered := multiset{}, 0, 0;
      new;
      hide ValidState, AllFlights, PipesOf, Balanced, Held, Counts, ValidPool;
      BlankBalances(Books(), capacity);
    }

    /** The handle is that of a link in service. */
    ghost predicate Names(link: Link)
      reads this
    {
      link.index < |slots| && (slots[link.index].active, slots[link.index].generation) == (true, link.generation)
    }

    /** The endpoint of the link can take one more frame. */
    ghost predicate Open(link: Link, endpoint: nat)
      reads this
    {
      && Names(link) && endpoint in {0, 1} && slots[link.index].carrier
      && 2 * link.index + endpoint < |tx| && |tx[2 * link.index + endpoint]| < 256
    }

    predicate Found(link: Link)
      reads this
    {
      link.index < |slots| && slots[link.index].active && slots[link.index].generation == link.generation
    }

    /** Moves the oldest queued frame of `d` onto the medium. Without a free node nothing happens;
        either way every pipe, and so every frame's place, stays as it was. */
    method TransmitOne(d: nat, now: int) returns (ok: bool)
      requires Valid() && d < |tx| && tx[d] != [] && timing[d].bps > 0
      modifies this, slab, slab.nodes
      ensures Valid() && Books() == old(Books()) && slots == old(slots)
      ensures transmitCursor == old(transmitCursor) && deliveryCursor == old(deliveryCursor)
      ensures ok <==> old(slab.freeCount) > 0
      ensures slab.freeCount == if ok then old(slab.freeCount) - 1 else old(slab.freeCount)
      ensures !ok ==> slab.flights == old(slab.flights) && tx == old(tx) && timing == old(timing)
      ensures ok ==>
                && tx == old(tx)[d := old(tx)[d][1..]]
                && slab.flights == old(slab.flights)[d := old(slab.flights)[d]
                     + [Flight(old(tx)[d][0], DueAt(now, old(timing)[d], SizeOf(old(pool), old(tx)[d][0])))]]
                && timing == old(timing)[d := old(timing)[d].(
                     available := FreeAt(now, old(timing)[d], SizeOf(old(pool), old(tx)[d][0])))]
    {
      hide Balanced, NanosecondsFor, Quiet, Ordered, Rated, ValidState, AllFlights, PipesOf, DueAt, FreeAt;
      var handle := tx[d][0];
      var size := SizeOf(pool, handle);
      var due := DueAt(now, timing[d], size);
      PipesOverTransmit(rx, slab.flights, tx, d, Flight(handle, due));
      OrderedOverTransmit(slab.flights, timing, d, now, handle, size);
      ok := slab.Append(d, handle, due);
      if ok {
        RatedOverUpdate(slots, timing, d, FreeAt(now, timing[d], size));
        timing := timing[d := timing[d].(available := FreeAt(now, timing[d], size))];
        tx := tx[d := tx[d][1..]];
      }
    }

    /** Moves the oldest frame in flight on `d` to the receiver if it is due and there is room. */
    method Arrive(d: nat, now: int)
      requires Valid() && d < |tx|
      modifies this, slab, slab.nodes, slab.free
      ensures Valid() && Books() == old(Books()) && slots == old(slots)
      ensures transmitCursor == old(transmitCursor) && deliveryCursor == old(deliveryCursor)
      ensures rx == if |old(rx)[d]| < QUEUE_CAPACITY && old(slab.flights)[d] != []
                       && old(slab.flights)[d][0].delivered <= now
                    then old(rx)[d := old(rx)[d] + [old(slab.flights)[d][0].packet]] else old(rx)
      ensures slab.flights == if rx == old(rx) then old(slab.flights)
                              else old(slab.flights)[d := old(slab.flights)[d][1..]]
      ensures rx == old(rx)[d := rx[d]] && slab.flights == old(slab.flights)[d := slab.flights[d]]
      ensures (if rx[d] == [] then 0 else 1) == Ready(old(rx), old(slab.flights), now, d)
    {
      hide Balanced, Quiet, Ordered, Rated, ValidState, AllFlights, PipesOf;
      if |rx[d]| < QUEUE_CAPACITY {
        var some, f := slab.Front(d);
        if some && f.delivered <= now {
          PipesOverArrival(rx, slab.flights, tx, d);
          OrderedOverRemoval(slab.flights, timing, d);
          f := slab.PopFront(d);
          rx := rx[d := rx[d] + [f.packet]];
        }
      }
    }

    /** Hands the oldest received frame of `d` to the callback and releases its reference. */
    method Deliver(d: nat) returns (handle: nat)
      requires Valid() && d < |tx| && rx[d] != []
      modifies this
      ensures Valid() && slots == old(slots)
      ensures transmitCursor == old(transmitCursor) && deliveryCursor == old(deliveryCursor)
      ensures handle == old(Books()).pipes[d][0] && Books() == Leave(old(Books()), d, 0, false)
      ensures rx == old(rx)[d := old(rx)[d][1..]]
    {
      hide Balanced, Quiet, Ordered, Rated, ValidState, AllFlights, PipesOf, Release, Without;
      PipesOverRemoval(rx, slab.flights, tx, d);
      LeaveBalances(Books(), d, 0, false);
      QuietOverUpdate(slots, Books().pipes, d, Without(Books().pipes[d], 0));
      handle := rx[d][0];
      rx := rx[d := rx[d][1..]];
      pool := Release(pool, handle);
      delivered := delivered + 1;
    }

    /** Releases and counts as dropped the oldest frame of one stage of `d`. */
    method DropQueued(d: nat)
      requires Valid() && d < |tx| && tx[d] != []
      modifies this
      ensures Valid() && slots == old(slots) && rx == old(rx) && tx == old(tx)[d := old(tx)[d][1..]]
      ensures transmitCursor == old(transmitCursor) && deliveryCursor == old(deliveryCursor)
      ensures Books() == Leave(old(Books()), d, |rx[d]| + |slab.flights[d]|, true)
    {
      hide Balanced, Quiet, Ordered, Rated, ValidState, AllFlights, PipesOf, Release, Without;
      ghost var k := |rx[d]| + |slab.flights[d]|;
      PipesOverRemoval(rx, slab.flights, tx, d);
      LeaveBalances(Books(), d, k, true);
      QuietOverUpdate(slots, Books().pipes, d, Without(Books().pipes[d], k));
      pool := Release(pool, tx[d][0]);
      tx := tx[d := tx[d][1..]];
      dropped := dropped + 1;
    }

    method DropInFlight(d: nat)
      requires Valid() && d < |tx| && slab.flights[d] != []
      modifies this, slab, slab.nodes, slab.free
      ensures Valid() && slots == old(slots) && rx == old(rx) && tx == old(tx)
      ensures slab.flights == old(slab.flights)[d := old(slab.flights)[d][1..]]
      ensures transmitCursor == old(transmitCursor) && deliveryCursor == old(deliveryCursor)
      ensures Books() == Leave(old(Books()), d, |rx[d]|, true)
    {
      hide Balanced, Quiet, Ordered, Rated, ValidState, AllFlights, PipesOf, Release, Without;
      PipesOverRemoval(rx, slab.flights, tx, d);
      LeaveBalances(Books(), d, |rx[d]|, true);
      QuietOverUpdate(slots, Books().pipes, d, Without(Books().pipes[d], |rx[d]|));
      OrderedOverRemoval(slab.flights, timing, d);
      var f := slab.PopFront(d);
      pool := Release(pool, f.packet);
      dropped := dropped + 1;
    }

    method DropReceived(d: nat)
      requires Valid() && d < |tx| && rx[d] != []
      modifies this
      ensures Valid() && slots == old(slots) && tx == old(tx) && rx == old(rx)[d := old(rx)[d][1..]]
      ensures transmitCursor == old(transmitCursor) && deliveryCursor == old(deliveryCursor)
      ensures Books() == Leave(old(Books()), d, 0, true)
    {
      hide Balanced, Quiet, Ordered, Rated, ValidState, AllFlights, PipesOf, Release, Without;
      PipesOverRemoval(rx, slab.flights, tx, d);
      LeaveBalances(Books(), d, 0, true);
      QuietOverUpdate(slots, Books().pipes, d, Without(Books().pipes[d], 0));
      pool := Release(pool, rx[d][0]);
      rx := rx[d := rx[d][1..]];
      dropped := dropped + 1;
    }

    method DrainQueued(d: nat)
      requires Valid() && d < |tx|
      modifies this
      ensures Valid() && slots == old(slots) && Drained(old(Books()), Books(), d)
      ensures transmitCursor == old(transmitCursor) && deliveryCursor == old(deliveryCursor)
      ensures tx[d] == []
    {
      hide Balanced, Quiet, Ordered, Rated, ValidState, AllFlights, PipesOf, Leave;
      while tx[d] != []
        invariant Valid() && |tx| == |old(tx)| && slots == old(slots) && Drained(old(Books()), Books(), d)
        invariant transmitCursor == old(transmitCursor) && deliveryCursor == old(deliveryCursor)
        decreases |tx[d]|
      {
        DrainedStep(old(Books()), Books(), d, |rx[d]| + |slab.flights[d]|);
        DropQueued(d);
      }
    }

    method DrainInFlight(d: nat)
      requires Valid() && d < |tx|
      modifies this, slab, slab.nodes, slab.free
      ensures Valid() && slots == old(slots) && tx == old(tx) && Drained(old(Books()), Books(), d)
      ensures transmitCursor == old(transmitCursor) && deliveryCursor == old(deliveryCursor)
      ensures slab.flights[d] == []
    {
      hide Balanced, Quiet, Ordered, Rated, ValidState, AllFlights, PipesOf, Leave;
      var some, f := slab.Front(d);
      while some
        invariant Valid() && tx == old(tx) && slots == old(slots) && Drained(old(Books()), Books(), d)
        invariant transmitCursor == old(transmitCursor) && deliveryCursor == old(deliveryCursor)
        invariant some <==> slab.flights[d] != []
        decreases |slab.flights[d]|
      {
        DrainedStep(old(Books()), Books(), d, |rx[d]|);
        DropInFlight(d);
        some, f := slab.Front(d);
      }
    }

    method DrainReceived(d: nat)
      requires Valid() && d < |tx|
      modifies this
      ensures Valid() && slots == old(slots) && tx == old(tx) && Drained(old(Books()), Books(), d)
      ensures transmitCursor == old(transmitCursor) && deliveryCursor == old(deliveryCursor)
      ensures rx[d] == []
    {
      hide Balanced, Quiet, Ordered, Rated, ValidState, AllFlights, PipesOf, Leave;
      while rx[d] != []
        invariant Valid() && tx == old(tx) && slots == old(slots) && Drained(old(Books()), Books(), d)
        invariant transmitCursor == old(transmitCursor) && deliveryCursor == old(deliveryCursor)
        decreases |rx[d]|
      {
        DrainedStep(old(Books()), Books(), d, 0);
        DropReceived(d);
      }
    }

    /** Empties all three stages of `d`: each of its frames is released once and counted once, and
        no other direction is touched. */
    method DrainDirection(d: nat)
      requires Valid() && d < |tx|
      modifies this, slab, slab.nodes, slab.free
      ensures Valid() && slots == old(slots)
      ensures transmitCursor == old(transmitCursor) && deliveryCursor == old(deliveryCursor)
      ensures Drained(old(Books()), Books(), d) && Books().pipes[d] == []
    {
      hide Balanced, Quiet, Ordered, Rated, ValidState, AllFlights;
      DrainQueued(d);
      DrainInFlight(d);
      DrainReceived(d);
      RatedOverUpdate(slots, timing, d, 0);
      OrderedOverTiming(slab.flights, timing, d, timing[d].(available := 0));
      timing := timing[d := timing[d].(available := 0)];
    }

    method Drain(i: nat)
      requires Valid() && i < |slots|
      modifies this, slab, slab.nodes, slab.free
      ensures Valid() && slots == old(slots)
      ensures transmitCursor == old(transmitCursor) && deliveryCursor == old(deliveryCursor)
      ensures Emptied(old(Books()), Books(), i)
    {
      hide Balanced, Quiet, Ordered, Rated, ValidState, AllFlights, PipesOf;
      DrainDirection(2 * i);
      DrainDirection(2 * i + 1);
    }

    /** Replaces the description of link `i`; a link that loses carrier must be empty. */
    method Describe(i: nat, slot: Slot)
      requires Valid() && i < |slots|
      requires slot.active ==> timing[2 * i].bps > 0 && timing[2 * i + 1].bps > 0
      requires (slot.active && slot.carrier) || (Books().pipes[2 * i] == [] && Books().pipes[2 * i + 1] == [])
      modifies this`slots
      ensures Valid() && Books() == old(Books()) && slots == old(slots)[i := slot]
    {
      hide Balanced, Quiet, Ordered, Rated, ValidState, AllFlights, PipesOf;
      SlotUpdate(slots, timing, Books().pipes, i, slot);
      slots := slots[i := slot];
    }

    /** Takes a link out of service; false, and no change, for a stale handle. */
    method Remove(link: Link) returns (ok: bool)
      requires Valid()
      modifies this, slab, slab.nodes, slab.free
      ensures Valid() && (ok <==> old(Names(link))) && !Names(link)
      ensures !ok ==> Books() == old(Books()) && slots == old(slots)
      ensures ok ==> Emptied(old(Books()), Books(), link.index)
      ensures slots == if ok then old(slots)[link.index := Slot(link.generation, false, false, (0, 0))] else old(slots)
    {
      hide Balanced, Quiet, Ordered, Rated, ValidState, AllFlights, PipesOf;
      if !Found(link) {
        return false;
      }
      Drain(link.index);
      Describe(link.index, slots[link.index].(active := false, carrier := false, endpoints := (0, 0)));
      return true;
    }

    /** Carrier loss empties the link; carrier gain and a repeated state change no frame. */
    method SetCarrier(link: Link, up: bool) returns (ok: bool)
      requires Valid()
      modifies this, slab, slab.nodes, slab.free
      ensures Valid() && (ok <==> old(Names(link)))
      ensures slots == if ok then old(slots)[link.index := old(slots)[link.index].(carrier := up)] else old(slots)
      ensures ok && !up && old(slots)[link.index].carrier ==> Emptied(old(Books()), Books(), link.index)
      ensures !(ok && !up && old(slots)[link.index].carrier) ==> Books() == old(Books())
    {
      hide Balanced, Quiet, Ordered, Rated, ValidState, AllFlights, PipesOf;
      if !Found(link) {
        return false;
      }
      if slots[link.index].carrier == up {
        return true;
      }
      RatesOf(slots, timing, link.index);
      if !up {
        Drain(link.index);
        RatesOf(slots, timing, link.index);
      }
      Describe(link.index, slots[link.index].(carrier := up));
      return true;
    }

    method SetTiming(i: nat, t: Timing)
      requires Valid() && i < |slots| && t.bps > 0
      requires Books().pipes[2 * i] == [] && Books().pipes[2 * i + 1] == []
      modifies this`timing
      ensures Valid() && Books() == old(Books()) && timing[2 * i] == timing[2 * i + 1] == t
    {
      hide Balanced, Quiet, Ordered, Rated, ValidState, AllFlights, PipesOf;
      RatedOverTiming(slots, timing, i, t);
      OrderedOverTiming(slab.flights, timing, 2 * i, t);
      OrderedOverTiming(slab.flights, timing[2 * i := t], 2 * i + 1, t);
      timing := timing[2 * i := t][2 * i + 1 := t];
    }

    /** Publishes a link; whatever its slot carried before is dropped. Invalid values change nothing. */
    method Configure(link: Link, first: nat, second: nat, bps: Rate, propagation: int, carrier: bool)
      returns (ok: bool)
      requires Valid()
      modifies this, slab, slab.nodes, slab.free
      ensures Valid()
      ensures ok <==> link.generation != 0 && first != 0 && second != 0 && first != second && bps != 0
                      && propagation >= 0 && link.index < |old(slots)|
      ensures !ok ==> Books() == old(Books()) && slots == old(slots)
      ensures ok ==> Emptied(old(Books()), Books(), link.index)
      ensures ok ==> slots == old(slots)[link.index := Slot(link.generation, true, carrier, (first, second))]
    {
      hide Balanced, Quiet, Ordered, Rated, ValidState, AllFlights, PipesOf;
      if link.generation == 0 || first == 0 || second == 0 || first == second || bps == 0
         || propagation < 0 || link.index >= |slots| {
        return false;
      }
      var i := link.index;
      if slots[i].active {
        Drain(i);
      } else {
        QuietOf(slots, Books().pipes, i);
      }
      SetTiming(i, Timing(bps, propagation, 0));
      Describe(i, Slot(link.generation, true, carrier, (first, second)));
      return true;
    }

    /** The direction is up and has room. */
    predicate Accepts(link: Link, endpoint: nat)
      reads this
    {
      && Found(link) && endpoint <= 1 && slots[link.index].carrier
      && 2 * link.index + endpoint < |tx| && |tx[2 * link.index + endpoint]| < QUEUE_CAPACITY
    }

    /** Queues or gives up a reference that the caller holds. */
    method EnqueueOwned(link: Link, endpoint: nat, h: nat) returns (reason: DropReason)
      requires Valid() && h in external
      modifies this
      ensures Valid() && slots == old(slots) && rx == old(rx)
      ensures reason == NoDrop <==> old(Open(link, endpoint))
      ensures reason == StaleLink <==> !old(Names(link)) || endpoint > 1
      ensures reason == CarrierDown <==> old(Names(link)) && endpoint <= 1 && !old(slots)[link.index].carrier
      ensures reason != PoolFull
      ensures Books() == if reason == NoDrop then Publish(old(Books()), 2 * link.index + endpoint, h)
                         else Discard(old(Books()), h)
    {
      hide Balanced, Quiet, Ordered, Rated, ValidState, AllFlights, PipesOf, Release;
      if Accepts(link, endpoint) {
        Queue(2 * link.index + endpoint, h);
        return NoDrop;
      }
      reason := if !Found(link) || endpoint > 1 then StaleLink
                else if !slots[link.index].carrier then CarrierDown else QueueFull;
      GiveUp(h);
    }

    method Queue(d: nat, h: nat)
      requires Valid() && h in external
      requires d < |tx| && |tx[d]| < QUEUE_CAPACITY && slots[d / 2].active && slots[d / 2].carrier
      modifies this
      ensures Valid() && slots == old(slots) && rx == old(rx) && Books() == Publish(old(Books()), d, h)
    {
      hide Balanced, Quiet, Ordered, Rated, ValidState, AllFlights, PipesOf;
      PublishBalances(Books(), d, h);
      PipesOverEnqueue(rx, slab.flights, tx, d, h);
      QuietOverUpdate(slots, Books().pipes, d, Books().pipes[d] + [h]);
      tx := tx[d := tx[d] + [h]];
      external, offered := external - multiset{h}, offered + 1;
    }

    method GiveUp(h: nat)
      requires Valid() && h in external
      modifies this
      ensures Valid() && slots == old(slots) && rx == old(rx) && Books() == Discard(old(Books()), h)
    {
      hide Balanced, Quiet, Ordered, Rated, ValidState, AllFlights, PipesOf, Release, ValidPool, Held, Counts;
      DiscardBalances(Books(), h);
      offered, dropped := offered + 1, dropped + 1;
      pool := Release(pool, h);
      external := external - multiset{h};
    }

    method CountRefusal()
      requires Valid()
      modifies this
      ensures Valid() && slots == old(slots) && rx == old(rx) && Books() == Refuse(old(Books()))
    {
      hide Quiet, Ordered, Rated, ValidState, AllFlights, PipesOf, Held, Counts, ValidPool;
      dropped, offered := dropped + 1, offered + 1;
    }

    /** Allocates a pool slot for a frame of the caller's. */
    method AllocateFrame(size: FrameSize) returns (h: nat)
      requires Valid() && pool.free != []
      modifies this
      ensures Valid() && slots == old(slots) && rx == old(rx) && tx == old(tx) && h in external
      ensures h == old(pool).free[|old(pool).free| - 1]
      ensures Books() == Take(old(Books()), size)
    {
      hide Quiet, Ordered, Rated, ValidState, AllFlights, PipesOf, Balanced;
      EnqueueOutcomes(Books(), 0, 0, size);
      TakeBalances(Books(), size);
      var (pool', handle) := Allocate(pool, size);
      h := handle;
      pool, external := pool', external + multiset{h};
    }

    method RetainFrame(h: nat)
      requires Valid() && Retainable(pool, h)
      modifies this
      ensures Valid() && slots == old(slots) && rx == old(rx) && tx == old(tx) && h in external
      ensures Books() == Keep(old(Books()), h)
    {
      hide Quiet, Ordered, Rated, ValidState, AllFlights, PipesOf, Balanced;
      KeepBalances(Books(), h);
      pool, external := Retain(pool, h), external + multiset{h};
    }

    /** Copies a frame into the pool and queues it. On success the frame is the newest of its
        direction; every refusal is counted once and leaves all pipes and references as they were. */
    method Enqueue(link: Link, endpoint: nat, size: FrameSize) returns (reason: DropReason)
      requires Valid()
      modifies this
      ensures Valid() && slots == old(slots) && rx == old(rx)
      ensures reason == NoDrop <==> old(Open(link, endpoint)) && old(pool).free != []
      ensures reason == StaleLink <==> !old(Names(link)) || endpoint > 1
      ensures reason == CarrierDown <==> old(Names(link)) && endpoint <= 1 && !old(slots)[link.index].carrier
      ensures reason == PoolFull ==> old(pool).free == []
      ensures reason == NoDrop ==> Admitted(old(Books()), Books(), 2 * link.index + endpoint, size)
      ensures reason != NoDrop ==> Refused(old(Books()), Books())
    {
      hide Balanced, Quiet, Ordered, Rated, ValidState, AllFlights, PipesOf, Release, Take, Publish, Discard, Admit;
      if !Found(link) || endpoint > 1 {
        CountRefusal();
        return StaleLink;
      }
      if !slots[link.index].carrier {
        CountRefusal();
        return CarrierDown;
      }
      if pool.free == [] {
        CountRefusal();
        return PoolFull;
      }
      EnqueueOutcomes(Books(), 2 * link.index + endpoint, 0, size);
      var h := AllocateFrame(size);
      reason := EnqueueOwned(link, endpoint, h);
    }

    /** Queues one more reference to a frame that somebody holds. A refusal gives back exactly the
        reference it took. */
    method EnqueueShared(link: Link, endpoint: nat, h: nat) returns (reason: DropReason)
      requires Valid()
      modifies this
      ensures Valid() && slots == old(slots) && rx == old(rx)
      ensures reason == PoolFull <==> !Shareable(old(pool), h)
      ensures reason == NoDrop <==> Shareable(old(pool), h) && old(Open(link, endpoint))
      ensures reason == NoDrop ==> Books() == Share(old(Books()), 2 * link.index + endpoint, h)
      ensures reason != NoDrop ==> Books() == Refuse(old(Books()))
    {
      hide Balanced, Quiet, Ordered, Rated, ValidState, AllFlights, PipesOf, Release, Keep, Publish, Discard, Share;
      if !Retainable(pool, h) {
        CountRefusal();
        return PoolFull;
      }
      EnqueueOutcomes(Books(), if Accepts(link, endpoint) then 2 * link.index + endpoint else 0, h, 0);
      RetainFrame(h);
      reason := EnqueueOwned(link, endpoint, h);
    }

    /** While no frame is shared, the medium cannot run out of nodes before a queued frame: the slab
        is as large as the pool, and the queued frame holds a pool slot that is not in flight. */
    lemma QueuedFrameFindsNode(d: nat)
      requires Valid() && d < |tx| && tx[d] != []
      requires forall h :: 0 <= h < |pool.references| ==> pool.references[h] <= 1
      ensures slab.freeCount > 0
    {
      slab.InFlightCount();
      var pipes, lists, held := Books().pipes, slab.lists, Held(Books().pipes);
      forall e | 0 <= e < |pipes|
        ensures |pipes[e]| >= |lists[e]| + if e == d then 1 else 0
      {
        assert pipes[e] == rx[e] + Packets(slab.flights[e]) + tx[e];
      }
      HeldCoversFlights(pipes, lists, d);
      forall h | h in held
        ensures h < |pool.references| && held[h] <= 1
      {
        assert h in held + external;
      }
      UnsharedFits(held, |pool.references|);
    }

    ghost function Stages(): Medium
      reads this, slab
    {
      Medium(tx, slab.flights, timing)
    }

    /** Offers direction `d` the medium; `blocked` if a frame was queued and no node was free. */
    method TransmitDirection(d: nat, now: int, budget: nat) returns (left: nat, blocked: bool)
      requires Valid() && d < |tx| && timing[d].bps > 0
      modifies this, slab, slab.nodes
      ensures Valid() && Books() == old(Books()) && slots == old(slots)
      ensures transmitCursor == old(transmitCursor) && deliveryCursor == old(deliveryCursor)
      ensures left <= budget && budget - left == old(slab.freeCount) - slab.freeCount
      ensures blocked ==> slab.freeCount == 0
      ensures DirectionSent(pool, old(Stages()), Stages(), now, d, left > 0 && !blocked)
    {
      hide Balanced, Quiet, Ordered, Rated, ValidState, AllFlights, PipesOf, DueAt, FreeAt, SizeOf;
      left, blocked := budget, false;
      if left > 0 && tx[d] != [] {
        var ok := TransmitOne(d, now);
        if ok {
          left := left - 1;
        }
        blocked := !ok;
      }
    }

    /** Offers both directions of slot `i` the medium; the second is skipped when no node was free
        for the first. */
    method TransmitSlot(i: nat, now: int, budget: nat) returns (left: nat)
      requires Valid() && i < |slots|
      modifies this, slab, slab.nodes
      ensures Valid() && Books() == old(Books()) && slots == old(slots)
      ensures transmitCursor == old(transmitCursor) && deliveryCursor == old(deliveryCursor)
      ensures left <= budget && budget - left == old(slab.freeCount) - slab.freeCount
      ensures SlotSent(pool, old(Stages()), Stages(), now, i, left > 0 && slab.freeCount > 0)
    {
      hide Balanced, Quiet, Ordered, Rated, ValidState, AllFlights, PipesOf, SlotSent, DirectionSent;
      left := budget;
      if !slots[i].active || !slots[i].carrier {
        QuietTransmitter(slots, rx, slab.flights, tx, i);
        SlotKept(pool, Stages(), now, i, true);
        return;
      }
      RatesOf(slots, timing, i);
      var blocked;
      left, blocked := TransmitDirection(2 * i, now, left);
      ghost var between, all := Stages(), left > 0 && !blocked;
      FirstSent(pool, old(Stages()), between, now, i, all);
      if blocked {
        return;
      }
      RatesOf(slots, timing, i);
      left, blocked := TransmitDirection(2 * i + 1, now, left);
      SecondSent(pool, old(Stages()), between, Stages(), now, i, all, left > 0 && !blocked, left > 0 && slab.freeCount > 0);
    }

    /** One transmit round moves no frame within its pipe, and takes or gives no reference. Each
        direction sends its oldest queued frame or nothing. Unless the budget or the nodes are used
        up, every direction with a queued frame sends. */
    method PumpTransmit(now: int)
      requires Valid()
      modifies this, slab, slab.nodes
      ensures Valid() && Books() == old(Books()) && slots == old(slots)
      ensures transmitCursor == (old(transmitCursor) + 1) % |slots| && deliveryCursor == old(deliveryCursor)
      ensures slab.freeCount <= old(slab.freeCount) <= slab.freeCount + WORK_BUDGET
      ensures RoundSent(pool, old(Stages()), Stages(), now,
                        old(slab.freeCount) < slab.freeCount + WORK_BUDGET && slab.freeCount > 0)
    {
      hide Balanced, Quiet, Ordered, Rated, ValidState, AllFlights, PipesOf, SlotSent, VisitsSent;
      var budget, visited := WORK_BUDGET, 0;
      NoneSent(pool, Stages(), now, transmitCursor, slab.freeCount > 0);
      while visited < |slots| && budget > 0
        invariant Valid() && Books() == old(Books()) && slots == old(slots) && visited <= |slots|
        invariant transmitCursor == old(transmitCursor) && deliveryCursor == old(deliveryCursor)
        invariant 0 <= budget <= WORK_BUDGET && WORK_BUDGET - budget == old(slab.freeCount) - slab.freeCount
        invariant VisitsSent(pool, old(Stages()), Stages(), now, transmitCursor, visited,
                             budget > 0 && slab.freeCount > 0)
        decreases |slots| - visited
      {
        ghost var between, more := Stages(), budget > 0 && slab.freeCount > 0;
        budget := TransmitSlot((transmitCursor + visited) % |slots|, now, budget);
        OneMoreSent(pool, old(Stages()), between, Stages(), now, transmitCursor, visited,
                    more, budget > 0 && slab.freeCount > 0);
        visited := visited + 1;
      }
      AllSent(pool, old(Stages()), Stages(), now, transmitCursor, visited, budget > 0 && slab.freeCount > 0);
      transmitCursor := (transmitCursor + 1) % |slots|;
    }

    /** Receives on direction `d` and hands at most one frame to the callback. */
    method DeliverDirection(d: nat, now: int, budget: nat) returns (out: seq<Delivery>)
      requires Valid() && d < |tx|
      modifies this, slab, slab.nodes, slab.free
      ensures Valid() && slots == old(slots)
      ensures transmitCursor == old(transmitCursor) && deliveryCursor == old(deliveryCursor)
      ensures Took(slots, old(Books()), out, Books())
      ensures |out| == if budget > 0 then Ready(old(rx), old(slab.flights), now, d) else 0
      ensures out != [] ==> out[0].direction == d
      ensures rx == old(rx)[d := rx[d]] && slab.flights == old(slab.flights)[d := slab.flights[d]]
    {
      hide Balanced, Quiet, Ordered, Rated, ValidState, AllFlights, PipesOf, Took, Leave, Without, Describing, Ready;
      TookNothing(slots, Books());
      Arrive(d, now);
      out := [];
      if budget > 0 && rx[d] != [] {
        TookOne(slots, Books(), d);
        var handle := Deliver(d);
        out := [Describing(slots, d, handle)];
      }
    }

    method DeliverSlot(i: nat, now: int, budget: nat) returns (out: seq<Delivery>)
      requires Valid() && i < |slots|
      modifies this, slab, slab.nodes, slab.free
      ensures Valid() && slots == old(slots)
      ensures transmitCursor == old(transmitCursor) && deliveryCursor == old(deliveryCursor)
      ensures |out| <= budget && Took(slots, old(Books()), out, Books())
      ensures rx == old(rx)[2 * i := rx[2 * i]][2 * i + 1 := rx[2 * i + 1]]
      ensures slab.flights == old(slab.flights)[2 * i := slab.flights[2 * i]][2 * i + 1 := slab.flights[2 * i + 1]]
      ensures SlotServed(old(rx), old(slab.flights), now, i, out, |out| < budget)
    {
      hide Balanced, Quiet, Ordered, Rated, ValidState, AllFlights, PipesOf, Took, Ready, Seen, SlotServed;
      TookNothing(slots, Books());
      if !slots[i].active || !slots[i].carrier {
        QuietReceiver(slots, rx, slab.flights, tx, now, i, budget > 0);
        return [];
      }
      out := DeliverDirection(2 * i, now, budget);
      ghost var between := Books();
      ghost var rx1, flights1 := rx, slab.flights;
      var more := DeliverDirection(2 * i + 1, now, budget - |out|);
      TookBoth(slots, old(Books()), out, between, more, Books());
      ReadyKept(old(rx), old(slab.flights), rx1, flights1, now, 2 * i + 1);
      BothServed(old(rx), old(slab.flights), now, i, out, more, budget);
      out := out + more;
    }

    /** One delivery round: what the callback saw of each direction, followed by what is still in its
        pipe, is what was in its pipe. A direction shows a frame only if it has one that was received
        before or is due now; unless the budget is used up, every such direction shows one. */
    method PumpDelivery(now: int) returns (out: seq<Delivery>)
      requires Valid()
      modifies this, slab, slab.nodes, slab.free
      ensures Valid() && slots == old(slots)
      ensures transmitCursor == old(transmitCursor) && deliveryCursor == (old(deliveryCursor) + 1) % |slots|
      ensures |out| <= WORK_BUDGET && Took(slots, old(Books()), out, Books())
      ensures RoundServed(old(rx), old(slab.flights), now, out)
    {
      hide Balanced, Quiet, Ordered, Rated, ValidState, AllFlights, PipesOf, Took, Ready, Seen, SlotServed, VisitsServed,
        RoundServed, Describing;
      TookNothing(slots, Books());
      NoneServed(rx, slab.flights, now, deliveryCursor);
      out := [];
      var visited := 0;
      while visited < |slots| && |out| < WORK_BUDGET
        invariant Valid() && slots == old(slots) && visited <= |slots|
        invariant transmitCursor == old(transmitCursor) && deliveryCursor == old(deliveryCursor)
        invariant |out| <= WORK_BUDGET && Took(slots, old(Books()), out, Books())
        invariant VisitsServed(old(rx), old(slab.flights), rx, slab.flights, now, deliveryCursor, visited, out)
        decreases |slots| - visited
      {
        ghost var between, rx1, flights1 := Books(), rx, slab.flights;
        var more := DeliverSlot((deliveryCursor + visited) % |slots|, now, WORK_BUDGET - |out|);
        TookBoth(slots, old(Books()), out, between, more, Books());
        OneMoreServed(old(rx), old(slab.flights), rx1, flights1, rx, slab.flights, now, deliveryCursor, visited,
                      out, more);
        out := out + more;
        visited := visited + 1;
      }
      AllServed(old(rx), old(slab.flights), rx, slab.flights, now, deliveryCursor, visited, out);
      deliveryCursor := (deliveryCursor + 1) % |slots|;
    }
  }

  /** Nothing is held, so the only pool slot and the only node are free. */
  ghost predicate Blank(f: Fabric)
    reads f, f.slab, f.slab.nodes, f.slab.free
  {
    && f.Valid() && f.slab.nodes.Length == 1 && |f.slots| == 1 && f.external == multiset{}
    && f.Books().pipes == [[], []]
  }

  lemma OneFreeSlot(p: Pool)
    requires ValidPool(p) && |p.references| == 1 && p.references[0] == 0
    ensures p.free != [] && p.free[|p.free| - 1] == 0
  {
    assert 0 in p.free;
  }

  lemma EmptyStages(rx: seq<seq<nat>>, flights: seq<seq<Flight>>, tx: seq<seq<nat>>)
    requires |rx| == |flights| == |tx| && PipesOf(rx, flights, tx) == [[], []]
    ensures rx == tx == [[], []] && flights == [[], []]
  {
    forall d | 0 <= d < 2
      ensures rx[d] == [] && tx[d] == [] && flights[d] == []
    {
      assert |PipesOf(rx, flights, tx)[d]| == |rx[d]| + |flights[d]| + |tx[d]|;
    }
  }

  lemma NothingHeld(l: Ledger)
    requires Balanced(l) && l.pipes == [[], []] && l.external == multiset{} && |l.pool.references| == 1
    ensures l.pool.references[0] == 0 && ValidPool(l.pool)
  {
    HeldOfEmpty(l.pipes);
    assert Held(l.pipes) + l.external == multiset{};
  }

  lemma NoLists(lists: seq<seq<nat>>)
    requires lists == [[], []]
    ensures TotalLength(lists) == 0
  {
    assert TotalLength(lists[1..]) == TotalLength(lists[1..][1..]) == 0;
  }

  lemma BlankHasRoom(f: Fabric)
    requires Blank(f)
    ensures f.pool.free != [] && f.pool.free[|f.pool.free| - 1] == 0 && f.slab.freeCount == 1
    ensures f.rx == f.tx == [[], []] && f.slab.flights == [[], []]
  {
    hide ValidState, AllFlights, Balanced, PipesOf, ValidPool, Quiet, Ordered, Rated;
    NothingHeld(f.Books());
    OneFreeSlot(f.pool);
    EmptyStages(f.rx, f.slab.flights, f.tx);
    f.slab.InFlightCount();
    NoLists(f.slab.lists);
  }

  lemma AdmitsOne(l: Ledger, size: FrameSize)
    requires l.pipes == [[], []] && l.pool.free != [] && l.pool.free[|l.pool.free| - 1] == 0
    requires |l.pool.references| == |l.pool.sizes| == 1
    ensures Admit(l, 0, size).pipes == [[0], []] && Retainable(Admit(l, 0, size).pool, 0)
  {
    assert l.pipes[0] + [0] == [0];
    assert l.pipes[0 := [0]] == [[0], []];
  }

  lemma QueuedOne(tx: seq<seq<nat>>)
    requires |tx| == 2 && PipesOf([[], []], [[], []], tx) == [[0], []]
    ensures tx == [[0], []]
  {
    var rx: seq<seq<nat>>, flights: seq<seq<Flight>> := [[], []], [[], []];
    var pipes := PipesOf(rx, flights, tx);
    assert pipes[0] == rx[0] + Packets(flights[0]) + tx[0] == tx[0];
    assert pipes[1] == rx[1] + Packets(flights[1]) + tx[1] == tx[1];
  }

  method OneLink() returns (f: Fabric)
    ensures fresh(f) && fresh(f.slab) && fresh(f.slab.nodes) && fresh(f.slab.free)
    ensures Blank(f) && f.slots == [Slot(1, true, true, (1, 2))]
  {
    hide Balanced, Quiet, Ordered, Rated, ValidState, AllFlights, PipesOf;
    f := new Fabric(1, 1);
    var ok := f.Configure(Link(0, 1), 1, 2, 1_000_000, 0, true);
  }

  /** The only frame is in flight in direction 0. */
  method OneInFlight() returns (f: Fabric)
    ensures fresh(f) && fresh(f.slab) && fresh(f.slab.nodes) && fresh(f.slab.free)
    ensures f.Valid() && f.slots == [Slot(1, true, true, (1, 2))] && f.slab.freeCount == 0
    ensures f.rx == f.tx == [[], []] && |f.slab.flights| == 2 && f.slab.flights[1] == []
    ensures Retainable(f.pool, 0)
  {
    hide Balanced, Quiet, Ordered, Rated, ValidState, AllFlights, PipesOf, Admit, Retainable, DueAt, FreeAt, Refused;
    f := OneLink();
    BlankHasRoom(f);
    ghost var blank := f.Books();
    hide Blank;
    var reason := f.Enqueue(Link(0, 1), 0, 100);
    AdmitsOne(blank, 100);
    QueuedOne(f.tx);
    RatesOf(f.slots, f.timing, 0);
    var ok := f.TransmitOne(0, 0);
    assert f.tx == [[], []];
  }

  /** With a shared frame the medium does run out of nodes: one pool slot, one node, and the same frame
      sent in one direction and queued in the other. */
  method SharingExhaustsNodes() returns (f: Fabric)
    ensures fresh(f) && f.Valid() && |f.tx| == 2 && f.tx[1] != [] && f.slab.freeCount == 0
  {
    hide Balanced, Quiet, Ordered, Rated, ValidState, AllFlights, PipesOf;
    f := OneInFlight();
    assert f.Books().pipes[1] == [];
    var reason := f.EnqueueShared(Link(0, 1), 1, 0);
    assert f.Books().pipes[1] == [0];
  }

  // ---------------------------------------------------------------- rounds

  /** How many visits come before that of slot `i` when a round starts at `cursor`. */
  function Turn(cursor: nat, i: nat, n: nat): int {
    if i >= cursor then i - cursor else i + n - cursor
  }

  lemma TurnOf(cursor: nat, visited: nat, n: nat, i: nat)
    requires cursor < n && visited < n && i < n
    ensures i == (cursor + visited) % n <==> Turn(cursor, i, n) == visited
    ensures 0 <= Turn(cursor, i, n) < n
  {
    var x := cursor + visited;
    assert x == n * (x / n) + x % n;
    var q := x / n;
    assert q >= 2 ==> n * q >= n * 2;
    assert q <= 1;
    assert q == 1 <==> x >= n;
  }

  /** The sending side of all directions. */
  datatype Medium = Medium(tx: seq<seq<nat>>, flights: seq<seq<Flight>>, timing: seq<Timing>)

  ghost predicate SameSize(a: Medium, b: Medium) {
    |a.tx| == |a.flights| == |a.timing| == |b.tx| == |b.flights| == |b.timing|
  }

  ghost predicate Kept(a: Medium, b: Medium, d: nat)
    requires SameSize(a, b) && d < |a.tx|
  {
    b.tx[d] == a.tx[d] && b.flights[d] == a.flights[d] && b.timing[d] == a.timing[d]
  }

  /** Direction `d` put its oldest queued frame onto the medium at `now`. */
  ghost predicate Sent(pool: Pool, a: Medium, b: Medium, now: int, d: nat)
    requires SameSize(a, b) && d < |a.tx|
  {
    && a.tx[d] != [] && a.timing[d].bps > 0
    && var size := SizeOf(pool, a.tx[d][0]);
    && b.tx[d] == a.tx[d][1..]
    && b.flights[d] == a.flights[d] + [Flight(a.tx[d][0], DueAt(now, a.timing[d], size))]
    && b.timing[d] == a.timing[d].(available := FreeAt(now, a.timing[d], size))
  }

  /** Direction `d` sent a frame or nothing; if `all`, it sent one if one was queued. */
  ghost predicate MaySend(pool: Pool, a: Medium, b: Medium, now: int, d: nat, all: bool)
    requires SameSize(a, b) && d < |a.tx|
  {
    (Kept(a, b, d) && (all ==> a.tx[d] == [])) || Sent(pool, a, b, now, d)
  }

  ghost predicate RoundSent(pool: Pool, a: Medium, b: Medium, now: int, all: bool) {
    SameSize(a, b) && forall d :: 0 <= d < |a.tx| ==> MaySend(pool, a, b, now, d, all)
  }

  /** Only the two directions of slot `i` may have sent. */
  ghost predicate SlotSent(pool: Pool, a: Medium, b: Medium, now: int, i: nat, all: bool) {
    && SameSize(a, b)
    && forall d :: 0 <= d < |a.tx| ==>
         if d / 2 == i then MaySend(pool, a, b, now, d, all) else Kept(a, b, d)
  }

  /** Only the slots visited so far may have sent. */
  ghost predicate VisitsSent(pool: Pool, a: Medium, b: Medium, now: int, cursor: nat, visited: nat, all: bool) {
    && SameSize(a, b)
    && forall d :: 0 <= d < |a.tx| ==>
         if Turn(cursor, d / 2, |a.tx| / 2) < visited then MaySend(pool, a, b, now, d, all) else Kept(a, b, d)
  }

  /** Only direction `d` may have sent. */
  ghost predicate DirectionSent(pool: Pool, a: Medium, b: Medium, now: int, d: nat, all: bool) {
    && SameSize(a, b) && d < |a.tx|
    && MaySend(pool, a, b, now, d, all)
    && forall e :: 0 <= e < |a.tx| && e != d ==> Kept(a, b, e)
  }

  lemma SlotKept(pool: Pool, a: Medium, now: int, i: nat, all: bool)
    requires SameSize(a, a) && 2 * i + 1 < |a.tx|
    requires all ==> a.tx[2 * i] == [] && a.tx[2 * i + 1] == []
    ensures SlotSent(pool, a, a, now, i, all)
    ensures SlotSent(pool, a, a, now, i, false)
  {
    hide Sent;
  }

  lemma QuietTransmitter(slots: seq<Slot>, rx: seq<seq<nat>>, flights: seq<seq<Flight>>, tx: seq<seq<nat>>, i: nat)
    requires |rx| == |flights| == |tx| == 2 * |slots| && i < |slots| && !(slots[i].active && slots[i].carrier)
    requires Quiet(slots, PipesOf(rx, flights, tx))
    ensures tx[2 * i] == [] && tx[2 * i + 1] == []
  {
    var pipes := PipesOf(rx, flights, tx);
    assert pipes[2 * i] == [] && pipes[2 * i + 1] == [];
  }

  lemma FirstSent(pool: Pool, a: Medium, b: Medium, now: int, i: nat, all: bool)
    requires 2 * i + 1 < |a.tx| && DirectionSent(pool, a, b, now, 2 * i, all)
    ensures SlotSent(pool, a, b, now, i, false)
  {
    hide Sent;
  }

  lemma SecondSent(pool: Pool, a: Medium, b: Medium, c: Medium, now: int, i: nat, first: bool, second: bool, all: bool)
    requires 2 * i + 1 < |a.tx| && (all ==> first && second)
    requires DirectionSent(pool, a, b, now, 2 * i, first) && DirectionSent(pool, b, c, now, 2 * i + 1, second)
    ensures SlotSent(pool, a, c, now, i, all)
  {
    hide DueAt, FreeAt, SizeOf;
    forall d | 0 <= d < |a.tx|
      ensures if d / 2 == i then MaySend(pool, a, c, now, d, all) else Kept(a, c, d)
    {
      var before, after := Kept(a, b, d), Kept(b, c, d);
    }
  }

  lemma NoneSent(pool: Pool, a: Medium, now: int, cursor: nat, all: bool)
    requires SameSize(a, a) && |a.tx| % 2 == 0 && cursor < |a.tx| / 2
    ensures VisitsSent(pool, a, a, now, cursor, 0, all)
  {
  }

  lemma OneMoreSent(pool: Pool, a: Medium, b: Medium, c: Medium, now: int, cursor: nat, visited: nat,
                    more: bool, all: bool)
    requires |a.tx| % 2 == 0 && cursor < |a.tx| / 2 && visited < |a.tx| / 2 && (all ==> more)
    requires VisitsSent(pool, a, b, now, cursor, visited, more)
    requires SlotSent(pool, b, c, now, (cursor + visited) % (|a.tx| / 2), all)
    ensures VisitsSent(pool, a, c, now, cursor, visited + 1, all)
  {
    hide Turn, DueAt, FreeAt, SizeOf;
    forall d | 0 <= d < |a.tx|
      ensures if Turn(cursor, d / 2, |a.tx| / 2) < visited + 1 then MaySend(pool, a, c, now, d, all) else Kept(a, c, d)
    {
      var before, after := Kept(a, b, d), Kept(b, c, d);
      TurnOf(cursor, visited, |a.tx| / 2, d / 2);
    }
  }

  lemma AllSent(pool: Pool, a: Medium, b: Medium, now: int, cursor: nat, visited: nat, all: bool)
    requires |a.tx| % 2 == 0 && cursor < |a.tx| / 2
    requires VisitsSent(pool, a, b, now, cursor, visited, all) && (all ==> visited == |a.tx| / 2)
    ensures RoundSent(pool, a, b, now, all)
  {
    hide Sent;
  }

  /** One if direction `d` can show the callback a frame at `now`: one was received before, or the
      oldest in flight is due. */
  ghost function Ready(rx: seq<seq<nat>>, flights: seq<seq<Flight>>, now: int, d: nat): (r: nat)
    requires d < |rx| == |flights|
    ensures r <= 1
  {
    if rx[d] != [] || (flights[d] != [] && flights[d][0].delivered <= now) then 1 else 0
  }

  /** Direction `d` showed `count` frames; if `all`, it showed one if it could. */
  ghost predicate MayShow(rx: seq<seq<nat>>, flights: seq<seq<Flight>>, now: int, d: nat, count: nat, all: bool)
    requires d < |rx| == |flights|
  {
    count <= Ready(rx, flights, now, d) && (all ==> count == Ready(rx, flights, now, d))
  }

  ghost predicate RoundServed(rx: seq<seq<nat>>, flights: seq<seq<Flight>>, now: int, out: seq<Delivery>)
    requires |rx| == |flights|
  {
    forall d :: 0 <= d < |rx| ==> MayShow(rx, flights, now, d, |Seen(out, d)|, |out| < WORK_BUDGET)
  }

  ghost predicate SlotServed(rx: seq<seq<nat>>, flights: seq<seq<Flight>>, now: int, i: nat,
                             out: seq<Delivery>, all: bool)
    requires |rx| == |flights|
  {
    forall d :: 0 <= d < |rx| ==>
      if d / 2 == i then MayShow(rx, flights, now, d, |Seen(out, d)|, all) else Seen(out, d) == []
  }

  /** The slots visited so far have been served; the others are as they were. */
  ghost predicate VisitsServed(rx: seq<seq<nat>>, flights: seq<seq<Flight>>, rx': seq<seq<nat>>,
                               flights': seq<seq<Flight>>, now: int, cursor: nat, visited: nat, out: seq<Delivery>)
    requires |rx| == |flights|
  {
    && |rx'| == |flights'| == |rx|
    && forall d :: 0 <= d < |rx| ==>
         if Turn(cursor, d / 2, |rx| / 2) < visited
         then MayShow(rx, flights, now, d, |Seen(out, d)|, |out| < WORK_BUDGET)
         else Seen(out, d) == [] && rx'[d] == rx[d] && flights'[d] == flights[d]
  }

  lemma QuietReceiver(slots: seq<Slot>, rx: seq<seq<nat>>, flights: seq<seq<Flight>>, tx: seq<seq<nat>>,
                      now: int, i: nat, all: bool)
    requires |rx| == |flights| == |tx| == 2 * |slots| && i < |slots| && !(slots[i].active && slots[i].carrier)
    requires Quiet(slots, PipesOf(rx, flights, tx))
    ensures SlotServed(rx, flights, now, i, [], all)
  {
    var pipes := PipesOf(rx, flights, tx);
    forall d | 0 <= d < |rx| && d / 2 == i
      ensures Ready(rx, flights, now, d) == 0
    {
      assert pipes[d] == [] && |pipes[d]| == |rx[d]| + |flights[d]| + |tx[d]|;
    }
  }

  lemma ReadyKept(rx: seq<seq<nat>>, flights: seq<seq<Flight>>, rx': seq<seq<nat>>, flights': seq<seq<Flight>>,
                  now: int, d: nat)
    requires d < |rx| == |flights| == |rx'| == |flights'| && rx'[d] == rx[d] && flights'[d] == flights[d]
    ensures Ready(rx', flights', now, d) == Ready(rx, flights, now, d)
  {
  }

  /** At most one frame of one direction was shown. */
  lemma SeenOne(out: seq<Delivery>, d: nat, e: nat)
    requires |out| <= 1 && (out != [] ==> out[0].direction == d)
    ensures |Seen(out, e)| == if e == d then |out| else 0
  {
    if out != [] {
      assert Seen(out[..0], e) == [];
    }
  }

  lemma BothServed(rx: seq<seq<nat>>, flights: seq<seq<Flight>>, now: int, i: nat,
                   out: seq<Delivery>, more: seq<Delivery>, budget: nat)
    requires 2 * i + 1 < |rx| == |flights|
    requires |out| == if budget > 0 then Ready(rx, flights, now, 2 * i) else 0
    requires |more| == if budget > |out| then Ready(rx, flights, now, 2 * i + 1) else 0
    requires out != [] ==> out[0].direction == 2 * i
    requires more != [] ==> more[0].direction == 2 * i + 1
    ensures SlotServed(rx, flights, now, i, out + more, |out + more| < budget)
  {
    hide Seen;
    forall d | 0 <= d < |rx|
      ensures if d / 2 == i then MayShow(rx, flights, now, d, |Seen(out + more, d)|, |out + more| < budget)
              else Seen(out + more, d) == []
    {
      SeenAppend(out, more, d);
      SeenOne(out, 2 * i, d);
      SeenOne(more, 2 * i + 1, d);
    }
  }

  lemma NoneServed(rx: seq<seq<nat>>, flights: seq<seq<Flight>>, now: int, cursor: nat)
    requires |rx| == |flights| && |rx| % 2 == 0 && cursor < |rx| / 2
    ensures VisitsServed(rx, flights, rx, flights, now, cursor, 0, [])
  {
  }

  lemma OneMoreServed(rx: seq<seq<nat>>, flights: seq<seq<Flight>>, rx1: seq<seq<nat>>, flights1: seq<seq<Flight>>,
                      rx2: seq<seq<nat>>, flights2: seq<seq<Flight>>, now: int, cursor: nat, visited: nat,
                      out: seq<Delivery>, more: seq<Delivery>)
    requires |rx| == |flights| && |rx| % 2 == 0 && cursor < |rx| / 2 && visited < |rx| / 2
    requires |out| < WORK_BUDGET && |rx2| == |flights2| == |rx|
    requires VisitsServed(rx, flights, rx1, flights1, now, cursor, visited, out)
    requires SlotServed(rx1, flights1, now, (cursor + visited) % (|rx| / 2), more, |out| + |more| < WORK_BUDGET)
    requires forall d :: 0 <= d < |rx| && d / 2 != (cursor + visited) % (|rx| / 2) ==>
               rx2[d] == rx1[d] && flights2[d] == flights1[d]
    ensures VisitsServed(rx, flights, rx2, flights2, now, cursor, visited + 1, out + more)
  {
    hide Seen, Turn;
    forall d | 0 <= d < |rx|
      ensures if Turn(cursor, d / 2, |rx| / 2) < visited + 1
              then MayShow(rx, flights, now, d, |Seen(out + more, d)|, |out + more| < WORK_BUDGET)
              else Seen(out + more, d) == [] && rx2[d] == rx[d] && flights2[d] == flights[d]
    {
      SeenAppend(out, more, d);
      TurnOf(cursor, visited, |rx| / 2, d / 2);
    }
  }

  lemma AllServed(rx: seq<seq<nat>>, flights: seq<seq<Flight>>, rx': seq<seq<nat>>, flights': seq<seq<Flight>>,
                  now: int, cursor: nat, visited: nat, out: seq<Delivery>)
    requires |rx| == |flights| && |rx| % 2 == 0 && cursor < |rx| / 2
    requires VisitsServed(rx, flights, rx', flights', now, cursor, visited, out)
    requires visited == |rx| / 2 || |out| >= WORK_BUDGET
    ensures RoundServed(rx, flights, now, out)
  {
    hide Seen;
  }

  // ---------------------------------------------------------------- deliveries

  /** What the callback is shown: the frame, its link and the ports it left and reached. */
  datatype Delivery = Delivery(direction: nat, handle: nat, link: Link, source: nat, destination: nat)

  function Describing(slots: seq<Slot>, d: nat, handle: nat): Delivery
    requires d < 2 * |slots|
  {
    var (first, second) := slots[d / 2].endpoints;
    Delivery(d, handle, Link(d / 2, slots[d / 2].generation),
             if d % 2 == 0 then first else second, if d % 2 == 0 then second else first)
  }

  /** The frames of direction `d` among `out`. */
  ghost function Seen(out: seq<Delivery>, d: nat): seq<nat>
    decreases |out|
  {
    if out == [] then []
    else Seen(out[..|out| - 1], d) + if out[|out| - 1].direction == d then [out[|out| - 1].handle] else []
  }

  ghost predicate SeenFirst(pipes: seq<seq<nat>>, out: seq<Delivery>, pipes': seq<seq<nat>>) {
    && |pipes'| == |pipes|
    && forall d :: 0 <= d < |pipes| ==> pipes[d] == Seen(out, d) + pipes'[d]
  }

  /** The callback saw `out`, taken from the fronts of the pipes, each with its own link and ports. */
  ghost predicate Took(slots: seq<Slot>, before: Ledger, out: seq<Delivery>, now: Ledger) {
    && SeenFirst(before.pipes, out, now.pipes)
    && (forall k :: 0 <= k < |out| ==> out[k].direction < 2 * |slots|
                                       && out[k] == Describing(slots, out[k].direction, out[k].handle))
    && now.delivered == before.delivered + |out|
    && now.dropped == before.dropped && now.offered == before.offered && now.external == before.external
  }

  lemma TookNothing(slots: seq<Slot>, l: Ledger)
    ensures Took(slots, l, [], l)
  {
  }

  lemma TookOne(slots: seq<Slot>, l: Ledger, d: nat)
    requires d < |l.pipes| == 2 * |slots| && l.pipes[d] != []
    ensures Took(slots, l, [Describing(slots, d, l.pipes[d][0])], Leave(l, d, 0, false))
    ensures Describing(slots, d, l.pipes[d][0]).direction == d
  {
    var one := [Describing(slots, d, l.pipes[d][0])];
    hide Describing, Release;
    assert one[..0] == [];
    forall e | 0 <= e < |l.pipes|
      ensures l.pipes[e] == Seen(one, e) + Leave(l, d, 0, false).pipes[e]
    {
      assert Seen(one[..0], e) == [];
    }
  }

  lemma {:induction false} SeenAppend(out: seq<Delivery>, more: seq<Delivery>, d: nat)
    ensures Seen(out + more, d) == Seen(out, d) + Seen(more, d)
    decreases |more|
  {
    if more == [] {
      assert out + more == out;
    } else {
      assert (out + more)[..|out + more| - 1] == out + more[..|more| - 1];
      SeenAppend(out, more[..|more| - 1], d);
    }
  }

  lemma TookBoth(slots: seq<Slot>, a: Ledger, out: seq<Delivery>, b: Ledger, more: seq<Delivery>, c: Ledger)
    requires Took(slots, a, out, b) && Took(slots, b, more, c)
    ensures Took(slots, a, out + more, c)
  {
    hide Describing, Seen;
    forall d | 0 <= d < |a.pipes|
      ensures a.pipes[d] == Seen(out + more, d) + c.pipes[d]
    {
      SeenAppend(out, more, d);
    }
  }

  lemma QuietOf(slots: seq<Slot>, pipes: seq<seq<nat>>, i: nat)
    requires i < |slots| && |pipes| == 2 * |slots| && Quiet(slots, pipes) && !slots[i].active
    ensures pipes[2 * i] == [] && pipes[2 * i + 1] == []
    ensures pipes == pipes[2 * i := []][2 * i + 1 := []]
  {
  }

  lemma RatedOverTiming(slots: seq<Slot>, timing: seq<Timing>, i: nat, t: Timing)
    requires i < |slots| && |timing| == 2 * |slots| && Rated(slots, timing) && t.bps > 0
    ensures Rated(slots, timing[2 * i := t][2 * i + 1 := t])
  {
  }

  lemma RatesOf(slots: seq<Slot>, timing: seq<Timing>, i: nat)
    requires i < |slots| && |timing| == 2 * |slots| && Rated(slots, timing) && slots[i].active
    ensures timing[2 * i].bps > 0 && timing[2 * i + 1].bps > 0
  {
  }

  /** Some frames of `d` were dropped and counted since `before`; nothing else changed. */
  ghost predicate Drained(before: Ledger, now: Ledger, d: nat)
    requires d < |before.pipes|
  {
    && |now.pipes| == |before.pipes|
    && now.pipes == before.pipes[d := now.pipes[d]]
    && now.dropped + |now.pipes[d]| == before.dropped + |before.pipes[d]|
    && now.offered == before.offered && now.delivered == before.delivered
    && now.external == before.external
  }

  lemma DrainedStep(before: Ledger, now: Ledger, d: nat, k: nat)
    requires d < |before.pipes| && Drained(before, now, d) && k < |now.pipes[d]|
    ensures Drained(before, Leave(now, d, k, true), d)
    ensures |Leave(now, d, k, true).pipes[d]| == |now.pipes[d]| - 1
  {
  }

  /** Changing the pipe of a live link keeps silent links silent. */
  lemma QuietOverUpdate(slots: seq<Slot>, pipes: seq<seq<nat>>, d: nat, pipe: seq<nat>)
    requires |pipes| == 2 * |slots| && d < |pipes| && Quiet(slots, pipes)
    requires pipes[d] != [] || (slots[d / 2].active && slots[d / 2].carrier)
    ensures Quiet(slots, pipes[d := pipe])
  {
  }

  lemma BlankBalances(l: Ledger, capacity: nat)
    requires l == Ledger(l.pipes, FullPool(capacity), multiset{}, 0, 0, 0)
    requires forall d :: 0 <= d < |l.pipes| ==> l.pipes[d] == []
    ensures Balanced(l)
  {
    HeldOfEmpty(l.pipes);
    FullPoolValid(capacity);
    assert Held(l.pipes) + l.external == multiset{};
  }

  function FullPool(capacity: nat): (p: Pool)
    ensures |p.references| == |p.sizes| == |p.free| == capacity
    ensures forall i :: 0 <= i < capacity ==> p.references[i] == 0 && p.free[i] == capacity - i - 1
  {
    Pool(seq(capacity, i requires 0 <= i < capacity => capacity - i - 1),
         seq(capacity, i => 0), seq(capacity, i => 0))
  }

  lemma FullPoolValid(capacity: nat)
    ensures ValidPool(FullPool(capacity))
    ensures Counts(FullPool(capacity).references, multiset{})
  {
    var p := FullPool(capacity);
    forall h | 0 <= h < capacity
      ensures h in p.free
    {
      assert p.free[capacity - h - 1] == h;
    }
  }
}
