/** How long a frame occupies an Ethernet wire (core/include/router/link_direction.hpp, nanoseconds_for;
    core/src/forwarding/multi_device_fabric.cpp, serialization_time): the same unsigned 64-bit
    arithmetic in both places, and when it is exact. */
module WireTime {

  const U64: nat := 0x1_0000_0000_0000_0000
  const I64: nat := 0x8000_0000_0000_0000
  const NANOSECONDS: nat := 1_000_000_000

  // Catalog values: largest frame without FCS, fastest port (800 Gb/s).
  const MAXIMUM_FRAME_OCTETS: nat := 9212
  const MAXIMUM_BITS_PER_SECOND: nat := 800_000_000_000

  type Rate = r: nat | r < U64 witness 0

  type FrameSize = n: nat | n <= MAXIMUM_FRAME_OCTETS witness 0

  function Max(a: int, b: int): int {
    if a < b then b else a
  }

  /** Octets from the destination address through FCS; `octets` excludes FCS. */
  function MacOctets(octets: nat): nat {
    Max((octets + 4) % U64, 64)
  }

  /** Preamble, start delimiter, frame and FCS, in bits, as unsigned 64-bit arithmetic. */
  function DeliveryBits(octets: nat): nat {
    ((8 + MacOctets(octets)) * 8) % U64
  }

  /** The same followed by the twelve octet inter-frame gap. */
  function SpacingBits(octets: nat): nat {
    ((8 + MacOctets(octets) + 12) * 8) % U64
  }

  /** Unsigned 64-bit product, sum and quotient, then a signed 64-bit duration. */
  function NanosecondsFor(bits: nat, bps: Rate): int
    requires bps > 0
  {
    var ns := ((bits * NANOSECONDS) % U64 + bps - 1) % U64 / bps;
    if ns < I64 then ns else ns - U64
  }

  /** The duration that the arithmetic above is meant to give: the exact time, rounded up. */
  function Ceiling(bits: nat, bps: nat): nat
    requires bps > 0
  {
    (bits * NANOSECONDS + bps - 1) / bps
  }

  lemma CeilingBounds(bits: nat, bps: nat)
    requires bps > 0
    ensures bits * NANOSECONDS <= Ceiling(bits, bps) * bps < bits * NANOSECONDS + bps
  {
    var x := bits * NANOSECONDS + bps - 1;
    assert x == x / bps * bps + x % bps;
  }

  lemma ProductAtLeast(k: int, d: int)
    requires d > 0
    ensures k >= 1 ==> k * d >= d && k * d >= k
    ensures k <= -1 ==> k * d <= -d
    ensures k == 0 ==> k * d == 0
  {
    assert k * d == (k - 1) * d + d == (k + 1) * d - d;
    assert k * d == k * (d - 1) + k;
  }

  /** `q` is the quotient of `x` by `d` as soon as `x` lies in the `q`-th multiple of `d`. */
  lemma QuotientIs(x: int, d: int, q: int)
    requires d > 0 && q * d <= x < q * d + d
    ensures x / d == q
  {
    var k := x / d - q;
    assert x == x / d * d + x % d;
    assert k * d == x / d * d - q * d;
    ProductAtLeast(k, d);
  }

  lemma QuotientMonotone(x: nat, y: nat, d: int)
    requires d > 0 && x <= y
    ensures x / d <= y / d
  {
    var k := x / d - y / d;
    assert x == x / d * d + x % d;
    assert y == y / d * d + y % d;
    assert k * d == x / d * d - y / d * d;
    ProductAtLeast(k, d);
  }

  lemma QuotientDropsByOne(x: nat, y: nat, d: nat)
    requires d > 0 && x + d <= y
    ensures x / d < y / d
  {
    assert x == x / d * d + x % d;
    assert (x / d + 1) * d == x / d * d + d;
    QuotientIs(x + d, d, x / d + 1);
    QuotientMonotone(x + d, y, d);
  }

  /** The implemented duration is the exact rounded-up one if and only if the 64-bit numerator does
      not wrap and the quotient is a representable duration. */
  lemma DurationIsExact(bits: nat, bps: Rate)
    requires bps > 0
    ensures NanosecondsFor(bits, bps) == Ceiling(bits, bps)
       <==> bits * NANOSECONDS + bps - 1 < U64 && Ceiling(bits, bps) < I64
  {
    var product := bits * NANOSECONDS;
    var numerator := product + bps - 1;
    var wrapped := (product % U64 + bps - 1) % U64;
    WrappedNumerator(product, bps - 1);
    if numerator >= U64 {
      assert wrapped + bps <= numerator;
      QuotientDropsByOne(wrapped, numerator, bps);
    }
  }

  lemma WrappedNumerator(product: nat, more: nat)
    requires more < U64
    ensures (product % U64 + more) % U64 == (product + more) % U64
    ensures product + more < U64 ==> (product + more) % U64 == product + more
    ensures product + more >= U64 ==> (product + more) % U64 + U64 <= product + more
  {
    ModuloDropsMultiple(product % U64 + more, product / U64);
  }

  lemma ModuloDropsMultiple(x: nat, laps: nat)
    ensures (x + U64 * laps) % U64 == x % U64
  {
    assert x + U64 * laps == U64 * (x / U64 + laps) + x % U64;
  }

  /** A frame whose timing the 64-bit arithmetic represents exactly. */
  ghost predicate Exact(octets: nat, bps: Rate) {
    && 0 < bps
    && octets + 24 < U64 / 8
    && (8 + Max(octets + 4, 64) + 12) * 8 * NANOSECONDS + bps - 1 < I64
  }

  /** No catalog frame on a catalog port can make the arithmetic wrap. */
  lemma CatalogIsExact(octets: nat, bps: Rate)
    requires octets <= MAXIMUM_FRAME_OCTETS && 0 < bps <= MAXIMUM_BITS_PER_SECOND
    ensures Exact(octets, bps)
  {
  }

  lemma ExactBits(octets: nat)
    requires octets + 24 < U64 / 8
    ensures DeliveryBits(octets) == (8 + Max(octets + 4, 64)) * 8
    ensures SpacingBits(octets) == (8 + Max(octets + 4, 64) + 12) * 8
  {
  }

  lemma ExactTiming(octets: nat, bps: Rate)
    requires Exact(octets, bps)
    ensures NanosecondsFor(DeliveryBits(octets), bps) == Ceiling(DeliveryBits(octets), bps)
    ensures NanosecondsFor(SpacingBits(octets), bps) == Ceiling(SpacingBits(octets), bps)
    ensures 0 < Ceiling(DeliveryBits(octets), bps) <= Ceiling(SpacingBits(octets), bps)
  {
    hide NanosecondsFor;
    var d := DeliveryBits(octets) * NANOSECONDS + bps - 1;
    var s := SpacingBits(octets) * NANOSECONDS + bps - 1;
    ExactBits(octets);
    hide DeliveryBits, SpacingBits;
    QuotientMonotone(d, s, bps);
    QuotientIs(bps, bps, 1);
    QuotientMonotone(bps, d, bps);
    QuotientSmaller(s, bps);
    DurationIsExact(DeliveryBits(octets), bps);
    DurationIsExact(SpacingBits(octets), bps);
  }

  lemma QuotientSmaller(x: nat, d: int)
    requires d > 0
    ensures x / d <= x
  {
    var q := x / d;
    assert x == q * d + x % d;
    ProductAtLeast(q, d);
  }

  /** A rate that is exact for the longest frame is exact for every frame. */
  lemma ExactForAll(octets: FrameSize, bps: Rate)
    requires Exact(MAXIMUM_FRAME_OCTETS, bps)
    ensures Exact(octets, bps)
  {
  }
}
