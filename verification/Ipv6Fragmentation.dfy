/** IPv6 source fragmentation (core/src/ip/ipv6_fragmentation.cpp, insertion_point, fragment_layout,
    ipv6_fragment_count and fragment_ipv6_datagram). */
module Ipv6Fragmentation {
  import opened Options
  import opened Ipv6Packets

  const MINIMUM_MTU: nat := 1280
  // Largest network-layer MTU of the catalog; a larger one would not fit the frame envelope.
  const MAXIMUM_MTU: nat := 9198
  const MAXIMUM_PAYLOAD: nat := 65535

  // ---------------------------------------------------------------- layout

  datatype Insertion = Insertion(offset: nat, previous: nat, nextHeader: Byte)

  predicate PerHopHeader(current: Byte) {
    current == HOP_BY_HOP || current == ROUTING || current == DESTINATION_OPTIONS
  }

  /** Where the Fragment header goes: after Hop-by-Hop and Routing headers, and after Destination
      Options only when a first Routing header follows them. */
  function InsertionPoint(p: seq<Byte>, end: nat, offset: nat, previous: nat, current: Byte,
                          routingSeen: bool): (r: Option<Insertion>)
    requires end <= |p| && offset <= end && previous < |p|
    ensures r.Some? ==> offset <= r.value.offset <= end && r.value.previous < |p|
    ensures r.Some? ==> r.value.previous == previous || offset <= r.value.previous < r.value.offset
    ensures r.Some? && current == p[previous] ==> r.value.nextHeader == p[r.value.previous]
    decreases end - offset
  {
    if !PerHopHeader(current) then Some(Insertion(offset, previous, current))
    else if offset + 2 > end then None
    else
      var length := (p[offset + 1] as int + 1) * 8;
      if offset + length > end then None
      else if current == DESTINATION_OPTIONS && (p[offset] != ROUTING || routingSeen) then
        Some(Insertion(offset, previous, current))
      else InsertionPoint(p, end, offset + length, offset, p[offset], routingSeen || current == ROUTING)
  }

  method FindInsertionPoint(p: seq<Byte>, end: nat) returns (r: Option<Insertion>)
    requires FIRST_EXTENSION <= end <= |p|
    ensures r == InsertionPoint(p, end, FIRST_EXTENSION, NEXT_HEADER_OFFSET, p[NEXT_HEADER_OFFSET], false)
  {
    var current: Byte, offset: nat, previous: nat, routingSeen :=
      p[NEXT_HEADER_OFFSET], FIRST_EXTENSION, NEXT_HEADER_OFFSET, false;
    while true
      invariant offset <= end && previous < |p|
      invariant InsertionPoint(p, end, FIRST_EXTENSION, NEXT_HEADER_OFFSET, p[NEXT_HEADER_OFFSET], false)
             == InsertionPoint(p, end, offset, previous, current, routingSeen)
      decreases end - offset
    {
      if !PerHopHeader(current) {
        return Some(Insertion(offset, previous, current));
      }
      if offset + 2 > end {
        return None;
      }
      var length := (p[offset + 1] as int + 1) * 8;
      if offset + length > end {
        return None;
      }
      if current == DESTINATION_OPTIONS {
        if p[offset] != ROUTING || routingSeen {
          return Some(Insertion(offset, previous, current));
        }
      }
      if current == ROUTING {
        routingSeen := true;
      }
      previous := offset;
      current := p[offset];
      offset := offset + length;
    }
  }

  datatype Layout = Layout(
    insertion: nat, previous: nat, nextHeader: Byte, packetEnd: nat, perFragment: nat, size: nat)

  function FragmentLayout(p: seq<Byte>, mtu: nat): (r: Option<Layout>)
    requires mtu <= MAXIMUM_MTU
    ensures r.Some? ==> LayoutOf(p, mtu, r.value)
  {
    var view := Parse(p);
    if view.None? || view.value.fragment.Some? || mtu < MINIMUM_MTU then None
    else
      var ipSize := 40 + view.value.payloadLength;
      var packetEnd := ETHERNET_HEADER + ipSize;
      if ipSize <= mtu then None
      else
        var insertion := InsertionPoint(
          p, packetEnd, FIRST_EXTENSION, NEXT_HEADER_OFFSET, p[NEXT_HEADER_OFFSET], false);
        if insertion.None? then None
        else
          var unfragmentable := insertion.value.offset - ETHERNET_HEADER;
          if mtu <= unfragmentable + 8 then None
          else
            var perFragment := (mtu - unfragmentable - 8) / 8 * 8;
            var size := packetEnd - insertion.value.offset;
            if perFragment == 0 || size == 0 then None
            else Some(Layout(insertion.value.offset, insertion.value.previous,
                             insertion.value.nextHeader, packetEnd, perFragment, size))
  }

  /** What a layout guarantees about the packet it was computed for. */
  ghost predicate LayoutOf(p: seq<Byte>, mtu: nat, l: Layout) {
    && FIRST_EXTENSION <= l.insertion < l.packetEnd <= |p|
    && l.size == l.packetEnd - l.insertion
    && l.packetEnd == FIRST_EXTENSION + Read16(p, 18)
    && (l.previous == NEXT_HEADER_OFFSET || FIRST_EXTENSION <= l.previous < l.insertion)
    && l.nextHeader == p[l.previous]
    && l.perFragment > 0 && l.perFragment % 8 == 0
    && l.insertion - ETHERNET_HEADER + 8 + l.perFragment <= mtu
    && l.perFragment < l.size
  }

  /** The fragments are as long as they may be: eight octets more of payload would not fit the MTU. */
  lemma LayoutIsTight(p: seq<Byte>, mtu: nat)
    requires mtu <= MAXIMUM_MTU && FragmentLayout(p, mtu).Some?
    ensures var l := FragmentLayout(p, mtu).value;
            l.insertion - ETHERNET_HEADER + 8 + l.perFragment + 8 > mtu
  {
    hide Parse, InsertionPoint;
  }

  /** A packet is cut exactly when it parses and is no fragment, the MTU is a legal one and too small for
      it, and the headers of every hop leave room for eight octets of the rest. */
  lemma CutExactly(p: seq<Byte>, mtu: nat)
    requires mtu <= MAXIMUM_MTU
    ensures FragmentLayout(p, mtu).Some? <==>
              && Parse(p).Some? && Parse(p).value.fragment.None? && 1280 <= mtu < 40 + Parse(p).value.payloadLength
              && var end := FIRST_EXTENSION + Parse(p).value.payloadLength;
                 var insertion := InsertionPoint(p, end, FIRST_EXTENSION, NEXT_HEADER_OFFSET, p[NEXT_HEADER_OFFSET], false);
                 && insertion.Some? && insertion.value.offset < end
                 && insertion.value.offset - ETHERNET_HEADER + 8 + 8 <= mtu
  {
    hide Walk, InsertionPoint;
  }

  // ---------------------------------------------------------------- where the header goes

  /** An extension header of this kind and this length stands at `offset`; a length of zero stands for none. */
  ghost predicate HeaderAt(p: seq<Byte>, end: nat, offset: nat, current: Byte, kind: Byte, size: nat)
    requires end <= |p|
  {
    size > 0 ==> current == kind && offset + size <= end && size >= 8 && size == (p[offset + 1] as int) * 8 + 8
  }

  function NamedBy(p: seq<Byte>, offset: nat, current: Byte, size: nat): Byte
    requires size > 0 ==> offset < |p|
  {
    if size > 0 then p[offset] else current
  }

  /** Hop-by-Hop, Destination Options and Routing stand in this order, each of them or none. */
  ghost predicate OuterHeaders(p: seq<Byte>, end: nat, hop: nat, options: nat, routing: nat)
    requires FIRST_EXTENSION <= end <= |p|
  {
    && HeaderAt(p, end, FIRST_EXTENSION, p[NEXT_HEADER_OFFSET], HOP_BY_HOP, hop)
    && FIRST_EXTENSION + hop <= end
    && HeaderAt(p, end, FIRST_EXTENSION + hop, Second(p, end, hop), DESTINATION_OPTIONS, options)
    && FIRST_EXTENSION + hop + options <= end && (options > 0 ==> routing > 0)
    && HeaderAt(p, end, FIRST_EXTENSION + hop + options, Third(p, end, hop, options), ROUTING, routing)
    && FIRST_EXTENSION + hop + options + routing <= end
  }

  function Second(p: seq<Byte>, end: nat, hop: nat): Byte
    requires FIRST_EXTENSION <= end <= |p| && (hop > 0 ==> FIRST_EXTENSION < end)
  {
    NamedBy(p, FIRST_EXTENSION, p[NEXT_HEADER_OFFSET], hop)
  }

  function Third(p: seq<Byte>, end: nat, hop: nat, options: nat): Byte
    requires FIRST_EXTENSION + hop <= end <= |p| && (options > 0 ==> FIRST_EXTENSION + hop < end)
  {
    NamedBy(p, FIRST_EXTENSION + hop, Second(p, end, hop), options)
  }

  /** What follows is no Hop-by-Hop or Routing header, and Destination Options only as the last header or
      before something other than a first Routing header. */
  ghost predicate FollowedBy(p: seq<Byte>, end: nat, at: nat, current: Byte, routed: bool)
    requires end <= |p|
  {
    && current != HOP_BY_HOP && current != ROUTING
    && (current == DESTINATION_OPTIONS ==>
          at + 2 <= end && at + (p[at + 1] as int) * 8 + 8 <= end && (routed || p[at] != ROUTING))
  }

  /** The octet that names what stands at the insertion point. */
  function NamingOctet(hop: nat, options: nat, routing: nat): nat {
    if routing > 0 then FIRST_EXTENSION + hop + options else if hop > 0 then FIRST_EXTENSION else NEXT_HEADER_OFFSET
  }

  /** In the order of section 4.1 of RFC 8200 (Hop-by-Hop, Destination Options for the routed hops, Routing,
      and what follows; each may be missing) the Fragment header goes behind the Routing header, or behind
      Hop-by-Hop when there is none. Destination Options stay in front only before a Routing header. */
  lemma InsertionInOrder(p: seq<Byte>, end: nat, hop: nat, options: nat, routing: nat)
    requires FIRST_EXTENSION <= end <= |p| && OuterHeaders(p, end, hop, options, routing)
    requires var previous := NamingOctet(hop, options, routing);
             FollowedBy(p, end, FIRST_EXTENSION + hop + options + routing, p[previous], routing > 0)
    ensures var previous := NamingOctet(hop, options, routing);
            InsertionPoint(p, end, FIRST_EXTENSION, NEXT_HEADER_OFFSET, p[NEXT_HEADER_OFFSET], false)
            == Some(Insertion(FIRST_EXTENSION + hop + options + routing, previous, p[previous]))
  {
    hide InsertionPoint, HeaderAt, NamedBy, FollowedBy;
    NextIsRouting(p, end, hop, options, routing);
    BehindOptions(p, end, hop, options, routing);
    var t := FIRST_EXTENSION + hop + options;
    var previous := NamingOctet(hop, options, routing);
    var named := if options > 0 then FIRST_EXTENSION + hop else if hop > 0 then FIRST_EXTENSION else NEXT_HEADER_OFFSET;
    InsertionStep(p, end, t, named, Third(p, end, hop, options), false, ROUTING, routing);
    LastNamed(p, end, hop, options, routing);
    InsertionStops(p, end, t + routing, previous, p[previous], routing > 0);
  }

  lemma LastNamed(p: seq<Byte>, end: nat, hop: nat, options: nat, routing: nat)
    requires FIRST_EXTENSION <= end <= |p| && OuterHeaders(p, end, hop, options, routing)
    requires routing > 0 ==> FIRST_EXTENSION + hop + options < end
    requires hop > 0 ==> FIRST_EXTENSION < end
    requires options > 0 ==> FIRST_EXTENSION + hop < end
    ensures NamedBy(p, FIRST_EXTENSION + hop + options, Third(p, end, hop, options), routing)
         == p[NamingOctet(hop, options, routing)]
  {
    hide HeaderAt;
  }

  lemma BehindOptions(p: seq<Byte>, end: nat, hop: nat, options: nat, routing: nat)
    requires FIRST_EXTENSION <= end <= |p| && OuterHeaders(p, end, hop, options, routing)
    requires hop > 0 ==> FIRST_EXTENSION < end
    requires options > 0 ==> FIRST_EXTENSION + hop < end && p[FIRST_EXTENSION + hop] == ROUTING
    ensures InsertionPoint(p, end, FIRST_EXTENSION, NEXT_HEADER_OFFSET, p[NEXT_HEADER_OFFSET], false)
         == InsertionPoint(p, end, FIRST_EXTENSION + hop + options,
                           if options > 0 then FIRST_EXTENSION + hop else if hop > 0 then FIRST_EXTENSION else NEXT_HEADER_OFFSET,
                           Third(p, end, hop, options), false)
  {
    hide InsertionPoint, HeaderAt, NamedBy;
    InsertionStep(p, end, FIRST_EXTENSION, NEXT_HEADER_OFFSET, p[NEXT_HEADER_OFFSET], false, HOP_BY_HOP, hop);
    InsertionStep(p, end, FIRST_EXTENSION + hop, if hop > 0 then FIRST_EXTENSION else NEXT_HEADER_OFFSET,
                  Second(p, end, hop), false, DESTINATION_OPTIONS, options);
  }

  lemma NextIsRouting(p: seq<Byte>, end: nat, hop: nat, options: nat, routing: nat)
    requires FIRST_EXTENSION <= end <= |p| && OuterHeaders(p, end, hop, options, routing)
    ensures hop > 0 ==> FIRST_EXTENSION < end
    ensures options > 0 ==> FIRST_EXTENSION + hop < end && p[FIRST_EXTENSION + hop] == ROUTING
    ensures routing > 0 ==> FIRST_EXTENSION + hop + options < end
  {
  }

  lemma InsertionStep(p: seq<Byte>, end: nat, offset: nat, previous: nat, current: Byte, routingSeen: bool,
                      kind: Byte, size: nat)
    requires end <= |p| && offset + size <= end && previous < |p|
    requires HeaderAt(p, end, offset, current, kind, size) && (size > 0 ==> offset < end)
    requires size > 0 ==> kind == HOP_BY_HOP || kind == ROUTING
                          || (kind == DESTINATION_OPTIONS && p[offset] == ROUTING && !routingSeen)
    ensures InsertionPoint(p, end, offset, previous, current, routingSeen)
         == InsertionPoint(p, end, offset + size, if size > 0 then offset else previous,
                           NamedBy(p, offset, current, size), routingSeen || (size > 0 && kind == ROUTING))
  {
  }

  lemma InsertionStops(p: seq<Byte>, end: nat, offset: nat, previous: nat, current: Byte, routingSeen: bool)
    requires end <= |p| && offset <= end && previous < |p|
    requires FollowedBy(p, end, offset, current, routingSeen)
    ensures InsertionPoint(p, end, offset, previous, current, routingSeen) == Some(Insertion(offset, previous, current))
  {
  }

  function Ceiling(size: nat, per: nat): nat
    requires per > 0
  {
    (size + per - 1) / per
  }

  function FragmentCount(p: seq<Byte>, mtu: nat): (r: Option<nat>)
    requires mtu <= MAXIMUM_MTU
    ensures r.Some? <==> FragmentLayout(p, mtu).Some?
  {
    var l := FragmentLayout(p, mtu);
    if l.None? then None else Some(Ceiling(l.value.size, l.value.perFragment))
  }

  // ---------------------------------------------------------------- emission

  function Copied(l: Layout, offset: nat): nat
    requires offset < l.size
  {
    if l.perFragment < l.size - offset then l.perFragment else l.size - offset
  }

  /** The unfragmentable part with the Fragment header announced and the payload length rewritten. */
  function FragmentPrefix(p: seq<Byte>, l: Layout, payload: nat): (r: seq<Byte>)
    requires FIRST_EXTENSION <= l.insertion <= |p| && l.previous < l.insertion && payload < 0x1_0000
    ensures |r| == l.insertion
  {
    p[..l.insertion][l.previous := FRAGMENT][18 := payload / 256][19 := payload % 256]
  }

  function FragmentAt(p: seq<Byte>, l: Layout, identification: nat, offset: nat): (f: seq<Byte>)
    requires LayoutOf(p, MAXIMUM_MTU, l) && identification < 0x1_0000_0000
    requires offset < l.size && offset % 8 == 0
    ensures |f| == l.insertion + 8 + Copied(l, offset)
  {
    var copied := Copied(l, offset);
    var field := offset / 8 * 8 + (if offset + copied < l.size then 1 else 0);
    FragmentPrefix(p, l, l.insertion - FIRST_EXTENSION + 8 + copied)
    + [l.nextHeader, 0] + Be16(field) + Be32(identification)
    + p[l.insertion + offset..l.insertion + offset + copied]
  }

  function FragmentsFrom(p: seq<Byte>, l: Layout, identification: nat, offset: nat): (r: seq<seq<Byte>>)
    requires LayoutOf(p, MAXIMUM_MTU, l) && identification < 0x1_0000_0000
    requires offset % 8 == 0
    decreases if offset < l.size then l.size - offset else 0
  {
    if offset >= l.size then []
    else [FragmentAt(p, l, identification, offset)]
         + FragmentsFrom(p, l, identification, offset + l.perFragment)
  }

  lemma CeilingStep(size: nat, per: nat)
    requires 0 < per <= size
    ensures Ceiling(size, per) == 1 + Ceiling(size - per, per)
  {
    var x := size + per - 1;
    assert x == x / per * per + x % per;
    var y := x - per;
    assert y == (x / per - 1) * per + x % per;
    QuotientIs(y, per, x / per - 1);
  }

  lemma QuotientIs(x: int, d: int, q: int)
    requires d > 0 && q * d <= x < q * d + d
    ensures x / d == q
  {
    var k := x / d - q;
    assert x == x / d * d + x % d;
    assert k * d == x / d * d - q * d;
    assert k >= 1 ==> k * d >= d;
    assert k <= -1 ==> k * d <= -d;
  }

  lemma CountStep(left: nat, per: nat)
    requires 0 < per && 0 < left
    ensures Ceiling(left, per) == 1 + (if left > per then Ceiling(left - per, per) else 0)
  {
    if left > per {
      CeilingStep(left, per);
    } else {
      QuotientIs(left + per - 1, per, 1);
    }
  }

  lemma {:induction false} EmittedCount(p: seq<Byte>, l: Layout, identification: nat, offset: nat)
    requires LayoutOf(p, MAXIMUM_MTU, l) && identification < 0x1_0000_0000
    requires offset % 8 == 0
    ensures |FragmentsFrom(p, l, identification, offset)|
         == if offset < l.size then Ceiling(l.size - offset, l.perFragment) else 0
    decreases if offset < l.size then l.size - offset else 0
  {
    hide Ceiling, FragmentAt;
    if offset < l.size {
      EmittedCount(p, l, identification, offset + l.perFragment);
      CountStep(l.size - offset, l.perFragment);
    }
  }

  /** Streams fragments to a sink that takes `room` frames and then refuses. A refusal stops the
      stream, so what was emitted is always a prefix of the whole batch; otherwise the number
      returned is the number announced by FragmentCount. */
  method FragmentDatagram(p: seq<Byte>, mtu: nat, identification: nat, room: nat)
    returns (count: Option<nat>, emitted: seq<seq<Byte>>)
    requires mtu <= MAXIMUM_MTU && identification < 0x1_0000_0000
    ensures FragmentLayout(p, mtu).None? ==> count == None && emitted == []
    ensures FragmentLayout(p, mtu).Some? ==>
              var all := FragmentsFrom(p, FragmentLayout(p, mtu).value, identification, 0);
              && count == (if |all| <= room then FragmentCount(p, mtu) else None)
              && emitted == (if |all| <= room then all else all[..room])
  {
    emitted := [];
    var layout := FragmentLayout(p, mtu);
    if layout.None? {
      return None, [];
    }
    var n;
    n, emitted := StreamFragments(p, layout.value, identification, room);
    EmittedCount(p, layout.value, identification, 0);
    return if n.None? then None else FragmentCount(p, mtu), emitted;
  }

  method StreamFragments(p: seq<Byte>, l: Layout, identification: nat, room: nat)
    returns (count: Option<nat>, emitted: seq<seq<Byte>>)
    requires LayoutOf(p, MAXIMUM_MTU, l) && identification < 0x1_0000_0000
    ensures var all := FragmentsFrom(p, l, identification, 0);
            && count == (if |all| <= room then Some(|all|) else None)
            && emitted == (if |all| <= room then all else all[..room])
  {
    hide FragmentAt;
    emitted := [];
    ghost var all := FragmentsFrom(p, l, identification, 0);
    var n: nat, offset: nat := 0, 0;
    while offset < l.size
      invariant offset % 8 == 0
      invariant n == |emitted| <= room
      invariant all == emitted + FragmentsFrom(p, l, identification, offset)
      decreases l.size - offset
    {
      if n == room {
        return None, emitted;
      }
      emitted := emitted + [FragmentAt(p, l, identification, offset)];
      n := n + 1;
      offset := offset + l.perFragment;
    }
    return Some(n), emitted;
  }

  /** Every emitted fragment fits the MTU and starts on an eight-octet boundary of the original. */
  lemma FragmentFits(p: seq<Byte>, mtu: nat, l: Layout, identification: nat, offset: nat)
    requires mtu <= MAXIMUM_MTU && LayoutOf(p, mtu, l) && identification < 0x1_0000_0000
    requires offset < l.size && offset % 8 == 0
    ensures var f := FragmentAt(p, l, identification, offset);
            && |f| - ETHERNET_HEADER <= mtu
            && |f| >= MINIMUM_FRAME
            && Read16(f, l.insertion + 2) / 8 * 8 == offset
            && f[l.insertion + 8..] == p[l.insertion + offset..l.insertion + offset + Copied(l, offset)]
  {
    var f := FragmentAt(p, l, identification, offset);
    var copied := Copied(l, offset);
    var field := offset / 8 * 8 + (if offset + copied < l.size then 1 else 0);
    assert f[l.insertion + 2..l.insertion + 4] == Be16(field);
  }

  // ---------------------------------------------------------------- parsing a fragment

  /** `f` is a fragment of `p` as far as the header walk can see it. */
  ghost predicate PrefixAgrees(p: seq<Byte>, f: seq<Byte>, insertion: nat, previous: nat) {
    && insertion <= |p| && insertion <= |f| && previous < insertion
    && f[previous] == FRAGMENT
    && forall x :: 0 <= x < insertion && x != previous && x != 18 && x != 19 ==> f[x] == p[x]
  }

  /** One step of the walk over a header other than a Fragment header. */
  lemma WalkStep(p: seq<Byte>, end: nat, offset: nat, previous: nat, current: Byte)
    requires end <= |p| && offset + 2 <= end && PerHopHeader(current)
    requires current == HOP_BY_HOP ==> offset == FIRST_EXTENSION
    requires offset + (p[offset + 1] as int + 1) * 8 <= end
    ensures Walk(p, end, offset, previous, current, None)
         == Walk(p, end, offset + (p[offset + 1] as int + 1) * 8, offset, p[offset], None)
  {
  }

  /** A Hop-by-Hop header that the walk accepted is the first header. */
  lemma WalkHopByHop(p: seq<Byte>, end: nat, offset: nat, previous: nat, current: Byte)
    requires end <= |p| && Walk(p, end, offset, previous, current, None).Some?
    ensures current == HOP_BY_HOP ==> offset == FIRST_EXTENSION
  {
  }

  /** The walk over a fragment follows the original headers up to the inserted Fragment header. */
  lemma {:induction false} WalkPrefix(
      p: seq<Byte>, end: nat, f: seq<Byte>, endF: nat, offset: nat, previous: nat, routingSeen: bool,
      insertion: Insertion)
    requires end <= |p| && endF <= |f| && FIRST_EXTENSION <= offset <= end
    requires previous == NEXT_HEADER_OFFSET || FIRST_EXTENSION <= previous < offset
    requires InsertionPoint(p, end, offset, previous, p[previous], routingSeen) == Some(insertion)
    requires PrefixAgrees(p, f, insertion.offset, insertion.previous)
    requires insertion.offset + 8 <= endF
    requires Walk(p, end, offset, previous, p[previous], None).Some?
    ensures Walk(p, end, offset, previous, p[previous], None)
         == Walk(p, end, insertion.offset, insertion.previous, insertion.nextHeader, None)
    ensures Walk(f, endF, offset, previous, f[previous], None)
         == Walk(f, endF, insertion.offset, insertion.previous, FRAGMENT, None)
    decreases end - offset
  {
    hide Walk;
    if insertion != Insertion(offset, previous, p[previous]) {
      WalkHopByHop(p, end, offset, previous, p[previous]);
      var length := (p[offset + 1] as int + 1) * 8;
      assert offset + length <= insertion.offset;
      assert insertion.previous == offset || offset + length <= insertion.previous;
      assert f[previous] == p[previous] && f[offset + 1] == p[offset + 1];
      WalkStep(p, end, offset, previous, p[previous]);
      WalkStep(f, endF, offset, previous, p[previous]);
      WalkPrefix(p, end, f, endF, offset + length, offset, routingSeen || p[previous] == ROUTING, insertion);
    }
  }

  /** Behind the inserted header the walk over the first fragment follows the original headers
      shifted by eight, and gets through exactly when they all lie inside the fragment. */
  lemma {:induction false} WalkTail(
      p: seq<Byte>, end: nat, f: seq<Byte>, i: nat, c: nat, x: nat,
      previousP: nat, previousF: nat, current: Byte, fragment: FragmentView)
    requires i + c <= end <= |p| && i + 8 + c <= |f| && i <= x <= i + c
    requires FIRST_EXTENSION <= i
    requires forall y :: i <= y < i + c ==> f[y + 8] == p[y]
    requires x == FIRST_EXTENSION ==> current != HOP_BY_HOP
    requires fragment.offset == 0
    requires Walk(p, end, x, previousP, current, None).Some?
    requires Walk(p, end, x, previousP, current, None).value.fragment.None?
    ensures Walk(f, i + 8 + c, x + 8, previousF, current, Some(fragment)).Some?
       <==> Walk(p, end, x, previousP, current, None).value.upperOffset <= i + c
    decreases end - x
  {
    var length := ExtensionLength(p, end, x, current, false).value;
    if length > 0 {
      assert current != FRAGMENT;
      TailLength(p, end, f, i, c, x, current);
      hide ExtensionLength;
      if x + length <= i + c {
        assert f[x + 8] == p[x];
        WalkTail(p, end, f, i, c, x + length, x, x + 8, p[x], fragment);
      }
    }
  }

  /** A header of the datagram has its length in the first fragment as well, or does not fit it. */
  lemma TailLength(p: seq<Byte>, end: nat, f: seq<Byte>, i: nat, c: nat, x: nat, current: Byte)
    requires i + c <= end <= |p| && i + 8 + c <= |f| && FIRST_EXTENSION <= i <= x <= i + c
    requires forall y :: i <= y < i + c ==> f[y + 8] == p[y]
    requires x == FIRST_EXTENSION ==> current != HOP_BY_HOP
    requires current != FRAGMENT
    requires ExtensionLength(p, end, x, current, false).Some? && ExtensionLength(p, end, x, current, false).value > 0
    ensures var length := ExtensionLength(p, end, x, current, false);
            ExtensionLength(f, i + 8 + c, x + 8, current, true)
            == if x + length.value <= i + c then length else None
  {
    assert x + 2 <= i + c ==> f[x + 1 + 8] == p[x + 1];
  }

  /** The fragment header that the receiver reads from the fragment at `offset`. */
  function Announced(l: Layout, identification: nat, offset: nat): FragmentView
    requires offset < l.size
  {
    FragmentView(identification, offset / 8, offset + Copied(l, offset) < l.size, l.insertion, l.previous)
  }

  /** All headers that the parser walks through lie in the first fragment. */
  ghost predicate HeadersFit(p: seq<Byte>, l: Layout) {
    Parse(p).Some? && Parse(p).value.upperOffset <= l.insertion + l.perFragment
  }

  lemma FragmentBytes(p: seq<Byte>, l: Layout, identification: nat, offset: nat)
    requires LayoutOf(p, MAXIMUM_MTU, l) && identification < 0x1_0000_0000
    requires offset < l.size && offset % 8 == 0
    ensures var f := FragmentAt(p, l, identification, offset);
            var c := Copied(l, offset);
            && PrefixAgrees(p, f, l.insertion, l.previous)
            && Read16(f, 18) == l.insertion - FIRST_EXTENSION + 8 + c
            && f[l.insertion] == l.nextHeader && f[l.insertion + 1] == 0
            && Read16(f, l.insertion + 2) / 8 == offset / 8
            && (Read16(f, l.insertion + 2) % 2 == 1 <==> offset + c < l.size)
            && Read32(f, l.insertion + 4) == identification
  {
    PrefixBytes(p, l, identification, offset);
    HeaderBytes(p, l, identification, offset);
    hide FragmentAt;
  }

  lemma PrefixBytes(p: seq<Byte>, l: Layout, identification: nat, offset: nat)
    requires LayoutOf(p, MAXIMUM_MTU, l) && identification < 0x1_0000_0000
    requires offset < l.size && offset % 8 == 0
    ensures var f := FragmentAt(p, l, identification, offset);
            && PrefixAgrees(p, f, l.insertion, l.previous)
            && Read16(f, 18) == l.insertion - FIRST_EXTENSION + 8 + Copied(l, offset)
  {
    hide Be16, Be32;
    var f := FragmentAt(p, l, identification, offset);
    var payload := l.insertion - FIRST_EXTENSION + 8 + Copied(l, offset);
    assert f[..l.insertion] == FragmentPrefix(p, l, payload);
    assert forall x :: 0 <= x < l.insertion ==> f[x] == FragmentPrefix(p, l, payload)[x];
    assert f[18] == payload / 256 && f[19] == payload % 256;
  }

  lemma HeaderBytes(p: seq<Byte>, l: Layout, identification: nat, offset: nat)
    requires LayoutOf(p, MAXIMUM_MTU, l) && identification < 0x1_0000_0000
    requires offset < l.size && offset % 8 == 0
    ensures var f := FragmentAt(p, l, identification, offset);
            && f[l.insertion] == l.nextHeader && f[l.insertion + 1] == 0
            && Read16(f, l.insertion + 2) / 8 == offset / 8
            && (Read16(f, l.insertion + 2) % 2 == 1 <==> offset + Copied(l, offset) < l.size)
            && Read32(f, l.insertion + 4) == identification
  {
    hide FragmentPrefix, Be16, Be32;
    var f, i := FragmentAt(p, l, identification, offset), l.insertion;
    var field := offset / 8 * 8 + (if offset + Copied(l, offset) < l.size then 1 else 0);
    assert f[i..i + 8] == [l.nextHeader, 0] + Be16(field) + Be32(identification);
    hide FragmentAt;
    FieldsOf(f, i, l.nextHeader, field, identification);
  }

  lemma FieldsOf(f: seq<Byte>, i: nat, nextHeader: Byte, field: nat, identification: nat)
    requires i + 8 <= |f| && field < 0x1_0000 && identification < 0x1_0000_0000
    requires f[i..i + 8] == [nextHeader, 0] + Be16(field) + Be32(identification)
    ensures f[i] == nextHeader && f[i + 1] == 0 && Read16(f, i + 2) == field && Read32(f, i + 4) == identification
  {
    hide Be16, Be32;
    var g, a, b := f[i..i + 8], Be16(field), Be32(identification);
    assert f[i] == g[0] && f[i + 1] == g[1];
    assert g[2] == a[0] && g[3] == a[1];
    assert g[4] == b[0] && g[5] == b[1] && g[6] == b[2] && g[7] == b[3];
  }

  /** What the parser found out about the packet before a layout was computed. */
  ghost predicate Walked(p: seq<Byte>, l: Layout, walk: Chain) {
    && LayoutOf(p, MAXIMUM_MTU, l)
    && p[12] == 0x86 && p[13] == 0xdd && p[14] / 16 == 6
    && InsertionPoint(p, l.packetEnd, FIRST_EXTENSION, NEXT_HEADER_OFFSET, p[NEXT_HEADER_OFFSET], false)
       == Some(Insertion(l.insertion, l.previous, l.nextHeader))
    && Walk(p, l.packetEnd, FIRST_EXTENSION, NEXT_HEADER_OFFSET, p[NEXT_HEADER_OFFSET], None) == Some(walk)
    && walk.fragment.None?
    && (HeadersFit(p, l) <==> walk.upperOffset <= l.insertion + l.perFragment)
  }

  lemma LayoutWalked(p: seq<Byte>, mtu: nat, l: Layout) returns (walk: Chain)
    requires mtu <= MAXIMUM_MTU && FragmentLayout(p, mtu) == Some(l)
    ensures Walked(p, l, walk)
  {
    hide Walk, InsertionPoint;
    walk := Walk(p, l.packetEnd, FIRST_EXTENSION, NEXT_HEADER_OFFSET, p[NEXT_HEADER_OFFSET], None).value;
  }

  /** The walk reads the inserted header and, in the first fragment, goes on behind it. */
  lemma AnnouncedWalk(p: seq<Byte>, l: Layout, f: seq<Byte>, identification: nat, offset: nat)
    requires LayoutOf(p, MAXIMUM_MTU, l) && identification < 0x1_0000_0000
    requires offset < l.size && offset % 8 == 0
    requires f == FragmentAt(p, l, identification, offset)
    ensures Walk(f, |f|, l.insertion, l.previous, FRAGMENT, None)
         == (if offset != 0 then Some(Chain(l.insertion + 8, Some(Announced(l, identification, offset))))
             else Walk(f, |f|, l.insertion + 8, l.insertion, l.nextHeader,
                       Some(Announced(l, identification, offset))))
  {
    hide FragmentAt, PrefixAgrees;
    FragmentBytes(p, l, identification, offset);
    FragmentFits(p, MAXIMUM_MTU, l, identification, offset);
    assert ExtensionLength(f, |f|, l.insertion, FRAGMENT, false) == Some(8);
    hide ExtensionLength, Read16, Read32;
  }

  lemma FirstFragmentWalk(p: seq<Byte>, l: Layout, walk: Chain, f: seq<Byte>, identification: nat)
    requires Walked(p, l, walk) && identification < 0x1_0000_0000
    requires f == FragmentAt(p, l, identification, 0)
    ensures Walk(f, |f|, l.insertion + 8, l.insertion, l.nextHeader,
                 Some(Announced(l, identification, 0))).Some?
       <==> HeadersFit(p, l)
  {
    hide Walk, InsertionPoint, HeadersFit, PrefixAgrees, FragmentAt, Read16, Read32;
    var i, c := l.insertion, l.perFragment;
    var insertion := Insertion(i, l.previous, l.nextHeader);
    assert Copied(l, 0) == c;
    FragmentFits(p, MAXIMUM_MTU, l, identification, 0);
    FragmentBytes(p, l, identification, 0);
    NotHopByHop(p, l.packetEnd, FIRST_EXTENSION, NEXT_HEADER_OFFSET, p[NEXT_HEADER_OFFSET], false, insertion);
    WalkPrefix(p, l.packetEnd, f, |f|, FIRST_EXTENSION, NEXT_HEADER_OFFSET, false, insertion);
    forall y | i <= y < i + c
      ensures f[y + 8] == p[y]
    {
      assert f[y + 8] == f[i + 8..][y - i];
    }
    WalkTail(p, l.packetEnd, f, i, c, i, l.previous, i, l.nextHeader, Announced(l, identification, 0));
  }

  /** A fragment after the first always parses and announces itself; the first one parses exactly
      when the header chain fits it. */
  lemma FragmentParses(p: seq<Byte>, mtu: nat, l: Layout, identification: nat, offset: nat)
    requires mtu <= MAXIMUM_MTU && FragmentLayout(p, mtu) == Some(l) && identification < 0x1_0000_0000
    requires offset < l.size && offset % 8 == 0
    ensures var r := Parse(FragmentAt(p, l, identification, offset));
            && (r.Some? <==> offset != 0 || HeadersFit(p, l))
            && (r.Some? ==>
                  && r.value.payloadLength == l.insertion - FIRST_EXTENSION + 8 + Copied(l, offset)
                  && r.value.source == p[22..38] && r.value.destination == p[38..54]
                  && r.value.fragment == Some(Announced(l, identification, offset)))
  {
    hide FragmentAt, InsertionPoint, ExtensionLength, Walk, FragmentLayout, HeadersFit, Parse, Read16, Read32;
    var walk := LayoutWalked(p, mtu, l);
    var f := FragmentAt(p, l, identification, offset);
    FragmentBytes(p, l, identification, offset);
    FragmentFits(p, MAXIMUM_MTU, l, identification, offset);
    ParseUnfolds(p, f, l.insertion, l.previous);
    WalkPrefix(p, l.packetEnd, f, |f|, FIRST_EXTENSION, NEXT_HEADER_OFFSET, false,
               Insertion(l.insertion, l.previous, l.nextHeader));
    AnnouncedWalk(p, l, f, identification, offset);
    if offset == 0 {
      FirstFragmentWalk(p, l, walk, f, identification);
    }
  }

  ghost function ParseFrom(f: seq<Byte>, chain: Option<Chain>): Option<View>
    requires |f| >= FIRST_EXTENSION
  {
    if chain.None? then None
    else Some(View(Read16(f, 18), f[22..38], f[38..54], chain.value.upperOffset, chain.value.fragment))
  }

  /** A packet that keeps the outer headers is parsed by the walk alone. */
  lemma ParseUnfolds(p: seq<Byte>, f: seq<Byte>, insertion: nat, previous: nat)
    requires FIRST_EXTENSION <= insertion <= |p| && insertion <= |f| && NEXT_HEADER_OFFSET <= previous < insertion
    requires PrefixAgrees(p, f, insertion, previous)
    requires p[12] == 0x86 && p[13] == 0xdd && p[14] / 16 == 6
    requires 0 < Read16(f, 18) == |f| - FIRST_EXTENSION
    requires previous == NEXT_HEADER_OFFSET || previous >= FIRST_EXTENSION
    ensures Parse(f) == ParseFrom(f, Walk(f, |f|, FIRST_EXTENSION, NEXT_HEADER_OFFSET, f[NEXT_HEADER_OFFSET], None))
    ensures f[22..38] == p[22..38] && f[38..54] == p[38..54]
  {
    hide Walk, Read16;
    assert f[22..38] == p[22..38] && f[38..54] == p[38..54];
  }

  /** The fragmentable part never starts with a Hop-by-Hop header. */
  lemma {:induction false} NotHopByHop(
      p: seq<Byte>, end: nat, offset: nat, previous: nat, current: Byte, routingSeen: bool,
      insertion: Insertion)
    requires end <= |p| && offset <= end && previous < |p|
    requires InsertionPoint(p, end, offset, previous, current, routingSeen) == Some(insertion)
    ensures insertion.nextHeader != HOP_BY_HOP
    decreases end - offset
  {
    if insertion != Insertion(offset, previous, current) || current == HOP_BY_HOP {
      var length := (p[offset + 1] as int + 1) * 8;
      NotHopByHop(p, end, offset + length, offset, p[offset], routingSeen || current == ROUTING, insertion);
    }
  }
}
