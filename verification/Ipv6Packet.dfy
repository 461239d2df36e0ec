/** The part of the IPv6 parser that fragmentation and reassembly rely on
    (core/src/forwarding/packet.cpp, parse_ipv6). Packets start at the Ethernet header. */
module Ipv6Packets {
  import opened Options

  type Byte = x: nat | x < 256 witness 0

  const ETHERNET_HEADER: nat := 14
  const FIRST_EXTENSION: nat := 54
  const NEXT_HEADER_OFFSET: nat := 20
  const MINIMUM_FRAME: nat := 60

  const HOP_BY_HOP: Byte := 0
  const ROUTING: Byte := 43
  const FRAGMENT: Byte := 44
  const AUTHENTICATION: Byte := 51
  const DESTINATION_OPTIONS: Byte := 60

  function Be16(v: nat): (b: seq<Byte>)
    requires v < 0x1_0000
    ensures |b| == 2 && Read16(b, 0) == v
  {
    [v / 256, v % 256]
  }

  function Read16(b: seq<Byte>, at: nat): (v: nat)
    requires at + 2 <= |b|
    ensures v < 0x1_0000
  {
    (b[at] as int) * 256 + b[at + 1]
  }

  function Be32(v: nat): (b: seq<Byte>)
    requires v < 0x1_0000_0000
    ensures |b| == 4 && Read32(b, 0) == v
  {
    Be16(v / 0x1_0000) + Be16(v % 0x1_0000)
  }

  function Read32(b: seq<Byte>, at: nat): (v: nat)
    requires at + 4 <= |b|
  {
    Read16(b, at) * 0x1_0000 + Read16(b, at + 2)
  }

  /** Offset is in eight-octet units; `header` and `previous` locate the Fragment header and the
      Next Header octet that announces it. */
  datatype FragmentView = FragmentView(
    identification: nat, offset: nat, more: bool, header: nat, previous: nat)

  datatype View = View(
    payloadLength: nat, source: seq<Byte>, destination: seq<Byte>,
    upperOffset: nat, fragment: Option<FragmentView>)

  /** Where the header walk ends, and the Fragment header met on the way. */
  datatype Chain = Chain(upperOffset: nat, fragment: Option<FragmentView>)

  /** Length of the extension header `current` at `offset`; none if it is malformed or does not fit,
      zero if `current` is an upper-layer protocol. */
  function ExtensionLength(p: seq<Byte>, end: nat, offset: nat, current: Byte, fragmentSeen: bool): (r: Option<nat>)
    requires end <= |p|
    ensures r.Some? && r.value > 0 ==> r.value >= 8 && offset + r.value <= end
  {
    if current == HOP_BY_HOP || current == ROUTING || current == DESTINATION_OPTIONS then
      if (current == HOP_BY_HOP && offset != FIRST_EXTENSION) || offset + 2 > end then None
      else
        var length := (p[offset + 1] as int + 1) * 8;
        if offset + length > end then None else Some(length)
    else if current == FRAGMENT then
      if fragmentSeen || offset + 8 > end then None else Some(8)
    else if current == AUTHENTICATION then
      if offset + 2 > end then None
      else
        var length := (p[offset + 1] as int + 2) * 4;
        if length < 16 || length % 8 != 0 || offset + length > end then None else Some(length)
    else Some(0)
  }

  /** The extension header walk from `offset`, whose header type `current` was read at `previous`. */
  function Walk(p: seq<Byte>, end: nat, offset: nat, previous: nat, current: Byte,
                seen: Option<FragmentView>): (r: Option<Chain>)
    requires end <= |p|
    ensures r.Some? ==> r.value.upperOffset >= offset
    ensures r.Some? && seen.Some? ==> r.value.fragment == seen
    decreases if offset <= end then end - offset else 0
  {
    var length := ExtensionLength(p, end, offset, current, seen.Some?);
    if length.None? then None
    else if length.value == 0 then Some(Chain(offset, seen))
    else
      var seen' := if current == FRAGMENT then
                     Some(FragmentView(Read32(p, offset + 4), Read16(p, offset + 2) / 8,
                                       Read16(p, offset + 2) % 2 == 1, offset, previous))
                   else seen;
      if seen'.Some? && seen'.value.offset != 0 then Some(Chain(offset + length.value, seen'))
      else Walk(p, end, offset + length.value, offset, p[offset], seen')
  }

  function Parse(p: seq<Byte>): (r: Option<View>)
    ensures r.Some? ==> |p| >= FIRST_EXTENSION + r.value.payloadLength
    ensures r.Some? ==> 0 < r.value.payloadLength == Read16(p, 18)
  {
    if |p| < FIRST_EXTENSION || p[12] != 0x86 || p[13] != 0xdd || p[14] / 16 != 6 then None
    else
      var payloadLength := Read16(p, 18);
      if payloadLength == 0 || FIRST_EXTENSION + payloadLength > |p| then None
      else
        var chain := Walk(p, FIRST_EXTENSION + payloadLength, FIRST_EXTENSION, NEXT_HEADER_OFFSET,
                          p[NEXT_HEADER_OFFSET], None);
        if chain.None? then None
        else Some(View(payloadLength, p[22..38], p[38..54], chain.value.upperOffset, chain.value.fragment))
  }

  /** A Fragment header that the walk reports lies inside the packet, behind the octet naming it. */
  lemma {:induction false} WalkBounds(p: seq<Byte>, end: nat, offset: nat, previous: nat, current: Byte,
                                      seen: Option<FragmentView>)
    requires end <= |p| && previous < offset && NEXT_HEADER_OFFSET <= previous && FIRST_EXTENSION <= offset
    requires seen.Some? ==> HeaderInside(seen.value, end)
    ensures var r := Walk(p, end, offset, previous, current, seen);
            r.Some? && r.value.fragment.Some? ==> HeaderInside(r.value.fragment.value, end)
    decreases if offset <= end then end - offset else 0
  {
    var length := ExtensionLength(p, end, offset, current, seen.Some?);
    if length.Some? && length.value > 0 {
      var seen' := if current == FRAGMENT then
                     Some(FragmentView(Read32(p, offset + 4), Read16(p, offset + 2) / 8,
                                       Read16(p, offset + 2) % 2 == 1, offset, previous))
                   else seen;
      if !(seen'.Some? && seen'.value.offset != 0) {
        WalkBounds(p, end, offset + length.value, offset, p[offset], seen');
      }
    }
  }

  ghost predicate HeaderInside(f: FragmentView, end: nat) {
    && NEXT_HEADER_OFFSET <= f.previous < f.header
    && FIRST_EXTENSION <= f.header
    && f.header + 8 <= end
    && f.offset < 8192
  }

  lemma ParseBounds(p: seq<Byte>)
    ensures Parse(p).Some? && Parse(p).value.fragment.Some? ==>
              HeaderInside(Parse(p).value.fragment.value, FIRST_EXTENSION + Parse(p).value.payloadLength)
  {
    if Parse(p).Some? {
      WalkBounds(p, FIRST_EXTENSION + Read16(p, 18), FIRST_EXTENSION, NEXT_HEADER_OFFSET,
                 p[NEXT_HEADER_OFFSET], None);
    }
  }

  // ---------------------------------------------------------------- header chains

  /** An extension header as RFC 8200 and RFC 4302 lay it out: its own length stands in the second octet,
      in eight-octet units beyond the first, or for Authentication in four-octet units beyond two. */
  datatype Extension = Extension(kind: Byte, octets: seq<Byte>)

  ghost predicate WellSized(x: Extension) {
    && |x.octets| % 8 == 0
    && if x.kind == AUTHENTICATION then |x.octets| >= 16 && (x.octets[1] as int) * 4 + 8 == |x.octets|
       else x.kind in {HOP_BY_HOP, ROUTING, DESTINATION_OPTIONS} && |x.octets| >= 8 && (x.octets[1] as int) * 8 + 8 == |x.octets|
  }

  ghost predicate Upper(protocol: Byte) {
    protocol !in {HOP_BY_HOP, ROUTING, FRAGMENT, AUTHENTICATION, DESTINATION_OPTIONS}
  }

  function TotalSize(xs: seq<Extension>): nat {
    if xs == [] then 0 else |xs[0].octets| + TotalSize(xs[1..])
  }

  /** From `offset` on the packet carries these headers, each named by the one before, and then an upper-layer
      protocol. Hop-by-Hop stands first or not at all. */
  ghost predicate Carries(p: seq<Byte>, end: nat, offset: nat, current: Byte, xs: seq<Extension>)
    requires end <= |p|
    decreases |xs|
  {
    if xs == [] then Upper(current)
    else
      && current == xs[0].kind && WellSized(xs[0]) && offset + |xs[0].octets| <= end
      && (current == HOP_BY_HOP ==> offset == FIRST_EXTENSION)
      && p[offset..offset + |xs[0].octets|] == xs[0].octets
      && Carries(p, end, offset + |xs[0].octets|, p[offset], xs[1..])
  }

  /** The walk steps over one header. */
  lemma WalkOver(p: seq<Byte>, end: nat, offset: nat, previous: nat, current: Byte, seen: Option<FragmentView>, x: Extension)
    requires end <= |p| && current == x.kind && WellSized(x) && offset + |x.octets| <= end
    requires current == HOP_BY_HOP ==> offset == FIRST_EXTENSION
    requires p[offset..offset + |x.octets|] == x.octets
    requires seen.Some? ==> seen.value.offset == 0
    ensures Walk(p, end, offset, previous, current, seen) == Walk(p, end, offset + |x.octets|, offset, p[offset], seen)
  {
    hide Read16, Read32;
    assert p[offset + 1] == x.octets[1];
    SizedAs(p, end, offset, current, seen.Some?, x);
    hide ExtensionLength;
  }

  lemma SizedAs(p: seq<Byte>, end: nat, offset: nat, current: Byte, fragmentSeen: bool, x: Extension)
    requires end <= |p| && current == x.kind && WellSized(x) && offset + |x.octets| <= end
    requires current == HOP_BY_HOP ==> offset == FIRST_EXTENSION
    requires p[offset + 1] == x.octets[1]
    ensures ExtensionLength(p, end, offset, current, fragmentSeen) == Some(|x.octets|)
    ensures current != FRAGMENT
  {
  }

  lemma WalkStops(p: seq<Byte>, end: nat, offset: nat, previous: nat, current: Byte, seen: Option<FragmentView>)
    requires end <= |p| && Upper(current)
    ensures Walk(p, end, offset, previous, current, seen) == Some(Chain(offset, seen))
  {
  }

  /** The walk passes a chain of extension headers header by header and stops behind the last. */
  lemma {:induction false} WalkPasses(p: seq<Byte>, end: nat, offset: nat, previous: nat, current: Byte,
                                      seen: Option<FragmentView>, xs: seq<Extension>)
    requires end <= |p| && offset <= end && Carries(p, end, offset, current, xs)
    requires seen.Some? ==> seen.value.offset == 0
    ensures Walk(p, end, offset, previous, current, seen) == Some(Chain(offset + TotalSize(xs), seen))
    decreases |xs|
  {
    hide Walk, Read16, Read32;
    if xs == [] {
      WalkStops(p, end, offset, previous, current, seen);
    } else {
      WalkOver(p, end, offset, previous, current, seen, xs[0]);
      WalkPasses(p, end, offset + |xs[0].octets|, offset, p[offset], seen, xs[1..]);
    }
  }

  /** And nothing else passes: where the walk ends without a Fragment header, it has met such a chain. */
  lemma {:induction false} WalkMeansChain(p: seq<Byte>, end: nat, offset: nat, previous: nat, current: Byte)
    returns (xs: seq<Extension>)
    requires end <= |p| && offset <= end
    requires Walk(p, end, offset, previous, current, None).Some?
    requires Walk(p, end, offset, previous, current, None).value.fragment.None?
    ensures Carries(p, end, offset, current, xs)
    ensures Walk(p, end, offset, previous, current, None).value.upperOffset == offset + TotalSize(xs)
    decreases end - offset
  {
    var size := HeaderMet(p, end, offset, previous, current);
    hide Walk, ExtensionLength;
    if size == 0 {
      xs := [];
    } else {
      var rest := WalkMeansChain(p, end, offset + size, offset, p[offset]);
      var x := Extension(current, p[offset..offset + size]);
      hide WellSized;
      xs := [x] + rest;
      assert xs[1..] == rest;
    }
  }

  /** What the walk meets at `offset`, when it ends without a Fragment header: nothing more, or a header of
      the size it announces, behind which the walk goes on. */
  lemma HeaderMet(p: seq<Byte>, end: nat, offset: nat, previous: nat, current: Byte) returns (size: nat)
    requires end <= |p| && offset <= end
    requires Walk(p, end, offset, previous, current, None).Some?
    requires Walk(p, end, offset, previous, current, None).value.fragment.None?
    ensures size == 0 ==> Upper(current) && Walk(p, end, offset, previous, current, None) == Some(Chain(offset, None))
    ensures size > 0 ==>
              && offset + size <= end && WellSized(Extension(current, p[offset..offset + size]))
              && (current == HOP_BY_HOP ==> offset == FIRST_EXTENSION)
              && Walk(p, end, offset, previous, current, None) == Walk(p, end, offset + size, offset, p[offset], None)
  {
    hide Read16, Read32;
    size := ExtensionLength(p, end, offset, current, false).value;
    if size > 0 {
      NoFragmentMet(p, end, offset, previous, current);
      assert p[offset..offset + size][1] == p[offset + 1];
    }
  }

  lemma NoFragmentMet(p: seq<Byte>, end: nat, offset: nat, previous: nat, current: Byte)
    requires end <= |p| && offset <= end
    requires Walk(p, end, offset, previous, current, None).Some?
    requires Walk(p, end, offset, previous, current, None).value.fragment.None?
    ensures current != FRAGMENT
  {
    hide Read16, Read32;
  }

  /** A packet with such a chain parses, and its upper layer starts behind the chain. */
  lemma ParsesChain(p: seq<Byte>, xs: seq<Extension>)
    requires |p| >= FIRST_EXTENSION && p[12] == 0x86 && p[13] == 0xdd && p[14] / 16 == 6
    requires 0 < Read16(p, 18) && FIRST_EXTENSION + Read16(p, 18) <= |p|
    requires Carries(p, FIRST_EXTENSION + Read16(p, 18), FIRST_EXTENSION, p[NEXT_HEADER_OFFSET], xs)
    ensures Parse(p) == Some(View(Read16(p, 18), p[22..38], p[38..54], FIRST_EXTENSION + TotalSize(xs), None))
  {
    WalkPasses(p, FIRST_EXTENSION + Read16(p, 18), FIRST_EXTENSION, NEXT_HEADER_OFFSET, p[NEXT_HEADER_OFFSET], None, xs);
  }

  /** A chain, a Fragment header and a second chain: the view gives the identification, the offset and the
      flag of the header and where it stands; behind a first fragment the walk goes on, behind any other it
      stops. */
  lemma {:induction false} WalkPassesFragment(
      p: seq<Byte>, end: nat, offset: nat, previous: nat, current: Byte, xs: seq<Extension>, h: nat, named: nat, behind: seq<Extension>)
    requires h + 8 <= end <= |p| && offset <= end
    requires CarriesFragment(p, end, offset, previous, current, xs, h, named)
    requires Read16(p, h + 2) / 8 == 0 ==> Carries(p, end, h + 8, p[h], behind)
    ensures var view := FragmentView(Read32(p, h + 4), Read16(p, h + 2) / 8, Read16(p, h + 2) % 2 == 1, h, named);
            Walk(p, end, offset, previous, current, None)
            == Some(Chain(if view.offset == 0 then h + 8 + TotalSize(behind) else h + 8, Some(view)))
    decreases |xs|
  {
    hide Walk, Read16, Read32;
    if xs == [] {
      var view := FragmentMet(p, end, offset, previous);
      if view.offset == 0 {
        WalkPasses(p, end, h + 8, h, p[h], Some(view), behind);
      }
    } else {
      WalkOver(p, end, offset, previous, current, None, xs[0]);
      WalkPassesFragment(p, end, offset + |xs[0].octets|, offset, p[offset], xs[1..], h, named, behind);
    }
  }

  lemma FragmentMet(p: seq<Byte>, end: nat, offset: nat, previous: nat) returns (view: FragmentView)
    requires offset + 8 <= end <= |p|
    ensures view == FragmentView(Read32(p, offset + 4), Read16(p, offset + 2) / 8, Read16(p, offset + 2) % 2 == 1,
                                 offset, previous)
    ensures Walk(p, end, offset, previous, FRAGMENT, None)
         == if view.offset != 0 then Some(Chain(offset + 8, Some(view)))
            else Walk(p, end, offset + 8, offset, p[offset], Some(view))
  {
    view := FragmentView(Read32(p, offset + 4), Read16(p, offset + 2) / 8, Read16(p, offset + 2) % 2 == 1, offset, previous);
    hide Read16, Read32;
    assert ExtensionLength(p, end, offset, FRAGMENT, false) == Some(8);
    hide ExtensionLength;
  }

  /** These headers, and behind them at `h` a Fragment header that the octet at `named` announces. */
  ghost predicate CarriesFragment(p: seq<Byte>, end: nat, offset: nat, previous: nat, current: Byte,
                                  xs: seq<Extension>, h: nat, named: nat)
    requires end <= |p|
    decreases |xs|
  {
    if xs == [] then current == FRAGMENT && h == offset && named == previous && offset + 8 <= end
    else
      && current == xs[0].kind && WellSized(xs[0]) && offset + |xs[0].octets| <= end
      && (current == HOP_BY_HOP ==> offset == FIRST_EXTENSION)
      && p[offset..offset + |xs[0].octets|] == xs[0].octets
      && CarriesFragment(p, end, offset + |xs[0].octets|, offset, p[offset], xs[1..], h, named)
  }
}
