/** IPv6 destination reassembly (core/src/ip/ipv6_fragmentation.cpp, Ipv6ReassemblyTable), and the
    round trip with the source fragmentation. */
module Ipv6Reassembly {
  import opened Options
  import opened Ipv6Packets
  import opened Ipv6Fragmentation

  const SLOTS: nat := 4
  const TIMEOUT: int := 60_000_000_000

  /** `received` is the set of indices whose acceptance bit is set. */
  datatype Entry = Entry(
    occupied: bool, source: seq<Byte>, destination: seq<Byte>, identification: nat,
    header: nat, previous: nat, nextHeader: Byte,
    extent: nat, finalSize: nat, haveFirst: bool, haveLast: bool,
    first: seq<Byte>, buffer: seq<Byte>, received: set<nat>, expires: int)

  datatype Status = NotFragment | Incomplete | Complete | Atomic | Malformed | Overlap | Exhausted

  datatype Result = Result(status: Status, packet: seq<Byte>)

  // ---------------------------------------------------------------- one entry

  /** Storage is kept; only metadata and the acceptance bits are reset. */
  function Cleared(e: Entry): Entry {
    Entry(false, [], [], 0, 0, 0, 0, 0, 0, false, false, [], e.buffer, {}, 0)
  }

  ghost predicate ValidEntry(e: Entry) {
    && |e.buffer| == MAXIMUM_PAYLOAD
    && e.finalSize <= MAXIMUM_PAYLOAD
    && (e.header != 0 ==> FIRST_EXTENSION <= e.header && e.previous < e.header)
    && (e.haveFirst ==> e.header != 0 && e.header <= |e.first|)
    && (forall x :: x in e.received ==> x < e.extent)
  }

  /** The octets with the payload length field rewritten, padded to the Ethernet minimum. */
  function WithPayloadLength(p: seq<Byte>, payload: nat): seq<Byte>
    requires |p| >= FIRST_EXTENSION && payload < 0x1_0000
  {
    var q := p[18 := payload / 256][19 := payload % 256];
    if |q| < MINIMUM_FRAME then q + seq(MINIMUM_FRAME - |q|, i => 0) else q
  }

  function Assemble(e: Entry): seq<Byte>
    requires ValidEntry(e)
  {
    if !e.haveFirst || !e.haveLast || e.finalSize == 0 then []
    else
      var payload := e.header - FIRST_EXTENSION + e.finalSize;
      if payload > MAXIMUM_PAYLOAD then []
      else WithPayloadLength(
        e.first[..e.header][e.previous := e.nextHeader] + e.buffer[..e.finalSize], payload)
  }

  function Range(from: nat, size: nat): (r: set<nat>)
    ensures forall x :: x in r <==> from <= x < from + size
  {
    if size == 0 then {} else Range(from, size - 1) + {from + size - 1}
  }

  /** The entry after a fragment with payload `data` has been stored. */
  function Stored(e: Entry, f: seq<Byte>, fragment: FragmentView, data: seq<Byte>): (r: Entry)
    requires ValidEntry(e) && (e.header == 0 || e.header == fragment.header)
    requires HeaderInside(fragment, |f|) && fragment.offset * 8 + |data| <= MAXIMUM_PAYLOAD
    ensures ValidEntry(r)
  {
    var offset, end := fragment.offset * 8, fragment.offset * 8 + |data|;
    var e1 := e.(header := fragment.header, previous := fragment.previous, nextHeader := f[fragment.header],
                 buffer := e.buffer[..offset] + data + e.buffer[end..],
                 received := e.received + Range(offset, |data|),
                 extent := if e.extent < end then end else e.extent);
    var e2 := if offset == 0 then e1.(first := f, haveFirst := true) else e1;
    if fragment.more then e2 else e2.(haveLast := true, finalSize := end)
  }

  predicate Finished(e: Entry) {
    e.haveFirst && e.haveLast && Range(0, e.finalSize) <= e.received
  }

  /** One fragment arrives at its entry. `data` is its payload at octet `offset` of the original. */
  function AcceptInto(e: Entry, f: seq<Byte>, fragment: FragmentView, data: seq<Byte>): (r: (Entry, Result))
    requires ValidEntry(e)
    requires HeaderInside(fragment, |f|) && fragment.offset * 8 + |data| <= MAXIMUM_PAYLOAD
    ensures ValidEntry(r.0)
  {
    var end := fragment.offset * 8 + |data|;
    if e.header != 0 && (e.header != fragment.header || e.nextHeader != f[fragment.header]) then
      (Cleared(e), Result(Malformed, []))
    else if (e.haveLast && end > e.finalSize)
            || Range(fragment.offset * 8, |data|) * e.received != {} then
      (Cleared(e), Result(Overlap, []))
    else if !fragment.more && ((e.haveLast && e.finalSize != end) || e.extent > end) then
      (Cleared(e), Result(Malformed, []))
    else
      var e' := Stored(e, f, fragment, data);
      if Finished(e') then
        var packet := Assemble(e');
        (Cleared(e'), if packet == [] then Result(Malformed, []) else Result(Complete, packet))
      else (e', Result(Incomplete, []))
  }

  // ---------------------------------------------------------------- the table

  predicate Matches(e: Entry, source: seq<Byte>, destination: seq<Byte>, identification: nat) {
    e.occupied && e.source == source && e.destination == destination && e.identification == identification
  }

  function Find(entries: seq<Entry>, v: View, i: nat): (k: nat)
    requires v.fragment.Some? && i <= |entries|
    ensures i <= k <= |entries|
    ensures k < |entries| ==> Matches(entries[k], v.source, v.destination, v.fragment.value.identification)
    ensures forall j :: i <= j < k ==>
              !Matches(entries[j], v.source, v.destination, v.fragment.value.identification)
    decreases |entries| - i
  {
    if i == |entries| || Matches(entries[i], v.source, v.destination, v.fragment.value.identification)
    then i else Find(entries, v, i + 1)
  }

  function FindFree(entries: seq<Entry>, i: nat): (k: nat)
    requires i <= |entries|
    ensures i <= k <= |entries|
    ensures k < |entries| ==> !entries[k].occupied
    ensures forall j :: i <= j < k ==> entries[j].occupied
    decreases |entries| - i
  {
    if i == |entries| || !entries[i].occupied then i else FindFree(entries, i + 1)
  }

  function ExpireOne(e: Entry, now: int): Entry {
    if e.occupied && e.expires <= now then Cleared(e) else e
  }

  function Expired(entries: seq<Entry>, now: int): (r: seq<Entry>)
    ensures |r| == |entries|
    ensures forall i :: 0 <= i < |r| ==> r[i] == ExpireOne(entries[i], now)
  {
    seq(|entries|, i requires 0 <= i < |entries| => ExpireOne(entries[i], now))
  }

  function Allocated(e: Entry, v: View, now: int): Entry
    requires v.fragment.Some?
  {
    Cleared(e).(occupied := true, source := v.source, destination := v.destination,
                identification := v.fragment.value.identification, expires := now + TIMEOUT)
  }

  /** Payload limits checked before any state is touched. */
  predicate Admissible(fragment: FragmentView, dataSize: nat)
    requires FIRST_EXTENSION <= fragment.header
  {
    && dataSize != 0
    && (fragment.more ==> dataSize % 8 == 0)
    && fragment.header - FIRST_EXTENSION + fragment.offset * 8 + dataSize <= MAXIMUM_PAYLOAD
  }

  ghost predicate ValidTable(entries: seq<Entry>) {
    |entries| == SLOTS && forall i :: 0 <= i < |entries| ==> ValidEntry(entries[i])
  }

  function Accept(entries: seq<Entry>, f: seq<Byte>, now: int): (r: (seq<Entry>, Result))
    requires ValidTable(entries)
    ensures ValidTable(r.0)
  {
    ParseBounds(f);
    var live := Expired(entries, now);
    var parsed := Parse(f);
    if parsed.None? then (live, Result(Malformed, []))
    else if parsed.value.fragment.None? then (live, Result(NotFragment, []))
    else
      var v, fragment := parsed.value, parsed.value.fragment.value;
      var data := f[fragment.header + 8..FIRST_EXTENSION + v.payloadLength];
      if fragment.offset == 0 && !fragment.more then
        (live, Result(Atomic, WithPayloadLength(
          f[..fragment.header][fragment.previous := f[fragment.header]] + data, v.payloadLength - 8)))
      else if !Admissible(fragment, |data|) then (live, Result(Malformed, []))
      else
        var found := Find(live, v, 0);
        var k := if found < |live| then found else FindFree(live, 0);
        if k == |live| then (live, Result(Exhausted, []))
        else
          var e := if found < |live| then live[k] else Allocated(live[k], v, now);
          var (e', result) := AcceptInto(e, f, fragment, data);
          (live[k := e'], result)
  }

  class ReassemblyTable {
    const entries: array<Entry>

    ghost predicate Valid()
      reads entries
    {
      ValidTable(entries[..])
    }

    constructor ()
      ensures Valid() && fresh(entries) && forall i :: 0 <= i < SLOTS ==> !entries[i].occupied
    {
      var blank := Entry(false, [], [], 0, 0, 0, 0, 0, 0, false, false, [],
                         seq(MAXIMUM_PAYLOAD, i => 0), {}, 0);
      entries := new Entry[SLOTS](i => blank);
    }

    method Expire(now: int)
      requires Valid()
      modifies entries
      ensures Valid() && entries[..] == Expired(old(entries[..]), now)
    {
      for i := 0 to entries.Length
        invariant forall j :: 0 <= j < i ==> entries[j] == ExpireOne(old(entries[j]), now)
        invariant forall j :: i <= j < entries.Length ==> entries[j] == old(entries[j])
      {
        if entries[i].occupied && entries[i].expires <= now {
          entries[i] := Cleared(entries[i]);
        }
      }
    }

    method AcceptFrame(f: seq<Byte>, now: int) returns (result: Result)
      requires Valid()
      modifies entries
      ensures Valid() && (entries[..], result) == Accept(old(entries[..]), f, now)
    {
      hide Parse, AcceptInto, WithPayloadLength;
      ParseBounds(f);
      Expire(now);
      ghost var live := entries[..];
      var parsed := Parse(f);
      if parsed.None? {
        return Result(Malformed, []);
      }
      if parsed.value.fragment.None? {
        return Result(NotFragment, []);
      }
      var v, fragment := parsed.value, parsed.value.fragment.value;
      var data := f[fragment.header + 8..FIRST_EXTENSION + v.payloadLength];
      if fragment.offset == 0 && !fragment.more {
        return Result(Atomic, WithPayloadLength(
          f[..fragment.header][fragment.previous := f[fragment.header]] + data, v.payloadLength - 8));
      }
      if !Admissible(fragment, |data|) {
        return Result(Malformed, []);
      }
      var k := 0;
      while k < entries.Length && !Matches(entries[k], v.source, v.destination, fragment.identification)
        invariant k <= entries.Length
        invariant Find(live, v, 0) == Find(live, v, k)
      {
        k := k + 1;
      }
      if k == entries.Length {
        k := 0;
        while k < entries.Length && entries[k].occupied
          invariant k <= entries.Length
          invariant FindFree(live, 0) == FindFree(live, k)
        {
          k := k + 1;
        }
        if k == entries.Length {
          return Result(Exhausted, []);
        }
        entries[k] := Allocated(entries[k], v, now);
      }
      var (e', r) := AcceptInto(entries[k], f, fragment, data);
      entries[k] := e';
      assert entries[..] == live[k := e'];
      return r;
    }
  }

  // ---------------------------------------------------------------- round trip

  ghost predicate Multiple(o: int, d: int) {
    d > 0 && o % d == 0
  }

  /** An octet at which the source starts a fragment. */
  ghost predicate IsStart(l: Layout, o: int) {
    0 <= o < l.size && o % 8 == 0 && Multiple(o, l.perFragment)
  }

  ghost predicate CoveredBy(l: Layout, o: int, x: int)
    requires IsStart(l, o)
  {
    o <= x < o + Copied(l, o)
  }

  /** Starts lie on eight octets because fragments are cut at multiples of eight. */
  lemma StartAligned(l: Layout, o: int)
    requires l.perFragment > 0 && l.perFragment % 8 == 0 && o % l.perFragment == 0
    ensures o % 8 == 0
  {
    var k := o / l.perFragment;
    assert o == l.perFragment * k;
    assert l.perFragment == 8 * (l.perFragment / 8);
    assert o == 8 * (l.perFragment / 8 * k);
  }

  lemma MultiplesApart(d: int, a: int, b: int)
    requires d > 0 && a % d == 0 && b % d == 0 && -d < a - b < d
    ensures a == b
  {
    var k := a / d - b / d;
    assert a == d * (a / d) && b == d * (b / d);
    assert a - b == d * k;
    assert k >= 1 ==> d * k >= d;
    assert k <= -1 ==> d * k <= 0 - d;
  }

  lemma RoundDown(x: int, d: int) returns (o: int)
    requires d > 0 && x >= 0
    ensures 0 <= o <= x < o + d && o % d == 0
  {
    var q := x / d;
    o := d * q;
    assert x == d * q + x % d;
    assert q >= 0 ==> d * q >= 0;
    assert o % d == 0 by {
      MultipleModulo(q, d);
    }
  }

  lemma MultipleModulo(q: int, d: int)
    requires d > 0
    ensures (d * q) % d == 0
  {
    var x := d * q;
    var k := x / d - q;
    assert x == d * (x / d) + x % d;
    assert d * k == 0 - x % d;
    assert k >= 1 ==> d * k >= d;
    assert k <= -1 ==> d * k <= 0 - d;
  }

  /** An octet belongs to one fragment only. */
  lemma OneStart(l: Layout, o: int, o': int, x: int)
    requires IsStart(l, o) && IsStart(l, o')
    requires o <= x < o + l.perFragment && o' <= x < o' + l.perFragment
    ensures o == o'
  {
    MultiplesApart(l.perFragment, o, o');
  }

  /** Every octet belongs to the fragment that starts at the multiple below it. */
  lemma StartOf(l: Layout, x: int) returns (o: int)
    requires l.perFragment > 0 && l.perFragment % 8 == 0 && 0 <= x < l.size
    ensures IsStart(l, o) && CoveredBy(l, o, x)
  {
    o := RoundDown(x, l.perFragment);
    StartAligned(l, o);
  }

  /** The acceptance bits are exactly the octets of the fragments that start in `got`. */
  ghost predicate OctetsOf(e: Entry, l: Layout, got: set<int>) {
    && (forall x: nat :: x in e.received ==> exists o :: o in got && IsStart(l, o) && CoveredBy(l, o, x))
    && (forall o, x: nat :: o in got && IsStart(l, o) && CoveredBy(l, o, x) ==> x in e.received)
  }

  /** The buffer agrees with the original wherever an acceptance bit is set. */
  ghost predicate BytesAgree(e: Entry, p: seq<Byte>, l: Layout)
    requires l.insertion + l.size <= |p| && l.size <= |e.buffer|
  {
    forall x: nat :: x in e.received ==> x < l.size && e.buffer[x] == p[l.insertion + x]
  }

  /** Header fields, first and last marks agree with the fragments that start in `got`. */
  ghost predicate MarksOf(e: Entry, p: seq<Byte>, l: Layout, identification: nat, got: set<int>)
    requires LayoutOf(p, MAXIMUM_MTU, l) && identification < 0x1_0000_0000
  {
    && (forall o :: o in got ==> IsStart(l, o))
    && (got == {} <==> e.header == 0)
    && (got != {} ==> e.header == l.insertion && e.previous == l.previous && e.nextHeader == l.nextHeader)
    && (e.haveFirst <==> 0 in got)
    && (e.haveFirst ==> e.first == FragmentAt(p, l, identification, 0))
    && (e.haveLast <==> exists o :: o in got && IsStart(l, o) && o + Copied(l, o) == l.size)
    && (e.haveLast ==> e.finalSize == l.size)
    && e.extent <= l.size
  }

  /** The entry holds exactly the fragments that start at the octets in `got`. */
  ghost predicate Partial(e: Entry, p: seq<Byte>, l: Layout, identification: nat, got: set<int>)
    requires LayoutOf(p, MAXIMUM_MTU, l) && identification < 0x1_0000_0000
  {
    && ValidEntry(e)
    && Matches(e, p[22..38], p[38..54], identification)
    && MarksOf(e, p, l, identification, got)
    && OctetsOf(e, l, got)
    && BytesAgree(e, p, l)
  }

  ghost predicate AllStarts(l: Layout, got: set<int>) {
    forall o :: IsStart(l, o) ==> o in got
  }

  lemma Splice(buffer: seq<Byte>, o: nat, data: seq<Byte>, x: nat)
    requires o + |data| <= |buffer| && x < |buffer|
    ensures (buffer[..o] + data + buffer[o + |data|..])[x]
         == if o <= x < o + |data| then data[x - o] else buffer[x]
  {
  }

  lemma StoredBytes(e: Entry, e': Entry, p: seq<Byte>, l: Layout, o: nat, data: seq<Byte>)
    requires l.insertion + l.size <= |p| && l.size <= |e.buffer|
    requires o + |data| <= l.size && data == p[l.insertion + o..l.insertion + o + |data|]
    requires BytesAgree(e, p, l)
    requires e'.buffer == e.buffer[..o] + data + e.buffer[o + |data|..]
    requires e'.received == e.received + Range(o, |data|)
    ensures |e'.buffer| == |e.buffer| && BytesAgree(e', p, l)
  {
    hide Range;
    forall x: nat | x in e'.received
      ensures x < l.size && e'.buffer[x] == p[l.insertion + x]
    {
      Splice(e.buffer, o, data, x);
    }
  }

  lemma StoredOctets(e: Entry, e': Entry, l: Layout, got: set<int>, o: int)
    requires OctetsOf(e, l, got) && IsStart(l, o)
    requires e'.received == e.received + Range(o, Copied(l, o))
    ensures OctetsOf(e', l, got + {o})
  {
    hide Multiple, Range;
    var got' := got + {o};
    forall x: nat | x in e'.received
      ensures exists k :: k in got' && IsStart(l, k) && CoveredBy(l, k, x)
    {
      if x in e.received {
        var k :| k in got && IsStart(l, k) && CoveredBy(l, k, x);
        assert k in got';
      } else {
        assert o in got' && CoveredBy(l, o, x);
      }
    }
  }

  lemma StoredMarks(e: Entry, e': Entry, p: seq<Byte>, l: Layout, identification: nat, got: set<int>, o: int)
    requires LayoutOf(p, MAXIMUM_MTU, l) && identification < 0x1_0000_0000
    requires MarksOf(e, p, l, identification, got) && IsStart(l, o)
    requires e'.header == l.insertion && e'.previous == l.previous && e'.nextHeader == l.nextHeader
    requires e'.haveFirst == (e.haveFirst || o == 0)
    requires e'.first == if o == 0 then FragmentAt(p, l, identification, 0) else e.first
    requires e'.haveLast == (e.haveLast || o + Copied(l, o) == l.size)
    requires e'.finalSize == if o + Copied(l, o) == l.size then l.size else e.finalSize
    requires e'.extent <= l.size
    ensures MarksOf(e', p, l, identification, got + {o})
  {
    hide FragmentAt, Multiple;
    var got' := got + {o};
    if e'.haveLast {
      if e.haveLast {
        var k :| k in got && IsStart(l, k) && k + Copied(l, k) == l.size;
        assert k in got';
      } else {
        assert o in got';
      }
    }
  }

  /** What the entry says after a fragment has been stored. */
  lemma StoredFields(e: Entry, l: Layout, f: seq<Byte>, fragment: FragmentView, data: seq<Byte>, o: nat)
    returns (e': Entry)
    requires ValidEntry(e) && (e.header == 0 || e.header == fragment.header) && e.extent <= l.size
    requires HeaderInside(fragment, |f|) && fragment.offset * 8 == o
    requires o + |data| <= l.size <= MAXIMUM_PAYLOAD && (fragment.more <==> o + |data| < l.size)
    ensures e' == Stored(e, f, fragment, data) && ValidEntry(e')
    ensures e'.(header := e.header, previous := e.previous, nextHeader := e.nextHeader, buffer := e.buffer,
                received := e.received, extent := e.extent, first := e.first, haveFirst := e.haveFirst,
                haveLast := e.haveLast, finalSize := e.finalSize) == e
    ensures e'.header == fragment.header && e'.previous == fragment.previous && e'.nextHeader == f[fragment.header]
    ensures e'.buffer == e.buffer[..o] + data + e.buffer[o + |data|..]
    ensures e'.received == e.received + Range(o, |data|)
    ensures e'.extent <= l.size
    ensures e'.haveFirst == (e.haveFirst || o == 0) && e'.first == if o == 0 then f else e.first
    ensures e'.haveLast == (e.haveLast || o + |data| == l.size)
    ensures e'.finalSize == if o + |data| == l.size then l.size else e.finalSize
  {
    hide Range;
    e' := Stored(e, f, fragment, data);
  }

  /** Storing a missing fragment adds exactly that fragment. */
  lemma StoredPartial(e: Entry, p: seq<Byte>, l: Layout, identification: nat, got: set<int>, o: int)
    requires LayoutOf(p, MAXIMUM_MTU, l) && identification < 0x1_0000_0000
    requires Partial(e, p, l, identification, got)
    requires IsStart(l, o)
    requires HeaderInside(Announced(l, identification, o), |FragmentAt(p, l, identification, o)|)
    ensures Partial(Stored(e, FragmentAt(p, l, identification, o), Announced(l, identification, o),
                           p[l.insertion + o..l.insertion + o + Copied(l, o)]),
                    p, l, identification, got + {o})
  {
    assert 0 <= o < l.size;
    hide FragmentAt, PrefixAgrees, OctetsOf, BytesAgree, IsStart, Range, Read16, Read32, Stored;
    var f := FragmentAt(p, l, identification, o);
    var data := p[l.insertion + o..l.insertion + o + Copied(l, o)];
    FragmentBytes(p, l, identification, o);
    var e' := StoredFields(e, l, f, Announced(l, identification, o), data, o);
    StoredBytes(e, e', p, l, o, data);
    StoredOctets(e, e', l, got, o);
    StoredMarks(e, e', p, l, identification, got, o);
  }

  /** An entry is finished exactly when it holds a fragment for every start. */
  lemma FinishedExactly(e: Entry, p: seq<Byte>, l: Layout, identification: nat, got: set<int>)
    requires LayoutOf(p, MAXIMUM_MTU, l) && identification < 0x1_0000_0000
    requires Partial(e, p, l, identification, got)
    ensures Finished(e) <==> AllStarts(l, got)
  {
    assert IsStart(l, 0);
    hide Multiple, Range;
    if AllStarts(l, got) {
      var last := StartOf(l, l.size - 1);
      assert last in got && last + Copied(l, last) == l.size;
      forall x: nat | x < l.size
        ensures x in e.received
      {
        var o := StartOf(l, x);
      }
    } else if e.haveLast {
      var o :| IsStart(l, o) && o !in got;
      if o in e.received {
        var o' :| o' in got && IsStart(l, o') && CoveredBy(l, o', o);
        OneStart(l, o, o', o);
      }
      assert o in Range(0, e.finalSize) && o !in e.received;
    }
  }

  lemma RebuildsOriginal(p: seq<Byte>, l: Layout, first: seq<Byte>, buffer: seq<Byte>)
    requires LayoutOf(p, MAXIMUM_MTU, l) && PrefixAgrees(p, first, l.insertion, l.previous)
    requires l.size <= |buffer| && forall x :: 0 <= x < l.size ==> buffer[x] == p[l.insertion + x]
    ensures WithPayloadLength(first[..l.insertion][l.previous := l.nextHeader] + buffer[..l.size],
                              l.insertion - FIRST_EXTENSION + l.size)
         == p[..l.packetEnd]
  {
    var payload := l.insertion - FIRST_EXTENSION + l.size;
    assert payload == Read16(p, 18);
    assert payload / 256 == p[18] && payload % 256 == p[19];
    var whole := (first[..l.insertion][l.previous := l.nextHeader] + buffer[..l.size])
                 [18 := payload / 256][19 := payload % 256];
    assert whole == p[..l.packetEnd];
  }

  /** A finished entry assembles into the original datagram, octet for octet. */
  lemma AssemblesOriginal(e: Entry, p: seq<Byte>, l: Layout, identification: nat, got: set<int>)
    requires LayoutOf(p, MAXIMUM_MTU, l) && identification < 0x1_0000_0000
    requires l.packetEnd >= MINIMUM_FRAME
    requires Partial(e, p, l, identification, got) && Finished(e)
    ensures Assemble(e) == p[..l.packetEnd]
  {
    hide FragmentAt, PrefixAgrees, WithPayloadLength, IsStart, OctetsOf, Range, Read16, Read32;
    FragmentBytes(p, l, identification, 0);
    forall x | 0 <= x < l.size
      ensures e.buffer[x] == p[l.insertion + x]
    {
      assert x in Range(0, l.size);
    }
    RebuildsOriginal(p, l, e.first, e.buffer);
  }

  /** A missing fragment of the same datagram passes every check of its entry. */
  lemma NotRejected(e: Entry, p: seq<Byte>, l: Layout, identification: nat, got: set<int>, o: int,
                    f: seq<Byte>, data: seq<Byte>)
    requires LayoutOf(p, MAXIMUM_MTU, l) && identification < 0x1_0000_0000
    requires Partial(e, p, l, identification, got)
    requires IsStart(l, o) && o !in got
    requires f == FragmentAt(p, l, identification, o)
    requires data == p[l.insertion + o..l.insertion + o + Copied(l, o)]
    ensures HeaderInside(Announced(l, identification, o), |f|) && f[l.insertion] == l.nextHeader
    ensures e.header == 0 || (e.header == l.insertion && e.nextHeader == l.nextHeader)
    ensures e.haveLast ==> o + |data| <= e.finalSize
    ensures Range(o, |data|) * e.received == {}
    ensures o + |data| == l.size ==> !e.haveLast && e.extent <= l.size
  {
    FragmentBytes(p, l, identification, o);
    hide FragmentAt, PrefixAgrees, Multiple, Range;
    assert Range(o, |data|) * e.received == {} by {
      if x :| x in Range(o, |data|) * e.received {
        var o' :| o' in got && IsStart(l, o') && CoveredBy(l, o', x);
        OneStart(l, o, o', x);
        assert false;
      }
    }
    if o + |data| == l.size && e.haveLast {
      var o' :| o' in got && IsStart(l, o') && o' + Copied(l, o') == l.size;
      OneStart(l, o, o', l.size - 1);
      assert false;
    }
  }

  /** One more fragment of the datagram reaches its entry: the entry then holds one fragment more,
      or, when that was the last one missing, the original datagram comes out. */
  lemma AcceptStep(e: Entry, p: seq<Byte>, l: Layout, identification: nat, got: set<int>, o: int,
                   f: seq<Byte>, data: seq<Byte>)
    returns (e': Entry, r: Result)
    requires LayoutOf(p, MAXIMUM_MTU, l) && identification < 0x1_0000_0000
    requires l.packetEnd >= MINIMUM_FRAME
    requires Partial(e, p, l, identification, got)
    requires IsStart(l, o) && o !in got
    requires f == FragmentAt(p, l, identification, o)
    requires data == p[l.insertion + o..l.insertion + o + Copied(l, o)]
    ensures HeaderInside(Announced(l, identification, o), |f|)
    ensures Announced(l, identification, o).offset * 8 + |data| <= MAXIMUM_PAYLOAD
    ensures AcceptInto(e, f, Announced(l, identification, o), data) == (e', r)
    ensures AllStarts(l, got + {o}) ==> r == Result(Complete, p[..l.packetEnd]) && !e'.occupied
    ensures !AllStarts(l, got + {o}) ==>
              && r == Result(Incomplete, [])
              && Partial(e', p, l, identification, got + {o})
              && e'.expires == e.expires
  {
    var fragment := Announced(l, identification, o);
    assert fragment.offset * 8 == o;
    NotRejected(e, p, l, identification, got, o, f, data);
    StoredPartial(e, p, l, identification, got, o);
    hide FragmentAt, OctetsOf, BytesAgree, MarksOf, IsStart, AllStarts, Finished, Assemble;
    var stored := Stored(e, f, fragment, data);
    FinishedExactly(stored, p, l, identification, got + {o});
    if Finished(stored) {
      AssemblesOriginal(stored, p, l, identification, got + {o});
    }
    e', r := AcceptInto(e, f, fragment, data).0, AcceptInto(e, f, fragment, data).1;
  }

  // ---------------------------------------------------------------- the table over a whole datagram

  /** Which fragments of a datagram have been collected, and when they expire. */
  datatype Progress = Progress(got: set<int>, expires: int)

  /** The table holds the fragments collected so far in entry `slot` and nothing else under the same
      key; with none collected, `slot` is free. */
  ghost predicate Waiting(entries: seq<Entry>, p: seq<Byte>, l: Layout, identification: nat,
                          s: Progress, slot: nat)
    requires LayoutOf(p, MAXIMUM_MTU, l) && identification < 0x1_0000_0000
  {
    && ValidTable(entries) && slot < SLOTS
    && (forall i :: 0 <= i < SLOTS && (i != slot || s.got == {}) ==>
          !Matches(entries[i], p[22..38], p[38..54], identification))
    && (s.got == {} ==> !entries[slot].occupied)
    && (s.got != {} ==> Partial(entries[slot], p, l, identification, s.got) && entries[slot].expires == s.expires)
  }

  function Live(s: Progress, now: int): Progress {
    if s.expires <= now then s.(got := {}) else s
  }

  lemma ExpiryKeepsWaiting(entries: seq<Entry>, p: seq<Byte>, l: Layout, identification: nat,
                           s: Progress, slot: nat, now: int)
    requires LayoutOf(p, MAXIMUM_MTU, l) && identification < 0x1_0000_0000
    requires Waiting(entries, p, l, identification, s, slot)
    ensures Waiting(Expired(entries, now), p, l, identification, Live(s, now), slot)
  {
    hide MarksOf, OctetsOf, BytesAgree;
  }

  /** What the receiver reads from a fragment it can parse. */
  lemma FragmentReads(p: seq<Byte>, mtu: nat, l: Layout, identification: nat, o: nat, f: seq<Byte>)
    requires mtu <= MAXIMUM_MTU && FragmentLayout(p, mtu) == Some(l) && identification < 0x1_0000_0000
    requires IsStart(l, o) && (o != 0 || HeadersFit(p, l))
    requires f == FragmentAt(p, l, identification, o)
    ensures Parse(f).Some?
    ensures Parse(f).value.source == p[22..38] && Parse(f).value.destination == p[38..54]
    ensures Parse(f).value.fragment == Some(Announced(l, identification, o))
    ensures FIRST_EXTENSION + Parse(f).value.payloadLength == |f|
    ensures f[l.insertion + 8..] == p[l.insertion + o..l.insertion + o + Copied(l, o)]
    ensures Admissible(Announced(l, identification, o), Copied(l, o))
    ensures !(o / 8 == 0 && !Announced(l, identification, o).more)
    ensures l.packetEnd >= MINIMUM_FRAME
  {
    assert l.packetEnd >= MINIMUM_FRAME by {
      hide Parse, InsertionPoint;
    }
    FragmentParses(p, mtu, l, identification, o);
    hide Parse, FragmentLayout, Multiple;
    FragmentFits(p, MAXIMUM_MTU, l, identification, o);
  }

  /** An ordinary fragment is handed to the matching entry, or to the first free one. */
  lemma AcceptUnfolds(entries: seq<Entry>, f: seq<Byte>, now: int, v: View, k: nat, e: Entry, data: seq<Byte>)
    requires ValidTable(entries) && Parse(f) == Some(v) && v.fragment.Some?
    requires HeaderInside(v.fragment.value, FIRST_EXTENSION + v.payloadLength)
    requires data == f[v.fragment.value.header + 8..FIRST_EXTENSION + v.payloadLength]
    requires !(v.fragment.value.offset == 0 && !v.fragment.value.more)
    requires Admissible(v.fragment.value, |data|)
    requires k < SLOTS
    requires var live := Expired(entries, now);
             || (k == Find(live, v, 0) && e == live[k])
             || (Find(live, v, 0) == SLOTS && k == FindFree(live, 0) && e == Allocated(live[k], v, now))
    ensures ValidEntry(e)
    ensures Accept(entries, f, now)
         == (Expired(entries, now)[k := AcceptInto(e, f, v.fragment.value, data).0],
             AcceptInto(e, f, v.fragment.value, data).1)
  {
    hide AcceptInto, Parse, Find, FindFree;
  }

  /** When the fragments collected so far and one more that arrives at `now` expire. */
  function Deadline(s: Progress, now: int): int {
    if Live(s, now).got == {} then now + TIMEOUT else s.expires
  }

  /** Which entry an arriving fragment of the datagram is handed to. */
  lemma EntryFor(entries: seq<Entry>, p: seq<Byte>, l: Layout, identification: nat,
                 s: Progress, slot: nat, now: int, v: View)
    returns (k: nat, e: Entry)
    requires LayoutOf(p, MAXIMUM_MTU, l) && identification < 0x1_0000_0000
    requires Waiting(entries, p, l, identification, s, slot)
    requires v.fragment.Some? && v.source == p[22..38] && v.destination == p[38..54]
    requires v.fragment.value.identification == identification
    ensures k < SLOTS && Partial(e, p, l, identification, Live(s, now).got) && e.expires == Deadline(s, now)
    ensures var live := Expired(entries, now);
            || (k == Find(live, v, 0) && e == live[k])
            || (Find(live, v, 0) == SLOTS && k == FindFree(live, 0) && e == Allocated(live[k], v, now))
    ensures forall i :: 0 <= i < SLOTS && i != k ==>
              !Matches(Expired(entries, now)[i], p[22..38], p[38..54], identification)
  {
    ExpiryKeepsWaiting(entries, p, l, identification, s, slot, now);
    hide MarksOf, OctetsOf, BytesAgree;
    var live := Expired(entries, now);
    if Live(s, now).got == {} {
      k := FindFree(live, 0);
      e := Allocated(live[k], v, now);
      BlankIsPartial(e, p, l, identification);
    } else {
      k, e := slot, live[slot];
    }
  }

  /** A missing fragment that parses is stored, or completes the datagram. */
  lemma TableStep(entries: seq<Entry>, p: seq<Byte>, mtu: nat, l: Layout, identification: nat,
                  s: Progress, slot: nat, o: nat, now: int)
    returns (entries': seq<Entry>, r: Result, slot': nat)
    requires mtu <= MAXIMUM_MTU && FragmentLayout(p, mtu) == Some(l) && identification < 0x1_0000_0000
    requires Waiting(entries, p, l, identification, s, slot)
    requires IsStart(l, o) && o !in Live(s, now).got && (o != 0 || HeadersFit(p, l))
    ensures Accept(entries, FragmentAt(p, l, identification, o), now) == (entries', r)
    ensures AllStarts(l, Live(s, now).got + {o}) ==>
              r == Result(Complete, p[..l.packetEnd]) && Waiting(entries', p, l, identification, Progress({}, 0), slot')
    ensures !AllStarts(l, Live(s, now).got + {o}) ==>
              && r == Result(Incomplete, [])
              && Waiting(entries', p, l, identification, Progress(Live(s, now).got + {o}, Deadline(s, now)), slot')
  {
    hide FragmentAt, FragmentLayout, Parse, AllStarts, Multiple, HeadersFit, Partial, Accept, AcceptInto;
    var f := FragmentAt(p, l, identification, o);
    FragmentReads(p, mtu, l, identification, o, f);
    ParseBounds(f);
    var e;
    slot', e := EntryFor(entries, p, l, identification, s, slot, now, Parse(f).value);
    var data := p[l.insertion + o..l.insertion + o + Copied(l, o)];
    assert f[l.insertion + 8..|f|] == f[l.insertion + 8..] == data;
    AcceptUnfolds(entries, f, now, Parse(f).value, slot', e, data);
    var e';
    e', r := AcceptStep(e, p, l, identification, Live(s, now).got, o, f, data);
    entries' := Expired(entries, now)[slot' := e'];
  }

  /** Octet `x` was received already, or lies past the end that the last fragment gave. */
  ghost predicate Conflicts(l: Layout, got: set<int>, x: int) {
    exists o :: o in got && IsStart(l, o) && (CoveredBy(l, o, x) || (o + Copied(l, o) == l.size <= x))
  }

  /** An entry gives up its datagram when a fragment brings a conflicting octet. */
  lemma ConflictClears(e: Entry, p: seq<Byte>, l: Layout, identification: nat, got: set<int>,
                       f: seq<Byte>, fragment: FragmentView, data: seq<Byte>, x: nat)
    requires LayoutOf(p, MAXIMUM_MTU, l) && identification < 0x1_0000_0000
    requires Partial(e, p, l, identification, got)
    requires HeaderInside(fragment, |f|) && fragment.offset * 8 + |data| <= MAXIMUM_PAYLOAD
    requires fragment.offset * 8 <= x < fragment.offset * 8 + |data| && Conflicts(l, got, x)
    ensures AcceptInto(e, f, fragment, data)
         == (Cleared(e), Result(if fragment.header == l.insertion && f[fragment.header] == l.nextHeader
                                then Overlap else Malformed, []))
  {
    hide FragmentAt, BytesAgree, Multiple, Range, Stored, Finished, Assemble;
    var o :| o in got && IsStart(l, o) && (CoveredBy(l, o, x) || (o + Copied(l, o) == l.size <= x));
    if CoveredBy(l, o, x) {
      assert x in Range(fragment.offset * 8, |data|) * e.received;
    }
  }

  /** A frame under the datagram's key whose payload brings octet `x`. */
  ghost predicate Brings(f: seq<Byte>, p: seq<Byte>, identification: nat, x: nat)
    requires |p| >= FIRST_EXTENSION
  {
    Parse(f).Some? && Parse(f).value.fragment.Some? &&
    var v, fragment := Parse(f).value, Parse(f).value.fragment.value;
    && v.source == p[22..38] && v.destination == p[38..54] && fragment.identification == identification
    && !(fragment.offset == 0 && !fragment.more)
    && HeaderInside(fragment, FIRST_EXTENSION + v.payloadLength)
    && Admissible(fragment, FIRST_EXTENSION + v.payloadLength - (fragment.header + 8))
    && fragment.offset * 8 <= x < fragment.offset * 8 + FIRST_EXTENSION + v.payloadLength - (fragment.header + 8)
  }

  /** The frame announces the headers that the datagram's own fragments have. */
  ghost predicate SameHeaders(f: seq<Byte>, p: seq<Byte>, l: Layout, identification: nat, x: nat)
    requires |p| >= FIRST_EXTENSION && Brings(f, p, identification, x)
  {
    var header := Parse(f).value.fragment.value.header;
    header == l.insertion && f[header] == l.nextHeader
  }

  /** Any frame, forged or repeated, that brings an octet already received or past the known end makes
      the table forget the datagram. */
  lemma OverlapDiscards(entries: seq<Entry>, p: seq<Byte>, l: Layout, identification: nat,
                        s: Progress, slot: nat, f: seq<Byte>, now: int, x: nat)
    returns (entries': seq<Entry>, slot': nat)
    requires LayoutOf(p, MAXIMUM_MTU, l) && identification < 0x1_0000_0000
    requires Waiting(entries, p, l, identification, s, slot)
    requires Brings(f, p, identification, x) && Conflicts(l, Live(s, now).got, x)
    ensures Accept(entries, f, now)
         == (entries', Result(if SameHeaders(f, p, l, identification, x) then Overlap else Malformed, []))
    ensures Waiting(entries', p, l, identification, Progress({}, 0), slot')
  {
    hide Parse, Multiple, Partial, Accept, AcceptInto;
    var v := Parse(f).value;
    var data := f[v.fragment.value.header + 8..FIRST_EXTENSION + v.payloadLength];
    var e;
    slot', e := EntryFor(entries, p, l, identification, s, slot, now, v);
    AcceptUnfolds(entries, f, now, v, slot', e, data);
    ConflictClears(e, p, l, identification, Live(s, now).got, f, v.fragment.value, data, x);
    entries' := Expired(entries, now)[slot' := Cleared(e)];
  }

  /** Where the fragment of `f` ends in the original datagram. */
  function EndOf(f: seq<Byte>): int
    requires Parse(f).Some? && Parse(f).value.fragment.Some?
  {
    var v, fragment := Parse(f).value, Parse(f).value.fragment.value;
    fragment.offset * 8 + FIRST_EXTENSION + v.payloadLength - (fragment.header + 8)
  }

  ghost predicate ContradictsEnd(l: Layout, got: set<int>, end: int) {
    exists o :: o in got && IsStart(l, o) && (end < o + Copied(l, o) || (o + Copied(l, o) == l.size && end != l.size))
  }

  /** The frame calls itself the last fragment although an octet behind its end was received, or another
      fragment has given another end. */
  ghost predicate DeniesEnd(f: seq<Byte>, l: Layout, got: set<int>)
    requires Parse(f).Some? && Parse(f).value.fragment.Some?
  {
    !Parse(f).value.fragment.value.more && ContradictsEnd(l, got, EndOf(f))
  }

  lemma DenialClears(e: Entry, p: seq<Byte>, l: Layout, identification: nat, got: set<int>,
                     f: seq<Byte>, fragment: FragmentView, data: seq<Byte>)
    requires LayoutOf(p, MAXIMUM_MTU, l) && identification < 0x1_0000_0000
    requires Partial(e, p, l, identification, got) && got != {}
    requires HeaderInside(fragment, |f|) && fragment.offset * 8 + |data| <= MAXIMUM_PAYLOAD
    requires || fragment.header != l.insertion || f[fragment.header] != l.nextHeader
             || (!fragment.more && ContradictsEnd(l, got, fragment.offset * 8 + |data|))
    ensures AcceptInto(e, f, fragment, data).0 == Cleared(e)
    ensures AcceptInto(e, f, fragment, data).1 in {Result(Malformed, []), Result(Overlap, [])}
  {
    hide FragmentAt, BytesAgree, Multiple, Range, Stored, Finished, Assemble;
    if fragment.header == l.insertion && f[fragment.header] == l.nextHeader {
      var end := fragment.offset * 8 + |data|;
      var o :| o in got && IsStart(l, o) && (end < o + Copied(l, o) || (o + Copied(l, o) == l.size && end != l.size));
      assert CoveredBy(l, o, o + Copied(l, o) - 1);
    }
  }

  /** Any frame under the datagram's key that contradicts what was collected, by other headers or by
      another end, makes the table forget the datagram. */
  lemma ContradictionDiscards(entries: seq<Entry>, p: seq<Byte>, l: Layout, identification: nat,
                              s: Progress, slot: nat, f: seq<Byte>, now: int, x: nat)
    returns (entries': seq<Entry>, slot': nat)
    requires LayoutOf(p, MAXIMUM_MTU, l) && identification < 0x1_0000_0000
    requires Waiting(entries, p, l, identification, s, slot) && Live(s, now).got != {}
    requires Brings(f, p, identification, x)
    requires !SameHeaders(f, p, l, identification, x) || DeniesEnd(f, l, Live(s, now).got)
    ensures Accept(entries, f, now).0 == entries' && Accept(entries, f, now).1.status in {Malformed, Overlap}
    ensures Waiting(entries', p, l, identification, Progress({}, 0), slot')
  {
    hide Parse, Multiple, Partial, Accept, AcceptInto;
    var v := Parse(f).value;
    var data := f[v.fragment.value.header + 8..FIRST_EXTENSION + v.payloadLength];
    var e;
    slot', e := EntryFor(entries, p, l, identification, s, slot, now, v);
    AcceptUnfolds(entries, f, now, v, slot', e, data);
    DenialClears(e, p, l, identification, Live(s, now).got, f, v.fragment.value, data);
    entries' := Expired(entries, now)[slot' := Cleared(e)];
  }

  /** A fragment without payload, one in the middle that does not end on eight octets, and one that would
      make the datagram too long are refused before anything is looked up, and change nothing. */
  lemma UnfitFragmentRefused(entries: seq<Entry>, f: seq<Byte>, now: int)
    requires ValidTable(entries) && Parse(f).Some? && Parse(f).value.fragment.Some?
    requires var v, fragment := Parse(f).value, Parse(f).value.fragment.value;
             var size := FIRST_EXTENSION + v.payloadLength - (fragment.header + 8);
             && (fragment.offset > 0 || fragment.more)
             && (size == 0 || (fragment.more && size % 8 > 0)
                 || fragment.header - FIRST_EXTENSION + fragment.offset * 8 + size > 65_535)
    ensures Accept(entries, f, now) == (Expired(entries, now), Result(Malformed, []))
  {
    ParseBounds(f);
    hide Parse, AcceptInto, Find, FindFree;
  }

  /** A frame under another key leaves every datagram that is being collected as it is. */
  lemma OtherKeyUntouched(entries: seq<Entry>, f: seq<Byte>, now: int, i: nat)
    requires ValidTable(entries) && i < SLOTS && entries[i].occupied && entries[i].expires > now
    requires Parse(f).Some? && Parse(f).value.fragment.Some? ==>
               || entries[i].source != f[22..38] || entries[i].destination != f[38..54]
               || entries[i].identification != Parse(f).value.fragment.value.identification
    ensures Accept(entries, f, now).0[i] == entries[i]
  {
    ParseBounds(f);
    ParsedAddresses(f);
    hide Parse, AcceptInto, WithPayloadLength;
  }

  lemma ParsedAddresses(f: seq<Byte>)
    ensures Parse(f).Some? ==> |f| >= FIRST_EXTENSION && Parse(f).value.source == f[22..38] && Parse(f).value.destination == f[38..54]
  {
    hide Walk;
  }

  lemma BlankIsPartial(e: Entry, p: seq<Byte>, l: Layout, identification: nat)
    requires LayoutOf(p, MAXIMUM_MTU, l) && identification < 0x1_0000_0000
    requires ValidEntry(e) && Matches(e, p[22..38], p[38..54], identification)
    requires e.header == 0 && e.extent == 0 && !e.haveFirst && !e.haveLast && e.received == {}
    ensures Partial(e, p, l, identification, {})
  {
  }

  /** A first fragment whose header chain does not fit is dropped and changes nothing. */
  lemma UnparsableFirst(entries: seq<Entry>, p: seq<Byte>, mtu: nat, l: Layout, identification: nat, now: int)
    requires mtu <= MAXIMUM_MTU && FragmentLayout(p, mtu) == Some(l) && identification < 0x1_0000_0000
    requires ValidTable(entries) && !HeadersFit(p, l)
    ensures Accept(entries, FragmentAt(p, l, identification, 0), now)
         == (Expired(entries, now), Result(Malformed, []))
  {
    FragmentParses(p, mtu, l, identification, 0);
    hide Parse, FragmentLayout, FragmentAt;
  }

  datatype Arrival = Arrival(offset: nat, now: int)

  ghost predicate AllFragments(l: Layout, arrivals: seq<Arrival>) {
    forall i :: 0 <= i < |arrivals| ==> IsStart(l, arrivals[i].offset)
  }

  /** The table and the results while fragments arrive one by one. */
  function Feed(entries: seq<Entry>, p: seq<Byte>, l: Layout, identification: nat, arrivals: seq<Arrival>)
    : (r: (seq<Entry>, seq<Result>))
    requires LayoutOf(p, MAXIMUM_MTU, l) && identification < 0x1_0000_0000
    requires ValidTable(entries)
    requires AllFragments(l, arrivals)
    ensures |r.1| == |arrivals|
    decreases |arrivals|
  {
    if arrivals == [] then (entries, [])
    else
      var (entries', result) := Accept(entries, FragmentAt(p, l, identification, arrivals[0].offset), arrivals[0].now);
      var (last, results) := Feed(entries', p, l, identification, arrivals[1..]);
      (last, [result] + results)
  }

  /** Reassembly said on sets: what has been collected after one more fragment, and what is reported.
      A fragment seen before throws everything away; `fit` says whether the first one parses. */
  ghost function Collect(l: Layout, fit: bool, s: Progress, a: Arrival): (Progress, Status) {
    var got := Live(s, a.now).got;
    if a.offset == 0 && !fit then (Live(s, a.now), Malformed)
    else if a.offset in got then (Progress({}, 0), Overlap)
    else if AllStarts(l, got + {a.offset}) then (Progress({}, 0), Complete)
    else (Progress(got + {a.offset}, Deadline(s, a.now)), Incomplete)
  }

  ghost function Collected(l: Layout, fit: bool, s: Progress, arrivals: seq<Arrival>): (r: seq<Status>)
    ensures |r| == |arrivals|
    decreases |arrivals|
  {
    if arrivals == [] then []
    else [Collect(l, fit, s, arrivals[0]).1] + Collected(l, fit, Collect(l, fit, s, arrivals[0]).0, arrivals[1..])
  }

  function Reported(status: Status, packet: seq<Byte>): Result {
    Result(status, if status == Complete then packet else [])
  }

  /** One fragment of the datagram, new or repeated, moves the table as `Collect` moves the sets. */
  lemma FeedStep(entries: seq<Entry>, p: seq<Byte>, mtu: nat, l: Layout, identification: nat,
                 s: Progress, slot: nat, a: Arrival)
    returns (entries': seq<Entry>, slot': nat)
    requires mtu <= MAXIMUM_MTU && FragmentLayout(p, mtu) == Some(l) && identification < 0x1_0000_0000
    requires Waiting(entries, p, l, identification, s, slot)
    requires s.got != {} && !HeadersFit(p, l) ==> 0 !in s.got
    requires IsStart(l, a.offset)
    ensures Accept(entries, FragmentAt(p, l, identification, a.offset), a.now)
         == (entries', Reported(Collect(l, HeadersFit(p, l), s, a).1, p[..l.packetEnd]))
    ensures Waiting(entries', p, l, identification, Collect(l, HeadersFit(p, l), s, a).0, slot')
  {
    assert 0 <= a.offset < l.size && a.offset % 8 == 0;
    hide FragmentLayout, FragmentAt, Accept, IsStart, HeadersFit, Partial, AllStarts;
    var o, now := a.offset, a.now;
    if o == 0 && !HeadersFit(p, l) {
      UnparsableFirst(entries, p, mtu, l, identification, now);
      ExpiryKeepsWaiting(entries, p, l, identification, s, slot, now);
      entries', slot' := Expired(entries, now), slot;
    } else if o in Live(s, now).got {
      RepeatBrings(p, mtu, l, identification, o);
      RepeatConflicts(l, Live(s, now).got, o);
      entries', slot' := OverlapDiscards(entries, p, l, identification, s, slot,
                                         FragmentAt(p, l, identification, o), now, o);
    } else {
      var r;
      entries', r, slot' := TableStep(entries, p, mtu, l, identification, s, slot, o, now);
    }
  }

  lemma RepeatBrings(p: seq<Byte>, mtu: nat, l: Layout, identification: nat, o: nat)
    requires mtu <= MAXIMUM_MTU && FragmentLayout(p, mtu) == Some(l) && identification < 0x1_0000_0000
    requires IsStart(l, o) && (o != 0 || HeadersFit(p, l))
    ensures Brings(FragmentAt(p, l, identification, o), p, identification, o)
    ensures SameHeaders(FragmentAt(p, l, identification, o), p, l, identification, o)
  {
    hide FragmentLayout, Parse, Multiple, HeadersFit;
    var f := FragmentAt(p, l, identification, o);
    FragmentReads(p, mtu, l, identification, o, f);
    FragmentBytes(p, l, identification, o);
    hide FragmentAt;
    ParseBounds(f);
  }

  lemma RepeatConflicts(l: Layout, got: set<int>, o: int)
    requires o in got && IsStart(l, o) && l.perFragment > 0
    ensures Conflicts(l, got, o)
  {
    hide Multiple;
    assert CoveredBy(l, o, o);
  }

  lemma CollectKeepsUnfit(l: Layout, fit: bool, s: Progress, a: Arrival)
    requires s.got != {} && !fit ==> 0 !in s.got
    ensures !fit ==> 0 !in Collect(l, fit, s, a).0.got
  {
    hide AllStarts;
  }

  /** The first of several fragments, and what is left to the others. */
  lemma FeedFirst(entries: seq<Entry>, p: seq<Byte>, mtu: nat, l: Layout, identification: nat,
                  s: Progress, slot: nat, arrivals: seq<Arrival>)
    returns (entries': seq<Entry>, slot': nat)
    requires mtu <= MAXIMUM_MTU && FragmentLayout(p, mtu) == Some(l) && identification < 0x1_0000_0000
    requires Waiting(entries, p, l, identification, s, slot)
    requires s.got != {} && !HeadersFit(p, l) ==> 0 !in s.got
    requires arrivals != [] && AllFragments(l, arrivals)
    ensures AllFragments(l, arrivals[1..])
    ensures var c := Collect(l, HeadersFit(p, l), s, arrivals[0]);
            && Waiting(entries', p, l, identification, c.0, slot')
            && Feed(entries, p, l, identification, arrivals).1
               == [Reported(c.1, p[..l.packetEnd])] + Feed(entries', p, l, identification, arrivals[1..]).1
            && Collected(l, HeadersFit(p, l), s, arrivals)
               == [c.1] + Collected(l, HeadersFit(p, l), c.0, arrivals[1..])
  {
    assert IsStart(l, arrivals[0].offset) && 0 <= arrivals[0].offset < l.size && arrivals[0].offset % 8 == 0;
    hide FragmentLayout, FragmentAt, Accept, IsStart, HeadersFit, Partial, AllStarts, Collect;
    entries', slot' := FeedStep(entries, p, mtu, l, identification, s, slot, arrivals[0]);
  }

  /** Over every sequence of the datagram's fragments, at any times and with any repeats, the table
      reports exactly what collecting them in a set reports. */
  lemma {:induction false} FeedCollects(
      entries: seq<Entry>, p: seq<Byte>, mtu: nat, l: Layout, identification: nat,
      s: Progress, slot: nat, arrivals: seq<Arrival>, i: nat)
    requires mtu <= MAXIMUM_MTU && FragmentLayout(p, mtu) == Some(l) && identification < 0x1_0000_0000
    requires Waiting(entries, p, l, identification, s, slot)
    requires s.got != {} && !HeadersFit(p, l) ==> 0 !in s.got
    requires AllFragments(l, arrivals) && i < |arrivals|
    ensures Feed(entries, p, l, identification, arrivals).1[i]
         == Reported(Collected(l, HeadersFit(p, l), s, arrivals)[i], p[..l.packetEnd])
    decreases |arrivals|
  {
    hide FragmentLayout, FragmentAt, Accept, IsStart, HeadersFit, Partial, AllStarts, Feed, Collected, Collect;
    var a, rest := arrivals[0], arrivals[1..];
    var entries', slot' := FeedFirst(entries, p, mtu, l, identification, s, slot, arrivals);
    if i > 0 {
      CollectKeepsUnfit(l, HeadersFit(p, l), s, a);
      FeedCollects(entries', p, mtu, l, identification, Collect(l, HeadersFit(p, l), s, a).0, slot', rest, i - 1);
    }
  }

  ghost predicate Arrived(arrivals: seq<Arrival>, n: nat, o: int)
    requires n <= |arrivals|
  {
    exists j :: 0 <= j < n && arrivals[j].offset == o
  }

  /** Nothing completes before every fragment not yet collected has arrived. */
  lemma {:induction false} CompleteNeedsAll(l: Layout, fit: bool, s: Progress, arrivals: seq<Arrival>, i: nat, o: int)
    requires i < |arrivals| && Collected(l, fit, s, arrivals)[i] == Complete
    requires IsStart(l, o) && o !in s.got
    ensures Arrived(arrivals, i + 1, o)
    decreases |arrivals|
  {
    hide IsStart;
    var a, rest := arrivals[0], arrivals[1..];
    if a.offset != o && i > 0 {
      CompleteNeedsAll(l, fit, Collect(l, fit, s, a).0, rest, i - 1, o);
      var j :| 0 <= j < i && rest[j].offset == o;
      assert arrivals[j + 1].offset == o;
    }
  }

  /** A chain that does not fit never completes, for its first fragment is never collected. */
  lemma {:induction false} UnfitNeverCompletes(l: Layout, s: Progress, arrivals: seq<Arrival>, i: nat)
    requires IsStart(l, 0) && 0 !in s.got && i < |arrivals|
    ensures Collected(l, false, s, arrivals)[i] != Complete
    decreases |arrivals|
  {
    hide IsStart;
    if i > 0 {
      UnfitNeverCompletes(l, Collect(l, false, s, arrivals[0]).0, arrivals[1..], i - 1);
    }
  }

  /** Together with `got`, the arrivals bring each fragment of the datagram exactly once, in any order,
      within one timeout of each other. */
  ghost predicate EachOnce(l: Layout, got: set<int>, arrivals: seq<Arrival>, horizon: int) {
    && (forall i :: 0 <= i < |arrivals| ==>
          && IsStart(l, arrivals[i].offset)
          && arrivals[i].offset !in got
          && horizon - TIMEOUT < arrivals[i].now <= horizon)
    && (forall i, j :: 0 <= i < j < |arrivals| ==> arrivals[i].offset != arrivals[j].offset)
    && (forall o :: IsStart(l, o) && o !in got ==> Arrived(arrivals, |arrivals|, o))
  }

  lemma EachOnceTail(l: Layout, got: set<int>, arrivals: seq<Arrival>, horizon: int)
    requires arrivals != [] && EachOnce(l, got, arrivals, horizon)
    ensures EachOnce(l, got + {arrivals[0].offset}, arrivals[1..], horizon)
    ensures AllStarts(l, got + {arrivals[0].offset}) <==> |arrivals| == 1
  {
    hide Multiple;
    var rest, got' := arrivals[1..], got + {arrivals[0].offset};
    forall i | 0 <= i < |rest|
      ensures rest[i].offset !in got' && rest[i] == arrivals[i + 1]
    {
      assert arrivals[0].offset != arrivals[i + 1].offset;
    }
    forall o | IsStart(l, o) && o !in got'
      ensures Arrived(rest, |rest|, o)
    {
      var i :| 0 <= i < |arrivals| && arrivals[i].offset == o;
      assert rest[i - 1].offset == o;
    }
    if |arrivals| > 1 {
      assert IsStart(l, arrivals[1].offset) && rest[0].offset !in got';
    }
  }

  /** Fragments that arrive once each within one timeout complete with the last of them. */
  lemma {:induction false} EachOnceCompletes(
      l: Layout, s: Progress, horizon: int, arrivals: seq<Arrival>, i: nat)
    requires EachOnce(l, s.got, arrivals, horizon) && (s.got != {} ==> s.expires > horizon)
    requires i < |arrivals|
    ensures Collected(l, true, s, arrivals)[i] == if i == |arrivals| - 1 then Complete else Incomplete
    decreases |arrivals|
  {
    hide AllStarts, IsStart;
    EachOnceTail(l, s.got, arrivals, horizon);
    var a := arrivals[0];
    assert Live(s, a.now).got == s.got;
    if i > 0 {
      EachOnceCompletes(l, Collect(l, true, s, a).0, horizon, arrivals[1..], i - 1);
    }
  }

  /** The outcome of feeding: everything but the last fragment reports incomplete, the last one hands
      back the original datagram. */
  ghost predicate Delivers(results: seq<Result>, packet: seq<Byte>) {
    && results != []
    && results[|results| - 1] == Result(Complete, packet)
    && forall i :: 0 <= i < |results| - 1 ==> results[i] == Result(Incomplete, [])
  }

  ghost predicate NeverCompletes(results: seq<Result>) {
    forall i :: 0 <= i < |results| ==> results[i].status != Complete
  }

  /** Round trip. A datagram is cut to any legal MTU and its fragments reach a table that holds nothing
      of it and has room, each once, in any order, within one timeout. Then the original comes back
      with the last fragment exactly when the header chain fits the first fragment; otherwise nothing
      is ever completed. */
  lemma RoundTrip(entries: seq<Entry>, p: seq<Byte>, mtu: nat, l: Layout, identification: nat,
                  slot: nat, horizon: int, arrivals: seq<Arrival>)
    requires mtu <= MAXIMUM_MTU && FragmentLayout(p, mtu) == Some(l) && identification < 0x1_0000_0000
    requires ValidTable(entries) && slot < SLOTS && !entries[slot].occupied
    requires forall i :: 0 <= i < SLOTS ==> !Matches(entries[i], p[22..38], p[38..54], identification)
    requires EachOnce(l, {}, arrivals, horizon)
    ensures HeadersFit(p, l) <==>
              Delivers(Feed(entries, p, l, identification, arrivals).1, p[..l.packetEnd])
    ensures !HeadersFit(p, l) ==> NeverCompletes(Feed(entries, p, l, identification, arrivals).1)
  {
    assert IsStart(l, 0) by { hide FragmentLayout; }
    hide FragmentLayout, HeadersFit, Accept, IsStart;
    assert arrivals != [];
    var s := Progress({}, 0);
    assert Waiting(entries, p, l, identification, s, slot);
    var results := Feed(entries, p, l, identification, arrivals).1;
    hide Waiting, Feed, Collected;
    forall i | 0 <= i < |arrivals|
      ensures HeadersFit(p, l) ==> results[i] == Reported(if i == |arrivals| - 1 then Complete else Incomplete, p[..l.packetEnd])
      ensures !HeadersFit(p, l) ==> results[i].status != Complete
    {
      FeedCollects(entries, p, mtu, l, identification, s, slot, arrivals, i);
      if HeadersFit(p, l) {
        EachOnceCompletes(l, s, horizon, arrivals, i);
      } else {
        UnfitNeverCompletes(l, s, arrivals, i);
      }
    }
  }

  /** After a frame that overlaps, the datagram starts over. Whatever of its fragments arrive then, in
      any order, at any times and with any repeats: none completes it before every fragment, those
      collected earlier included, has arrived again. Arriving once each, they deliver it. */
  lemma OverlapStartsOver(entries: seq<Entry>, p: seq<Byte>, mtu: nat, l: Layout, identification: nat,
                          s: Progress, slot: nat, f: seq<Byte>, now: int, x: nat, arrivals: seq<Arrival>)
    requires mtu <= MAXIMUM_MTU && FragmentLayout(p, mtu) == Some(l) && identification < 0x1_0000_0000
    requires Waiting(entries, p, l, identification, s, slot)
    requires Brings(f, p, identification, x) && Conflicts(l, Live(s, now).got, x)
    requires AllFragments(l, arrivals)
    ensures forall i: nat, o :: i < |arrivals| && IsStart(l, o)
              && Feed(Accept(entries, f, now).0, p, l, identification, arrivals).1[i].status == Complete
              ==> Arrived(arrivals, i + 1, o)
    ensures forall horizon :: HeadersFit(p, l) && EachOnce(l, {}, arrivals, horizon) ==>
              Delivers(Feed(Accept(entries, f, now).0, p, l, identification, arrivals).1, p[..l.packetEnd])
  {
    hide FragmentLayout, HeadersFit, Accept, IsStart, Feed, Collected, Brings, Conflicts, Partial, Arrived;
    var entries', slot' := OverlapDiscards(entries, p, l, identification, s, slot, f, now, x);
    var none := Progress({}, 0);
    forall i: nat, o | i < |arrivals| && IsStart(l, o)
                       && Feed(entries', p, l, identification, arrivals).1[i].status == Complete
      ensures Arrived(arrivals, i + 1, o)
    {
      FeedCollects(entries', p, mtu, l, identification, none, slot', arrivals, i);
      CompleteNeedsAll(l, HeadersFit(p, l), none, arrivals, i, o);
    }
    forall horizon | HeadersFit(p, l) && EachOnce(l, {}, arrivals, horizon)
      ensures Delivers(Feed(entries', p, l, identification, arrivals).1, p[..l.packetEnd])
    {
      RoundTrip(entries', p, mtu, l, identification, slot', horizon, arrivals);
    }
  }

  // ---------------------------------------------------------------- atomic fragments

  /** The octets of `f` without the eight of the fragment header at `header`: the octet that announced
      the header names what followed it, the payload length is eight less, and the rest is padding. */
  ghost predicate Unwraps(packet: seq<Byte>, f: seq<Byte>, end: nat, header: nat, previous: nat) {
    && previous < header && FIRST_EXTENSION <= header && header + 8 <= end <= |f|
    && |packet| == (if end - 8 < MINIMUM_FRAME then MINIMUM_FRAME else end - 8)
    && packet[previous] == f[header]
    && Read16(packet, 18) + 8 == Read16(f, 18)
    && (forall x :: 0 <= x < header && x != previous && x != 18 && x != 19 ==> packet[x] == f[x])
    && (forall x :: header <= x < end - 8 ==> packet[x] == f[x + 8])
    && (forall x :: end - 8 <= x < |packet| ==> packet[x] == 0)
  }

  /** A frame whose fragment header says that it is first and last at once is handed back at once without
      that header, and disturbs no datagram that is being collected. */
  lemma AtomicUnwraps(entries: seq<Entry>, f: seq<Byte>, now: int)
    requires ValidTable(entries) && Parse(f).Some? && Parse(f).value.fragment.Some?
    requires Parse(f).value.fragment.value.offset == 0 && !Parse(f).value.fragment.value.more
    ensures Accept(entries, f, now).1.status == Atomic
    ensures var v := Parse(f).value;
            Unwraps(Accept(entries, f, now).1.packet, f, FIRST_EXTENSION + v.payloadLength,
                    v.fragment.value.header, v.fragment.value.previous)
    ensures forall i :: 0 <= i < SLOTS ==>
              if entries[i].occupied && entries[i].expires <= now then !Accept(entries, f, now).0[i].occupied
              else Accept(entries, f, now).0[i] == entries[i]
  {
    ParseBounds(f);
    var v := Parse(f).value;
    var h, previous, end := v.fragment.value.header, v.fragment.value.previous, FIRST_EXTENSION + v.payloadLength;
    hide Parse, Walk, AcceptInto, Find, FindFree;
    RewrittenOctets(f[..h][previous := f[h]] + f[h + 8..end], v.payloadLength - 8);
  }

  lemma RewrittenOctets(q: seq<Byte>, payload: nat)
    requires |q| >= FIRST_EXTENSION && payload < 0x1_0000
    ensures var w := WithPayloadLength(q, payload);
            && |w| == (if |q| < MINIMUM_FRAME then MINIMUM_FRAME else |q|)
            && Read16(w, 18) == payload
            && (forall x :: 0 <= x < |q| && x != 18 && x != 19 ==> w[x] == q[x])
            && (forall x :: |q| <= x < |w| ==> w[x] == 0)
  {
  }

  /** A datagram of 3000 octets that starts with 2048 octets of Destination Options. */
  function LongOptions(): seq<Byte> {
    seq(3054, i requires 0 <= i < 3054 =>
      if i == 12 then 0x86 else if i == 13 then 0xdd else if i == 14 then 0x60
      else if i == 18 then 11 else if i == 19 then 184 else if i == 20 then 60
      else if i == 54 then 59 else if i == 55 then 255 else 0)
  }

  /** The failing case is real: this valid datagram is fragmented at the minimum MTU, but its header
      chain ends behind the first fragment, so by RoundTrip it can never be reassembled. */
  lemma LongOptionsAreLost()
    ensures FragmentLayout(LongOptions(), 1280).Some?
    ensures !HeadersFit(LongOptions(), FragmentLayout(LongOptions(), 1280).value)
  {
    var p := LongOptions();
    assert Read16(p, 18) == 3000;
    assert ExtensionLength(p, 3054, 54, 60, false) == Some(2048);
    assert Walk(p, 3054, 2102, 54, 59, None) == Some(Chain(2102, None));
    assert Walk(p, 3054, 54, 20, 60, None) == Some(Chain(2102, None));
    assert Parse(p).Some? && Parse(p).value.upperOffset == 2102 && Parse(p).value.fragment.None?;
    assert InsertionPoint(p, 3054, 54, 20, 60, false) == Some(Insertion(54, 20, 60));
  }
}
