/** The IPsec Security Association Database (core/src/security/ipsec_sad.cpp): installation and
    removal of inbound/outbound pairs, and the two lookups of the packet path. */
module SecurityAssociations {
  import opened Options

  datatype Protocol = Esp | Ah
  datatype Mode = Transport | Tunnel
  datatype Family = IPv4 | IPv6 | OtherFamily
  datatype Encryption = NoEncryption | AesGcm128 | AesGcm192 | AesGcm256
  datatype Integrity = NoIntegrity | HmacSha256 | HmacSha384 | HmacSha512 | AesXcbc

  datatype Address = Address(family: Family, octets: seq<nat>)

  datatype Identifier = Identifier(spi: nat, protocol: Protocol, destination: Option<Address>, source: Option<Address>)

  datatype Association = Association(
    id: nat, identifier: Identifier, mode: Mode, encryption: Encryption, integrity: Integrity,
    material: nat, policy: nat, tunnelSource: Option<Address>, tunnelDestination: Option<Address>,
    createdAt: int, outbound: bool)

  /** An IPv4 address occupies the first four octets and leaves the rest zero. */
  predicate ValidAddress(a: Address) {
    match a.family
    case IPv6 => true
    case IPv4 => forall i :: 4 <= i < |a.octets| ==> a.octets[i] == 0
    case OtherFamily => false
  }

  predicate ValidIdentifier(i: Identifier) {
    && i.spi != 0
    && (i.destination.Some? ==> ValidAddress(i.destination.value))
    && (i.source.Some? ==>
          && i.destination.Some? && ValidAddress(i.source.value)
          && i.source.value.family == i.destination.value.family)
  }

  predicate ValidAlgorithms(a: Association) {
    && a.material != 0
    && if a.identifier.protocol == Ah then a.encryption == NoEncryption && a.integrity != NoIntegrity
       else (a.encryption != NoEncryption) == (a.integrity == NoIntegrity)
  }

  predicate ValidTunnel(a: Association) {
    if a.mode == Transport then a.tunnelSource.None? && a.tunnelDestination.None?
    else
      && a.tunnelSource.Some? && a.tunnelDestination.Some?
      && ValidAddress(a.tunnelSource.value) && ValidAddress(a.tunnelDestination.value)
      && a.tunnelSource.value.family == a.tunnelDestination.value.family
  }

  predicate WellFormed(a: Association) {
    a.id != 0 && a.policy != 0 && ValidIdentifier(a.identifier) && ValidAlgorithms(a) && ValidTunnel(a)
  }

  predicate NoneInvalid(a: Option<Address>) {
    a.Some? ==> ValidAddress(a.value)
  }

  /** Of an IPv4 address only the first four octets may be set, an IPv6 address may be any, and no other
      family has addresses. */
  lemma ValidAddressMeans(a: Address)
    ensures a.family == IPv6 ==> ValidAddress(a)
    ensures a.family == OtherFamily ==> !ValidAddress(a)
    ensures a.family == IPv4 ==> (ValidAddress(a) <==> |a.octets| <= 4 || a.octets[4..] == seq(|a.octets| - 4, i => 0))
  {
    if a.family == IPv4 && |a.octets| > 4 {
      assert forall i :: 4 <= i < |a.octets| ==> a.octets[4..][i - 4] == a.octets[i];
    }
  }

  /** What the checks let through, transform by transform: AH has integrity alone; ESP has an authenticated
      cipher without separate integrity, or integrity alone; a tunnel has two ends of one family. */
  lemma WellFormedMeans(a: Association)
    ensures WellFormed(a) <==>
              && a.id > 0 && a.policy > 0 && a.material > 0 && a.identifier.spi > 0
              && (a.encryption == NoEncryption <==> a.integrity != NoIntegrity)
              && (a.identifier.protocol.Ah? ==> a.encryption == NoEncryption)
              && NoneInvalid(a.identifier.source) && NoneInvalid(a.identifier.destination)
              && (a.identifier.source.Some? ==>
                    a.identifier.destination.Some?
                    && a.identifier.destination.value.family == a.identifier.source.value.family)
              && match a.mode
                 case Transport => a.tunnelSource == a.tunnelDestination == None
                 case Tunnel => a.tunnelSource.Some? && a.tunnelDestination.Some?
                                && ValidAddress(a.tunnelSource.value) && ValidAddress(a.tunnelDestination.value)
                                && a.tunnelSource.value.family == a.tunnelDestination.value.family
  {
  }

  /** Two different associations of one direction may not answer to the same identifier. */
  predicate Clash(e: Association, a: Association) {
    e.id != a.id && e.outbound == a.outbound && e.identifier == a.identifier
  }

  // ---------------------------------------------------------------- operations on the entry list

  /** The two directions agree in everything that a CHILD SA negotiates once. */
  ghost predicate OneNegotiation(inbound: Association, outbound: Association) {
    outbound == inbound.(id := outbound.id, identifier := outbound.identifier, material := outbound.material,
                         tunnelSource := outbound.tunnelSource, tunnelDestination := outbound.tunnelDestination,
                         createdAt := outbound.createdAt, outbound := true)
    && outbound.identifier.protocol == inbound.identifier.protocol && !inbound.outbound && outbound.id != inbound.id
  }

  /** A pair is reported committed when both directions report an installation; directions that were not
      negotiated together are refused at once, and each other report is that of the direction alone. */
  lemma InstallPairReports(entries: seq<Association>, capacity: nat, inbound: Association, outbound: Association)
    ensures var r := InstallPairInto(entries, capacity, inbound, outbound).1;
            && (r.committed <==> Took(r.inbound) && Took(r.outbound))
            && (!OneNegotiation(inbound, outbound) ==> r.inbound == r.outbound == Invalid)
            && (OneNegotiation(inbound, outbound) ==>
                  && r.inbound == InstallInto(entries, capacity, inbound).1
                  && (Took(r.inbound) ==>
                        r.outbound == InstallInto(InstallInto(entries, capacity, inbound).0, capacity, outbound).1)
                  && (!Took(r.inbound) ==> r.outbound == Invalid))
  {
    hide InstallInto;
  }

  /** Index of the first entry with this id, or the length. */
  function IndexOf(entries: seq<Association>, id: nat): (i: nat)
    ensures i <= |entries|
    ensures i < |entries| ==> entries[i].id == id
    ensures forall j :: 0 <= j < i ==> entries[j].id != id
  {
    if entries == [] then 0
    else if entries[0].id == id then 0
    else 1 + IndexOf(entries[1..], id)
  }

  datatype InstallResult = Installed | Replaced | Invalid | IdentifierConflict | CapacityExhausted

  datatype PairResult = PairResult(inbound: InstallResult, outbound: InstallResult, committed: bool)

  datatype EraseResult = Erased | InvalidPair | Missing | NotAPair

  function InstallInto(entries: seq<Association>, capacity: nat, a: Association): (seq<Association>, InstallResult) {
    if !WellFormed(a) then (entries, Invalid)
    else if exists k :: 0 <= k < |entries| && Clash(entries[k], a) then (entries, IdentifierConflict)
    else
      var i := IndexOf(entries, a.id);
      if i < |entries| then (entries[i := a], Replaced)
      else if |entries| >= capacity then (entries, CapacityExhausted)
      else (entries + [a], Installed)
  }

  predicate Took(r: InstallResult) {
    r == Installed || r == Replaced
  }

  /** The attributes that the two directions of a CHILD SA share. */
  predicate Compatible(inbound: Association, outbound: Association) {
    && !inbound.outbound && outbound.outbound && inbound.id != outbound.id
    && inbound.policy == outbound.policy && inbound.mode == outbound.mode
    && inbound.identifier.protocol == outbound.identifier.protocol
    && inbound.encryption == outbound.encryption && inbound.integrity == outbound.integrity
  }

  function InstallPairInto(entries: seq<Association>, capacity: nat, inbound: Association, outbound: Association)
    : (seq<Association>, PairResult)
  {
    if !Compatible(inbound, outbound) then (entries, PairResult(Invalid, Invalid, false))
    else
      var (first, inboundResult) := InstallInto(entries, capacity, inbound);
      if !Took(inboundResult) then (entries, PairResult(inboundResult, Invalid, false))
      else
        var (both, outboundResult) := InstallInto(first, capacity, outbound);
        if !Took(outboundResult) then (entries, PairResult(inboundResult, outboundResult, false))
        else (both, PairResult(inboundResult, outboundResult, true))
  }

  function Excluding(entries: seq<Association>, i: nat, o: nat): (r: seq<Association>)
    ensures |r| <= |entries|
  {
    if entries == [] then []
    else
      (if entries[0].id == i || entries[0].id == o then [] else [entries[0]]) + Excluding(entries[1..], i, o)
  }

  /** The two entries found can be the two directions of one CHILD SA. */
  predicate Matched(inbound: Association, outbound: Association) {
    && !inbound.outbound && outbound.outbound
    && inbound.policy == outbound.policy && inbound.mode == outbound.mode
    && inbound.identifier.protocol == outbound.identifier.protocol
  }

  function ErasePairFrom(entries: seq<Association>, i: nat, o: nat): (seq<Association>, EraseResult) {
    if i == 0 || o == 0 || i == o then (entries, InvalidPair)
    else
      var x, y := IndexOf(entries, i), IndexOf(entries, o);
      if x == |entries| || y == |entries| then (entries, Missing)
      else if !Matched(entries[x], entries[y]) then (entries, NotAPair)
      else (Excluding(entries, i, o), Erased)
  }

  // ---------------------------------------------------------------- what the list means

  ghost predicate DistinctIds(entries: seq<Association>) {
    forall j, k :: 0 <= j < k < |entries| ==> entries[j].id != entries[k].id
  }

  ghost predicate ValidEntries(entries: seq<Association>, capacity: nat) {
    && |entries| <= capacity
    && DistinctIds(entries)
    && (forall k :: 0 <= k < |entries| ==> WellFormed(entries[k]))
    && (forall j, k :: 0 <= j < |entries| && 0 <= k < |entries| ==> !Clash(entries[j], entries[k]))
  }

  /** The database as a map from SA ids. */
  ghost function Contents(entries: seq<Association>): (m: map<nat, Association>)
    requires DistinctIds(entries)
    ensures forall e :: e in entries ==> e.id in m && m[e.id] == e
    ensures forall id :: id in m ==> m[id] in entries && m[id].id == id
  {
    IdsOf(entries);
    map id | id in (set e | e in entries :: e.id) :: entries[IndexOf(entries, id)]
  }

  lemma IdsOf(entries: seq<Association>)
    requires DistinctIds(entries)
    ensures forall e :: e in entries ==>
              IndexOf(entries, e.id) < |entries| && entries[IndexOf(entries, e.id)] == e
  {
    hide IndexOf;
    forall e | e in entries
      ensures IndexOf(entries, e.id) < |entries| && entries[IndexOf(entries, e.id)] == e
    {
      var k :| 0 <= k < |entries| && entries[k] == e;
      var i := IndexOf(entries, e.id);
      assert i <= k;
    }
  }

  /** The two directions of one policy, mode and protocol. */
  ghost predicate Opposite(a: Association, b: Association) {
    (a.outbound, b.outbound, a.policy, a.mode, a.identifier.protocol)
    == (false, true, b.policy, b.mode, b.identifier.protocol)
  }

  /** Both directions are present and belong together. */
  ghost predicate HoldsPair(m: map<nat, Association>, i: nat, o: nat) {
    i in m && o in m && Opposite(m[i], m[o])
  }

  lemma InstallKeepsValid(entries: seq<Association>, capacity: nat, a: Association)
    requires ValidEntries(entries, capacity)
    ensures ValidEntries(InstallInto(entries, capacity, a).0, capacity)
  {
    hide WellFormed;
    var (entries', r) := InstallInto(entries, capacity, a);
    if Took(r) {
      assert forall k :: 0 <= k < |entries| ==> !Clash(entries[k], a);
      assert forall k :: 0 <= k < |entries| ==> !Clash(a, entries[k]);
    }
  }

  lemma InstallContents(entries: seq<Association>, capacity: nat, a: Association)
    requires DistinctIds(entries) && DistinctIds(InstallInto(entries, capacity, a).0)
    requires Took(InstallInto(entries, capacity, a).1)
    ensures Contents(InstallInto(entries, capacity, a).0) == Contents(entries)[a.id := a]
  {
    hide WellFormed, Clash;
    var entries' := InstallInto(entries, capacity, a).0;
    var i := IndexOf(entries, a.id);
    hide IndexOf;
    forall e
      ensures e in entries' <==> e == a || (e in entries && e.id != a.id)
    {
      assert entries'[i] == a;
      if e in entries && e.id != a.id {
        var k :| 0 <= k < |entries| && entries[k] == e;
        assert entries'[k] == e;
      }
      if e in entries' && e != a {
        var k :| 0 <= k < |entries'| && entries'[k] == e;
        assert k != i && entries[k] == e;
      }
    }
    hide DistinctIds, InstallInto;
    UpdatedMap(entries, entries', a);
  }

  lemma UpdatedMap(entries: seq<Association>, entries': seq<Association>, a: Association)
    requires DistinctIds(entries) && DistinctIds(entries')
    requires forall e :: e in entries' <==> e == a || (e in entries && e.id != a.id)
    ensures Contents(entries') == Contents(entries)[a.id := a]
  {
    hide Contents, DistinctIds;
    var m, m' := Contents(entries), Contents(entries');
    forall id | id in m'
      ensures id in m[a.id := a] && m'[id] == m[a.id := a][id]
    {
      assert m'[id] in entries';
    }
    forall id | id in m[a.id := a]
      ensures id in m'
    {
      if id != a.id {
        assert m[id] in entries';
      }
    }
  }

  /** When a single installation succeeds, and what it does to the number of entries. */
  lemma InstallWhen(entries: seq<Association>, capacity: nat, a: Association)
    requires ValidEntries(entries, capacity)
    ensures Took(InstallInto(entries, capacity, a).1) <==>
              && WellFormed(a)
              && (forall e :: e in Contents(entries).Values ==> !Clash(e, a))
              && (a.id in Contents(entries) || |entries| < capacity)
    ensures Took(InstallInto(entries, capacity, a).1) ==>
              |InstallInto(entries, capacity, a).0| == |entries| + if a.id in Contents(entries) then 0 else 1
    ensures !Took(InstallInto(entries, capacity, a).1) ==> InstallInto(entries, capacity, a).0 == entries
  {
    hide WellFormed, Clash, Contents, IndexOf, DistinctIds;
    IndexInContents(entries, a.id);
    var m := Contents(entries);
    assert forall e :: e in m.Values ==> e in entries;
    forall k | 0 <= k < |entries|
      ensures entries[k] in m.Values
    {
      assert entries[k] in entries;
      assert m[entries[k].id] == entries[k];
    }
  }

  /** Installing a pair is atomic: both directions are in force afterwards, or nothing changed; and
      exactly when it succeeds. A clash of the outbound half with an entry that the inbound half
      replaces does not count. */
  ghost predicate Admissible(entries: seq<Association>, capacity: nat, inbound: Association, outbound: Association)
    requires DistinctIds(entries)
  {
    var m := Contents(entries);
    && Compatible(inbound, outbound) && WellFormed(inbound) && WellFormed(outbound)
    && (forall e :: e in m.Values ==> !Clash(e, inbound) && (e.id != inbound.id ==> !Clash(e, outbound)))
    && |entries| + (if inbound.id in m then 0 else 1) + (if outbound.id in m then 0 else 1) <= capacity
  }

  lemma InstallPairIsAtomic(entries: seq<Association>, capacity: nat, inbound: Association, outbound: Association)
    requires ValidEntries(entries, capacity)
    ensures var (entries', r) := InstallPairInto(entries, capacity, inbound, outbound);
            && ValidEntries(entries', capacity)
            && (r.committed <==> Admissible(entries, capacity, inbound, outbound))
            && (r.committed ==> && Contents(entries') == Contents(entries)[inbound.id := inbound][outbound.id := outbound]
                                && HoldsPair(Contents(entries'), inbound.id, outbound.id))
            && (!r.committed ==> entries' == entries)
  {
    hide WellFormed, InstallInto, Contents, DistinctIds;
    InstallKeepsValid(entries, capacity, inbound);
    InstallWhen(entries, capacity, inbound);
    var (first, r) := InstallInto(entries, capacity, inbound);
    InstallKeepsValid(first, capacity, outbound);
    InstallWhen(first, capacity, outbound);
    var (both, r') := InstallInto(first, capacity, outbound);
    if Took(r) {
      InstallContents(entries, capacity, inbound);
    }
    if Took(r') {
      InstallContents(first, capacity, outbound);
    }
    hide ValidEntries;
    var m := Contents(entries);
    assert SameIds(entries) by { SameIdsHolds(entries); }
    if Compatible(inbound, outbound) && Took(r) {
      var m' := m[inbound.id := inbound];
      assert !Clash(inbound, outbound);
      forall e
        ensures e in m'.Values <==> e == inbound || (e in m.Values && e.id != inbound.id)
      {
        if e in m.Values && e.id != inbound.id {
          assert m'[e.id] == e;
        }
        assert m'[inbound.id] == inbound;
      }
    }
  }

  ghost predicate SameIds(entries: seq<Association>)
    requires DistinctIds(entries)
  {
    && (forall id :: id in Contents(entries) ==> Contents(entries)[id].id == id)
    && (forall e :: e in Contents(entries).Values ==> e.id in Contents(entries) && Contents(entries)[e.id] == e)
  }

  lemma SameIdsHolds(entries: seq<Association>)
    requires DistinctIds(entries)
    ensures SameIds(entries)
  {
  }

  predicate Stays(e: Association, i: nat, o: nat) {
    e.id != i && e.id != o
  }

  lemma ExcludingStep(entries: seq<Association>, k: nat, i: nat, o: nat)
    requires k < |entries|
    ensures Excluding(entries[k..], i, o)
         == (if entries[k].id == i || entries[k].id == o then [] else [entries[k]]) + Excluding(entries[k + 1..], i, o)
  {
    assert entries[k..][0] == entries[k] && entries[k..][1..] == entries[k + 1..];
  }

  lemma ExcludingEnd(entries: seq<Association>, i: nat, o: nat)
    ensures Excluding(entries[|entries|..], i, o) == []
  {
  }

  lemma {:induction false} ExcludingMembers(entries: seq<Association>, i: nat, o: nat, e: Association)
    ensures e in Excluding(entries, i, o) <==> e in entries && Stays(e, i, o)
    decreases |entries|
  {
    if entries != [] {
      ExcludingMembers(entries[1..], i, o, e);
      assert e in entries <==> e == entries[0] || e in entries[1..];
    }
  }

  lemma {:induction false} ExcludingDistinct(entries: seq<Association>, i: nat, o: nat)
    requires DistinctIds(entries)
    ensures DistinctIds(Excluding(entries, i, o))
    decreases |entries|
  {
    if entries != [] {
      var first, tail := entries[0], entries[1..];
      var rest := Excluding(tail, i, o);
      TailDistinct(entries);
      ExcludingDistinct(tail, i, o);
      forall k | 0 <= k < |rest|
        ensures rest[k].id != first.id
      {
        ExcludingMembers(tail, i, o, rest[k]);
        OtherId(entries, rest[k]);
      }
      if Stays(first, i, o) {
        FirstDistinct(first, rest);
        assert Excluding(entries, i, o) == [first] + rest;
      } else {
        assert Excluding(entries, i, o) == [] + rest == rest;
      }
    }
  }

  lemma TailDistinct(entries: seq<Association>)
    requires entries != [] && DistinctIds(entries)
    ensures DistinctIds(entries[1..])
  {
  }

  lemma OtherId(entries: seq<Association>, e: Association)
    requires entries != [] && DistinctIds(entries) && e in entries[1..]
    ensures e.id != entries[0].id
  {
    var k :| 0 <= k < |entries[1..]| && entries[1..][k] == e;
    assert entries[k + 1] == e;
  }

  lemma FirstDistinct(first: Association, rest: seq<Association>)
    requires DistinctIds(rest) && forall k :: 0 <= k < |rest| ==> rest[k].id != first.id
    ensures DistinctIds([first] + rest)
  {
  }

  lemma ExcludingMap(entries: seq<Association>, entries': seq<Association>, i: nat, o: nat)
    requires DistinctIds(entries) && DistinctIds(entries')
    requires forall e :: e in entries' <==> e in entries && Stays(e, i, o)
    ensures Contents(entries') == Contents(entries) - {i, o}
  {
    hide Contents, DistinctIds;
    var m, m' := Contents(entries), Contents(entries');
    forall id | id in m'
      ensures id in m - {i, o} && m'[id] == m[id]
    {
      assert m'[id] in entries';
    }
    forall id | id in m - {i, o}
      ensures id in m'
    {
      assert m[id] in entries';
    }
  }

  lemma ExcludingValid(entries: seq<Association>, capacity: nat, i: nat, o: nat)
    requires ValidEntries(entries, capacity)
    ensures ValidEntries(Excluding(entries, i, o), capacity)
    ensures Contents(Excluding(entries, i, o)) == Contents(entries) - {i, o}
  {
    hide Clash, WellFormed, Contents, DistinctIds, Excluding;
    var excluding := Excluding(entries, i, o);
    ExcludingDistinct(entries, i, o);
    forall e
      ensures e in excluding <==> e in entries && Stays(e, i, o)
    {
      ExcludingMembers(entries, i, o, e);
    }
    ExcludingMap(entries, excluding, i, o);
    assert forall k :: 0 <= k < |excluding| ==> excluding[k] in entries;
  }

  /** Erasing a pair is atomic: it succeeds exactly when both directions are present and belong
      together, removes exactly these two, and otherwise changes nothing. */
  lemma ErasePairIsAtomic(entries: seq<Association>, capacity: nat, i: nat, o: nat)
    requires ValidEntries(entries, capacity)
    ensures var (entries', r) := ErasePairFrom(entries, i, o);
            && ValidEntries(entries', capacity)
            && (r == Erased <==> HoldsPair(Contents(entries), i, o))
            && (r == Erased ==> Contents(entries') == Contents(entries) - {i, o})
            && (r != Erased ==> entries' == entries)
  {
    hide Clash, WellFormed, Contents, IndexOf, Excluding, DistinctIds;
    ExcludingValid(entries, capacity, i, o);
    NonzeroIds(entries, capacity);
    IndexInContents(entries, i);
    IndexInContents(entries, o);
    hide ValidEntries;
  }

  lemma IndexInContents(entries: seq<Association>, id: nat)
    requires DistinctIds(entries)
    ensures id in Contents(entries) <==> IndexOf(entries, id) < |entries|
    ensures id in Contents(entries) ==> Contents(entries)[id] == entries[IndexOf(entries, id)]
  {
    hide Contents;
    var i := IndexOf(entries, id);
    hide IndexOf, DistinctIds;
    if i < |entries| {
      assert entries[i] in entries;
    }
  }

  lemma NonzeroIds(entries: seq<Association>, capacity: nat)
    requires ValidEntries(entries, capacity)
    ensures 0 !in Contents(entries)
  {
  }

  // ---------------------------------------------------------------- pairs

  datatype Pair = Pair(inbound: nat, outbound: nat)

  predicate Member(id: nat, p: Pair) {
    id == p.inbound || id == p.outbound
  }

  ghost predicate Apart(p: Pair, q: Pair) {
    !Member(p.inbound, q) && !Member(p.outbound, q)
  }

  /** The database holds exactly the given pairs, whole and disjoint: no half of a pair. */
  ghost predicate PairedBy(m: map<nat, Association>, pairs: set<Pair>) {
    && (forall p :: p in pairs ==> HoldsPair(m, p.inbound, p.outbound))
    && (forall p, q :: p in pairs && q in pairs && p != q ==> Apart(p, q))
    && (forall id :: id in m ==> Covered(pairs, id))
  }

  ghost predicate Covered(pairs: set<Pair>, id: nat) {
    exists p :: p in pairs && Member(id, p)
  }

  /** The pairs of which an installation of `p` leaves both directions alone, and `p` itself. */
  ghost function Renewed(pairs: set<Pair>, p: Pair): set<Pair> {
    (set q | q in pairs && Apart(q, p)) + {p}
  }

  /** A committed installation leaves no half pair exactly when the two SA ids are both unused or
      are together the two ids of one pair. The database itself accepts any mixture, because it
      replaces by id. The pairing meant is the one the owner records, `Renewed`: the new pair and the
      earlier ones apart from it. Leftover halves of two pairs that happen to match are no pair of its. */
  lemma InstallPairKeepsPairs(
    entries: seq<Association>, capacity: nat, inbound: Association, outbound: Association, pairs: set<Pair>)
    requires ValidEntries(entries, capacity) && PairedBy(Contents(entries), pairs)
    requires Admissible(entries, capacity, inbound, outbound)
    ensures InstallKeepsDistinct(entries, capacity, inbound, outbound)
    ensures PairedBy(Contents(InstallPairInto(entries, capacity, inbound, outbound).0),
                     Renewed(pairs, Pair(inbound.id, outbound.id)))
            <==> forall q :: q in pairs ==> WholeOrApart(q, Pair(inbound.id, outbound.id))
  {
    hide Contents, InstallPairInto, ValidEntries, DistinctIds, Admissible, PairedBy, Renewed, WholeOrApart, HoldsPair;
    InstallPairIsAtomic(entries, capacity, inbound, outbound);
    ValidIsDistinct(InstallPairInto(entries, capacity, inbound, outbound).0, capacity);
    ValidIsDistinct(entries, capacity);
    var m, m' := Contents(entries), Contents(InstallPairInto(entries, capacity, inbound, outbound).0);
    RenewedPairs(m, m', pairs, Pair(inbound.id, outbound.id));
  }

  lemma ValidIsDistinct(entries: seq<Association>, capacity: nat)
    requires ValidEntries(entries, capacity)
    ensures DistinctIds(entries)
  {
  }

  ghost predicate InstallKeepsDistinct(entries: seq<Association>, capacity: nat, inbound: Association, outbound: Association) {
    DistinctIds(InstallPairInto(entries, capacity, inbound, outbound).0)
  }

  ghost predicate WholeOrApart(q: Pair, p: Pair) {
    Apart(q, p) || (Member(q.inbound, p) && Member(q.outbound, p))
  }

  lemma RenewedPairs(m: map<nat, Association>, m': map<nat, Association>, pairs: set<Pair>, p: Pair)
    requires PairedBy(m, pairs) && HoldsPair(m', p.inbound, p.outbound)
    requires m'.Keys == m.Keys + {p.inbound, p.outbound}
    requires forall id :: id in m && !Member(id, p) ==> m'[id] == m[id]
    ensures PairedBy(m', Renewed(pairs, p)) <==> forall q :: q in pairs ==> WholeOrApart(q, p)
  {
    hide PairedBy, Renewed;
    if forall q :: q in pairs ==> WholeOrApart(q, p) {
      WholePairsStay(m, m', pairs, p);
    }
    if PairedBy(m', Renewed(pairs, p)) {
      forall q | q in pairs
        ensures WholeOrApart(q, p)
      {
        assert HoldsPair(m, q.inbound, q.outbound) by { PairIsHeld(m, pairs, q); }
        if !Member(q.inbound, p) {
          HeldAlone(m, m', pairs, p, q, q.inbound);
        }
        if !Member(q.outbound, p) {
          HeldAlone(m, m', pairs, p, q, q.outbound);
        }
      }
    }
  }

  lemma PairIsHeld(m: map<nat, Association>, pairs: set<Pair>, q: Pair)
    requires PairedBy(m, pairs) && q in pairs
    ensures HoldsPair(m, q.inbound, q.outbound)
  {
  }

  /** An id outside `p` that is still held pairwise belongs to a pair apart from `p`. */
  lemma HeldAlone(m: map<nat, Association>, m': map<nat, Association>, pairs: set<Pair>, p: Pair, q: Pair, id: nat)
    requires PairedBy(m, pairs) && PairedBy(m', Renewed(pairs, p))
    requires q in pairs && Member(id, q) && !Member(id, p) && id in m'
    ensures Apart(q, p)
  {
    hide HoldsPair;
    assert Covered(Renewed(pairs, p), id);
    var r :| r in Renewed(pairs, p) && Member(id, r);
    assert r in pairs && Apart(r, p);
    assert r == q;
  }

  lemma WholePairsStay(m: map<nat, Association>, m': map<nat, Association>, pairs: set<Pair>, p: Pair)
    requires PairedBy(m, pairs) && HoldsPair(m', p.inbound, p.outbound)
    requires m'.Keys == m.Keys + {p.inbound, p.outbound}
    requires forall id :: id in m && !Member(id, p) ==> m'[id] == m[id]
    requires forall q :: q in pairs ==> WholeOrApart(q, p)
    ensures PairedBy(m', Renewed(pairs, p))
  {
    hide Opposite, Covered;
    forall id | id in m'
      ensures Covered(Renewed(pairs, p), id)
    {
      assert id in m || Member(id, p);
      CoverStays(pairs, p, id);
    }
    forall q | q in Renewed(pairs, p)
      ensures HoldsPair(m', q.inbound, q.outbound)
    {
      if q != p {
        assert HoldsPair(m, q.inbound, q.outbound);
      }
    }
  }

  lemma CoverStays(pairs: set<Pair>, p: Pair, id: nat)
    requires forall q :: q in pairs ==> WholeOrApart(q, p)
    requires Member(id, p) || Covered(pairs, id)
    ensures Covered(Renewed(pairs, p), id)
  {
    if Member(id, p) {
      assert p in Renewed(pairs, p);
    } else {
      var q :| q in pairs && Member(id, q);
      assert q in Renewed(pairs, p);
    }
  }

  function Plain(id: nat, spi: nat, outbound: bool): Association {
    Association(id, Identifier(spi, Esp, None, None), Transport, AesGcm128, NoIntegrity, 1, 1, None, None, 0, outbound)
  }

  /** Installing the pair (1, 3) over the pair (1, 2) is accepted and leaves 2 without a partner: no way of
      pairing the entries is left. */
  lemma HalfPairExample(pairs: set<Pair>)
    ensures var entries := [Plain(1, 10, false), Plain(2, 20, true)];
            var (entries', r) := InstallPairInto(entries, 4, Plain(1, 11, false), Plain(3, 30, true));
            && ValidEntries(entries, 4) && PairedBy(Contents(entries), {Pair(1, 2)})
            && r.committed && DistinctIds(entries') && !PairedBy(Contents(entries'), pairs)
  {
    hide Plain, PairedBy, Contents, ValidEntries, Admissible, InstallPairInto, HoldsPair, DistinctIds;
    var entries := [Plain(1, 10, false), Plain(2, 20, true)];
    var inbound, outbound := Plain(1, 11, false), Plain(3, 30, true);
    OnePair(entries);
    InstallPairIsAtomic(entries, 4, inbound, outbound);
    var entries' := InstallPairInto(entries, 4, inbound, outbound).0;
    ValidIsDistinct(entries, 4);
    ValidIsDistinct(entries', 4);
    PlainFields(1, 11, false);
    PlainFields(3, 30, true);
    var m, m' := Contents(entries), Contents(entries');
    assert m' == m[1 := inbound][3 := outbound];
    assert m'.Keys == {1, 2, 3} && m'[1] == inbound && m'[2] == m[2] && m'[3] == outbound;
    OddOneOut(m', pairs);
  }

  lemma PlainFields(id: nat, spi: nat, outbound: bool)
    ensures Plain(id, spi, outbound).id == id && Plain(id, spi, outbound).outbound == outbound
  {
  }

  lemma TwoEntries(a: Association, b: Association)
    requires a.id != b.id
    ensures DistinctIds([a, b]) && Contents([a, b]) == map[a.id := a, b.id := b]
  {
    var entries := [a, b];
    assert entries[0] in entries && entries[1] in entries;
    hide Contents;
    assert forall e :: e in entries <==> e == a || e == b;
    var m := Contents(entries);
    forall id
      ensures id in m <==> id == a.id || id == b.id
    {
      if id in m {
        assert m[id] in entries;
      }
    }
  }

  lemma ValidTwo(a: Association, b: Association)
    requires WellFormed(a) && WellFormed(b) && a.id != b.id && !Clash(a, b) && !Clash(b, a)
    ensures ValidEntries([a, b], 4)
  {
    hide WellFormed;
    var entries := [a, b];
    assert forall k :: 0 <= k < |entries| ==> entries[k] == a || entries[k] == b;
  }

  lemma AdmissibleOverTwo(a: Association, b: Association, c: Association, d: Association)
    requires a.id != b.id && c.id == a.id && d.id != a.id && d.id != b.id
    requires Compatible(c, d) && WellFormed(c) && WellFormed(d) && !Clash(b, c) && !Clash(b, d)
    ensures DistinctIds([a, b]) && Admissible([a, b], 4, c, d)
  {
    TwoEntries(a, b);
    hide Contents, WellFormed, Compatible;
    var m := Contents([a, b]);
    assert forall e :: e in m.Values ==> e == a || e == b;
  }

  lemma OnePair(entries: seq<Association>)
    requires entries == [Plain(1, 10, false), Plain(2, 20, true)]
    ensures ValidEntries(entries, 4) && PairedBy(Contents(entries), {Pair(1, 2)})
    ensures Contents(entries).Keys == {1, 2} && Contents(entries)[2].outbound
    ensures Admissible(entries, 4, Plain(1, 11, false), Plain(3, 30, true))
  {
    var a, b, c, d := Plain(1, 10, false), Plain(2, 20, true), Plain(1, 11, false), Plain(3, 30, true);
    hide Contents, WellFormed, PairedBy, ValidEntries, Admissible, DistinctIds;
    PlainWellFormed(1, 10, false);
    PlainWellFormed(2, 20, true);
    PlainWellFormed(1, 11, false);
    PlainWellFormed(3, 30, true);
    TwoEntries(a, b);
    ValidTwo(a, b);
    AdmissibleOverTwo(a, b, c, d);
    OnlyPair(Contents(entries));
  }

  lemma PlainWellFormed(id: nat, spi: nat, outbound: bool)
    requires id > 0 && spi > 0
    ensures WellFormed(Plain(id, spi, outbound))
  {
  }

  lemma OnlyPair(m: map<nat, Association>)
    requires m == map[1 := Plain(1, 10, false), 2 := Plain(2, 20, true)]
    ensures PairedBy(m, {Pair(1, 2)})
  {
    var p := Pair(1, 2);
    assert Member(1, p) && Member(2, p) && p in {p};
  }

  lemma PartnerOf(m: map<nat, Association>, pairs: set<Pair>, id: nat) returns (p: Pair)
    requires PairedBy(m, pairs) && id in m && m[id].outbound
    ensures p in pairs && p.outbound == id && p.inbound in m && !m[p.inbound].outbound
  {
    hide Covered;
    assert Covered(pairs, id);
    p := CoveredBy(pairs, id);
    assert HoldsPair(m, p.inbound, p.outbound);
  }

  lemma CoveredBy(pairs: set<Pair>, id: nat) returns (p: Pair)
    requires Covered(pairs, id)
    ensures p in pairs && Member(id, p)
  {
    p :| p in pairs && Member(id, p);
  }

  /** One inbound and two outbound entries cannot be paired. */
  lemma OddOneOut(m: map<nat, Association>, pairs: set<Pair>)
    requires m.Keys == {1, 2, 3} && !m[1].outbound && m[2].outbound && m[3].outbound
    ensures !PairedBy(m, pairs)
  {
    hide PairedBy;
    if PairedBy(m, pairs) {
      var p := PartnerOf(m, pairs, 2);
      var q := PartnerOf(m, pairs, 3);
      AllApart(m, pairs, p, q);
      assert false;
    }
  }

  lemma AllApart(m: map<nat, Association>, pairs: set<Pair>, p: Pair, q: Pair)
    requires PairedBy(m, pairs) && p in pairs && q in pairs && p != q
    ensures p.inbound != q.inbound
  {
    hide Covered;
  }

  // ---------------------------------------------------------------- the database in place

  /** How precisely an inbound entry names a packet: 0 for no match. */
  function Specificity(a: Association, protocol: Protocol, spi: nat, destination: Address, source: Address): nat {
    if a.outbound || a.identifier.spi != spi || a.identifier.protocol != protocol then 0
    else if a.identifier.destination.Some? && a.identifier.destination.value != destination then 0
    else if a.identifier.source.Some? && a.identifier.source.value != source then 0
    else if a.identifier.source.Some? then 3
    else if a.identifier.destination.Some? then 2
    else 1
  }

  /** An inbound entry answers for a packet when its SPI and protocol are the packet's and so is every
      address that it names. */
  ghost predicate Answers(a: Association, protocol: Protocol, spi: nat, destination: Address, source: Address) {
    && !a.outbound && a.identifier.spi == spi && a.identifier.protocol == protocol
    && (a.identifier.destination == None || a.identifier.destination == Some(destination))
    && (a.identifier.source == None || a.identifier.source == Some(source))
  }

  /** `best` names the source and `other` does not, or neither does and only `best` names the destination. */
  ghost predicate Outranks(best: Identifier, other: Identifier) {
    || (best.source.Some? && other.source.None?)
    || (best.source.None? && other.source.None? && best.destination.Some? && other.destination.None?)
  }

  lemma SpecificityMeans(a: Association, protocol: Protocol, spi: nat, destination: Address, source: Address)
    ensures Specificity(a, protocol, spi, destination, source) > 0 <==> Answers(a, protocol, spi, destination, source)
  {
  }

  /** Among entries that answer, the rank is higher exactly for the one that outranks the other. */
  lemma RankMeans(a: Association, b: Association, protocol: Protocol, spi: nat, destination: Address, source: Address)
    requires Answers(a, protocol, spi, destination, source) && Answers(b, protocol, spi, destination, source)
    ensures Specificity(a, protocol, spi, destination, source) > Specificity(b, protocol, spi, destination, source)
            <==> Outranks(a.identifier, b.identifier)
  {
  }

  /** Two entries that match one packet equally well would share an identifier. */
  lemma EquallySpecificClash(a: Association, b: Association, protocol: Protocol, spi: nat, destination: Address, source: Address)
    requires WellFormed(a) && WellFormed(b) && a.id != b.id
    requires Specificity(a, protocol, spi, destination, source) == Specificity(b, protocol, spi, destination, source) > 0
    ensures Clash(a, b)
  {
  }

  /** Newer, or as new and with the larger id. */
  predicate Newer(a: Association, b: Association) {
    a.createdAt > b.createdAt || (a.createdAt == b.createdAt && a.id > b.id)
  }

  predicate Serves(a: Association, policy: nat, protocol: Protocol) {
    a.outbound && a.policy == policy && a.identifier.protocol == protocol
  }

  class Sad {
    const capacity: nat
    var entries: seq<Association>

    ghost predicate Valid()
      reads this
    {
      ValidEntries(entries, capacity)
    }

    constructor (capacity: nat)
      ensures Valid() && entries == [] && this.capacity == capacity
    {
      this.capacity := capacity;
      entries := [];
    }

    /** Position of the first entry with this id, or the length. */
    method FindId(id: nat) returns (i: nat)
      ensures i == IndexOf(entries, id)
    {
      i := 0;
      while i < |entries| && entries[i].id != id
        invariant i <= |entries| && forall j :: 0 <= j < i ==> entries[j].id != id
      {
        i := i + 1;
      }
      FirstIndex(entries, id, i);
    }

    method FindClash(a: Association) returns (found: bool)
      ensures found <==> exists k :: 0 <= k < |entries| && Clash(entries[k], a)
    {
      for k := 0 to |entries|
        invariant forall j :: 0 <= j < k ==> !Clash(entries[j], a)
      {
        if Clash(entries[k], a) {
          return true;
        }
      }
      return false;
    }

    /** Installs or replaces one association: when it succeeds, what is then in force, and that a refusal
        changes nothing. */
    method Install(a: Association) returns (r: InstallResult)
      requires Valid()
      modifies this
      ensures Valid() && (entries, r) == InstallInto(old(entries), capacity, a)
      ensures Took(r) <==>
                && WellFormed(a) && (forall e :: e in old(Contents(entries)).Values ==> !Clash(e, a))
                && (a.id in old(Contents(entries)) || |old(entries)| < capacity)
      ensures Took(r) ==> Contents(entries) == old(Contents(entries))[a.id := a]
      ensures Took(r) ==> (r == Replaced <==> a.id in old(Contents(entries)))
      ensures !Took(r) ==> entries == old(entries)
    {
      hide WellFormed, Clash, ValidEntries, IndexOf, Contents;
      InstallKeepsValid(entries, capacity, a);
      InstallWhen(entries, capacity, a);
      ValidIsDistinct(entries, capacity);
      ValidIsDistinct(InstallInto(entries, capacity, a).0, capacity);
      IndexInContents(entries, a.id);
      if Took(InstallInto(entries, capacity, a).1) {
        InstallContents(entries, capacity, a);
      }
      hide DistinctIds;
      if !WellFormed(a) {
        return Invalid;
      }
      var existing := FindId(a.id);
      var conflict := FindClash(a);
      if conflict {
        return IdentifierConflict;
      }
      if existing == |entries| && |entries| >= capacity {
        return CapacityExhausted;
      }
      if existing < |entries| {
        entries := entries[existing := a];
        return Replaced;
      }
      entries := entries + [a];
      return Installed;
    }

    /** Installs both directions or puts the previous entries back. */
    method InstallPair(inbound: Association, outbound: Association) returns (r: PairResult)
      requires Valid()
      modifies this
      ensures Valid() && (entries, r) == InstallPairInto(old(entries), capacity, inbound, outbound)
      ensures r.committed <==> Admissible(old(entries), capacity, inbound, outbound)
      ensures r.committed ==> Contents(entries) == old(Contents(entries))[inbound.id := inbound][outbound.id := outbound]
      ensures !r.committed ==> entries == old(entries)
    {
      InstallPairIsAtomic(entries, capacity, inbound, outbound);
      hide WellFormed, Clash, ValidEntries, InstallInto, Contents, Admissible;
      if !Compatible(inbound, outbound) {
        return PairResult(Invalid, Invalid, false);
      }
      InstallUnchanged(entries, capacity, inbound);
      var previous := entries;
      var inboundResult := Install(inbound);
      if !Took(inboundResult) {
        return PairResult(inboundResult, Invalid, false);
      }
      var outboundResult := Install(outbound);
      if !Took(outboundResult) {
        entries := previous;
        return PairResult(inboundResult, outboundResult, false);
      }
      return PairResult(inboundResult, outboundResult, true);
    }

    /** Removes both directions of a pair, or nothing. */
    method ErasePair(i: nat, o: nat) returns (r: EraseResult)
      requires Valid()
      modifies this
      ensures Valid() && (entries, r) == ErasePairFrom(old(entries), i, o)
      ensures r == Erased <==> HoldsPair(old(Contents(entries)), i, o)
      ensures r == Erased ==> Contents(entries) == old(Contents(entries)) - {i, o}
      ensures r != Erased ==> entries == old(entries)
    {
      hide ValidEntries, IndexOf, Contents;
      ErasePairIsAtomic(entries, capacity, i, o);
      hide HoldsPair;
      if i == 0 || o == 0 || i == o {
        return InvalidPair;
      }
      var inbound := FindId(i);
      var outbound := FindId(o);
      if inbound == |entries| || outbound == |entries| {
        return Missing;
      }
      if !Matched(entries[inbound], entries[outbound]) {
        return NotAPair;
      }
      RemoveBoth(i, o);
      return Erased;
    }

    method RemoveBoth(i: nat, o: nat)
      modifies this`entries
      ensures entries == Excluding(old(entries), i, o)
    {
      hide Excluding;
      var kept: seq<Association> := [];
      assert entries[0..] == entries;
      for k := 0 to |entries|
        invariant entries == old(entries) && kept + Excluding(entries[k..], i, o) == Excluding(entries, i, o)
      {
        ExcludingStep(entries, k, i, o);
        if entries[k].id != i && entries[k].id != o {
          kept := kept + [entries[k]];
        }
      }
      ExcludingEnd(entries, i, o);
      entries := kept;
    }

    /** The entry for an inbound packet: one that names its source if any does, otherwise one that names its
        destination if any does, otherwise one that has its SPI and protocol alone. There is never more
        than one of each kind. */
    method FindInbound(protocol: Protocol, spi: nat, destination: Address, source: Address) returns (best: Option<nat>)
      requires Valid()
      ensures best.None? <==>
                || spi == 0 || !ValidAddress(destination) || !ValidAddress(source) || destination.family != source.family
                || forall k :: 0 <= k < |entries| ==> !Answers(entries[k], protocol, spi, destination, source)
      ensures best.Some? ==>
                && best.value < |entries| && Answers(entries[best.value], protocol, spi, destination, source)
                && forall k :: 0 <= k < |entries| && k != best.value && Answers(entries[k], protocol, spi, destination, source) ==>
                     Outranks(entries[best.value].identifier, entries[k].identifier)
    {
      hide Specificity, ValidAddress, WellFormed, Clash, Answers, Outranks;
      best := FindMostSpecific(protocol, spi, destination, source);
      forall k | 0 <= k < |entries|
        ensures Specificity(entries[k], protocol, spi, destination, source) > 0
                <==> Answers(entries[k], protocol, spi, destination, source)
      {
        SpecificityMeans(entries[k], protocol, spi, destination, source);
      }
      if best.Some? {
        forall k | 0 <= k < |entries| && k != best.value && Answers(entries[k], protocol, spi, destination, source)
          ensures Outranks(entries[best.value].identifier, entries[k].identifier)
        {
          RankMeans(entries[best.value], entries[k], protocol, spi, destination, source);
        }
      }
    }

    /** The search of the source, by the rank of each entry. */
    method FindMostSpecific(protocol: Protocol, spi: nat, destination: Address, source: Address) returns (best: Option<nat>)
      requires Valid()
      ensures spi == 0 || !ValidAddress(destination) || !ValidAddress(source) || destination.family != source.family
              ==> best == None
      ensures best.Some? ==>
                && best.value < |entries|
                && Specificity(entries[best.value], protocol, spi, destination, source) > 0
                && forall k :: 0 <= k < |entries| && k != best.value ==>
                     Specificity(entries[k], protocol, spi, destination, source)
                     < Specificity(entries[best.value], protocol, spi, destination, source)
      ensures best.None? && spi != 0 && ValidAddress(destination) && ValidAddress(source)
              && destination.family == source.family ==>
        forall k :: 0 <= k < |entries| ==> Specificity(entries[k], protocol, spi, destination, source) == 0
    {
      hide Specificity, ValidAddress, WellFormed, Clash;
      best := None;
      if spi == 0 || !ValidAddress(destination) || !ValidAddress(source) || destination.family != source.family {
        return;
      }
      var specificity := 0;
      for i := 0 to |entries|
        invariant best.None? <==> specificity == 0
        invariant best.Some? ==>
                    && best.value < i
                    && specificity == Specificity(entries[best.value], protocol, spi, destination, source)
        invariant forall k :: 0 <= k < i ==>
          Specificity(entries[k], protocol, spi, destination, source) <= specificity
        invariant forall k :: 0 <= k < i && specificity > 0 && best != Some(k) ==>
          Specificity(entries[k], protocol, spi, destination, source) < specificity
      {
        var candidate := Specificity(entries[i], protocol, spi, destination, source);
        if candidate == specificity > 0 {
          EquallySpecificClash(entries[i], entries[best.value], protocol, spi, destination, source);
        }
        if candidate > specificity {
          best, specificity := Some(i), candidate;
        }
      }
    }

    /** The newest outbound entry of a policy, which after a rekey is the replacement; of two that are as
        new the one with the larger id. */
    method FindOutboundForPolicy(policy: nat, protocol: Protocol) returns (selected: Option<nat>)
      requires Valid()
      ensures selected.Some? <==>
                exists k :: 0 <= k < |entries| && entries[k].outbound && entries[k].policy == policy
                            && entries[k].identifier.protocol == protocol
      ensures selected.Some? ==>
                && selected.value < |entries| && entries[selected.value].outbound
                && entries[selected.value].policy == policy && entries[selected.value].identifier.protocol == protocol
                && forall k :: 0 <= k < |entries| && k != selected.value && entries[k].outbound && entries[k].policy == policy
                               && entries[k].identifier.protocol == protocol ==>
                     && entries[k].createdAt <= entries[selected.value].createdAt
                     && (entries[k].createdAt == entries[selected.value].createdAt ==>
                           entries[k].id < entries[selected.value].id)
    {
      selected := None;
      for i := 0 to |entries|
        invariant selected.None? ==> forall k :: 0 <= k < i ==> !Serves(entries[k], policy, protocol)
        invariant selected.Some? ==>
                    && selected.value < i && Serves(entries[selected.value], policy, protocol)
                    && forall k :: 0 <= k < i && k != selected.value && Serves(entries[k], policy, protocol) ==>
                         Newer(entries[selected.value], entries[k])
      {
        if Serves(entries[i], policy, protocol) {
          if selected.None? || Newer(entries[i], entries[selected.value]) {
            selected := Some(i);
          }
        }
      }
    }
  }

  lemma {:induction false} FirstIndex(entries: seq<Association>, id: nat, i: nat)
    requires i <= |entries| && (i < |entries| ==> entries[i].id == id)
    requires forall j :: 0 <= j < i ==> entries[j].id != id
    ensures IndexOf(entries, id) == i
  {
  }

  lemma InstallUnchanged(entries: seq<Association>, capacity: nat, a: Association)
    ensures !Took(InstallInto(entries, capacity, a).1) ==> InstallInto(entries, capacity, a).0 == entries
  {
  }
}
