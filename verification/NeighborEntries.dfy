/** The authoritative entries of the IPv6 Neighbor Cache (core/src/ip/ipv6_neighbor_cache.cpp): learning,
    clearing, replacement under pressure, and batches of edits. */
module NeighborEntries {
  import opened Options

  datatype Key = Key(interface: nat, address: nat)

  datatype State = Incomplete | Reachable | Stale | Delay | Probe

  datatype Entry = Entry(valid: bool, fixed: bool, key: Key, mac: nat, state: State, used: nat)

  const BLANK: Entry := Entry(false, false, Key(0, 0), 0, Incomplete, 0)

  ghost predicate DistinctKeys(entries: seq<Entry>) {
    forall i, j :: 0 <= i < |entries| && 0 <= j < |entries| && i != j && entries[i].valid && entries[j].valid ==>
      entries[i].key != entries[j].key
  }

  function ValidCount(entries: seq<Entry>): nat {
    if entries == [] then 0
    else ValidCount(entries[..|entries| - 1]) + if entries[|entries| - 1].valid then 1 else 0
  }

  lemma {:induction false} ValidOfUpdate(entries: seq<Entry>, i: nat, e: Entry)
    requires i < |entries|
    ensures ValidCount(entries[i := e])
         == ValidCount(entries) - (if entries[i].valid then 1 else 0) + (if e.valid then 1 else 0)
    decreases |entries|
  {
    var before := entries[..|entries| - 1];
    if i == |entries| - 1 {
      assert entries[i := e][..|entries| - 1] == before;
    } else {
      assert entries[i := e][..|entries| - 1] == before[i := e];
      ValidOfUpdate(before, i, e);
    }
  }

  lemma {:induction false} ValidOfPrefix(entries: seq<Entry>, k: nat)
    requires k <= |entries|
    ensures ValidCount(entries[..k]) <= ValidCount(entries)
    decreases |entries|
  {
    if k == |entries| {
      assert entries[..k] == entries;
    } else {
      assert entries[..|entries| - 1][..k] == entries[..k];
      ValidOfPrefix(entries[..|entries| - 1], k);
    }
  }

  lemma ValidOfStep(entries: seq<Entry>, k: nat)
    requires k < |entries|
    ensures ValidCount(entries[..k + 1]) == ValidCount(entries[..k]) + if entries[k].valid then 1 else 0
  {
    assert entries[..k + 1][..k] == entries[..k];
  }

  // ---------------------------------------------------------------- linear scan

  /** The simple form of a lookup: the valid entry with the key. */
  function Scan(entries: seq<Entry>, key: Key): (r: Option<nat>)
    ensures r.Some? ==> r.value < |entries| && entries[r.value].valid && entries[r.value].key == key
    ensures r.None? ==> forall i :: 0 <= i < |entries| && entries[i].valid ==> entries[i].key != key
    decreases |entries|
  {
    if entries == [] then None
    else if entries[|entries| - 1].valid && entries[|entries| - 1].key == key then Some(|entries| - 1)
    else Scan(entries[..|entries| - 1], key)
  }

  // ---------------------------------------------------------------- room for a new entry

  /** The place can be taken by a new entry: it is vacant, or its dynamic entry is STALE. */
  predicate Supplies(e: Entry) {
    !e.valid || (!e.fixed && e.state == Stale)
  }

  function SupplyCount(entries: seq<Entry>): nat {
    if entries == [] then 0
    else SupplyCount(entries[..|entries| - 1]) + if Supplies(entries[|entries| - 1]) then 1 else 0
  }

  /** Places that exist and can be taken, and places that may still be added. */
  function Room(entries: seq<Entry>, limit: nat): nat {
    SupplyCount(entries) + if |entries| < limit then limit - |entries| else 0
  }

  lemma {:induction false} SupplyOfUpdate(entries: seq<Entry>, i: nat, e: Entry)
    requires i < |entries|
    ensures SupplyCount(entries[i := e])
         == SupplyCount(entries) - (if Supplies(entries[i]) then 1 else 0) + (if Supplies(e) then 1 else 0)
    decreases |entries|
  {
    hide Supplies;
    var before := entries[..|entries| - 1];
    if i == |entries| - 1 {
      assert entries[i := e][..|entries| - 1] == before;
    } else {
      assert entries[i := e][..|entries| - 1] == before[i := e];
      SupplyOfUpdate(before, i, e);
    }
  }

  lemma {:induction false} SupplyFound(entries: seq<Entry>)
    ensures SupplyCount(entries) > 0 <==> exists i :: 0 <= i < |entries| && Supplies(entries[i])
    decreases |entries|
  {
    hide Supplies;
    if entries != [] {
      var before := entries[..|entries| - 1];
      SupplyFound(before);
      assert forall i :: 0 <= i < |before| ==> before[i] == entries[i];
    }
  }

  /** Administrator-owned entries are always REACHABLE. */
  ghost predicate FixedReachable(entries: seq<Entry>) {
    forall i :: 0 <= i < |entries| && entries[i].valid && entries[i].fixed ==> entries[i].state == Reachable
  }

  ghost predicate Proper(entries: seq<Entry>, limit: nat) {
    && DistinctKeys(entries) && FixedReachable(entries) && |entries| <= limit
    && forall i :: 0 <= i < |entries| && !entries[i].valid ==> entries[i] == BLANK
  }

  function FirstVacant(entries: seq<Entry>): (i: nat)
    ensures i <= |entries|
    ensures i < |entries| ==> !entries[i].valid
    ensures forall j :: 0 <= j < i ==> entries[j].valid
  {
    if entries == [] || !entries[0].valid then 0 else 1 + FirstVacant(entries[1..])
  }

  /** The STALE entry that was used least recently, the first of several; the length if there is none. */
  function OldestStale(entries: seq<Entry>): (i: nat)
    ensures i <= |entries|
    ensures i < |entries| ==> entries[i].state == Stale
    ensures i == |entries| ==> forall j :: 0 <= j < |entries| ==> entries[j].state != Stale
    ensures i < |entries| ==> forall j :: 0 <= j < |entries| && entries[j].state == Stale ==> entries[i].used <= entries[j].used
    decreases |entries|
  {
    if entries == [] then 0
    else
      var n := |entries| - 1;
      var i := OldestStale(entries[..n]);
      assert forall j :: 0 <= j < n ==> entries[..n][j] == entries[j];
      if entries[n].state != Stale then (if i == n then n + 1 else i)
      else if i == n || entries[n].used < entries[i].used then n
      else i
  }

  /** A place for a new entry: vacant, added, or taken from the least recently used STALE entry. */
  function Allocated(entries: seq<Entry>, limit: nat): Option<(seq<Entry>, nat)> {
    var i, k := FirstVacant(entries), OldestStale(entries);
    if i < |entries| then Some((entries[i := BLANK], i))
    else if |entries| < limit then Some((entries + [BLANK], |entries|))
    else if k < |entries| then Some((entries[k := BLANK], k))
    else None
  }

  /** There is no vacant place and none to be added, and no STALE entry has been unused for longer. */
  ghost predicate LeastRecentlyUsed(entries: seq<Entry>, limit: nat, i: nat)
    requires i < |entries|
  {
    && |entries| >= limit && entries[i].state == Stale
    && forall j :: 0 <= j < |entries| ==>
         entries[j].valid && (entries[j].state == Stale ==> entries[i].used <= entries[j].used)
  }

  lemma AllocatedExactly(entries: seq<Entry>, limit: nat)
    requires Proper(entries, limit)
    ensures Allocated(entries, limit).Some? <==> Room(entries, limit) > 0
    ensures Allocated(entries, limit).Some? ==>
              var (entries', i) := Allocated(entries, limit).value;
              && i < |entries'| && entries'[i] == BLANK && |entries| <= |entries'| <= limit && i <= |entries|
              && (forall j :: 0 <= j < |entries| && j != i ==> j < |entries'| && entries'[j] == entries[j])
              && |entries'| == (if i < |entries| then |entries| else |entries| + 1)
              && (i < |entries| ==> Supplies(entries[i]))
              && (i < |entries| && entries[i].valid ==> LeastRecentlyUsed(entries, limit, i))
  {
    hide DistinctKeys, FirstVacant, OldestStale;
    SupplyFound(entries);
    var i, k := FirstVacant(entries), OldestStale(entries);
    if i < |entries| {
      assert Supplies(entries[i]);
    }
    if k < |entries| && i == |entries| {
      assert Supplies(entries[k]);
    }
  }

  // ---------------------------------------------------------------- learning and clearing

  /** What learning makes of the entry of the neighbor; `clock` counts uses. */
  function Refreshed(e: Entry, mac: nat, clock: nat): (Entry, nat) {
    if e.state == Incomplete || e.mac != mac then (e.(mac := mac, state := Stale, used := clock + 2), clock + 2)
    else if e.state == Stale then (e.(used := clock + 2), clock + 2)
    else (e.(used := clock + 1), clock + 1)
  }

  /** A neighbor must be on an interface, and its address neither unspecified nor multicast. */
  predicate UsableKey(key: Key) {
    key.interface != 0 && key.address != 0 && key.address / 0x1_0000_0000_0000_0000_0000_0000_0000_00 != 0xFF
  }

  /** An Ethernet unicast address: the group bit of the first of six octets is clear. */
  predicate UsableMac(mac: nat) {
    mac != 0 && mac / 0x100_0000_0000 % 2 == 0
  }

  /** The number that octets in network order stand for. */
  function Value(octets: seq<nat>): nat {
    if octets == [] then 0 else Value(octets[..|octets| - 1]) * 256 + octets[|octets| - 1]
  }

  function Power256(n: nat): nat {
    if n == 0 then 1 else 256 * Power256(n - 1)
  }

  lemma {:induction false} ValueOfFirst(octets: seq<nat>)
    requires octets != [] && forall i :: 0 <= i < |octets| ==> octets[i] < 256
    ensures octets[0] * Power256(|octets| - 1) <= Value(octets) < (octets[0] + 1) * Power256(|octets| - 1)
    decreases |octets|
  {
    var n := |octets| - 1;
    if n == 0 {
      assert octets[..0] == [] && Value([]) == 0;
    } else {
      ValueOfFirst(octets[..n]);
      Shifted(octets[0], Value(octets[..n]), Power256(n - 1), octets[n]);
    }
  }

  lemma Shifted(first: nat, value: nat, p: nat, last: nat)
    requires first * p <= value < (first + 1) * p && last < 256
    ensures first * (256 * p) <= value * 256 + last < (first + 1) * (256 * p)
  {
    assert first * (256 * p) == (first * p) * 256;
    assert (first + 1) * (256 * p) == ((first + 1) * p) * 256;
    var bound := (first + 1) * p;
    assert value + 1 <= bound;
  }

  lemma {:induction false} ValueZero(octets: seq<nat>)
    ensures Value(octets) == 0 <==> forall i :: 0 <= i < |octets| ==> octets[i] == 0
    decreases |octets|
  {
    if octets != [] {
      var n := |octets| - 1;
      ValueZero(octets[..n]);
      assert forall i :: 0 <= i < n ==> octets[..n][i] == octets[i];
    }
  }

  /** Of a link-layer address, the group bit of the first octet must be clear and some octet be set. */
  lemma UsableMacMeans(octets: seq<nat>)
    requires |octets| == 6 && forall i :: 0 <= i < 6 ==> octets[i] < 256
    ensures UsableMac(Value(octets)) <==> octets[0] % 2 == 0 && exists i :: 0 <= i < 6 && octets[i] != 0
  {
    ValueOfFirst(octets);
    ValueZero(octets);
    assert Power256(5) == 0x100_0000_0000 by {
      assert Power256(2) == 0x1_0000 && Power256(4) == 0x1_0000_0000;
    }
    QuotientOf(Value(octets), octets[0], 0x100_0000_0000);
  }

  /** Of an address, some octet must be set and the first not be that of multicast. */
  lemma UsableKeyMeans(interface: nat, octets: seq<nat>)
    requires |octets| == 16 && forall i :: 0 <= i < 16 ==> octets[i] < 256
    ensures UsableKey(Key(interface, Value(octets))) <==>
              interface > 0 && octets[0] != 255 && exists i :: 0 <= i < 16 && octets[i] != 0
  {
    ValueOfFirst(octets);
    ValueZero(octets);
    assert Power256(15) == 0x1_0000_0000_0000_0000_0000_0000_0000_00 by {
      assert Power256(4) == 0x1_0000_0000;
      assert Power256(8) == 0x1_0000_0000_0000_0000;
      assert Power256(12) == 0x1_0000_0000_0000_0000_0000_0000;
    }
    QuotientOf(Value(octets), octets[0], 0x1_0000_0000_0000_0000_0000_0000_0000_00);
  }

  lemma QuotientOf(x: nat, q: nat, d: nat)
    requires d > 0 && q * d <= x < (q + 1) * d
    ensures x / d == q
  {
    var k := x / d - q;
    assert x == x / d * d + x % d;
    assert k * d == x / d * d - q * d;
    assert k >= 1 ==> k * d >= d;
    assert k <= -1 ==> k * d <= 0 - d;
  }

  datatype Outcome = Outcome(entries: seq<Entry>, clock: nat, ok: bool)

  function Learned(entries: seq<Entry>, clock: nat, limit: nat, key: Key, mac: nat): Outcome {
    var found := Scan(entries, key);
    if !UsableKey(key) || !UsableMac(mac) then Outcome(entries, clock, false)
    else if found.Some? && entries[found.value].fixed then Outcome(entries, clock, entries[found.value].mac == mac)
    else if found.Some? then
      var (e, c) := Refreshed(entries[found.value], mac, clock);
      Outcome(entries[found.value := e], c, true)
    else
      var place := Allocated(entries, limit);
      if place.None? || place.value.1 >= |place.value.0| then Outcome(entries, clock, false)
      else
        var (e, c) := Refreshed(Entry(true, false, key, 0, Incomplete, 0), mac, clock);
        Outcome(place.value.0[place.value.1 := e], c, true)
  }

  function Trimmed(entries: seq<Entry>): (r: seq<Entry>)
    ensures |r| <= |entries| && r == entries[..|r|]
    ensures forall i :: |r| <= i < |entries| ==> !entries[i].valid
    ensures r != [] ==> r[|r| - 1].valid
    decreases |entries|
  {
    if entries == [] || entries[|entries| - 1].valid then entries else Trimmed(entries[..|entries| - 1])
  }

  /** Removes a dynamic entry and gives back the vacant end of the list. */
  function Cleared(entries: seq<Entry>, key: Key): seq<Entry> {
    var found := Scan(entries, key);
    Trimmed(if found.Some? && !entries[found.value].fixed then entries[found.value := BLANK] else entries)
  }

  lemma {:induction false} TrimKeepsRoom(entries: seq<Entry>, limit: nat)
    requires |entries| <= limit
    ensures Room(Trimmed(entries), limit) == Room(entries, limit)
    decreases |entries|
  {
    if entries != [] && !entries[|entries| - 1].valid {
      TrimKeepsRoom(entries[..|entries| - 1], limit);
    }
  }

  /** Learning succeeds exactly when the key and the address are usable and the neighbor is known, and
      not fixed to another address, or there is room. It never reduces the room: what it takes becomes replaceable itself. */
  lemma LearnedExactly(entries: seq<Entry>, clock: nat, limit: nat, key: Key, mac: nat)
    requires Proper(entries, limit)
    ensures var found, r := Scan(entries, key), Learned(entries, clock, limit, key, mac);
            && Proper(r.entries, limit) && Room(r.entries, limit) >= Room(entries, limit)
            && (r.ok <==> && UsableKey(key) && UsableMac(mac)
                          && if found.Some? then entries[found.value].fixed ==> entries[found.value].mac == mac
                             else Room(entries, limit) > 0)
            && (!r.ok ==> r.entries == entries)
            && (r.ok ==> Holds(r.entries, key, mac))
            && (forall j :: 0 <= j < |r.entries| && r.entries[j].valid && r.entries[j].key != key ==>
                  j < |entries| && entries[j] == r.entries[j])
            && (found.Some? ==> |r.entries| == |entries|)
            && (found.Some? ==> forall j :: 0 <= j < |entries| ==>
                  r.entries[j].valid == entries[j].valid && r.entries[j].key == entries[j].key)
  {
    hide Scan, SupplyCount, FirstVacant, OldestStale, Allocated, UsableKey, UsableMac;
    var found := Scan(entries, key);
    if found.Some? {
      var (e, c) := Refreshed(entries[found.value], mac, clock);
      SupplyOfUpdate(entries, found.value, e);
      var after := entries[found.value := e];
      assert after[found.value] == e && entries[found.value].key == key;
    } else {
      AllocatedExactly(entries, limit);
      if Allocated(entries, limit).Some? {
        var (entries', i) := Allocated(entries, limit).value;
        var (e, c) := Refreshed(Entry(true, false, key, 0, Incomplete, 0), mac, clock);
        SupplyOfUpdate(entries', i, e);
        var after := entries'[i := e];
        assert after[i] == e;
        AllocatedRoom(entries, limit);
      }
    }
  }

  /** A learned neighbor that is new, was being resolved or has changed its address is STALE, one that has
      not keeps its state; either way it is now the one used last. A fixed one is left alone. */
  lemma LearnedState(entries: seq<Entry>, clock: nat, limit: nat, key: Key, mac: nat)
    requires Proper(entries, limit) && UsedBefore(entries, clock)
    requires Learned(entries, clock, limit, key, mac).ok
    ensures var before, r := Found(entries, key), Learned(entries, clock, limit, key, mac);
            var after := Found(r.entries, key);
            && after.Some? && after.value.mac == mac && after.value.fixed == (before.Some? && before.value.fixed)
            && (after.value.fixed ==> after == before && r.clock == clock)
            && (!after.value.fixed ==>
                  && after.value.state == (if before.Some? && before.value.state != Incomplete && before.value.mac == mac
                                           then before.value.state else Stale)
                  && clock < after.value.used == r.clock)
  {
    hide Scan, FirstVacant, OldestStale, UsableKey, UsableMac, Room;
    LearnedExactly(entries, clock, limit, key, mac);
    AllocatedExactly(entries, limit);
    var r := Learned(entries, clock, limit, key, mac);
    var i := if Scan(entries, key).Some? then Scan(entries, key).value else Allocated(entries, limit).value.1;
    hide Allocated;
    assert i < |r.entries| && r.entries[i].valid && r.entries[i].key == key;
    FoundAt(r.entries, limit, i);
  }

  /** The neighbor is known with this link-layer address. */
  ghost predicate Holds(entries: seq<Entry>, key: Key, mac: nat) {
    exists i :: 0 <= i < |entries| && entries[i].valid && entries[i].key == key && entries[i].mac == mac
  }

  lemma AllocatedRoom(entries: seq<Entry>, limit: nat)
    requires Proper(entries, limit) && Allocated(entries, limit).Some?
    ensures Room(Allocated(entries, limit).value.0, limit) == Room(entries, limit)
  {
    hide FirstVacant, OldestStale;
    var i, k := FirstVacant(entries), OldestStale(entries);
    if i < |entries| {
      SupplyOfUpdate(entries, i, BLANK);
    } else if |entries| < limit {
      assert (entries + [BLANK])[..|entries|] == entries;
    } else {
      SupplyOfUpdate(entries, k, BLANK);
    }
  }

  lemma ClearedExactly(entries: seq<Entry>, limit: nat, key: Key)
    requires Proper(entries, limit)
    ensures var found, r := Scan(entries, key), Cleared(entries, key);
            && Proper(r, limit) && Room(r, limit) >= Room(entries, limit)
            && (found.Some? && !entries[found.value].fixed ==> Room(r, limit) > 0)
            && (found.None? || !entries[found.value].fixed ==> forall j :: 0 <= j < |r| && r[j].valid ==> r[j].key != key)
            && (found.None? || entries[found.value].fixed ==>
                  |r| <= |entries| && r == entries[..|r|] && forall i :: |r| <= i < |entries| ==> !entries[i].valid)
            && (forall j :: 0 <= j < |r| && r[j].valid ==> j < |entries| && entries[j] == r[j])
  {
    hide Scan, SupplyCount, Trimmed;
    var found := Scan(entries, key);
    if found.Some? && !entries[found.value].fixed {
      SupplyOfUpdate(entries, found.value, BLANK);
      var after := entries[found.value := BLANK];
      SupplyFound(after);
      assert Supplies(after[found.value]);
      TrimKeepsRoom(after, limit);
    } else {
      TrimKeepsRoom(entries, limit);
    }
  }

  // ---------------------------------------------------------------- clearing by interface and address

  /** A dynamic entry that passes both filters; an absent filter passes everything. */
  predicate Selected(e: Entry, interface: Option<nat>, address: Option<nat>) {
    && e.valid && !e.fixed
    && (interface.None? || e.key.interface == interface.value) && (address.None? || e.key.address == address.value)
  }

  function SelectedCount(entries: seq<Entry>, interface: Option<nat>, address: Option<nat>): nat {
    if entries == [] then 0
    else SelectedCount(entries[..|entries| - 1], interface, address)
         + if Selected(entries[|entries| - 1], interface, address) then 1 else 0
  }

  function Blanked(entries: seq<Entry>, interface: Option<nat>, address: Option<nat>): (r: seq<Entry>)
    ensures |r| == |entries|
    ensures forall i :: 0 <= i < |r| ==> r[i] == if Selected(entries[i], interface, address) then BLANK else entries[i]
  {
    seq(|entries|, i requires 0 <= i < |entries| =>
      if Selected(entries[i], interface, address) then BLANK else entries[i])
  }

  /** Removes every selected entry and gives back the vacant end of the list. */
  function ClearedWhere(entries: seq<Entry>, interface: Option<nat>, address: Option<nat>): seq<Entry> {
    Trimmed(Blanked(entries, interface, address))
  }

  lemma {:induction false} TrimKeepsValid(entries: seq<Entry>)
    ensures ValidCount(Trimmed(entries)) == ValidCount(entries)
    decreases |entries|
  {
    if entries != [] && !entries[|entries| - 1].valid {
      TrimKeepsValid(entries[..|entries| - 1]);
    }
  }

  lemma {:induction false} BlankedCount(entries: seq<Entry>, interface: Option<nat>, address: Option<nat>)
    ensures ValidCount(Blanked(entries, interface, address)) + SelectedCount(entries, interface, address) == ValidCount(entries)
    decreases |entries|
  {
    if entries != [] {
      var before := entries[..|entries| - 1];
      BlankedCount(before, interface, address);
      assert Blanked(entries, interface, address)[..|entries| - 1] == Blanked(before, interface, address);
    }
  }

  /** What remains are exactly the entries that were not selected, where they were, and each selected one
      is counted. */
  lemma ClearedWhereExactly(entries: seq<Entry>, limit: nat, interface: Option<nat>, address: Option<nat>)
    requires Proper(entries, limit)
    ensures var r := ClearedWhere(entries, interface, address);
            && Proper(r, limit) && |r| <= |entries| && (r != [] ==> r[|r| - 1].valid)
            && (forall i :: 0 <= i < |entries| && entries[i].valid ==>
                  (i < |r| && r[i] == entries[i] <==> !Selected(entries[i], interface, address)))
            && (forall i :: 0 <= i < |r| && r[i].valid ==> r[i] == entries[i])
            && ValidCount(r) + SelectedCount(entries, interface, address) == ValidCount(entries)
  {
    hide ValidCount, SelectedCount, Trimmed, Selected;
    var blanked := Blanked(entries, interface, address);
    BlankedCount(entries, interface, address);
    TrimKeepsValid(blanked);
    forall i | 0 <= i < |entries| && entries[i].valid
      ensures blanked[i].valid <==> !Selected(entries[i], interface, address)
    {
    }
  }

  /** Clearing one key is clearing by its interface and its address. */
  lemma ClearedByKey(entries: seq<Entry>, limit: nat, key: Key)
    requires Proper(entries, limit)
    ensures ClearedWhere(entries, Some(key.interface), Some(key.address)) == Cleared(entries, key)
  {
    hide Scan, Trimmed;
    var found := Scan(entries, key);
    forall i | 0 <= i < |entries|
      ensures Selected(entries[i], Some(key.interface), Some(key.address)) <==> found == Some(i) && !entries[i].fixed
    {
      if entries[i].valid && entries[i].key == key {
        ScanIsOnly(entries, limit, key);
      }
    }
    assert Blanked(entries, Some(key.interface), Some(key.address))
        == if found.Some? && !entries[found.value].fixed then entries[found.value := BLANK] else entries;
  }

  // ---------------------------------------------------------------- batches

  datatype Edit = LearnStale(key: Key, mac: nat) | RemoveDynamic(key: Key)

  predicate EditFits(entries: seq<Entry>, edits: seq<Edit>, k: nat)
    requires k < |edits|
  {
    && UsableKey(edits[k].key)
    && (edits[k].LearnStale? ==> UsableMac(edits[k].mac))
    && (forall j :: 0 <= j < k ==> edits[j].key != edits[k].key)
    && (edits[k].LearnStale? ==>
          var found := Scan(entries, edits[k].key);
          found.Some? && entries[found.value].fixed ==> entries[found.value].mac == edits[k].mac)
  }

  function Creating(entries: seq<Entry>, edits: seq<Edit>): nat {
    if edits == [] then 0
    else
      Creating(entries, edits[..|edits| - 1])
      + if edits[|edits| - 1].LearnStale? && Scan(entries, edits[|edits| - 1].key).None? then 1 else 0
  }

  /** What the batch is checked for before anything changes. */
  predicate Admissible(entries: seq<Entry>, limit: nat, edits: seq<Edit>) {
    (forall k :: 0 <= k < |edits| ==> EditFits(entries, edits, k)) && Creating(entries, edits) <= Room(entries, limit)
  }

  /** Applies the edits in order and stops at the first that fails. */
  function Applied(entries: seq<Entry>, clock: nat, limit: nat, edits: seq<Edit>): Outcome
    decreases |edits|
  {
    if edits == [] then Outcome(entries, clock, true)
    else if edits[0].RemoveDynamic? then Applied(Cleared(entries, edits[0].key), clock, limit, edits[1..])
    else
      var r := Learned(entries, clock, limit, edits[0].key, edits[0].mac);
      if r.ok then Applied(r.entries, r.clock, limit, edits[1..]) else r
  }

  function Batch(entries: seq<Entry>, clock: nat, limit: nat, edits: seq<Edit>): Outcome {
    if Admissible(entries, limit, edits) then Applied(entries, clock, limit, edits) else Outcome(entries, clock, false)
  }

  /** The remaining edits cannot fail: none contradicts a fixed entry, and there is room, or no edit
      needs any. */
  ghost predicate Ready(entries: seq<Entry>, limit: nat, edits: seq<Edit>) {
    && Proper(entries, limit)
    && (forall j, k :: 0 <= j < k < |edits| ==> edits[j].key != edits[k].key)
    && (forall k :: 0 <= k < |edits| && edits[k].LearnStale? ==>
          UsableKey(edits[k].key) && UsableMac(edits[k].mac) && NoConflict(entries, edits[k].key, edits[k].mac))
    && (Room(entries, limit) > 0 || forall k :: 0 <= k < |edits| && edits[k].LearnStale? ==> Knows(entries, edits[k].key))
  }

  ghost predicate Knows(entries: seq<Entry>, key: Key) {
    exists i :: 0 <= i < |entries| && entries[i].valid && entries[i].key == key
  }

  ghost predicate NoConflict(entries: seq<Entry>, key: Key, mac: nat) {
    forall i :: 0 <= i < |entries| && entries[i].valid && entries[i].key == key && entries[i].fixed ==> entries[i].mac == mac
  }

  lemma ReadyAfterLearn(entries: seq<Entry>, clock: nat, limit: nat, edits: seq<Edit>)
    requires Ready(entries, limit, edits) && edits != [] && edits[0].LearnStale?
    ensures var r := Learned(entries, clock, limit, edits[0].key, edits[0].mac); r.ok && Ready(r.entries, limit, edits[1..])
  {
    hide Scan, Room, Learned, Proper, UsableKey, UsableMac;
    LearnedExactly(entries, clock, limit, edits[0].key, edits[0].mac);
    var r := Learned(entries, clock, limit, edits[0].key, edits[0].mac);
    var found := Scan(entries, edits[0].key);
    assert found.None? ==> !Knows(entries, edits[0].key);
    assert r.ok;
    forall k | 0 <= k < |edits[1..]| && edits[1..][k].LearnStale?
      ensures NoConflict(r.entries, edits[1..][k].key, edits[1..][k].mac)
      ensures UsableKey(edits[1..][k].key) && UsableMac(edits[1..][k].mac)
    {
      assert NoConflict(entries, edits[k + 1].key, edits[k + 1].mac);
      assert edits[0].key != edits[k + 1].key;
    }
    if Room(r.entries, limit) == 0 {
      forall k | 0 <= k < |edits[1..]| && edits[1..][k].LearnStale?
        ensures Knows(r.entries, edits[1..][k].key)
      {
        assert Knows(entries, edits[k + 1].key);
      }
    }
  }

  lemma ReadyAfterClear(entries: seq<Entry>, limit: nat, edits: seq<Edit>)
    requires Ready(entries, limit, edits) && edits != [] && edits[0].RemoveDynamic?
    ensures Ready(Cleared(entries, edits[0].key), limit, edits[1..])
  {
    hide Scan, Room, Cleared, Proper, UsableKey, UsableMac;
    ClearedExactly(entries, limit, edits[0].key);
    var r := Cleared(entries, edits[0].key);
    forall k | 0 <= k < |edits[1..]| && edits[1..][k].LearnStale?
      ensures NoConflict(r, edits[1..][k].key, edits[1..][k].mac)
      ensures UsableKey(edits[1..][k].key) && UsableMac(edits[1..][k].mac)
    {
      assert NoConflict(entries, edits[k + 1].key, edits[k + 1].mac);
    }
    if Room(r, limit) == 0 {
      forall k | 0 <= k < |edits[1..]| && edits[1..][k].LearnStale?
        ensures Knows(r, edits[1..][k].key)
      {
        assert Knows(entries, edits[k + 1].key);
      }
    }
  }

  lemma {:induction false} ReadySucceeds(entries: seq<Entry>, clock: nat, limit: nat, edits: seq<Edit>)
    requires Ready(entries, limit, edits)
    ensures Applied(entries, clock, limit, edits).ok && Proper(Applied(entries, clock, limit, edits).entries, limit)
    decreases |edits|
  {
    if edits != [] {
      hide Ready, Learned, Cleared, Proper;
      if edits[0].LearnStale? {
        ReadyAfterLearn(entries, clock, limit, edits);
        var r := Learned(entries, clock, limit, edits[0].key, edits[0].mac);
        ReadySucceeds(r.entries, r.clock, limit, edits[1..]);
      } else {
        ReadyAfterClear(entries, limit, edits);
        ReadySucceeds(Cleared(entries, edits[0].key), clock, limit, edits[1..]);
      }
    } else {
      ReadyIsProper(entries, limit, edits);
    }
  }

  lemma ReadyIsProper(entries: seq<Entry>, limit: nat, edits: seq<Edit>)
    requires Ready(entries, limit, edits)
    ensures Proper(entries, limit)
  {
  }

  lemma {:induction false} NothingToCreate(entries: seq<Entry>, edits: seq<Edit>, k: nat)
    requires k < |edits| && edits[k].LearnStale? && Creating(entries, edits) == 0
    ensures Scan(entries, edits[k].key).Some?
    decreases |edits|
  {
    hide Scan;
    if k < |edits| - 1 {
      NothingToCreate(entries, edits[..|edits| - 1], k);
    }
  }

  /** An admissible batch is applied completely, although it may replace entries that later edits name;
      so a batch that reports failure has changed nothing. */
  lemma BatchIsAllOrNothing(entries: seq<Entry>, clock: nat, limit: nat, edits: seq<Edit>)
    requires Proper(entries, limit)
    ensures Batch(entries, clock, limit, edits).ok <==> Admissible(entries, limit, edits)
    ensures !Batch(entries, clock, limit, edits).ok ==> Batch(entries, clock, limit, edits).entries == entries
    ensures Proper(Batch(entries, clock, limit, edits).entries, limit)
  {
    if Admissible(entries, limit, edits) {
      hide Admissible, Ready, Applied, Proper;
      AdmissibleIsReady(entries, limit, edits);
      ReadySucceeds(entries, clock, limit, edits);
    }
  }

  /** The entries that nothing may replace: fixed ones, and dynamic ones that are not STALE. */
  ghost function Firm(entries: seq<Entry>): set<nat> {
    set i: nat | i < |entries| && entries[i].valid && (entries[i].fixed || entries[i].state != Stale)
  }

  /** The edits that learn a neighbor nobody knows. */
  ghost function Unknown(entries: seq<Entry>, edits: seq<Edit>): set<nat> {
    set k: nat | k < |edits| && edits[k].LearnStale? && !Knows(entries, edits[k].key)
  }

  lemma {:induction false} FirmCount(entries: seq<Entry>)
    ensures SupplyCount(entries) + |Firm(entries)| == |entries|
    decreases |entries|
  {
    if entries == [] {
      assert Firm(entries) == {};
    } else {
      var n := |entries| - 1;
      FirmCount(entries[..n]);
      assert n !in Firm(entries[..n]);
      assert Firm(entries) == Firm(entries[..n]) + (if Supplies(entries[n]) then {} else {n});
    }
  }

  lemma {:induction false} UnknownCount(entries: seq<Entry>, edits: seq<Edit>)
    ensures Creating(entries, edits) == |Unknown(entries, edits)|
    decreases |edits|
  {
    if edits == [] {
      assert Unknown(entries, edits) == {};
    } else {
      var n := |edits| - 1;
      UnknownCount(entries, edits[..n]);
      KnowsByScan(entries, edits[n].key);
      hide Scan, Knows;
      assert n !in Unknown(entries, edits[..n]);
      assert Unknown(entries, edits)
          == Unknown(entries, edits[..n]) + (if edits[n].LearnStale? && !Knows(entries, edits[n].key) then {n} else {});
    }
  }

  lemma KnowsByScan(entries: seq<Entry>, key: Key)
    ensures Knows(entries, key) <==> Scan(entries, key).Some?
  {
    hide Scan;
  }

  /** A batch is taken exactly when its keys are usable and different, what it learns is usable and
      contradicts no fixed neighbor, and the neighbors that nobody knows yet and those that nothing may
      replace fit the table together. */
  lemma BatchTakenExactly(entries: seq<Entry>, limit: nat, edits: seq<Edit>)
    requires Proper(entries, limit)
    ensures Admissible(entries, limit, edits) <==>
              && (forall k :: 0 <= k < |edits| ==> UsableKey(edits[k].key))
              && (forall j, k :: 0 <= j < k < |edits| ==> edits[j].key != edits[k].key)
              && (forall k :: 0 <= k < |edits| && edits[k].LearnStale? ==>
                    UsableMac(edits[k].mac) && NoConflict(entries, edits[k].key, edits[k].mac))
              && |Unknown(entries, edits)| + |Firm(entries)| <= limit
  {
    hide Scan, UsableKey, UsableMac, Creating, SupplyCount, Firm, Unknown;
    FirmCount(entries);
    UnknownCount(entries, edits);
    forall k | 0 <= k < |edits|
      ensures EditFits(entries, edits, k) <==>
                && UsableKey(edits[k].key) && (forall j :: 0 <= j < k ==> edits[j].key != edits[k].key)
                && (edits[k].LearnStale? ==> UsableMac(edits[k].mac) && NoConflict(entries, edits[k].key, edits[k].mac))
    {
      ScanIsOnly(entries, limit, edits[k].key);
    }
  }

  lemma AdmissibleIsReady(entries: seq<Entry>, limit: nat, edits: seq<Edit>)
    requires Proper(entries, limit) && Admissible(entries, limit, edits)
    ensures Ready(entries, limit, edits)
  {
    hide Scan, Room, Proper, Creating, UsableKey, UsableMac;
    forall k | 0 <= k < |edits| && edits[k].LearnStale?
      ensures NoConflict(entries, edits[k].key, edits[k].mac)
      ensures UsableKey(edits[k].key) && UsableMac(edits[k].mac)
      ensures Room(entries, limit) == 0 ==> Knows(entries, edits[k].key)
    {
      assert EditFits(entries, edits, k);
      ScanIsOnly(entries, limit, edits[k].key);
      if Room(entries, limit) == 0 {
        NothingToCreate(entries, edits, k);
      }
    }
    assert forall j, k :: 0 <= j < k < |edits| ==> EditFits(entries, edits, k) && edits[j].key != edits[k].key;
  }

  lemma ScanIsOnly(entries: seq<Entry>, limit: nat, key: Key)
    requires Proper(entries, limit)
    ensures forall i :: 0 <= i < |entries| && entries[i].valid && entries[i].key == key ==> Scan(entries, key) == Some(i)
  {
    hide Scan;
  }

  // ---------------------------------------------------------------- what a batch replaces

  function Found(entries: seq<Entry>, key: Key): (r: Option<Entry>)
    ensures r.Some? <==> Scan(entries, key).Some?
    ensures r.Some? ==> r.value.valid && r.value.key == key
  {
    var i := Scan(entries, key);
    if i.Some? then Some(entries[i.value]) else None
  }

  lemma FoundAt(entries: seq<Entry>, limit: nat, i: nat)
    requires Proper(entries, limit) && i < |entries| && entries[i].valid
    ensures Found(entries, entries[i].key) == Some(entries[i])
  {
    hide Scan;
  }

  /** The place is vacant, or its STALE entry has not been used since `start`. */
  predicate Spare(e: Entry, start: nat) {
    !e.valid || (!e.fixed && e.state == Stale && e.used <= start)
  }

  function SpareCount(entries: seq<Entry>, start: nat): nat {
    if entries == [] then 0
    else SpareCount(entries[..|entries| - 1], start) + if Spare(entries[|entries| - 1], start) then 1 else 0
  }

  /** The room that can be used up without touching what was learned since `start`. */
  function Reserve(entries: seq<Entry>, limit: nat, start: nat): nat {
    SpareCount(entries, start) + if |entries| < limit then limit - |entries| else 0
  }

  lemma {:induction false} SpareOfUpdate(entries: seq<Entry>, i: nat, e: Entry, start: nat)
    requires i < |entries|
    ensures SpareCount(entries[i := e], start)
         == SpareCount(entries, start) - (if Spare(entries[i], start) then 1 else 0) + (if Spare(e, start) then 1 else 0)
    decreases |entries|
  {
    hide Spare;
    var before := entries[..|entries| - 1];
    if i == |entries| - 1 {
      assert entries[i := e][..|entries| - 1] == before;
    } else {
      assert entries[i := e][..|entries| - 1] == before[i := e];
      SpareOfUpdate(before, i, e, start);
    }
  }

  lemma SpareOfAppend(entries: seq<Entry>, e: Entry, start: nat)
    ensures SpareCount(entries + [e], start) == SpareCount(entries, start) + if Spare(e, start) then 1 else 0
  {
    assert (entries + [e])[..|entries|] == entries;
  }

  lemma {:induction false} SpareFound(entries: seq<Entry>, start: nat)
    ensures SpareCount(entries, start) > 0 <==> exists i :: 0 <= i < |entries| && Spare(entries[i], start)
    decreases |entries|
  {
    hide Spare;
    if entries != [] {
      var before := entries[..|entries| - 1];
      SpareFound(before, start);
      assert forall i :: 0 <= i < |before| ==> before[i] == entries[i];
    }
  }

  lemma {:induction false} TrimKeepsReserve(entries: seq<Entry>, limit: nat, start: nat)
    requires |entries| <= limit
    ensures Reserve(Trimmed(entries), limit, start) == Reserve(entries, limit, start)
    decreases |entries|
  {
    if entries != [] && !entries[|entries| - 1].valid {
      TrimKeepsReserve(entries[..|entries| - 1], limit, start);
    }
  }

  /** While nothing has been used since `start`, the reserve is the room. */
  lemma {:induction false} ReserveIsRoom(entries: seq<Entry>, limit: nat, start: nat)
    requires UsedBefore(entries, start)
    ensures Reserve(entries, limit, start) == Room(entries, limit) && SpareCount(entries, start) == SupplyCount(entries)
    decreases |entries|
  {
    if entries != [] {
      ReserveIsRoom(entries[..|entries| - 1], limit, start);
      assert entries[|entries| - 1].valid ==> entries[|entries| - 1].used <= start;
    }
  }

  /** The use counter is ahead of every entry. */
  ghost predicate UsedBefore(entries: seq<Entry>, clock: nat) {
    forall i :: 0 <= i < |entries| && entries[i].valid ==> entries[i].used <= clock
  }

  /** What an edit takes from the room: a neighbor that is new, or whose entry could have been replaced,
      takes one place for good; removing an entry that could not be replaced gives one back. */
  function Cost(e: Option<Entry>, edit: Edit): (c: int)
    ensures c <= 1
  {
    if edit.LearnStale? then (if e.None? || Supplies(e.value) then 1 else 0)
    else if e.Some? && !e.value.fixed && !Supplies(e.value) then 0 - 1 else 0
  }

  /** A counter that starts at `room` and pays for every edit never runs short. */
  predicate Fits(entries: seq<Entry>, room: int, edits: seq<Edit>)
    decreases |edits|
  {
    edits == [] || var cost := Cost(Found(entries, edits[0].key), edits[0]);
                   cost <= room && Fits(entries, room - cost, edits[1..])
  }

  lemma {:induction false} FitsAlike(a: seq<Entry>, b: seq<Entry>, room: int, edits: seq<Edit>)
    requires forall k :: 0 <= k < |edits| ==> Cost(Found(a, edits[k].key), edits[k]) == Cost(Found(b, edits[k].key), edits[k])
    ensures Fits(a, room, edits) == Fits(b, room, edits)
    decreases |edits|
  {
    hide Cost, Found;
    if edits != [] {
      FitsAlike(a, b, room - Cost(Found(a, edits[0].key), edits[0]), edits[1..]);
    }
  }

  /** Other neighbors are as before; only spare entries may be gone. */
  ghost predicate Beside(before: seq<Entry>, after: seq<Entry>, key: Key, start: nat) {
    && (forall k :: k != key && Found(after, k).Some? ==> Found(after, k) == Found(before, k))
    && (forall k :: k != key && Found(before, k).Some? && !Spare(Found(before, k).value, start) ==>
          Found(after, k) == Found(before, k))
  }

  lemma BesideByIndex(before: seq<Entry>, after: seq<Entry>, limit: nat, key: Key, start: nat)
    requires Proper(before, limit) && Proper(after, limit)
    requires forall j :: 0 <= j < |after| && after[j].valid && after[j].key != key ==> j < |before| && before[j] == after[j]
    requires forall j :: 0 <= j < |before| && before[j].key != key && !Spare(before[j], start) ==>
               j < |after| && after[j] == before[j]
    ensures Beside(before, after, key, start)
  {
    hide Scan, Spare;
    forall k | k != key && Found(after, k).Some?
      ensures Found(after, k) == Found(before, k)
    {
      FoundAt(before, limit, Scan(after, k).value);
    }
    forall k | k != key && Found(before, k).Some? && !Spare(Found(before, k).value, start)
      ensures Found(after, k) == Found(before, k)
    {
      FoundAt(after, limit, Scan(before, k).value);
    }
  }

  /** Learning takes its cost from the reserve and nothing else; when the reserve is short, it takes the
      place of an entry used since `start`. */
  lemma LearnedSpares(entries: seq<Entry>, clock: nat, limit: nat, key: Key, mac: nat, start: nat)
    requires Proper(entries, limit) && start <= clock
    requires Found(entries, key).Some? ==> Found(entries, key).value.used <= start
    requires Learned(entries, clock, limit, key, mac).ok
    ensures var r, cost := Learned(entries, clock, limit, key, mac), Cost(Found(entries, key), LearnStale(key, mac));
            && Proper(r.entries, limit)
            && Found(r.entries, key).Some? && Found(r.entries, key).value.mac == mac
            && !Spare(Found(r.entries, key).value, start)
            && (cost <= Reserve(entries, limit, start) ==>
                  && Reserve(r.entries, limit, start) == Reserve(entries, limit, start) - cost
                  && Beside(entries, r.entries, key, start))
            && (cost > Reserve(entries, limit, start) ==> Loses(entries, r.entries, key, start))
  {
    hide Scan, SpareCount, FirstVacant, OldestStale, UsableKey, UsableMac, Proper, Learned, Room;
    LearnedExactly(entries, clock, limit, key, mac);
    if Found(entries, key).Some? {
      LearnedKnown(entries, clock, limit, key, mac, start);
    } else {
      LearnedUnknown(entries, clock, limit, key, mac, start);
    }
  }

  /** A neighbor used since `start` is gone. */
  ghost predicate Loses(before: seq<Entry>, after: seq<Entry>, key: Key, start: nat) {
    exists k :: k != key && Found(before, k).Some? && Found(before, k).value.used > start && Found(after, k).None?
  }

  lemma LearnedKnown(entries: seq<Entry>, clock: nat, limit: nat, key: Key, mac: nat, start: nat)
    requires Proper(entries, limit) && start <= clock
    requires Found(entries, key).Some? && Found(entries, key).value.used <= start
    requires Learned(entries, clock, limit, key, mac).ok
    ensures var r, cost := Learned(entries, clock, limit, key, mac).entries, Cost(Found(entries, key), LearnStale(key, mac));
            && Found(r, key).Some? && Found(r, key).value.mac == mac && !Spare(Found(r, key).value, start)
            && cost <= Reserve(entries, limit, start) && Reserve(r, limit, start) == Reserve(entries, limit, start) - cost
            && Beside(entries, r, key, start)
  {
    hide Scan, SpareCount, UsableKey, UsableMac, Room, Beside;
    LearnedExactly(entries, clock, limit, key, mac);
    var i, r := Scan(entries, key).value, Learned(entries, clock, limit, key, mac).entries;
    SpareOfUpdate(entries, i, r[i], start);
    SpareFound(entries, start);
    assert r == entries[i := r[i]];
    FoundAt(r, limit, i);
    BesideByIndex(entries, r, limit, key, start);
  }

  lemma LearnedUnknown(entries: seq<Entry>, clock: nat, limit: nat, key: Key, mac: nat, start: nat)
    requires Proper(entries, limit) && start <= clock && Found(entries, key).None?
    requires Learned(entries, clock, limit, key, mac).ok
    ensures var r := Learned(entries, clock, limit, key, mac).entries;
            && Found(r, key).Some? && Found(r, key).value.mac == mac && !Spare(Found(r, key).value, start)
            && (Reserve(entries, limit, start) >= 1 ==>
                  Reserve(r, limit, start) == Reserve(entries, limit, start) - 1 && Beside(entries, r, key, start))
            && (Reserve(entries, limit, start) < 1 ==> Loses(entries, r, key, start))
  {
    hide Scan, SpareCount, UsableKey, UsableMac, Room, Beside, FirstVacant, OldestStale;
    LearnedExactly(entries, clock, limit, key, mac);
    var r := Learned(entries, clock, limit, key, mac).entries;
    var e := Refreshed(Entry(true, false, key, 0, Incomplete, 0), mac, clock).0;
    var i, k := FirstVacant(entries), OldestStale(entries);
    SpareFound(entries, start);
    if i == |entries| && |entries| < limit {
      assert r == entries + [e];
      SpareOfAppend(entries, e, start);
      FoundAt(r, limit, |entries|);
      BesideByIndex(entries, r, limit, key, start);
    } else {
      var at := if i < |entries| then i else k;
      assert r == entries[at := e];
      SpareOfUpdate(entries, at, e, start);
      FoundAt(r, limit, at);
      if Spare(entries[at], start) {
        BesideByIndex(entries, r, limit, key, start);
      } else {
        FoundAt(entries, limit, at);
        GoneWhenReplaced(entries, r, limit, at, key);
        assert Loses(entries, r, key, start);
      }
    }
  }

  lemma GoneWhenReplaced(entries: seq<Entry>, r: seq<Entry>, limit: nat, at: nat, key: Key)
    requires Proper(entries, limit) && at < |entries| == |r| && entries[at].valid && entries[at].key != key
    requires r == entries[at := r[at]] && r[at].key == key
    ensures Found(r, entries[at].key).None?
  {
    hide Scan;
  }

  /** Removing takes its cost from the reserve, or gives it back, and disturbs no other neighbor. */
  lemma ClearedSpares(entries: seq<Entry>, limit: nat, key: Key, start: nat)
    requires Proper(entries, limit)
    requires Found(entries, key).Some? ==> Found(entries, key).value.used <= start
    ensures var r := Cleared(entries, key);
            && Reserve(r, limit, start) == Reserve(entries, limit, start) - Cost(Found(entries, key), RemoveDynamic(key))
            && Beside(entries, r, key, start)
            && (Found(r, key).Some? ==> Found(r, key).value.used <= start)
  {
    hide Scan, SpareCount, Trimmed, Beside, Room;
    ClearedExactly(entries, limit, key);
    var found := Scan(entries, key);
    var before := if found.Some? && !entries[found.value].fixed then entries[found.value := BLANK] else entries;
    if found.Some? {
      SpareOfUpdate(entries, found.value, BLANK, start);
    }
    TrimKeepsReserve(before, limit, start);
    var after := Trimmed(before);
    forall j | 0 <= j < |entries| && entries[j].key != key && !Spare(entries[j], start)
      ensures j < |after| && after[j] == entries[j]
    {
      assert before[j] == entries[j];
    }
    BesideByIndex(entries, after, limit, key, start);
    if Found(after, key).Some? {
      FoundAt(entries, limit, Scan(after, key).value);
    }
  }

  /** What a batch that began at `start` and has learned `learned` keeps up. */
  ghost predicate Underway(entries: seq<Entry>, clock: nat, limit: nat, start: nat, learned: set<Key>, edits: seq<Edit>) {
    && Ready(entries, limit, edits) && start <= clock
    && (forall k :: Found(entries, k).Some? && Found(entries, k).value.used > start ==> k in learned)
    && (forall i :: 0 <= i < |edits| ==> edits[i].key !in learned)
  }

  function Learning(learned: set<Key>, edit: Edit): set<Key> {
    if edit.LearnStale? then learned + {edit.key} else learned
  }

  /** The first edit, when the counter can pay for it: the counter follows the reserve. */
  lemma UnderwayStep(entries: seq<Entry>, clock: nat, limit: nat, start: nat, learned: set<Key>, edits: seq<Edit>)
    returns (next: seq<Entry>, later: nat)
    requires Underway(entries, clock, limit, start, learned, edits) && edits != []
    requires Cost(Found(entries, edits[0].key), edits[0]) <= Reserve(entries, limit, start)
    ensures Applied(entries, clock, limit, edits) == Applied(next, later, limit, edits[1..])
    ensures Underway(next, later, limit, start, Learning(learned, edits[0]), edits[1..])
    ensures Beside(entries, next, edits[0].key, start)
    ensures edits[0].LearnStale? ==> var e := Found(next, edits[0].key);
              e.Some? && e.value.mac == edits[0].mac && !Spare(e.value, start)
    ensures Fits(entries, Reserve(entries, limit, start), edits) == Fits(next, Reserve(next, limit, start), edits[1..])
  {
    hide Found, Reserve, Cost, Spare, Ready, Proper;
    var key, rest := edits[0].key, edits[1..];
    ReadyIsProper(entries, limit, edits);
    UnderwayApart(entries, clock, limit, start, learned, edits);
    assert edits[0].key !in learned;
    if edits[0].LearnStale? {
      ReadyAfterLearn(entries, clock, limit, edits);
      LearnedSpares(entries, clock, limit, key, edits[0].mac, start);
      ClockGrows(entries, clock, limit, key, edits[0].mac);
      next, later := Learned(entries, clock, limit, key, edits[0].mac).entries, Learned(entries, clock, limit, key, edits[0].mac).clock;
    } else {
      ReadyAfterClear(entries, limit, edits);
      ClearedSpares(entries, limit, key, start);
      next, later := Cleared(entries, key), clock;
    }
    hide Learned, Cleared, Applied;
    forall k | 0 <= k < |rest|
      ensures rest[k].key != key && rest[k].key !in learned
      ensures Cost(Found(next, rest[k].key), rest[k]) == Cost(Found(entries, rest[k].key), rest[k])
    {
      assert rest[k] == edits[k + 1];
      SameCost(entries, next, key, start, rest[k]);
    }
    FitsAlike(entries, next, Reserve(entries, limit, start) - Cost(Found(entries, key), edits[0]), rest);
  }

  lemma ClockGrows(entries: seq<Entry>, clock: nat, limit: nat, key: Key, mac: nat)
    ensures Learned(entries, clock, limit, key, mac).clock >= clock
  {
    hide Scan, Allocated, UsableKey, UsableMac;
  }

  /** An edit of another neighbor costs the same whether or not the neighbor was replaced. */
  lemma SameCost(before: seq<Entry>, after: seq<Entry>, key: Key, start: nat, edit: Edit)
    requires Beside(before, after, key, start) && edit.key != key
    ensures Cost(Found(after, edit.key), edit) == Cost(Found(before, edit.key), edit)
  {
    hide Found;
  }

  /** A neighbor that no edit names does not come back. */
  lemma {:induction false} StaysUnknown(entries: seq<Entry>, clock: nat, limit: nat, edits: seq<Edit>, key: Key)
    requires Ready(entries, limit, edits) && Found(entries, key).None?
    requires forall k :: 0 <= k < |edits| ==> edits[k].key != key
    ensures Found(Applied(entries, clock, limit, edits).entries, key).None?
    decreases |edits|
  {
    hide Scan, Proper, Room;
    if edits != [] {
      var m, rest := edits[0], edits[1..];
      ReadyIsProper(entries, limit, edits);
      assert edits[0].key != key;
      if m.RemoveDynamic? {
        ReadyAfterClear(entries, limit, edits);
        ClearedExactly(entries, limit, m.key);
        hide Ready, Cleared;
        StaysUnknown(Cleared(entries, m.key), clock, limit, rest, key);
      } else {
        ReadyAfterLearn(entries, clock, limit, edits);
        LearnedExactly(entries, clock, limit, m.key, m.mac);
        hide Ready, Learned;
        var r := Learned(entries, clock, limit, m.key, m.mac);
        StaysUnknown(r.entries, r.clock, limit, rest, key);
      }
    }
  }

  /** Known with this address, and not to be replaced by what began at `start`. */
  ghost predicate Secure(entries: seq<Entry>, key: Key, mac: nat, start: nat) {
    var e := Found(entries, key);
    e.Some? && e.value.mac == mac && !Spare(e.value, start)
  }

  /** While the counter can pay, whatever is secure stays so. */
  lemma {:induction false} SecureStays(entries: seq<Entry>, clock: nat, limit: nat, start: nat, learned: set<Key>,
                                       edits: seq<Edit>, key: Key, mac: nat)
    requires Underway(entries, clock, limit, start, learned, edits)
    requires Fits(entries, Reserve(entries, limit, start), edits)
    requires (Secure(entries, key, mac, start) && forall k :: 0 <= k < |edits| ==> edits[k].key != key)
             || LearnStale(key, mac) in edits
    ensures Secure(Applied(entries, clock, limit, edits).entries, key, mac, start)
    decreases |edits|
  {
    hide Underway, Reserve, Cost, Spare, Applied, Found;
    if edits == [] {
      AppliedNothing(entries, clock, limit);
    } else {
      var next, later := UnderwayStep(entries, clock, limit, start, learned, edits);
      UnderwayApart(entries, clock, limit, start, learned, edits);
      var rest := edits[1..];
      assert forall k :: 0 <= k < |rest| ==> rest[k] == edits[k + 1];
      assert LearnStale(key, mac) in edits ==> edits[0] == LearnStale(key, mac) || LearnStale(key, mac) in rest;
      SecureStays(next, later, limit, start, Learning(learned, edits[0]), rest, key, mac);
    }
  }

  lemma AppliedNothing(entries: seq<Entry>, clock: nat, limit: nat)
    ensures Applied(entries, clock, limit, []) == Outcome(entries, clock, true)
  {
  }

  lemma UnderwayApart(entries: seq<Entry>, clock: nat, limit: nat, start: nat, learned: set<Key>, edits: seq<Edit>)
    requires Underway(entries, clock, limit, start, learned, edits)
    ensures forall j, k :: 0 <= j < k < |edits| ==> edits[j].key != edits[k].key
  {
  }

  ghost predicate Learns(edits: seq<Edit>, key: Key) {
    exists k :: 0 <= k < |edits| && edits[k].LearnStale? && edits[k].key == key
  }

  /** When the counter runs short, a neighbor that the batch learned is unknown at its end. */
  lemma {:induction false} ShortLoses(entries: seq<Entry>, clock: nat, limit: nat, start: nat, learned: set<Key>, edits: seq<Edit>)
    returns (key: Key)
    requires Underway(entries, clock, limit, start, learned, edits)
    requires !Fits(entries, Reserve(entries, limit, start), edits)
    ensures Found(Applied(entries, clock, limit, edits).entries, key).None?
    ensures key in learned || Learns(edits, key)
    decreases |edits|
  {
    hide Reserve, Found, Cost, Ready;
    var m, rest := edits[0], edits[1..];
    if Cost(Found(entries, m.key), m) <= Reserve(entries, limit, start) {
      var next, later := UnderwayStep(entries, clock, limit, start, learned, edits);
      hide Underway, Applied;
      key := ShortLoses(next, later, limit, start, Learning(learned, m), rest);
      if Learns(rest, key) {
        var k :| 0 <= k < |rest| && rest[k].LearnStale? && rest[k].key == key;
        assert edits[k + 1].key == key;
      }
    } else {
      key := FirstLoss(entries, clock, limit, start, learned, edits);
    }
  }

  lemma FirstLoss(entries: seq<Entry>, clock: nat, limit: nat, start: nat, learned: set<Key>, edits: seq<Edit>)
    returns (key: Key)
    requires Underway(entries, clock, limit, start, learned, edits) && edits != []
    requires Cost(Found(entries, edits[0].key), edits[0]) > Reserve(entries, limit, start)
    ensures Found(Applied(entries, clock, limit, edits).entries, key).None? && key in learned
  {
    hide Reserve, Found, Ready, Proper, Learned;
    var m, rest := edits[0], edits[1..];
    assert m.LearnStale?;
    ReadyIsProper(entries, limit, edits);
    ReadyAfterLearn(entries, clock, limit, edits);
    assert m.key !in learned;
    LearnedSpares(entries, clock, limit, m.key, m.mac, start);
    var r := Learned(entries, clock, limit, m.key, m.mac);
    key :| key != m.key && Found(entries, key).Some? && Found(entries, key).value.used > start && Found(r.entries, key).None?;
    forall k | 0 <= k < |rest|
      ensures rest[k].key != key
    {
      assert rest[k] == edits[k + 1];
    }
    StaysUnknown(r.entries, r.clock, limit, rest, key);
  }

  /** A successful batch ends with every neighbor it learned if and only if the counter of places never
      runs short: it starts at the room, each neighbor that was new or replaceable takes a place for good,
      and each removed entry that was not replaceable gives one back. */
  lemma BatchKeepsExactly(entries: seq<Entry>, clock: nat, limit: nat, edits: seq<Edit>)
    requires Proper(entries, limit) && UsedBefore(entries, clock) && Admissible(entries, limit, edits)
    ensures (forall k :: 0 <= k < |edits| && edits[k].LearnStale? ==>
               Holds(Batch(entries, clock, limit, edits).entries, edits[k].key, edits[k].mac))
       <==> Fits(entries, Room(entries, limit), edits)
  {
    hide Applied, Admissible, Proper, Ready, Room, Scan, Fits;
    AdmissibleIsReady(entries, limit, edits);
    ReserveIsRoom(entries, limit, clock);
    assert Underway(entries, clock, limit, clock, {}, edits);
    var end := Batch(entries, clock, limit, edits).entries;
    if Fits(entries, Room(entries, limit), edits) {
      forall k | 0 <= k < |edits| && edits[k].LearnStale?
        ensures Holds(end, edits[k].key, edits[k].mac)
      {
        assert LearnStale(edits[k].key, edits[k].mac) in edits;
        SecureStays(entries, clock, limit, clock, {}, edits, edits[k].key, edits[k].mac);
        assert end[Scan(end, edits[k].key).value].mac == edits[k].mac;
      }
    } else {
      var key := ShortLoses(entries, clock, limit, clock, {}, edits);
      var k :| 0 <= k < |edits| && edits[k].LearnStale? && edits[k].key == key;
      assert !Holds(end, edits[k].key, edits[k].mac);
    }
  }

  /** Learning and removing keep the use counter ahead of every entry. */
  lemma UsedBeforeStays(entries: seq<Entry>, clock: nat, limit: nat, key: Key, mac: nat)
    requires UsedBefore(entries, clock)
    ensures UsedBefore(Learned(entries, clock, limit, key, mac).entries, Learned(entries, clock, limit, key, mac).clock)
    ensures UsedBefore(Cleared(entries, key), clock)
  {
    hide Scan, FirstVacant, OldestStale, UsableKey, UsableMac;
  }

  lemma {:induction false} AppliedUsedBefore(entries: seq<Entry>, clock: nat, limit: nat, edits: seq<Edit>)
    requires UsedBefore(entries, clock)
    ensures UsedBefore(Applied(entries, clock, limit, edits).entries, Applied(entries, clock, limit, edits).clock)
    decreases |edits|
  {
    hide UsedBefore, Learned, Cleared;
    if edits != [] {
      var m, rest := edits[0], edits[1..];
      if m.RemoveDynamic? {
        UsedBeforeStays(entries, clock, limit, m.key, 0);
        AppliedUsedBefore(Cleared(entries, m.key), clock, limit, rest);
      } else {
        UsedBeforeStays(entries, clock, limit, m.key, m.mac);
        var r := Learned(entries, clock, limit, m.key, m.mac);
        AppliedUsedBefore(r.entries, r.clock, limit, rest);
      }
    }
  }

  /** A success does not promise that every learned neighbor is still there: at a full table of one
      STALE entry, a batch that names a new neighbor and the old one in this order keeps only the old. */
  lemma BatchMayReplaceItself(held: Key, other: Key, mac: nat)
    requires UsableKey(held) && UsableKey(other) && held != other && UsableMac(mac)
    ensures var entries := [Entry(true, false, held, mac, Stale, 1)];
            var r := Batch(entries, 1, 1, [LearnStale(other, mac), LearnStale(held, mac)]);
            Proper(entries, 1) && r.ok && !Knows(r.entries, other) && Knows(r.entries, held)
  {
    hide UsableKey, UsableMac;
    var entries := [Entry(true, false, held, mac, Stale, 1)];
    var edits := [LearnStale(other, mac), LearnStale(held, mac)];
    assert entries[..0] == [] && Scan(entries, other) == None && Scan(entries, held) == Some(0);
    assert edits[..1] == [LearnStale(other, mac)] && edits[..1][..0] == [];
    assert Creating(entries, edits[..1]) == 1 && Creating(entries, edits) == 1;
    assert SupplyCount(entries) == 1;
    assert Admissible(entries, 1, edits);
    var first := Learned(entries, 1, 1, other, mac);
    assert FirstVacant(entries[1..]) == 0 && OldestStale(entries[..0]) == 0;
    assert first.entries == [Entry(true, false, other, mac, Stale, 3)];
    var now := first.entries;
    assert now[..0] == [] && Scan(now, held) == None;
    assert FirstVacant(now[1..]) == 0 && OldestStale(now[..0]) == 0;
    var second := Learned(now, 3, 1, held, mac);
    assert second.entries == [Entry(true, false, held, mac, Stale, 5)];
    assert edits[1..] == [LearnStale(held, mac)] && edits[1..][1..] == [];
    assert Applied(second.entries, 5, 1, edits[1..][1..]) == Outcome(second.entries, 5, true);
    assert Applied(now, 3, 1, edits[1..]) == Outcome(second.entries, 5, true);
    assert Batch(entries, 1, 1, edits) == Outcome(second.entries, 5, true);
    assert second.entries[0].key == held && second.entries[0].valid;
  }
}
