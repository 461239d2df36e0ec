/** The open-addressing index of the IPv6 Neighbor Cache (core/src/ip/ipv6_neighbor_cache.cpp) over its
    authoritative entry list.

    The spread function is a parameter: nothing below depends on it. Index sizes are powers of two, so
    the source's mask is a remainder. */
module NeighborIndex {
  import opened Options
  import opened NeighborEntries

  datatype Slot = Empty | Tombstone | Occupied(hash: nat, entry: nat)

  const MINIMUM_SLOTS: nat := 16

  // ---------------------------------------------------------------- probing

  function ProbeAt(hash: nat, p: nat, n: nat): (s: nat)
    requires n > 0
    ensures s < n
  {
    (hash + p) % n
  }

  /** The probe sequence visits every slot. */
  lemma ProbeReaches(hash: nat, s: nat, n: nat) returns (p: nat)
    requires s < n
    ensures p < n && ProbeAt(hash, p, n) == s
  {
    var home := hash % n;
    p := if s >= home then s - home else s - home + n;
    var k := hash / n + if s >= home then 0 else 1;
    assert hash + p == n * k + s;
    RemainderIs(hash + p, n, k, s);
  }

  lemma RemainderIs(x: nat, n: nat, k: nat, s: nat)
    requires s < n && x == n * k + s
    ensures x % n == s
  {
    var q, r := x / n, x % n;
    assert x == n * q + r;
    MultiplesApart(n, q, k);
  }

  lemma MultiplesApart(n: int, a: int, b: int)
    requires n >= 0
    ensures a > b ==> n * a >= n * b + n
    ensures a < b ==> n * b >= n * a + n
  {
    if a > b {
      Multiple(n, a - b);
      assert n * (a - b) == n * a - n * b;
    } else if a < b {
      Multiple(n, b - a);
      assert n * (b - a) == n * b - n * a;
    }
  }

  lemma {:induction false} Multiple(n: int, d: int)
    requires n >= 0 && d >= 1
    ensures n * d >= n
    decreases d
  {
    if d > 1 {
      Multiple(n, d - 1);
      assert n * d == n * (d - 1) + n;
    }
  }

  predicate Passable(index: seq<Slot>, hash: nat, p: nat)
    requires p <= |index|
  {
    forall q :: 0 <= q < p ==> !index[ProbeAt(hash, q, |index|)].Empty?
  }

  /** Probe `p` finds entry `e`, and no earlier probe would stop the search. */
  predicate Located(index: seq<Slot>, hash: nat, e: nat, p: nat) {
    && p < |index| && index[ProbeAt(hash, p, |index|)].Occupied?
    && index[ProbeAt(hash, p, |index|)].entry == e
    && Passable(index, hash, p)
  }

  ghost predicate Findable(index: seq<Slot>, hash: nat, e: nat) {
    exists p :: Located(index, hash, e, p)
  }

  // ---------------------------------------------------------------- the index as a relation

  /** Occupied slots describe valid entries, and no entry has two. */
  ghost predicate Sound(h: Key -> nat, entries: seq<Entry>, index: seq<Slot>) {
    && (forall s :: 0 <= s < |index| && index[s].Occupied? ==>
          index[s].entry < |entries| && entries[index[s].entry].valid && index[s].hash == h(entries[index[s].entry].key))
    && (forall s, t :: 0 <= s < |index| && 0 <= t < |index| && s != t && index[s].Occupied? && index[t].Occupied? ==>
          index[s].entry != index[t].entry)
  }

  /** Every valid entry, except possibly `out`, can be found. */
  ghost predicate Complete(h: Key -> nat, entries: seq<Entry>, index: seq<Slot>, out: int) {
    forall e :: 0 <= e < |entries| && entries[e].valid && e != out ==> Findable(index, h(entries[e].key), e)
  }

  ghost predicate Indexes(h: Key -> nat, entries: seq<Entry>, index: seq<Slot>) {
    DistinctKeys(entries) && Sound(h, entries, index) && Complete(h, entries, index, -1)
  }

  function OccupiedCount(index: seq<Slot>): nat {
    if index == [] then 0 else OccupiedCount(index[..|index| - 1]) + if index[|index| - 1].Occupied? then 1 else 0
  }

  lemma {:induction false} CountOfUpdate(index: seq<Slot>, s: nat, slot: Slot)
    requires s < |index|
    ensures OccupiedCount(index[s := slot])
         == OccupiedCount(index) - (if index[s].Occupied? then 1 else 0) + (if slot.Occupied? then 1 else 0)
    decreases |index|
  {
    var before := index[..|index| - 1];
    if s == |index| - 1 {
      assert index[s := slot][..|index| - 1] == before;
    } else {
      assert index[s := slot][..|index| - 1] == before[s := slot];
      CountOfUpdate(before, s, slot);
    }
  }

  lemma {:induction false} CountOfFull(index: seq<Slot>)
    ensures OccupiedCount(index) <= |index|
    ensures OccupiedCount(index) == |index| <==> forall s :: 0 <= s < |index| ==> index[s].Occupied?
    decreases |index|
  {
    if index != [] {
      var before := index[..|index| - 1];
      CountOfFull(before);
      assert forall s :: 0 <= s < |before| ==> before[s] == index[s];
    }
  }

  // ---------------------------------------------------------------- changes of one slot

  /** Filling a slot that holds no entry: other entries stay findable. */
  lemma FindableAfterFill(index: seq<Slot>, hash: nat, e: nat, s: nat, slot: Slot)
    requires Findable(index, hash, e) && s < |index| && !slot.Empty?
    requires index[s].Occupied? ==> index[s].entry != e
    ensures Findable(index[s := slot], hash, e)
  {
    hide ProbeAt;
    var p :| Located(index, hash, e, p);
    assert Located(index[s := slot], hash, e, p);
  }

  /** A new entry is put where its probe sequence first allows. */
  lemma FilledComplete(h: Key -> nat, entries: seq<Entry>, index: seq<Slot>, e: nat, p: nat)
    requires DistinctKeys(entries) && Sound(h, entries, index) && Complete(h, entries, index, e)
    requires e < |entries| && entries[e].valid && p < |index| && Passable(index, h(entries[e].key), p)
    requires forall s :: 0 <= s < |index| && index[s].Occupied? ==> index[s].entry != e
    requires !index[ProbeAt(h(entries[e].key), p, |index|)].Occupied?
    ensures Indexes(h, entries, index[ProbeAt(h(entries[e].key), p, |index|) := Occupied(h(entries[e].key), e)])
  {
    hide ProbeAt;
    var s, slot := ProbeAt(h(entries[e].key), p, |index|), Occupied(h(entries[e].key), e);
    var index' := index[s := slot];
    assert Located(index', h(entries[e].key), e, p);
    hide Located, Findable;
    forall f | 0 <= f < |entries| && entries[f].valid
      ensures Findable(index', h(entries[f].key), f)
    {
      if f != e {
        FindableAfterFill(index, h(entries[f].key), f, s, slot);
      } else {
        LocatedIsFindable(index', h(entries[e].key), e, p);
      }
    }
  }

  lemma LocatedIsFindable(index: seq<Slot>, hash: nat, e: nat, p: nat)
    requires Located(index, hash, e, p)
    ensures Findable(index, hash, e)
  {
  }

  /** Burying the slot of an entry and clearing the entry keeps the rest indexed. */
  lemma BuriedIndexes(h: Key -> nat, entries: seq<Entry>, index: seq<Slot>, e: nat, s: nat)
    requires Indexes(h, entries, index) && e < |entries| && s < |index| && index[s].Occupied? && index[s].entry == e
    ensures Indexes(h, entries[e := BLANK], index[s := Tombstone])
  {
    hide ProbeAt;
    var entries', index' := entries[e := BLANK], index[s := Tombstone];
    forall f | 0 <= f < |entries'| && entries'[f].valid
      ensures Findable(index', h(entries'[f].key), f)
    {
      FindableAfterFill(index, h(entries[f].key), f, s, Tombstone);
    }
  }

  /** The entries may change while validity and keys stay. */
  lemma SameKeysIndexed(h: Key -> nat, entries: seq<Entry>, entries': seq<Entry>, index: seq<Slot>)
    requires Indexes(h, entries, index) && |entries'| == |entries|
    requires forall i :: 0 <= i < |entries| ==>
               entries'[i].valid == entries[i].valid && (entries[i].valid ==> entries'[i].key == entries[i].key)
    ensures Indexes(h, entries', index)
  {
    hide Findable;
  }

  /** A list that is indexed apart from its last entry or from an invalid one. */
  lemma IndexedPrefix(h: Key -> nat, entries: seq<Entry>, k: nat, index: seq<Slot>)
    requires DistinctKeys(entries) && k < |entries| && Indexes(h, entries[..k], index)
    ensures DistinctKeys(entries[..k + 1]) && Sound(h, entries[..k + 1], index) && Complete(h, entries[..k + 1], index, k)
    ensures !entries[k].valid ==> Indexes(h, entries[..k + 1], index)
    ensures forall s :: 0 <= s < |index| && index[s].Occupied? ==> index[s].entry != k
  {
    hide Findable;
    var before, now := entries[..k], entries[..k + 1];
    assert forall i :: 0 <= i < k ==> now[i] == before[i];
  }

  /** Without a free slot on its way, every slot is taken. */
  lemma NoRoom(index: seq<Slot>, hash: nat)
    requires forall p :: 0 <= p < |index| ==> index[ProbeAt(hash, p, |index|)].Occupied?
    ensures OccupiedCount(index) == |index|
  {
    hide ProbeAt;
    forall s | 0 <= s < |index|
      ensures index[s].Occupied?
    {
      var p := ProbeReaches(hash, s, |index|);
    }
    CountOfFull(index);
  }

  class NeighborTable {
    const hash: Key -> nat
    var entries: seq<Entry>
    var index: seq<Slot>
    var indexed: nat
    const limit: nat
    var clock: nat

    ghost predicate Valid()
      reads this
    {
      && Indexes(hash, entries, index)
      && indexed == OccupiedCount(index) == ValidCount(entries) && 2 * indexed <= |index|
    }

    constructor (hash: Key -> nat, limit: nat)
      ensures Settled() && entries == [] && this.hash == hash && this.limit == limit
    {
      this.hash, this.limit := hash, limit;
      entries, index, indexed, clock := [], [], 0, 0;
    }

    /** The index mirrors the entries, and these are in order themselves. */
    ghost predicate Settled()
      reads this
    {
      Valid() && Proper(entries, limit)
    }

    /** The index finds a key exactly when a scan of the valid entries does. */
    method Lookup(key: Key) returns (found: Option<nat>)
      requires Valid()
      ensures found == Scan(entries, key)
    {
      hide ProbeAt, Scan, Findable;
      var scan := Scan(entries, key);
      if |index| == 0 {
        if scan.Some? {
          FindableNonempty(index, hash(key), scan.value);
        }
        return None;
      }
      ghost var at := |index|;
      if scan.Some? {
        at := ProbeOf(index, hash(key), scan.value);
      }
      var p := 0;
      while p < |index|
        invariant p <= |index| && (scan.Some? ==> p <= at && Located(index, hash(key), scan.value, at))
      {
        var slot := index[ProbeAt(hash(key), p, |index|)];
        if slot.Empty? {
          return None;
        }
        if slot.Occupied? && slot.hash == hash(key) && slot.entry < |entries| {
          var candidate := entries[slot.entry];
          if candidate.valid && candidate.key == key {
            return Some(slot.entry);
          }
        }
        p := p + 1;
      }
      return None;
    }
  
    /** Entry `e` was just made valid and has no slot yet. */
    ghost predicate Lacks(e: nat)
      reads this
    {
      && e < |entries| && entries[e].valid && DistinctKeys(entries)
      && Sound(hash, entries, index) && Complete(hash, entries, index, e)
      && (forall s :: 0 <= s < |index| && index[s].Occupied? ==> index[s].entry != e)
      && indexed == OccupiedCount(index) && ValidCount(entries) == indexed + 1
    }

    /** Gives entry `e` a slot: the first tombstone on its way, or the first empty slot. */
    method Insert(e: nat) returns (ok: bool)
      requires Lacks(e) && 2 * (indexed + 1) <= |index|
      modifies this`index, this`indexed
      ensures ok && Valid()
    {
      hide ProbeAt, Findable, OccupiedCount, ValidCount, Complete, DistinctKeys;
      var code := hash(entries[e].key);
      var tombstone: Option<nat> := None;
      var p := 0;
      while p < |index| && !index[ProbeAt(code, p, |index|)].Empty?
        invariant p <= |index| && Passable(index, code, p)
        invariant tombstone.Some? ==>
                    tombstone.value < p && index[ProbeAt(code, tombstone.value, |index|)].Tombstone?
        invariant tombstone.None? ==> forall q :: 0 <= q < p ==> index[ProbeAt(code, q, |index|)].Occupied?
      {
        if index[ProbeAt(code, p, |index|)].Tombstone? && tombstone.None? {
          tombstone := Some(p);
        }
        p := p + 1;
      }
      if tombstone.None? && p == |index| {
        NoRoom(index, code);
        assert false;
      }
      var at := if tombstone.Some? then tombstone.value else p;
      FilledComplete(hash, entries, index, e, at);
      CountOfUpdate(index, ProbeAt(code, at, |index|), Occupied(code, e));
      index := index[ProbeAt(code, at, |index|) := Occupied(code, e)];
      indexed := indexed + 1;
      return true;
    }

    /** Clears a valid entry and buries its slot. */
    method EraseEntry(e: nat)
      requires Valid() && e < |entries|
      modifies this`entries, this`index, this`indexed
      ensures Valid() && entries == if old(entries)[e].valid then old(entries)[e := BLANK] else old(entries)
      ensures |index| == |old(index)| && indexed <= old(indexed)
    {
      hide ProbeAt, Findable, OccupiedCount, ValidCount, Scan;
      if !entries[e].valid {
        return;
      }
      var code := hash(entries[e].key);
      ghost var at := ProbeOf(index, code, e);
      var p := 0;
      while index[ProbeAt(code, p, |index|)] != Occupied(code, e)
        invariant p <= at && Located(index, code, e, at)
        decreases at - p
      {
        p := p + 1;
      }
      var s := ProbeAt(code, p, |index|);
      BuriedIndexes(hash, entries, index, e, s);
      CountOfUpdate(index, s, Tombstone);
      ValidOfUpdate(entries, e, BLANK);
      index := index[s := Tombstone];
      indexed := indexed - 1;
      entries := entries[e := BLANK];
    }

    /** Indexes all entries afresh in `target` slots. */
    method Rebuilt(target: nat) returns (slots: seq<Slot>)
      requires Valid() && 2 * indexed <= target && target > 0
      ensures |slots| == target && Indexes(hash, entries, slots) && OccupiedCount(slots) == ValidCount(entries)
    {
      hide ProbeAt, Findable, OccupiedCount, ValidCount, Complete, DistinctKeys, Sound;
      slots := seq(target, i => Empty);
      EmptyIndex(hash, slots);
      for k := 0 to |entries|
        invariant |slots| == target && Indexes(hash, entries[..k], slots)
        invariant OccupiedCount(slots) == ValidCount(entries[..k])
        invariant forall s :: 0 <= s < |slots| ==> !slots[s].Tombstone?
      {
        IndexedPrefix(hash, entries, k, slots);
        ValidOfStep(entries, k);
        ValidOfPrefix(entries, k + 1);
        if entries[k].valid {
          var code := hash(entries[k].key);
          var p := 0;
          while p < target && !slots[ProbeAt(code, p, target)].Empty?
            invariant p <= target && Passable(slots, code, p)
            invariant forall q :: 0 <= q < p ==> slots[ProbeAt(code, q, target)].Occupied?
          {
            p := p + 1;
          }
          if p == target {
            NoRoom(slots, code);
            assert false;
          }
          FilledComplete(hash, entries[..k + 1], slots, k, p);
          CountOfUpdate(slots, ProbeAt(code, p, target), Occupied(code, k));
          slots := slots[ProbeAt(code, p, target) := Occupied(code, k)];
        }
      }
      assert entries[..|entries|] == entries;
    }

    /** Grows or cleans the index so that `active` entries fill at most half of it. */
    method EnsureCapacity(active: nat)
      requires Valid()
      modifies this`index
      ensures Valid() && |index| >= 2 * active && |index| > 0
    {
      hide ProbeAt, Findable, OccupiedCount, ValidCount, Indexes;
      var target := if |index| == 0 then MINIMUM_SLOTS else |index|;
      while active > target / 2
        invariant target >= |index| && target >= 1
        decreases 2 * active + 1 - target
      {
        target := target * 2;
      }
      var used := 0;
      for s := 0 to |index|
        invariant used <= s && (used == s ==> forall t :: 0 <= t < s ==> !index[t].Empty?)
      {
        if !index[s].Empty? {
          used := used + 1;
        }
      }
      if target == |index| && used < target {
        return;
      }
      index := Rebuilt(target);
    }
  
    /** Finds a place for a new entry; its index stays as large as it was made before. */
    method Allocate() returns (place: Option<nat>)
      requires Settled()
      modifies this`entries, this`index, this`indexed
      ensures Settled() && |index| == |old(index)| && indexed <= old(indexed)
      ensures place.None? <==> Allocated(old(entries), limit).None?
      ensures place.None? ==> entries == old(entries)
      ensures place.Some? ==> Allocated(old(entries), limit) == Some((entries, place.value))
    {
      hide Indexes, OccupiedCount, ValidCount, FirstVacant, OldestStale;
      var i := FirstVacant(entries);
      if i < |entries| {
        assert entries == entries[i := BLANK];
        return Some(i);
      }
      if |entries| < limit {
        BlankAppended(hash, entries, index);
        entries := entries + [BLANK];
        return Some(|entries| - 1);
      }
      var k := OldestStale(entries);
      if k == |entries| {
        return None;
      }
      EraseEntry(k);
      return Some(k);
    }

    /** Turns a vacant place into an entry of the key. */
    method Occupy(i: nat, key: Key)
      requires Settled() && i < |entries| && !entries[i].valid && 2 * (indexed + 1) <= |index|
      requires Scan(entries, key).None?
      modifies this`entries, this`index, this`indexed
      ensures Settled() && entries == old(entries)[i := Entry(true, false, key, 0, Incomplete, 0)]
    {
      hide OccupiedCount, ValidCount, Findable, Scan;
      var e := Entry(true, false, key, 0, Incomplete, 0);
      ValidOfUpdate(entries, i, e);
      entries := entries[i := e];
      var ok := Insert(i);
    }

    /** Changes what is known about an entry. */
    method Update(i: nat, e: Entry)
      requires Settled() && i < |entries| && entries[i].valid && !entries[i].fixed && !e.fixed
      requires e.valid && e.key == entries[i].key
      modifies this`entries
      ensures Settled() && entries == old(entries)[i := e]
    {
      SameKeysIndexed(hash, entries, entries[i := e], index);
      ValidOfUpdate(entries, i, e);
      hide Indexes, OccupiedCount, ValidCount;
      entries := entries[i := e];
    }

    /** Learns a neighbor; the outcome is that of the entry list alone. */
    method Learn(key: Key, mac: nat) returns (ok: bool)
      requires Settled()
      modifies this
      ensures Settled() && Outcome(entries, clock, ok) == Learned(old(entries), old(clock), limit, key, mac)
    {
      hide Indexes, OccupiedCount, ValidCount, Scan, Allocated, Proper;
      if !UsableKey(key) || !UsableMac(mac) {
        return false;
      }
      hide UsableKey, UsableMac;
      var found := Lookup(key);
      if found.Some? && entries[found.value].fixed {
        return entries[found.value].mac == mac;
      }
      if found.None? {
        EnsureCapacity(indexed + 1);
        PlaceOf(entries, limit, key);
        var place := Allocate();
        if place.None? {
          return false;
        }
        Occupy(place.value, key);
        found := place;
      }
      var (e, c) := Refreshed(entries[found.value], mac, clock);
      Update(found.value, e);
      clock := c;
      return true;
    }

    /** Forgets every dynamic neighbor that passes both filters, gives back the vacant end of the list
        and counts what it removed. */
    method ClearMatching(interface: Option<nat>, address: Option<nat>) returns (removed: nat)
      requires Settled()
      modifies this`entries, this`index, this`indexed
      ensures Settled() && entries == ClearedWhere(old(entries), interface, address)
      ensures removed == SelectedCount(old(entries), interface, address)
    {
      hide Indexes, OccupiedCount, ValidCount, SelectedCount, Selected;
      ghost var start := entries;
      removed := 0;
      NothingSelected(entries, interface, address);
      for k := 0 to |entries|
        invariant Settled() && |entries| == |start|
        invariant forall i :: 0 <= i < k ==> entries[i] == if Selected(start[i], interface, address) then BLANK else start[i]
        invariant forall i :: k <= i < |start| ==> entries[i] == start[i]
        invariant removed == SelectedCount(start[..k], interface, address)
      {
        SelectedStep(start, k, interface, address);
        if Selected(entries[k], interface, address) {
          SelectedIsValid(entries[k], interface, address);
          EraseEntry(k);
          removed := removed + 1;
        }
      }
      assert start[..|start|] == start;
      assert entries == Blanked(start, interface, address);
      TrimTail();
    }

    /** Forgets a dynamic neighbor. */
    method ClearDynamic(key: Key)
      requires Settled()
      modifies this`entries, this`index, this`indexed
      ensures Settled() && entries == Cleared(old(entries), key)
    {
      hide Indexes, OccupiedCount, ValidCount, Scan, ClearedWhere, Cleared;
      ClearedByKey(entries, limit, key);
      var removed := ClearMatching(Some(key.interface), Some(key.address));
    }

    method TrimTail()
      requires Settled()
      modifies this`entries
      ensures Settled() && entries == Trimmed(old(entries))
    {
      hide Indexes, OccupiedCount, ValidCount;
      ghost var start := entries;
      while |entries| > 0 && !entries[|entries| - 1].valid
        invariant Settled() && Trimmed(entries) == Trimmed(start)
        decreases |entries|
      {
        TailDropped(hash, entries, index);
        entries := entries[..|entries| - 1];
      }
    }

    /** Applies a batch; a refusal leaves the entries as they were. */
    method ApplyBatch(edits: seq<Edit>) returns (ok: bool)
      requires Settled()
      modifies this
      ensures Settled() && Outcome(entries, clock, ok) == Batch(old(entries), old(clock), limit, edits)
      ensures !ok ==> entries == old(entries)
    {
      hide Indexes, OccupiedCount, ValidCount, Scan, Learned, Cleared, Proper, Room;
      BatchIsAllOrNothing(entries, clock, limit, edits);
      if !Admissible(entries, limit, edits) {
        return false;
      }
      hide Admissible;
      var creating := Creating(entries, edits);
      if creating != 0 {
        EnsureCapacity(indexed + creating);
      }
      for k := 0 to |edits|
        invariant Settled()
        invariant Applied(old(entries), old(clock), limit, edits) == Applied(entries, clock, limit, edits[k..])
      {
        assert edits[k..][0] == edits[k] && edits[k..][1..] == edits[k + 1..];
        if edits[k].RemoveDynamic? {
          ClearDynamic(edits[k].key);
        } else {
          var learned := Learn(edits[k].key, edits[k].mac);
          if !learned {
            return false;
          }
        }
      }
      assert edits[|edits|..] == [];
      return true;
    }
  }

  lemma NothingSelected(entries: seq<Entry>, interface: Option<nat>, address: Option<nat>)
    ensures SelectedCount(entries[..0], interface, address) == 0
  {
  }

  lemma SelectedStep(entries: seq<Entry>, k: nat, interface: Option<nat>, address: Option<nat>)
    requires k < |entries|
    ensures SelectedCount(entries[..k + 1], interface, address)
         == SelectedCount(entries[..k], interface, address) + if Selected(entries[k], interface, address) then 1 else 0
  {
    assert entries[..k + 1][..k] == entries[..k];
  }

  lemma SelectedIsValid(e: Entry, interface: Option<nat>, address: Option<nat>)
    ensures Selected(e, interface, address) ==> e.valid
  {
  }

  lemma BlankAppended(h: Key -> nat, entries: seq<Entry>, index: seq<Slot>)
    requires Indexes(h, entries, index)
    ensures Indexes(h, entries + [BLANK], index) && ValidCount(entries + [BLANK]) == ValidCount(entries)
  {
    hide Findable;
    var more := entries + [BLANK];
    assert more[..|more| - 1] == entries;
    assert forall i :: 0 <= i < |entries| ==> more[i] == entries[i];
  }

  lemma TailDropped(h: Key -> nat, entries: seq<Entry>, index: seq<Slot>)
    requires Indexes(h, entries, index) && entries != [] && !entries[|entries| - 1].valid
    ensures Indexes(h, entries[..|entries| - 1], index) && ValidCount(entries[..|entries| - 1]) == ValidCount(entries)
  {
    hide Findable;
  }

  /** A place that was allocated is vacant, and the key still unknown. */
  lemma PlaceOf(entries: seq<Entry>, limit: nat, key: Key)
    requires Proper(entries, limit) && Scan(entries, key).None?
    ensures Allocated(entries, limit).Some? ==>
              var (entries', i) := Allocated(entries, limit).value;
              i < |entries'| && entries'[i] == BLANK && Scan(entries', key).None?
  {
    hide Scan, Allocated, Room;
    AllocatedExactly(entries, limit);
    if Allocated(entries, limit).Some? {
      var (entries', i) := Allocated(entries, limit).value;
      assert forall j :: 0 <= j < |entries'| && j != i ==> entries'[j] == entries[j];
      assert forall j :: 0 <= j < |entries'| && entries'[j].valid ==> entries'[j].key != key;
    }
  }

  lemma EmptyIndex(h: Key -> nat, index: seq<Slot>)
    requires forall s :: 0 <= s < |index| ==> index[s].Empty?
    ensures Indexes(h, [], index) && OccupiedCount(index) == 0 && ValidCount([]) == 0
    decreases |index|
  {
    if index != [] {
      EmptyIndex(h, index[..|index| - 1]);
    }
  }

  lemma FindableNonempty(index: seq<Slot>, hash: nat, e: nat)
    requires Findable(index, hash, e)
    ensures |index| > 0
  {
  }

  lemma ProbeOf(index: seq<Slot>, hash: nat, e: nat) returns (p: nat)
    requires Findable(index, hash, e)
    ensures Located(index, hash, e, p)
  {
    p :| Located(index, hash, e, p);
  }
}
