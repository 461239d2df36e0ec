/** The incremental project store of the web application (apps/web/src/persistence.ts).

    A project is kept as one head record and one record per object; a save writes the objects whose
    fingerprint changed, deletes those that the previous head listed and the project no longer has,
    and replaces the head, all in one transaction. The five object stores are numbered, and the
    database is the value of its stores between transactions. */
module Persistence {
  import opened Options

  const KINDS: nat := 5

  datatype Object = Object(id: string, body: string)

  /** `parts[k]` are the objects of store `k`; `meta` stands for name, notes, layout and the like. */
  datatype Project = Project(projectId: string, meta: string, parts: seq<seq<Object>>)

  datatype Head = Head(projectId: string, meta: string, ids: seq<seq<string>>)

  datatype Stored = Stored(revision: nat, fingerprint: string, value: Object)

  datatype StoreKey = StoreKey(kind: nat, key: string)

  type Objects = map<StoreKey, Stored>

  datatype Database = Database(heads: map<string, Head>, objects: Objects, active: Option<string>)

  // ---------------------------------------------------------------- keys

  predicate NulFree(s: string) {
    forall i :: 0 <= i < |s| ==> s[i] != '\0'
  }

  function Key(projectId: string, objectId: string): string {
    projectId + ['\0'] + objectId
  }

  /** Position of the first NUL, or the length. */
  function FirstNul(s: string): (i: nat)
    ensures i <= |s| && (i < |s| ==> s[i] == '\0') && forall j :: 0 <= j < i ==> s[j] != '\0'
  {
    if s == [] || s[0] == '\0' then 0 else 1 + FirstNul(s[1..])
  }

  lemma {:induction false} NulEndsProjectId(projectId: string, objectId: string)
    requires NulFree(projectId)
    ensures FirstNul(Key(projectId, objectId)) == |projectId|
    decreases |projectId|
  {
    if projectId != [] {
      assert Key(projectId, objectId)[1..] == Key(projectId[1..], objectId);
      NulEndsProjectId(projectId[1..], objectId);
    }
  }

  /** The composite key is injective for project ids without NUL. */
  lemma KeyInjective(p: string, o: string, q: string, u: string)
    requires NulFree(p) && NulFree(q) && Key(p, o) == Key(q, u)
    ensures p == q && o == u
  {
    NulEndsProjectId(p, o);
    NulEndsProjectId(q, u);
    assert Key(p, o)[..|p|] == p && Key(q, u)[..|q|] == q;
    assert Key(p, o)[|p| + 1..] == o && Key(q, u)[|q| + 1..] == u;
  }

  // ---------------------------------------------------------------- saving

  function HeadOf(p: Project): (h: Head)
    ensures |h.ids| == |p.parts|
    ensures forall k :: 0 <= k < |p.parts| ==> |h.ids[k]| == |p.parts[k]|
    ensures forall k, i :: 0 <= k < |p.parts| && 0 <= i < |p.parts[k]| ==> h.ids[k][i] == p.parts[k][i].id
  {
    Head(p.projectId, p.meta, seq(|p.parts|, k requires 0 <= k < |p.parts| => Ids(p.parts[k])))
  }

  function Ids(objects: seq<Object>): (ids: seq<string>)
    ensures |ids| == |objects| && forall i :: 0 <= i < |ids| ==> ids[i] == objects[i].id
  {
    seq(|objects|, i requires 0 <= i < |objects| => objects[i].id)
  }

  function Get(objects: Objects, key: StoreKey): Option<Stored> {
    if key in objects then Some(objects[key]) else None
  }

  /** Writes an object unless the record read before has its fingerprint. */
  function PutOne(objects: Objects, before: Objects, key: StoreKey, o: Object, json: Object -> string): Objects {
    if key in before && before[key].fingerprint == json(o) then objects
    else objects[key := Stored((if key in before then before[key].revision else 0) + 1, json(o), o)]
  }

  function PutAll(
    objects: Objects, before: Objects, projectId: string, kind: nat, values: seq<Object>, json: Object -> string): Objects
    decreases |values|
  {
    if values == [] then objects
    else
      var rest, o := PutAll(objects, before, projectId, kind, values[..|values| - 1], json), values[|values| - 1];
      PutOne(rest, before, StoreKey(kind, Key(projectId, o.id)), o, json)
  }

  /** How many objects differ from what was read. */
  function Changes(before: Objects, projectId: string, kind: nat, values: seq<Object>, json: Object -> string): nat
    decreases |values|
  {
    if values == [] then 0
    else
      var o := values[|values| - 1];
      var key := StoreKey(kind, Key(projectId, o.id));
      Changes(before, projectId, kind, values[..|values| - 1], json)
      + if key in before && before[key].fingerprint == json(o) then 0 else 1
  }

  function DropOne(objects: Objects, projectId: string, kind: nat, id: string, live: seq<string>): Objects {
    if id in live then objects else objects - {StoreKey(kind, Key(projectId, id))}
  }

  function DropAll(objects: Objects, projectId: string, kind: nat, ids: seq<string>, live: seq<string>): Objects
    decreases |ids|
  {
    if ids == [] then objects
    else DropOne(DropAll(objects, projectId, kind, ids[..|ids| - 1], live), projectId, kind, ids[|ids| - 1], live)
  }

  /** The objects of the first `n` stores are written. */
  function PutKinds(objects: Objects, before: Objects, p: Project, n: nat, json: Object -> string): Objects
    requires n <= |p.parts|
  {
    if n == 0 then objects
    else PutAll(PutKinds(objects, before, p, n - 1, json), before, p.projectId, n - 1, p.parts[n - 1], json)
  }

  function DropKinds(objects: Objects, previous: Option<Head>, p: Project, n: nat): Objects
    requires n <= |p.parts| && (previous.Some? ==> |previous.value.ids| == |p.parts|)
  {
    if n == 0 then objects
    else
      DropAll(DropKinds(objects, previous, p, n - 1), p.projectId, n - 1,
              if previous.Some? then previous.value.ids[n - 1] else [], Ids(p.parts[n - 1]))
  }

  function PreviousHead(db: Database, projectId: string): Option<Head> {
    if projectId in db.heads then Some(db.heads[projectId]) else None
  }

  ghost predicate WellFormed(p: Project) {
    && |p.parts| == KINDS && NulFree(p.projectId)
    && forall k, i, j :: 0 <= k < |p.parts| && 0 <= i < j < |p.parts[k]| ==> p.parts[k][i].id != p.parts[k][j].id
  }

  ghost predicate SoundHeads(db: Database) {
    forall pid :: pid in db.heads ==> |db.heads[pid].ids| == KINDS
  }

  /** The write transaction, with what was read before it. */
  function Written(db: Database, read: Database, p: Project, json: Object -> string): Database
    requires |p.parts| == KINDS
    requires p.projectId in read.heads ==> |read.heads[p.projectId].ids| == KINDS
  {
    var put := PutKinds(db.objects, read.objects, p, KINDS, json);
    Database(db.heads[p.projectId := HeadOf(p)], DropKinds(put, PreviousHead(read, p.projectId), p, KINDS), Some(p.projectId))
  }

  // ---------------------------------------------------------------- what the store means

  /** The object of a store that has this key. */
  function Hit(values: seq<Object>, projectId: string, key: string): (r: Option<Object>)
    ensures r.Some? ==> r.value in values && Key(projectId, r.value.id) == key
    ensures r.None? ==> forall i :: 0 <= i < |values| ==> Key(projectId, values[i].id) != key
    decreases |values|
  {
    if values == [] then None
    else if Key(projectId, values[|values| - 1].id) == key then Some(values[|values| - 1])
    else Hit(values[..|values| - 1], projectId, key)
  }

  /** Whole-project storage: every project under its id. */
  type Library = map<string, Project>

  /** The object that a library has for a key. */
  function Expected(library: Library, key: StoreKey): Option<Object> {
    var n := FirstNul(key.key);
    var pid := key.key[..n];
    if n < |key.key| && pid in library && key.kind < |library[pid].parts| then Hit(library[pid].parts[key.kind], pid, key.key)
    else None
  }

  /** The record is the object with its fingerprint. */
  predicate Records(r: Option<Stored>, o: Option<Object>, json: Object -> string) {
    r.Some? == o.Some? && (r.Some? ==> r.value.value == o.value && r.value.fingerprint == json(o.value))
  }

  /** The store holds exactly the projects of the library: their heads, their objects with their values,
      and no other record. */
  ghost predicate Represents(db: Database, library: Library, json: Object -> string) {
    && db.heads.Keys == library.Keys
    && (forall pid :: pid in library ==>
          WellFormed(library[pid]) && library[pid].projectId == pid && db.heads[pid] == HeadOf(library[pid]))
    && (forall key :: Records(Get(db.objects, key), Expected(library, key), json))
  }

  ghost predicate Injective(json: Object -> string) {
    forall a, b :: json(a) == json(b) ==> a == b
  }

  // ---------------------------------------------------------------- what a save does

  /** The record of a key after the objects of one store were written. */
  function AfterPut(kept: Option<Stored>, before: Option<Stored>, hit: Option<Object>, json: Object -> string): Option<Stored> {
    if hit.None? || (before.Some? && before.value.fingerprint == json(hit.value)) then kept
    else Some(Stored((if before.Some? then before.value.revision else 0) + 1, json(hit.value), hit.value))
  }

  lemma {:induction false} PutAllGet(
    objects: Objects, before: Objects, projectId: string, kind: nat, values: seq<Object>, json: Object -> string, key: StoreKey)
    requires forall i, j :: 0 <= i < j < |values| ==> values[i].id != values[j].id
    ensures Get(PutAll(objects, before, projectId, kind, values, json), key) ==
              if key.kind != kind then Get(objects, key)
              else AfterPut(Get(objects, key), Get(before, key), Hit(values, projectId, key.key), json)
    decreases |values|
  {
    if values != [] {
      var rest, o := values[..|values| - 1], values[|values| - 1];
      PutAllGet(objects, before, projectId, kind, rest, json, key);
      if key == StoreKey(kind, Key(projectId, o.id)) {
        assert Hit(rest, projectId, key.key).None? by {
          forall i | 0 <= i < |rest|
            ensures Key(projectId, rest[i].id) != key.key
          {
            SameProjectKeys(projectId, rest[i].id, o.id);
          }
          NoHit(rest, projectId, key.key);
        }
      }
    }
  }

  lemma NoHit(values: seq<Object>, projectId: string, key: string)
    requires forall i :: 0 <= i < |values| ==> Key(projectId, values[i].id) != key
    ensures Hit(values, projectId, key).None?
  {
  }

  lemma SameProjectKeys(projectId: string, a: string, b: string)
    ensures Key(projectId, a) == Key(projectId, b) ==> a == b
  {
    assert Key(projectId, a)[|projectId| + 1..] == a;
    assert Key(projectId, b)[|projectId| + 1..] == b;
  }

  lemma {:induction false} DropAllGet(objects: Objects, projectId: string, kind: nat, ids: seq<string>, live: seq<string>, key: StoreKey)
    ensures Get(DropAll(objects, projectId, kind, ids, live), key) ==
              if key.kind == kind && Dropped(projectId, ids, live, key.key) then None else Get(objects, key)
    decreases |ids|
  {
    if ids != [] {
      var rest := ids[..|ids| - 1];
      DropAllGet(objects, projectId, kind, rest, live, key);
      assert forall i :: 0 <= i < |rest| ==> rest[i] == ids[i];
    }
  }

  /** The key is that of an id that was listed and is not live. */
  ghost predicate Dropped(projectId: string, ids: seq<string>, live: seq<string>, key: string) {
    exists i :: 0 <= i < |ids| && ids[i] !in live && key == Key(projectId, ids[i])
  }

  lemma {:induction false} PutKindsGet(objects: Objects, before: Objects, p: Project, n: nat, json: Object -> string, key: StoreKey)
    requires WellFormed(p) && n <= |p.parts|
    ensures Get(PutKinds(objects, before, p, n, json), key) ==
              if key.kind >= n then Get(objects, key)
              else AfterPut(Get(objects, key), Get(before, key), Hit(p.parts[key.kind], p.projectId, key.key), json)
    decreases n
  {
    if n > 0 {
      hide Key, AfterPut, Hit, PutAll, Get;
      PutKindsGet(objects, before, p, n - 1, json, key);
      PutAllGet(PutKinds(objects, before, p, n - 1, json), before, p.projectId, n - 1, p.parts[n - 1], json, key);
    }
  }

  ghost predicate DroppedBy(previous: Option<Head>, p: Project, key: StoreKey)
    requires key.kind < |p.parts| && (previous.Some? ==> |previous.value.ids| == |p.parts|)
  {
    previous.Some? && Dropped(p.projectId, previous.value.ids[key.kind], Ids(p.parts[key.kind]), key.key)
  }

  lemma {:induction false} DropKindsGet(objects: Objects, previous: Option<Head>, p: Project, n: nat, key: StoreKey)
    requires n <= |p.parts| && (previous.Some? ==> |previous.value.ids| == |p.parts|)
    ensures Get(DropKinds(objects, previous, p, n), key) ==
              if key.kind < n && DroppedBy(previous, p, key) then None else Get(objects, key)
    decreases n
  {
    if n > 0 {
      hide Key, DropAll, Get, Ids;
      DropKindsGet(objects, previous, p, n - 1, key);
      var ids := if previous.Some? then previous.value.ids[n - 1] else [];
      DropAllGet(DropKinds(objects, previous, p, n - 1), p.projectId, n - 1, ids, Ids(p.parts[n - 1]), key);
    }
  }

  /** The record of a key after a save whose reads may be older than its write. */
  lemma WrittenGet(db: Database, read: Database, p: Project, json: Object -> string, key: StoreKey)
    requires WellFormed(p) && SoundHeads(read)
    ensures Get(Written(db, read, p, json).objects, key) ==
              if key.kind >= KINDS then Get(db.objects, key)
              else if DroppedBy(PreviousHead(read, p.projectId), p, key) then None
              else AfterPut(Get(db.objects, key), Get(read.objects, key), Hit(p.parts[key.kind], p.projectId, key.key), json)
  {
    hide Get, AfterPut, Hit, DroppedBy, PutKinds, DropKinds;
    PutKindsGet(db.objects, read.objects, p, KINDS, json, key);
    DropKindsGet(PutKinds(db.objects, read.objects, p, KINDS, json), PreviousHead(read, p.projectId), p, KINDS, key);
  }

  /** Keys of another project are neither written nor deleted. */
  lemma OtherProject(p: Project, previous: Option<Head>, key: StoreKey)
    requires WellFormed(p) && key.kind < KINDS && (previous.Some? ==> |previous.value.ids| == |p.parts|)
    requires FirstNul(key.key) == |key.key| || key.key[..FirstNul(key.key)] != p.projectId
    ensures Hit(p.parts[key.kind], p.projectId, key.key).None? && !DroppedBy(previous, p, key)
  {
    forall id: string
      ensures Key(p.projectId, id) != key.key
    {
      NulEndsProjectId(p.projectId, id);
      assert Key(p.projectId, id)[..|p.projectId|] == p.projectId;
    }
    hide Key, FirstNul;
  }

  /** What an old record of the project becomes. */
  lemma OwnRecord(previous: Project, p: Project, kept: Option<Stored>, json: Object -> string, key: StoreKey)
    requires WellFormed(p) && WellFormed(previous) && previous.projectId == p.projectId && key.kind < KINDS && Injective(json)
    requires Records(kept, Hit(previous.parts[key.kind], p.projectId, key.key), json)
    ensures Records(if DroppedBy(Some(HeadOf(previous)), p, key) then None
                    else AfterPut(kept, kept, Hit(p.parts[key.kind], p.projectId, key.key), json),
                    Hit(p.parts[key.kind], p.projectId, key.key), json)
  {
    var ids, live := HeadOf(previous).ids[key.kind], Ids(p.parts[key.kind]);
    var was, now := Hit(previous.parts[key.kind], p.projectId, key.key), Hit(p.parts[key.kind], p.projectId, key.key);
    hide HeadOf, Ids, Hit, WellFormed;
    if now.Some? {
      var j :| 0 <= j < |live| && p.parts[key.kind][j] == now.value;
      assert live[j] == now.value.id;
      forall i | 0 <= i < |ids| && key.key == Key(p.projectId, ids[i])
        ensures ids[i] in live
      {
        SameProjectKeys(p.projectId, ids[i], now.value.id);
      }
    } else if was.Some? {
      var i :| 0 <= i < |ids| && previous.parts[key.kind][i] == was.value;
      assert ids[i] == was.value.id;
      assert ids[i] !in live;
      assert Dropped(p.projectId, ids, live, key.key);
    }
  }

  /** A first save meets no record of the project. */
  lemma FreshRecord(p: Project, json: Object -> string, key: StoreKey)
    requires WellFormed(p) && key.kind < KINDS
    ensures Records(AfterPut(None, None, Hit(p.parts[key.kind], p.projectId, key.key), json),
                    Hit(p.parts[key.kind], p.projectId, key.key), json)
  {
  }

  /** Saving a project incrementally is storing it whole: the store then represents the library with
      this project replaced, and no other project is touched. */
  lemma SaveRepresents(db: Database, library: Library, p: Project, json: Object -> string)
    requires Represents(db, library, json) && WellFormed(p) && Injective(json)
    ensures SoundHeads(db) && Represents(Written(db, db, p, json), library[p.projectId := p], json)
  {
    hide WellFormed, Records, FirstNul, Hit, Injective, HeadOf, Get, Key, AfterPut;
    HeadsAreSound(db, library, json);
    PartsCount(p);
    var db', library' := Written(db, db, p, json), library[p.projectId := p];
    forall key
      ensures Records(Get(db'.objects, key), Expected(library', key), json)
    {
      WrittenGet(db, db, p, json, key);
      var pid := key.key[..FirstNul(key.key)];
      hide Written;
      if key.kind >= KINDS {
        NothingThere(library, key, json);
        NothingThere(library', key, json);
      } else if FirstNul(key.key) == |key.key| || pid != p.projectId {
        OtherProject(p, PreviousHead(db, p.projectId), key);
        assert AfterPut(Get(db.objects, key), Get(db.objects, key), None, json) == Get(db.objects, key) by {
          NoChange(Get(db.objects, key), json);
        }
        assert Expected(library', key) == Expected(library, key);
      } else if p.projectId in library {
        OwnRecord(library[p.projectId], p, Get(db.objects, key), json, key);
      } else {
        FreshRecord(p, json, key);
        assert Expected(library, key) == None;
        assert Get(db.objects, key) == None by { NoRecord(Get(db.objects, key), json); }
      }
    }
  }

  lemma PartsCount(p: Project)
    requires WellFormed(p)
    ensures |p.parts| == KINDS && NulFree(p.projectId)
  {
  }

  lemma NoChange(r: Option<Stored>, json: Object -> string)
    ensures AfterPut(r, r, None, json) == r
  {
  }

  lemma NoRecord(r: Option<Stored>, json: Object -> string)
    requires Records(r, None, json)
    ensures r == None
  {
  }

  lemma NothingThere(library: Library, key: StoreKey, json: Object -> string)
    requires key.kind >= KINDS && forall pid :: pid in library ==> WellFormed(library[pid])
    ensures Expected(library, key) == None
  {
  }

  lemma HeadsAreSound(db: Database, library: Library, json: Object -> string)
    requires Represents(db, library, json)
    ensures SoundHeads(db)
  {
    forall pid | pid in db.heads
      ensures |db.heads[pid].ids| == KINDS
    {
      assert pid in library;
    }
  }

  /** The revision of a record, 0 when there is none. */
  function RevisionOf(db: Database, key: StoreKey): nat {
    if key in db.objects then db.objects[key].revision else 0
  }

  /** How the revision of a key moves when its object changes from `was` to `now`. */
  function Revised(revision: nat, was: Option<Object>, now: Option<Object>): nat {
    if now.None? then 0 else if was.None? then 1 else if was == now then revision else revision + 1
  }

  lemma SaveRevises(db: Database, library: Library, p: Project, json: Object -> string, key: StoreKey)
    requires Represents(db, library, json) && WellFormed(p) && Injective(json)
    ensures SoundHeads(db)
    ensures RevisionOf(Written(db, db, p, json), key)
         == Revised(RevisionOf(db, key), Expected(library, key), Expected(library[p.projectId := p], key))
  {
    HeadsAreSound(db, library, json);
    SaveRepresents(db, library, p, json);
    var library' := library[p.projectId := p];
    WrittenGet(db, db, p, json, key);
    var was, now := Expected(library, key), Expected(library', key);
    assert Records(Get(db.objects, key), was, json) && Records(Get(Written(db, db, p, json).objects, key), now, json);
    hide Written, Hit, FirstNul, Represents, DroppedBy, HeadOf;
    if now.Some? && key.kind < KINDS && key.key[..FirstNul(key.key)] != p.projectId {
      OtherProject(p, PreviousHead(db, p.projectId), key);
    }
  }

  // ---------------------------------------------------------------- loading

  datatype LoadResult = Absent | MissingRevision | Loaded(project: Project)

  predicate AllThere(db: Database, head: Head) {
    forall k, i :: 0 <= k < |head.ids| && 0 <= i < |head.ids[k]| ==>
      StoreKey(k, Key(head.projectId, head.ids[k][i])) in db.objects
  }

  function Load(db: Database, projectId: string): LoadResult {
    if projectId !in db.heads then Absent
    else
      var head := db.heads[projectId].(projectId := projectId);
      if !AllThere(db, head) then MissingRevision
      else Loaded(Project(db.heads[projectId].projectId, head.meta, Parts(db, head)))
  }

  function Parts(db: Database, head: Head): (parts: seq<seq<Object>>)
    requires AllThere(db, head)
    ensures |parts| == |head.ids|
    ensures forall k :: 0 <= k < |parts| ==> |parts[k]| == |head.ids[k]|
    ensures forall k, i :: 0 <= k < |parts| && 0 <= i < |parts[k]| ==>
              parts[k][i] == db.objects[StoreKey(k, Key(head.projectId, head.ids[k][i]))].value
  {
    seq(|head.ids|, k requires 0 <= k < |head.ids| =>
      seq(|head.ids[k]|, i requires 0 <= i < |head.ids[k]| =>
        db.objects[StoreKey(k, Key(head.projectId, head.ids[k][i]))].value))
  }

  lemma ObjectIsHit(p: Project, k: nat, i: nat)
    requires WellFormed(p) && k < KINDS && i < |p.parts[k]|
    ensures Hit(p.parts[k], p.projectId, Key(p.projectId, p.parts[k][i].id)) == Some(p.parts[k][i])
  {
    var key := Key(p.projectId, p.parts[k][i].id);
    var hit := Hit(p.parts[k], p.projectId, key);
    hide Hit;
    assert hit.Some?;
    var j :| 0 <= j < |p.parts[k]| && p.parts[k][j] == hit.value;
    SameProjectKeys(p.projectId, hit.value.id, p.parts[k][i].id);
  }

  lemma ObjectIsStored(db: Database, library: Library, json: Object -> string, pid: string, k: nat, i: nat)
    requires Represents(db, library, json) && pid in library && k < KINDS && WellFormed(library[pid])
    requires i < |library[pid].parts[k]|
    ensures var key := StoreKey(k, Key(pid, library[pid].parts[k][i].id));
            key in db.objects && db.objects[key].value == library[pid].parts[k][i]
  {
    var p := library[pid];
    var key := StoreKey(k, Key(pid, p.parts[k][i].id));
    ObjectIsHit(p, k, i);
    NulEndsProjectId(pid, p.parts[k][i].id);
    hide Hit, FirstNul, HeadOf;
    assert key.key[..|pid|] == pid;
    assert Expected(library, key) == Some(p.parts[k][i]);
    assert Records(Get(db.objects, key), Expected(library, key), json);
  }

  /** Loading returns the project of the library, and nothing for an id without one. */
  lemma LoadReturnsSaved(db: Database, library: Library, json: Object -> string, pid: string)
    requires Represents(db, library, json)
    ensures Load(db, pid) == if pid in library then Loaded(library[pid]) else Absent
  {
    if pid in library {
      var p, head := library[pid], db.heads[pid];
      assert head == HeadOf(p) && WellFormed(p) && head.projectId == pid;
      forall k, i | 0 <= k < |head.ids| && 0 <= i < |head.ids[k]|
        ensures StoreKey(k, Key(pid, head.ids[k][i])) in db.objects
        ensures db.objects[StoreKey(k, Key(pid, head.ids[k][i]))].value == p.parts[k][i]
      {
        ObjectIsStored(db, library, json, pid, k, i);
      }
      hide Represents, HeadOf, WellFormed, Key;
      assert AllThere(db, head);
      var parts := Parts(db, head);
      forall k | 0 <= k < |parts|
        ensures parts[k] == p.parts[k]
      {
        assert forall i :: 0 <= i < |parts[k]| ==> parts[k][i] == p.parts[k][i];
      }
      assert parts == p.parts;
    }
  }

  // ---------------------------------------------------------------- the summary of a save

  /** The positions of objects that `was` does not have with this value. */
  ghost function Differing(was: seq<Object>, values: seq<Object>): set<nat> {
    set i: nat | i < |values| && values[i] !in was
  }

  ghost function StoredParts(library: Library, p: Project, kind: nat): seq<Object> {
    if p.projectId in library && kind < |library[p.projectId].parts| then library[p.projectId].parts[kind] else []
  }

  /** An object is written exactly when the stored project does not have it with this value. */
  lemma WrittenWhenDifferent(db: Database, library: Library, p: Project, json: Object -> string, kind: nat, i: nat)
    requires Represents(db, library, json) && WellFormed(p) && Injective(json) && kind < KINDS && i < |p.parts[kind]|
    ensures var o := p.parts[kind][i];
            var key := StoreKey(kind, Key(p.projectId, o.id));
            (key in db.objects && db.objects[key].fingerprint == json(o)) <==> o in StoredParts(library, p, kind)
  {
    var o := p.parts[kind][i];
    var key := StoreKey(kind, Key(p.projectId, o.id));
    NulEndsProjectId(p.projectId, o.id);
    assert key.key[..|p.projectId|] == p.projectId;
    assert Records(Get(db.objects, key), Expected(library, key), json);
    if p.projectId in library {
      var was := library[p.projectId];
      if o in was.parts[kind] {
        var j :| 0 <= j < |was.parts[kind]| && was.parts[kind][j] == o;
        ObjectIsHit(was, kind, j);
      }
    }
  }

  lemma {:induction false} ChangesDiffer(
    before: Objects, projectId: string, kind: nat, values: seq<Object>, was: seq<Object>, json: Object -> string)
    requires forall i :: 0 <= i < |values| ==>
               var key := StoreKey(kind, Key(projectId, values[i].id));
               (key in before && before[key].fingerprint == json(values[i])) <==> values[i] in was
    ensures Changes(before, projectId, kind, values, json) == |Differing(was, values)|
    decreases |values|
  {
    if values == [] {
      assert Differing(was, values) == {};
    } else {
      var n := |values| - 1;
      assert forall i :: 0 <= i < n ==> values[..n][i] == values[i];
      hide Key;
      ChangesDiffer(before, projectId, kind, values[..n], was, json);
      assert Differing(was, values) == Differing(was, values[..n]) + (if values[n] !in was then {n} else {});
      assert n !in Differing(was, values[..n]);
    }
  }

  /** The summary of a save counts, for every store, the objects that the project stored before does not
      have with the same value. */
  lemma SummaryCounts(db: Database, library: Library, p: Project, json: Object -> string, kind: nat)
    requires Represents(db, library, json) && WellFormed(p) && Injective(json) && kind < KINDS
    ensures Changes(db.objects, p.projectId, kind, p.parts[kind], json)
         == |Differing(StoredParts(library, p, kind), p.parts[kind])|
  {
    hide Represents, Injective, Key, StoredParts, Changes, Differing;
    forall i | 0 <= i < |p.parts[kind]|
      ensures var key := StoreKey(kind, Key(p.projectId, p.parts[kind][i].id));
              (key in db.objects && db.objects[key].fingerprint == json(p.parts[kind][i]))
              <==> p.parts[kind][i] in StoredParts(library, p, kind)
    {
      WrittenWhenDifferent(db, library, p, json, kind, i);
    }
    ChangesDiffer(db.objects, p.projectId, kind, p.parts[kind], StoredParts(library, p, kind), json);
  }

  // ---------------------------------------------------------------- serialized saves

  /** A save waits, has read the store and not yet written, or is settled. */
  datatype Status = Waiting | Reading(read: Database) | Settled(ok: bool)

  /** A call of save. `after` is the call whose settling the promise tail stood for when this one was
      made, or None for the initial resolved promise. */
  datatype Operation = Operation(project: Project, after: Option<nat>, status: Status)

  datatype Session = Session(db: Database, calls: seq<Operation>, tail: Option<nat>)

  datatype Move = Call(project: Project) | Start(i: nat) | Finish(i: nat, committed: bool)

  /** The continuation of a tail runs when the call it stands for is settled, fulfilled or rejected. */
  predicate MayStart(s: Session, i: nat) {
    && i < |s.calls| && s.calls[i].status.Waiting?
    && (s.calls[i].after.Some? ==> s.calls[i].after.value < |s.calls| && s.calls[s.calls[i].after.value].status.Settled?)
  }

  /** Without `chained` every call starts from the resolved promise, as if there were no tail. */
  ghost function Step(s: Session, m: Move, chained: bool, json: Object -> string): Session {
    match m
    case Call(p) =>
      s.(calls := s.calls + [Operation(p, if chained then s.tail else None, Waiting)], tail := Some(|s.calls|))
    case Start(i) =>
      if MayStart(s, i) then s.(calls := s.calls[i := s.calls[i].(status := Reading(s.db))]) else s
    case Finish(i, committed) =>
      if i < |s.calls| && s.calls[i].status.Reading? then
        var p, read := s.calls[i].project, s.calls[i].status.read;
        var ok := committed && WellFormed(p) && SoundHeads(read);
        s.(db := if ok then Written(s.db, read, p, json) else s.db,
           calls := s.calls[i := s.calls[i].(status := Settled(ok))])
      else s
  }

  ghost function Run(s: Session, moves: seq<Move>, chained: bool, json: Object -> string): Session
    decreases |moves|
  {
    if moves == [] then s else Run(Step(s, moves[0], chained, json), moves[1..], chained, json)
  }

  /** The first `n` calls one after the other, failed ones skipped. */
  ghost function Replay(db: Database, calls: seq<Operation>, n: nat, json: Object -> string): Database
    requires n <= |calls|
  {
    if n == 0 then db
    else
      var before, c := Replay(db, calls, n - 1, json), calls[n - 1];
      if c.status == Settled(true) && WellFormed(c.project) && SoundHeads(before) then Written(before, before, c.project, json)
      else before
  }

  /** Every call follows the one before it. */
  ghost predicate Chained(s: Session) {
    && s.tail == (if s.calls == [] then None else Some(|s.calls| - 1))
    && forall i :: 0 <= i < |s.calls| ==> s.calls[i].after == if i == 0 then None else Some(i - 1)
  }

  /** The first `n` calls are settled, the next may be reading, all later ones wait; and the store is
      that of the first `n` calls in order. */
  ghost predicate InOrder(start: Database, s: Session, n: nat, json: Object -> string) {
    && n <= |s.calls| && Chained(s)
    && (forall i :: 0 <= i < n ==> s.calls[i].status.Settled?)
    && (n < |s.calls| ==> s.calls[n].status == Waiting || s.calls[n].status == Reading(s.db))
    && (forall i :: n < i < |s.calls| ==> s.calls[i].status == Waiting)
    && s.db == Replay(start, s.calls, n, json)
  }

  lemma {:induction false} ReplayAlike(db: Database, a: seq<Operation>, b: seq<Operation>, n: nat, json: Object -> string)
    requires n <= |a| && n <= |b| && forall i :: 0 <= i < n ==> a[i] == b[i]
    ensures Replay(db, a, n, json) == Replay(db, b, n, json)
    decreases n
  {
    hide Written, WellFormed, SoundHeads;
    if n > 0 {
      ReplayAlike(db, a, b, n - 1, json);
    }
  }

  /** The tail alone brings it about that a call starts only after all earlier ones are settled. */
  lemma StepKeepsOrder(start: Database, s: Session, n: nat, m: Move, json: Object -> string) returns (n': nat)
    requires InOrder(start, s, n, json)
    ensures InOrder(start, Step(s, m, true, json), n', json)
  {
    hide Written, WellFormed, SoundHeads;
    n' := n;
    var s' := Step(s, m, true, json);
    ReplayAlike(start, s.calls, s'.calls, n, json);
    match m
    case Call(p) =>
    case Start(i) =>
      if MayStart(s, i) {
        assert i == n;
      }
    case Finish(i, committed) =>
      if i < |s.calls| && s.calls[i].status.Reading? {
        assert i == n;
        n' := n + 1;
      }
  }

  /** Whatever is called, started and finished, in whatever interleaving the tail admits and with
      whatever failures, the store is the one that results from running the settled saves one by one in
      the order of the calls, with the failed ones skipped. */
  lemma {:induction false} RunIsSequential(start: Database, s: Session, n: nat, moves: seq<Move>, json: Object -> string)
    returns (n': nat)
    requires InOrder(start, s, n, json)
    ensures InOrder(start, Run(s, moves, true, json), n', json)
    decreases |moves|
  {
    if moves == [] {
      n' := n;
    } else {
      hide InOrder, Step;
      var n1 := StepKeepsOrder(start, s, n, moves[0], json);
      n' := RunIsSequential(start, Step(s, moves[0], true, json), n1, moves[1..], json);
    }
  }

  /** No two saves are ever between read and write, and no save starts before an earlier one is settled. */
  lemma OneAtATime(start: Database, s: Session, n: nat, moves: seq<Move>, json: Object -> string)
    requires InOrder(start, s, n, json)
    ensures var end := Run(s, moves, true, json);
            forall i, j :: 0 <= i < j < |end.calls| && !end.calls[j].status.Waiting? ==> end.calls[i].status.Settled?
  {
    var n' := RunIsSequential(start, s, n, moves, json);
    hide Run, Replay;
  }

  /** The library after the first `n` calls. */
  ghost function LibraryAfter(library: Library, calls: seq<Operation>, n: nat): Library
    requires n <= |calls|
  {
    if n == 0 then library
    else
      var before, c := LibraryAfter(library, calls, n - 1), calls[n - 1];
      if c.status == Settled(true) && WellFormed(c.project) then before[c.project.projectId := c.project] else before
  }

  lemma {:induction false} ReplayRepresents(
    db: Database, library: Library, calls: seq<Operation>, n: nat, json: Object -> string)
    requires Represents(db, library, json) && Injective(json) && n <= |calls|
    ensures Represents(Replay(db, calls, n, json), LibraryAfter(library, calls, n), json)
    decreases n
  {
    if n > 0 {
      hide Represents, Written, WellFormed, SoundHeads, Injective;
      ReplayRepresents(db, library, calls, n - 1, json);
      if WellFormed(calls[n - 1].project) {
        SaveRepresents(Replay(db, calls, n - 1, json), LibraryAfter(library, calls, n - 1), calls[n - 1].project, json);
      }
    }
  }

  /** The project that was saved successfully last, if any was. */
  ghost predicate LastSaved(calls: seq<Operation>, n: nat, i: nat)
    requires n <= |calls|
  {
    i < n && Took(calls[i]) && forall j :: i < j < n ==> !Took(calls[j])
  }

  ghost predicate Took(c: Operation) {
    c.status == Settled(true) && WellFormed(c.project)
  }

  /** The active project is the one saved last. */
  lemma {:induction false} ActiveIsLastSaved(
    db: Database, library: Library, calls: seq<Operation>, n: nat, json: Object -> string)
    requires Represents(db, library, json) && Injective(json) && n <= |calls|
    ensures forall i: nat :: LastSaved(calls, n, i) ==> Replay(db, calls, n, json).active == Some(calls[i].project.projectId)
    ensures (forall i :: 0 <= i < n ==> !Took(calls[i])) ==> Replay(db, calls, n, json).active == db.active
    decreases n
  {
    if n > 0 {
      hide Represents, Injective, Replay, LastSaved, Took;
      ActiveIsLastSaved(db, library, calls, n - 1, json);
      ActiveAfter(db, library, calls, n, json);
      forall i: nat | LastSaved(calls, n, i)
        ensures i < |calls| && Replay(db, calls, n, json).active == Some(calls[i].project.projectId)
      {
        LastSavedStep(calls, n, i);
      }
    }
  }

  lemma LastSavedStep(calls: seq<Operation>, n: nat, i: nat)
    requires 0 < n <= |calls| && LastSaved(calls, n, i)
    ensures i < n && if i == n - 1 then Took(calls[n - 1]) else LastSaved(calls, n - 1, i) && !Took(calls[n - 1])
  {
    hide Took;
  }

  lemma ActiveAfter(db: Database, library: Library, calls: seq<Operation>, n: nat, json: Object -> string)
    requires Represents(db, library, json) && Injective(json) && 0 < n <= |calls|
    ensures Replay(db, calls, n, json).active
         == if Took(calls[n - 1]) then Some(calls[n - 1].project.projectId) else Replay(db, calls, n - 1, json).active
  {
    hide Represents, Injective, PutKinds, DropKinds, HeadOf, WellFormed;
    ReplayRepresents(db, library, calls, n - 1, json);
    HeadsAreSound(Replay(db, calls, n - 1, json), LibraryAfter(library, calls, n - 1), json);
    hide SoundHeads;
  }

  /** What the application opens: the active project, or a new one. */
  function LoadActive(db: Database): LoadResult {
    if db.active.None? then Absent else Load(db, db.active.value)
  }

  /** After any history the application opens the project that was saved successfully last, as it was saved. */
  lemma HistoryLoadsActive(start: Database, library: Library, s: Session, n: nat, moves: seq<Move>, json: Object -> string)
    returns (n': nat)
    requires Represents(start, library, json) && Injective(json) && InOrder(start, s, n, json)
    ensures var end := Run(s, moves, true, json);
            && n' <= |end.calls| && (forall i :: 0 <= i < |end.calls| ==> (end.calls[i].status.Settled? <==> i < n'))
            && forall i: nat :: LastSaved(end.calls, n', i) ==> LoadActive(end.db) == Loaded(end.calls[i].project)
  {
    n' := RunIsSequential(start, s, n, moves, json);
    var end := Run(s, moves, true, json);
    hide Run;
    assert end.db == Replay(start, end.calls, n', json);
    assert forall i :: 0 <= i < |end.calls| ==> (end.calls[i].status.Settled? <==> i < n');
    LastIsLoaded(start, library, end.calls, n', json);
  }

  lemma LastIsLoaded(start: Database, library: Library, calls: seq<Operation>, n: nat, json: Object -> string)
    requires Represents(start, library, json) && Injective(json) && n <= |calls|
    ensures forall i: nat :: LastSaved(calls, n, i) ==> LoadActive(Replay(start, calls, n, json)) == Loaded(calls[i].project)
  {
    hide Represents, Injective, WellFormed, Load, Replay, LibraryAfter, LastSaved;
    ReplayRepresents(start, library, calls, n, json);
    ActiveIsLastSaved(start, library, calls, n, json);
    forall i: nat | LastSaved(calls, n, i)
      ensures i < |calls| && LoadActive(Replay(start, calls, n, json)) == Loaded(calls[i].project)
    {
      LastIsBefore(calls, n, i);
      var pid := calls[i].project.projectId;
      LoadReturnsSaved(Replay(start, calls, n, json), LibraryAfter(library, calls, n), json, pid);
      LastInLibrary(library, calls, n, i);
    }
  }

  lemma LastIsBefore(calls: seq<Operation>, n: nat, i: nat)
    requires n <= |calls| && LastSaved(calls, n, i)
    ensures i < n
  {
  }

  lemma {:induction false} LastInLibrary(library: Library, calls: seq<Operation>, n: nat, i: nat)
    requires n <= |calls| && LastSaved(calls, n, i)
    ensures var after := LibraryAfter(library, calls, n);
            calls[i].project.projectId in after && after[calls[i].project.projectId] == calls[i].project
    decreases n
  {
    hide WellFormed;
    if i < n - 1 {
      LastInLibrary(library, calls, n - 1, i);
    }
  }

  /** The revision that the sequence of whole projects gives a key. */
  ghost function RevisionAfter(revision: nat, library: Library, calls: seq<Operation>, n: nat, key: StoreKey): nat
    requires n <= |calls|
  {
    if n == 0 then revision
    else
      Revised(RevisionAfter(revision, library, calls, n - 1, key),
              Expected(LibraryAfter(library, calls, n - 1), key), Expected(LibraryAfter(library, calls, n), key))
  }

  /** Over every history a record's revision counts the saves that changed its object since the save that
      last created it. */
  lemma {:induction false} RevisionCountsChanges(
    db: Database, library: Library, calls: seq<Operation>, n: nat, json: Object -> string, key: StoreKey)
    requires Represents(db, library, json) && Injective(json) && n <= |calls|
    ensures RevisionOf(Replay(db, calls, n, json), key) == RevisionAfter(RevisionOf(db, key), library, calls, n, key)
    decreases n
  {
    hide Represents, Written, WellFormed, SoundHeads, Injective, Expected, RevisionOf;
    if n > 0 {
      RevisionCountsChanges(db, library, calls, n - 1, json, key);
      ReplayRepresents(db, library, calls, n - 1, json);
      var before, known, p := Replay(db, calls, n - 1, json), LibraryAfter(library, calls, n - 1), calls[n - 1].project;
      HeadsAreSound(before, known, json);
      if WellFormed(p) {
        SaveRevises(before, known, p, json, key);
      }
      UnchangedRevision(before, known, json, key);
    }
  }

  lemma UnchangedRevision(db: Database, library: Library, json: Object -> string, key: StoreKey)
    requires Represents(db, library, json)
    ensures Revised(RevisionOf(db, key), Expected(library, key), Expected(library, key)) == RevisionOf(db, key)
  {
    assert Records(Get(db.objects, key), Expected(library, key), json);
  }

  /** After any history every load returns the last project that was saved successfully under the id, in
      the order of the calls. */
  lemma HistoryLoads(start: Database, library: Library, s: Session, n: nat, moves: seq<Move>, json: Object -> string, pid: string)
    returns (n': nat)
    requires Represents(start, library, json) && Injective(json) && InOrder(start, s, n, json)
    ensures var end := Run(s, moves, true, json);
            && n' <= |end.calls| && (forall i :: 0 <= i < |end.calls| ==> (end.calls[i].status.Settled? <==> i < n'))
            && var known := LibraryAfter(library, end.calls, n');
               Load(end.db, pid) == if pid in known then Loaded(known[pid]) else Absent
  {
    hide Represents, Injective, Load;
    n' := RunIsSequential(start, s, n, moves, json);
    var end := Run(s, moves, true, json);
    ReplayRepresents(start, library, end.calls, n', json);
    LoadReturnsSaved(end.db, LibraryAfter(library, end.calls, n'), json, pid);
  }

  /** Without the tail an older save can revive an object: it reads the store, a newer save without the
      object is called, runs and succeeds, and then the older one writes. */
  lemma UnchainedRevives(db: Database, library: Library, older: Project, newer: Project, json: Object -> string, k: nat, i: nat)
    requires Represents(db, library, json) && WellFormed(older) && WellFormed(newer)
    requires older.projectId == newer.projectId && k < KINDS && i < |older.parts[k]|
    requires older.parts[k][i].id !in Ids(newer.parts[k])
    requires var key := StoreKey(k, Key(older.projectId, older.parts[k][i].id));
             key in db.objects ==> db.objects[key].fingerprint != json(older.parts[k][i])
    ensures var moves := [Call(older), Call(newer), Start(0), Start(1), Finish(1, true), Finish(0, true)];
            var end := Run(Session(db, [], None), moves, false, json);
            var key := StoreKey(k, Key(older.projectId, older.parts[k][i].id));
            && |end.calls| == 2 && end.calls[0].status == Settled(true) && end.calls[1].status == Settled(true)
            && key in end.db.objects && end.db.objects[key].value == older.parts[k][i]
            && older.projectId in end.db.heads && end.db.heads[older.projectId] == HeadOf(older)
  {
    var key, o := StoreKey(k, Key(older.projectId, older.parts[k][i].id)), older.parts[k][i];
    HeadsAreSound(db, library, json);
    var first := Written(db, db, newer, json);
    var last := Written(first, db, older, json);
    UnchainedRun(db, older, newer, json);
    WrittenGet(first, db, older, json, key);
    ObjectIsHit(older, k, i);
    hide Run, Hit, Represents;
    forall id | Key(older.projectId, id) == key.key
      ensures id in Ids(older.parts[k])
    {
      SameProjectKeys(older.projectId, id, o.id);
      assert Ids(older.parts[k])[i] == o.id;
    }
    hide Written;
    assert Get(last.objects, key).Some?;
  }

  lemma UnchainedRun(db: Database, older: Project, newer: Project, json: Object -> string)
    requires WellFormed(older) && WellFormed(newer) && SoundHeads(db)
    ensures var moves := [Call(older), Call(newer), Start(0), Start(1), Finish(1, true), Finish(0, true)];
            Run(Session(db, [], None), moves, false, json)
            == Session(Written(Written(db, db, newer, json), db, older, json),
                       [Operation(older, None, Settled(true)), Operation(newer, None, Settled(true))], Some(1))
  {
    hide Written;
    var s4 := Session(db, [Operation(older, None, Reading(db)), Operation(newer, None, Reading(db))], Some(1));
    BothRead(db, older, newer, json);
    hide Step, WellFormed, SoundHeads;
    var m := [Call(older), Call(newer), Start(0), Start(1), Finish(1, true), Finish(0, true)];
    var first := Written(db, db, newer, json);
    var s5 := Session(first, [Operation(older, None, Reading(db)), Operation(newer, None, Settled(true))], Some(1));
    var s6 := Session(Written(first, db, older, json),
                      [Operation(older, None, Settled(true)), Operation(newer, None, Settled(true))], Some(1));
    NewerWrites(db, older, newer, json);
    OlderWrites(db, first, older, newer, json);
    assert m[4..][1..] == m[5..] && m[5..][1..] == [];
    assert Run(s5, m[5..], false, json) == s6;
    assert Run(s4, m[4..], false, json) == s6;
  }

  lemma BothRead(db: Database, older: Project, newer: Project, json: Object -> string)
    ensures var m := [Call(older), Call(newer), Start(0), Start(1), Finish(1, true), Finish(0, true)];
            Run(Session(db, [], None), m, false, json)
            == Run(Session(db, [Operation(older, None, Reading(db)), Operation(newer, None, Reading(db))], Some(1)), m[4..], false, json)
  {
    hide Written, WellFormed, SoundHeads;
    var m := [Call(older), Call(newer), Start(0), Start(1), Finish(1, true), Finish(0, true)];
    var s0 := Session(db, [], None);
    var s1 := Session(db, [Operation(older, None, Waiting)], Some(0));
    var s2 := Session(db, [Operation(older, None, Waiting), Operation(newer, None, Waiting)], Some(1));
    var s3 := s2.(calls := [Operation(older, None, Reading(db)), Operation(newer, None, Waiting)]);
    var s4 := s2.(calls := [Operation(older, None, Reading(db)), Operation(newer, None, Reading(db))]);
    assert Step(s0, m[0], false, json) == s1;
    assert Step(s1, m[1], false, json) == s2;
    assert Step(s2, m[2], false, json) == s3;
    assert Step(s3, m[3], false, json) == s4;
    hide Step;
    assert m[3..][1..] == m[4..] && m[2..][1..] == m[3..] && m[1..][1..] == m[2..];
    assert Run(s3, m[3..], false, json) == Run(s4, m[4..], false, json);
    assert Run(s2, m[2..], false, json) == Run(s4, m[4..], false, json);
    assert Run(s1, m[1..], false, json) == Run(s4, m[4..], false, json);
  }

  lemma NewerWrites(db: Database, older: Project, newer: Project, json: Object -> string)
    requires WellFormed(newer) && SoundHeads(db)
    ensures Step(Session(db, [Operation(older, None, Reading(db)), Operation(newer, None, Reading(db))], Some(1)), Finish(1, true), false, json)
         == Session(Written(db, db, newer, json), [Operation(older, None, Reading(db)), Operation(newer, None, Settled(true))], Some(1))
  {
    hide Written;
    var calls := [Operation(older, None, Reading(db)), Operation(newer, None, Reading(db))];
    assert calls[1 := calls[1].(status := Settled(true))] == [Operation(older, None, Reading(db)), Operation(newer, None, Settled(true))];
  }

  lemma OlderWrites(db: Database, first: Database, older: Project, newer: Project, json: Object -> string)
    requires WellFormed(older) && SoundHeads(db)
    ensures Step(Session(first, [Operation(older, None, Reading(db)), Operation(newer, None, Settled(true))], Some(1)), Finish(0, true), false, json)
         == Session(Written(first, db, older, json),
                    [Operation(older, None, Settled(true)), Operation(newer, None, Settled(true))], Some(1))
  {
    hide Written;
    var calls := [Operation(older, None, Reading(db)), Operation(newer, None, Settled(true))];
    assert calls[0 := calls[0].(status := Settled(true))]
        == [Operation(older, None, Settled(true)), Operation(newer, None, Settled(true))];
  }

  // ---------------------------------------------------------------- the store in place

  class ProjectStore {
    const json: Object -> string
    var heads: map<string, Head>
    var objects: Objects
    var active: Option<string>

    function Value(): Database
      reads this
    {
      Database(heads, objects, active)
    }

    constructor (json: Object -> string)
      ensures Value() == Database(map[], map[], None) && this.json == json
    {
      this.json := json;
      heads, objects, active := map[], map[], None;
    }

    /** Writes the changed objects of one store and counts them. */
    method WriteKind(before: Objects, projectId: string, kind: nat, values: seq<Object>) returns (written: nat)
      modifies this`objects
      ensures objects == PutAll(old(objects), before, projectId, kind, values, json)
      ensures written == Changes(before, projectId, kind, values, json)
    {
      written := 0;
      for i := 0 to |values|
        invariant objects == PutAll(old(objects), before, projectId, kind, values[..i], json)
        invariant written == Changes(before, projectId, kind, values[..i], json)
      {
        assert values[..i + 1][..i] == values[..i];
        var key := StoreKey(kind, Key(projectId, values[i].id));
        var fingerprint := json(values[i]);
        if key !in before || before[key].fingerprint != fingerprint {
          var revision := if key in before then before[key].revision else 0;
          objects := objects[key := Stored(revision + 1, fingerprint, values[i])];
          written := written + 1;
        }
      }
      assert values[..|values|] == values;
    }

    method RemoveMissing(projectId: string, kind: nat, before: seq<string>, after: seq<string>)
      modifies this`objects
      ensures objects == DropAll(old(objects), projectId, kind, before, after)
    {
      for i := 0 to |before|
        invariant objects == DropAll(old(objects), projectId, kind, before[..i], after)
      {
        assert before[..i + 1][..i] == before[..i];
        if before[i] !in after {
          objects := objects - {StoreKey(kind, Key(projectId, before[i]))};
        }
      }
      assert before[..|before|] == before;
    }

    /** Saves a project: what is stored afterwards is the library with this project replaced, the project is
        the active one, and the summary says of every store how many of its objects are new or changed. */
    method SaveNow(p: Project, ghost library: Library) returns (summary: seq<nat>)
      requires Represents(Value(), library, json) && Injective(json) && WellFormed(p)
      modifies this
      ensures Represents(Value(), library[p.projectId := p], json)
      ensures active == Some(p.projectId)
      ensures |summary| == KINDS
      ensures forall k :: 0 <= k < KINDS ==> summary[k] == |Differing(StoredParts(library, p, k), p.parts[k])|
    {
      hide Represents, Injective, PutAll, DropAll, Key, Ids, Differing, StoredParts, Changes;
      SaveRepresents(Value(), library, p, json);
      var previousHead := PreviousHead(Value(), p.projectId);
      var read := objects;
      summary := [];
      for k := 0 to KINDS
        invariant objects == PutKinds(old(objects), read, p, k, json) && heads == old(heads)
        invariant |summary| == k
        invariant forall j :: 0 <= j < k ==> summary[j] == |Differing(StoredParts(library, p, j), p.parts[j])|
      {
        SummaryCounts(old(Value()), library, p, json, k);
        var written := WriteKind(read, p.projectId, k, p.parts[k]);
        summary := summary + [written];
      }
      ghost var put := objects;
      for k := 0 to KINDS
        invariant objects == DropKinds(put, previousHead, p, k) && heads == old(heads)
      {
        RemoveMissing(p.projectId, k, if previousHead.Some? then previousHead.value.ids[k] else [], Ids(p.parts[k]));
      }
      heads := heads[p.projectId := HeadOf(p)];
      active := Some(p.projectId);
    }
  }
}
