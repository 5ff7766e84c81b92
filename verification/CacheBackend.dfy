/** Replaying local modifications onto the master backend, guarded by a snapshot of the last replication
    (opsiclientd/nonfree/CacheBackend.py). */
module CacheBackends {
  import opened Common

  // ----- objects and backends -----

  datatype Ident =
    | ProductOnClient(productId: string, productType: string, clientId: string)
    | LicenseOnClient(softwareLicenseId: string, licensePoolId: string, clientId: string)
    | ProductPropertyState(productId: string, propertyId: string, objectId: string)
    | ConfigState(configId: string, objectId: string)
  {
    /** The client that the object filter of the upload asks for. */
    function Owner(): string {
      if ProductOnClient? || LicenseOnClient? then clientId else objectId
    }

    predicate IsState() {
      ProductPropertyState? || ConfigState?
    }
  }

  datatype Value = Single(s: string) | List(items: seq<string>)

  /** The attributes of an object that are not None. */
  type Attributes = map<string, Value>

  type Objects = map<Ident, Attributes>

  /** Versions of each product on the depot, as the backend lists them. */
  type Versions = map<string, multiset<string>>

  function VersionsOf(v: Versions, productId: string): multiset<string> {
    if productId in v then v[productId] else multiset{}
  }

  function Lookup<V>(b: map<Ident, V>, id: Ident): Option<V> {
    if id in b then Some(b[id]) else None
  }

  datatype Command = Insert | Update | Delete

  datatype Modification = Modification(ident: Ident, command: Command)

  /** The tracker keeps the last command of each object. */
  type Tracker = map<Ident, Command>

  // ----- comparing and merging objects -----

  /** Equal length and the same members. */
  predicate SameMembers(xs: seq<string>, ys: seq<string>) {
    |xs| == |ys| && (forall x :: x in xs ==> x in ys) && (forall y :: y in ys ==> y in xs)
  }

  predicate SameValue(v: Value, w: Value) {
    match (v, w)
    case (Single(s), Single(t)) => s == t
    case (List(xs), List(ys)) => SameMembers(xs, ys)
    case _ => false
  }

  /** `objects_differ`: some attribute that is not excluded differs. */
  predicate ObjectsDiffer(a: Attributes, b: Attributes, excluded: set<string>) {
    exists k :: k in a.Keys + b.Keys && k !in excluded && (k !in a || k !in b || !SameValue(a[k], b[k]))
  }

  const PROGRESS := {"modificationTime", "actionProgress", "actionResult", "lastAction"}

  /** The differ function of the class of the object. */
  predicate Differ(id: Ident, a: Attributes, b: Attributes) {
    ObjectsDiffer(a, b, if id.ProductOnClient? then PROGRESS else {})
  }

  const REQUESTED := {"actionRequest", "targetConfiguration"}

  /** `obj.values or []` */
  function ValuesOf(a: Attributes): seq<string> {
    if "values" in a && a["values"].List? then a["values"].items else []
  }

  /** The side of the sync that stays fixed: local objects and the versions on both sides. */
  datatype Local = Local(clientId: string, work: Objects, snapshot: Objects,
                         snapshotVersions: Versions, masterVersions: Versions)

  /** The merge function of the class of the object: what to upload, None for nothing. */
  function Merge(c: Local, id: Ident, snapshotObj: Attributes, updateObj: Attributes,
                 masterObj: Attributes): Option<Attributes> {
    match id
    case ProductOnClient(productId, _, _) =>
      if VersionsOf(c.snapshotVersions, productId) != VersionsOf(c.masterVersions, productId)
      then Some(updateObj - REQUESTED)
      else Some(updateObj)
    case LicenseOnClient(_, _, _) => Some(updateObj)
    case _ => if SameMembers(ValuesOf(snapshotObj), ValuesOf(masterObj)) then Some(updateObj) else None
  }

  // ----- what one modification does to the master -----

  datatype Plan = Nothing | Remove | Upsert(attributes: Attributes)

  /** The object as the filtered query of the master returns it. */
  function MasterObject(c: Local, master: Objects, id: Ident): Option<Attributes> {
    if id.Owner() == c.clientId then Lookup(master, id) else None
  }

  function PlanFor(c: Local, master: Objects, id: Ident, command: Command): Plan {
    var masterObj := MasterObject(c, master, id);
    match command
    case Delete =>
      if id !in c.snapshot || masterObj.None? || Differ(id, c.snapshot[id], masterObj.value) then Nothing else Remove
    case _ =>
      if id !in c.work then Nothing
      else if masterObj.Some? && id in c.snapshot then
        var merged := Merge(c, id, c.snapshot[id], c.work[id], masterObj.value);
        if merged.Some? then Upsert(merged.value) else Nothing
      else Upsert(c.work[id])
  }

  /** `updateObjects` overlays the attributes that are not None on an existing object, or creates it. */
  function Executed(plan: Plan, current: Option<Attributes>): Option<Attributes> {
    match plan
    case Nothing => current
    case Remove => None
    case Upsert(a) => Some(if current.Some? then current.value + a else a)
  }

  function ResultAt(c: Local, master: Objects, mods: Tracker, id: Ident): Option<Attributes> {
    if id in mods then Executed(PlanFor(c, master, id, mods[id]), Lookup(master, id)) else Lookup(master, id)
  }

  /** The master after all planned operations for the modifications were executed. */
  function Applied(c: Local, master: Objects, mods: Tracker): (r: Objects)
    ensures forall id :: Lookup(r, id) == ResultAt(c, master, mods, id)
  {
    map id | id in master.Keys + mods.Keys && ResultAt(c, master, mods, id).Some? :: ResultAt(c, master, mods, id).value
  }

  function Restrict(mods: Tracker, done: set<Ident>): Tracker {
    map id | id in mods && id in done :: mods[id]
  }

  lemma SameMaps<V>(a: map<Ident, V>, b: map<Ident, V>)
    requires forall id :: Lookup(a, id) == Lookup(b, id)
    ensures a == b
  {
    forall id
      ensures id in a <==> id in b
      ensures id in a ==> a[id] == b[id]
    {
      assert Lookup(a, id) == Lookup(b, id);
    }
  }

  // ----- retry safety -----

  /** Executing an upload twice on one object changes nothing, even where the guards see the changed master. */
  lemma PlanTwice(c: Local, m: Objects, n: Objects, id: Ident, command: Command)
    requires Lookup(n, id) == Executed(PlanFor(c, m, id, command), Lookup(m, id))
    ensures Executed(PlanFor(c, n, id, command), Lookup(n, id)) == Lookup(n, id)
  {
    if PlanFor(c, m, id, command).Upsert? {
      var a := PlanFor(c, m, id, command).attributes;
      var base: Attributes := if id in m then m[id] else map[];
      assert n[id] == base + a;
      if PlanFor(c, n, id, command).Upsert? {
        var b := PlanFor(c, n, id, command).attributes;
        assert forall k :: k in b ==> k in a && a[k] == b[k];
        assert base + a + b == base + a;
      }
    }
  }

  /** Retry safety: if a sync fails after any subset of its operations took effect, a later full sync leaves
      the same master as one uninterrupted sync. */
  lemma RetrySafe(c: Local, master: Objects, mods: Tracker, done: set<Ident>)
    ensures Applied(c, Applied(c, master, Restrict(mods, done)), mods) == Applied(c, master, mods)
  {
    var m := Applied(c, master, Restrict(mods, done));
    var full := Applied(c, master, mods);
    forall id
      ensures Lookup(Applied(c, m, mods), id) == Lookup(full, id)
    {
      assert Lookup(m, id) == ResultAt(c, master, Restrict(mods, done), id);
      if id in mods && id in done {
        PlanTwice(c, master, m, id, mods[id]);
      } else if id in mods {
        assert Lookup(m, id) == Lookup(master, id);
        assert PlanFor(c, m, id, mods[id]) == PlanFor(c, master, id, mods[id]);
      }
    }
    SameMaps(Applied(c, m, mods), full);
  }

  /** Any number of interrupted syncs before the successful one. */
  function Interrupted(c: Local, master: Objects, mods: Tracker, attempts: seq<set<Ident>>): Objects
    decreases |attempts|
  {
    if attempts == [] then master
    else Interrupted(c, Applied(c, master, Restrict(mods, attempts[0])), mods, attempts[1..])
  }

  lemma {:induction false} RetriesSafe(c: Local, master: Objects, mods: Tracker, attempts: seq<set<Ident>>)
    ensures Applied(c, Interrupted(c, master, mods, attempts), mods) == Applied(c, master, mods)
    decreases |attempts|
  {
    if attempts != [] {
      RetriesSafe(c, Applied(c, master, Restrict(mods, attempts[0])), mods, attempts[1..]);
      RetrySafe(c, master, mods, attempts[0]);
    }
  }

  lemma SyncIdempotent(c: Local, master: Objects, mods: Tracker)
    ensures Applied(c, Applied(c, master, mods), mods) == Applied(c, master, mods)
  {
    RetrySafe(c, master, mods, mods.Keys);
    assert Restrict(mods, mods.Keys) == mods;
  }

  // ----- the three-way merge -----

  /** The server side of object id is as it was at the last replication. */
  predicate Unchanged(c: Local, master: Objects, id: Ident) {
    && Lookup(master, id) == Lookup(c.snapshot, id)
    && (id.ProductOnClient? ==>
      VersionsOf(c.snapshotVersions, id.productId) == VersionsOf(c.masterVersions, id.productId))
  }

  /** The master holds every attribute that the local object has; it lacks what is deleted locally. */
  predicate AgreesWithWork(c: Local, master: Objects, id: Ident) {
    if id in c.work then
      id in master && forall k :: k in c.work[id] ==> k in master[id] && master[id][k] == c.work[id][k]
    else id !in master
  }

  lemma SameMembersRefl(xs: seq<string>)
    ensures SameMembers(xs, xs)
  {
  }

  lemma DifferRefl(id: Ident, a: Attributes)
    ensures !Differ(id, a, a)
  {
    forall k | k in a
      ensures SameValue(a[k], a[k])
    {
    }
  }

  /** Where the server did not change, the local modification reaches the master. */
  lemma UnchangedIsUploaded(c: Local, master: Objects, mods: Tracker, id: Ident)
    requires id in mods && Unchanged(c, master, id) && id.Owner() == c.clientId
    requires mods[id] == Delete <==> id !in c.work
    ensures AgreesWithWork(c, Applied(c, master, mods), id)
  {
    var r := Applied(c, master, mods);
    assert Lookup(r, id) == ResultAt(c, master, mods, id);
    if id in c.snapshot {
      DifferRefl(id, c.snapshot[id]);
      SameMembersRefl(ValuesOf(c.snapshot[id]));
    }
  }

  /** A property or config state whose values changed on the server is left alone by an update. */
  lemma ChangedStateUntouched(c: Local, master: Objects, mods: Tracker, id: Ident)
    requires id.IsState() && id.Owner() == c.clientId && id in c.snapshot && id in master
    requires !SameMembers(ValuesOf(c.snapshot[id]), ValuesOf(master[id]))
    ensures Lookup(Applied(c, master, mods), id) == Some(master[id])
  {
    if id in mods && mods[id] == Delete {
      StateValuesDiffer(id, c.snapshot[id], master[id]);
    }
  }

  lemma StateValuesDiffer(id: Ident, a: Attributes, b: Attributes)
    requires id.IsState() && !SameMembers(ValuesOf(a), ValuesOf(b))
    ensures Differ(id, a, b)
  {
    assert "values" in a.Keys + b.Keys;
  }

  /** A delete removes the object exactly if the client owns it and nothing that counts changed on the server;
      in all other cases the object on the master stays as it is. */
  lemma DeleteIffUnchanged(c: Local, master: Objects, mods: Tracker, id: Ident)
    requires id in mods && mods[id] == Delete && id in master
    ensures id !in Applied(c, master, mods) <==>
      id in c.snapshot && id.Owner() == c.clientId && !Differ(id, c.snapshot[id], master[id])
    ensures id in Applied(c, master, mods) ==> Applied(c, master, mods)[id] == master[id]
  {
    assert Lookup(Applied(c, master, mods), id) == ResultAt(c, master, mods, id);
  }

  /** Where a product changed its version on the server, its action request there is kept. */
  lemma ChangedProductKeepsRequest(c: Local, master: Objects, mods: Tracker, id: Ident, k: string)
    requires id.ProductOnClient? && id.Owner() == c.clientId && id in c.snapshot && id in master
    requires VersionsOf(c.snapshotVersions, id.productId) != VersionsOf(c.masterVersions, id.productId)
    requires id in mods && mods[id] != Delete && k in REQUESTED
    ensures id in Applied(c, master, mods)
    ensures k in Applied(c, master, mods)[id] <==> k in master[id]
    ensures k in master[id] ==> Applied(c, master, mods)[id][k] == master[id][k]
  {
    assert Lookup(Applied(c, master, mods), id) == ResultAt(c, master, mods, id);
  }

  /** Objects without a modification are never touched. */
  lemma UnmodifiedUntouched(c: Local, master: Objects, mods: Tracker, id: Ident)
    requires id !in mods
    ensures Lookup(Applied(c, master, mods), id) == Lookup(master, id)
  {
  }

  // ----- a local change between a failed and a repeated upload -----

  /** The first upload of a state took effect on the master although the sync failed. If the state is then
      changed again locally, the repeated sync uploads the new values exactly if the first upload had not
      changed the members of the values. */
  lemma SecondChangeUploadedIff(c: Local, later: Local, master: Objects, mods: Tracker, id: Ident, done: set<Ident>)
    requires id.IsState() && id.Owner() == c.clientId && Unchanged(c, master, id) && id in c.snapshot
    requires id in mods && mods[id] == Update && id in c.work && id in done && "values" in c.work[id]
    requires later == c.(work := later.work) && id in later.work
    requires later.work[id] != c.work[id] && later.work[id].Keys == c.work[id].Keys
    ensures var m := Applied(c, master, Restrict(mods, done));
      AgreesWithWork(later, Applied(later, m, mods), id) <==>
        SameMembers(ValuesOf(c.snapshot[id]), ValuesOf(c.work[id]))
  {
    var m := Applied(c, master, Restrict(mods, done));
    assert Lookup(m, id) == ResultAt(c, master, Restrict(mods, done), id);
    SameMembersRefl(ValuesOf(c.snapshot[id]));
    assert m[id] == master[id] + c.work[id];
    assert ValuesOf(m[id]) == ValuesOf(c.work[id]);
    var r := Applied(later, m, mods);
    assert Lookup(r, id) == ResultAt(later, m, mods, id);
    if !SameMembers(ValuesOf(c.snapshot[id]), ValuesOf(c.work[id])) {
      assert r[id] == m[id];
      var k :| k in c.work[id] && later.work[id][k] != c.work[id][k];
      assert m[id][k] == c.work[id][k];
    } else {
      assert r[id] == m[id] + later.work[id];
    }
  }

  function ValuesAre(x: string): Attributes {
    map["values" := List([x])]
  }

  /** A config state that is changed twice around a failed sync: the repeated sync leaves the first change. */
  lemma SecondChangeRefused(id: Ident, c: Local, later: Local)
    requires id == ConfigState("config", "client")
    requires c == Local("client", map[id := ValuesAre("b")], map[id := ValuesAre("a")], map[], map[])
    requires later == c.(work := map[id := ValuesAre("c")])
    ensures var mods := map[id := Update];
      var reached := Applied(c, c.snapshot, Restrict(mods, {id}));
      && Lookup(reached, id) == Some(ValuesAre("b"))
      && Lookup(Applied(later, reached, mods), id) == Some(ValuesAre("b"))
      && !AgreesWithWork(later, Applied(later, reached, mods), id)
  {
    var mods := map[id := Update];
    assert "a" in ValuesOf(c.snapshot[id]) && "a" !in ValuesOf(c.work[id]);
    SameMembersRefl(ValuesOf(c.snapshot[id]));
    assert ValuesAre("a") + ValuesAre("b") == ValuesAre("b");
    assert Lookup(Applied(c, c.snapshot, Restrict(mods, {id})), id) == Some(ValuesAre("b"));
    SecondChangeUploadedIff(c, later, c.snapshot, mods, id, {id});
    assert List(["b"]).items[0] != List(["c"]).items[0];
  }
}
