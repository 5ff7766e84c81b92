/** The cache backend of the client: local changes with their tracker, the upload with its delete and update
    lists, replication and the license objects (opsiclientd/nonfree/CacheBackend.py). */
module ClientCacheBackends {
  import opened CacheBackends
  import opened CacheRuns
  import opened Common

  datatype ObjectUpdate = ObjectUpdate(ident: Ident, attributes: Attributes)

  function ModMap(mods: seq<Modification>): Tracker {
    if mods == [] then map[] else ModMap(mods[..|mods| - 1])[mods[|mods| - 1].ident := mods[|mods| - 1].command]
  }

  /** Each object has at most one modification, as in the list of a tracker that keeps the last one. */
  predicate OnePerObject(mods: seq<Modification>) {
    forall i, j :: 0 <= i < j < |mods| ==> mods[i].ident != mods[j].ident
  }

  lemma {:induction false} ModMapMembers(mods: seq<Modification>, id: Ident)
    requires OnePerObject(mods)
    ensures id in ModMap(mods) <==> exists i :: 0 <= i < |mods| && mods[i].ident == id
    ensures forall i :: 0 <= i < |mods| && mods[i].ident == id ==>
              id in ModMap(mods) && ModMap(mods)[id] == mods[i].command
  {
    if mods != [] {
      ModMapMembers(mods[..|mods| - 1], id);
    }
  }

  /** The lists hold exactly the planned operations for the first n modifications. */
  ghost predicate Listed(c: Local, master: Objects, mods: seq<Modification>, n: nat, deletes: seq<Ident>,
                         updates: seq<ObjectUpdate>)
    requires n <= |mods|
  {
    && (forall id :: id in deletes <==> exists i :: 0 <= i < n && PlansRemoval(c, master, mods[i], id))
    && (forall u :: u in updates <==> exists i :: 0 <= i < n && PlansUpdate(c, master, mods[i], u))
  }

  ghost predicate PlansRemoval(c: Local, master: Objects, m: Modification, id: Ident) {
    m.ident == id && PlanFor(c, master, id, m.command) == Remove
  }

  ghost predicate PlansUpdate(c: Local, master: Objects, m: Modification, u: ObjectUpdate) {
    m.ident == u.ident && PlanFor(c, master, u.ident, m.command) == Upsert(u.attributes)
  }

  lemma ListedNothing(c: Local, master: Objects, mods: seq<Modification>)
    ensures Listed(c, master, mods, 0, [], [])
  {
  }

  lemma ListedStep(c: Local, master: Objects, mods: seq<Modification>, n: nat, deletes: seq<Ident>,
                   updates: seq<ObjectUpdate>)
    requires n < |mods| && Listed(c, master, mods, n, deletes, updates)
    ensures Listed(c, master, mods, n + 1,
                   WithDelete(c, master, mods[n], deletes), WithUpdate(c, master, mods[n], updates))
  {
    hide PlanFor;
    var m := mods[n];
    var ds, us := WithDelete(c, master, m, deletes), WithUpdate(c, master, m, updates);
    forall id
      ensures id in ds <==> exists i :: 0 <= i < n + 1 && PlansRemoval(c, master, mods[i], id)
    {
      assert id in ds <==> id in deletes || PlansRemoval(c, master, m, id);
    }
    forall u
      ensures u in us <==> exists i :: 0 <= i < n + 1 && PlansUpdate(c, master, mods[i], u)
    {
      assert u in us <==> u in updates || PlansUpdate(c, master, m, u);
    }
  }

  function WithDelete(c: Local, master: Objects, m: Modification, deletes: seq<Ident>): seq<Ident> {
    if PlanFor(c, master, m.ident, m.command) == Remove then deletes + [m.ident] else deletes
  }

  function WithUpdate(c: Local, master: Objects, m: Modification, updates: seq<ObjectUpdate>): seq<ObjectUpdate> {
    var plan := PlanFor(c, master, m.ident, m.command);
    if plan.Upsert? then updates + [ObjectUpdate(m.ident, plan.attributes)] else updates
  }

  /** The classes in the order in which the upload handles them. */
  function ClassOf(id: Ident): nat {
    match id
    case ProductOnClient(_, _, _) => 0
    case LicenseOnClient(_, _, _) => 1
    case ProductPropertyState(_, _, _) => 2
    case ConfigState(_, _) => 3
  }

  function OfClass(mods: seq<Modification>, k: nat): seq<Modification> {
    if mods == [] then []
    else
      var rest := OfClass(mods[..|mods| - 1], k);
      if ClassOf(mods[|mods| - 1].ident) == k then rest + [mods[|mods| - 1]] else rest
  }

  lemma {:induction false} OfClassMembers(mods: seq<Modification>, k: nat)
    requires OnePerObject(mods)
    ensures OnePerObject(OfClass(mods, k))
    ensures forall m :: m in OfClass(mods, k) <==> m in mods && ClassOf(m.ident) == k
  {
    if mods != [] {
      var n := |mods| - 1;
      OfClassMembers(mods[..n], k);
      assert mods == mods[..n] + [mods[n]];
      assert forall m :: m in mods[..n] ==> m.ident != mods[n].ident;
    }
  }

  lemma OfClassMap(mods: seq<Modification>, k: nat, id: Ident)
    requires OnePerObject(mods)
    ensures OnePerObject(OfClass(mods, k))
    ensures id in ModMap(OfClass(mods, k)) <==> id in ModMap(mods) && ClassOf(id) == k
    ensures id in ModMap(OfClass(mods, k)) ==> ModMap(OfClass(mods, k))[id] == ModMap(mods)[id]
  {
    OfClassMembers(mods, k);
    ModMapMembers(mods, id);
    ModMapMembers(OfClass(mods, k), id);
    if id in ModMap(mods) && ClassOf(id) == k {
      var i :| 0 <= i < |mods| && mods[i].ident == id;
      assert mods[i] in OfClass(mods, k);
    }
    if id in ModMap(OfClass(mods, k)) {
      var i :| 0 <= i < |OfClass(mods, k)| && OfClass(mods, k)[i].ident == id;
      assert OfClass(mods, k)[i] in mods;
    }
  }

  /** Objects whose planned operation the master reached; updates only count if they were attempted. */
  ghost function Reached(mods: Tracker, deletes: seq<Ident>, reached: set<Ident>, updated: bool): set<Ident> {
    set id | id in mods && id in reached && (id in deletes || updated)
  }

  /** Deletes and updates of one class leave the master as the plan for the reached objects says. */
  lemma ListsApplied(c: Local, before: Objects, after: Objects, mods: seq<Modification>, deletes: seq<Ident>,
                     updates: seq<ObjectUpdate>, reached: set<Ident>, updated: bool)
    requires OnePerObject(mods) && Listed(c, before, mods, |mods|, deletes, updates)
    requires forall id :: id in deletes && id in reached ==> Lookup(after, id) == None
    requires forall u :: u in updates && updated && u.ident in reached ==>
               Lookup(after, u.ident) == Executed(Upsert(u.attributes), Lookup(before, u.ident))
    requires forall id ::
               id !in reached || (id !in deletes && !(updated && exists u :: u in updates && u.ident == id)) ==>
               Lookup(after, id) == Lookup(before, id)
    ensures after == Applied(c, before, Restrict(ModMap(mods), Reached(ModMap(mods), deletes, reached, updated)))
  {
    hide PlanFor, Listed, OnePerObject, ModMap, Reached;
    var done := Reached(ModMap(mods), deletes, reached, updated);
    var r := Applied(c, before, Restrict(ModMap(mods), done));
    forall id
      ensures Lookup(after, id) == Lookup(r, id)
    {
      ListsAppliedAt(c, before, after, mods, deletes, updates, reached, updated, id);
      assert Lookup(r, id) == ResultAt(c, before, Restrict(ModMap(mods), done), id);
    }
    SameMaps(after, r);
  }

  lemma ListsAppliedAt(c: Local, before: Objects, after: Objects, mods: seq<Modification>, deletes: seq<Ident>,
                       updates: seq<ObjectUpdate>, reached: set<Ident>, updated: bool, id: Ident)
    requires OnePerObject(mods) && Listed(c, before, mods, |mods|, deletes, updates)
    requires id in deletes && id in reached ==> Lookup(after, id) == None
    requires forall u :: u in updates && updated && u.ident == id && id in reached ==>
               Lookup(after, u.ident) == Executed(Upsert(u.attributes), Lookup(before, u.ident))
    requires id !in reached || (id !in deletes && !(updated && exists u :: u in updates && u.ident == id)) ==>
               Lookup(after, id) == Lookup(before, id)
    ensures Lookup(after, id) ==
              ResultAt(c, before, Restrict(ModMap(mods), Reached(ModMap(mods), deletes, reached, updated)), id)
  {
    hide PlanFor, Listed, OnePerObject, ModMap, Applied;
    ListedAt(c, before, mods, deletes, updates, id);
  }

  /** The lists seen from one object. */
  lemma ListedAt(c: Local, master: Objects, mods: seq<Modification>, deletes: seq<Ident>, updates: seq<ObjectUpdate>,
                 id: Ident)
    requires OnePerObject(mods) && Listed(c, master, mods, |mods|, deletes, updates)
    ensures id in deletes <==> id in ModMap(mods) && PlanFor(c, master, id, ModMap(mods)[id]) == Remove
    ensures forall u :: u in updates && u.ident == id ==>
              id in ModMap(mods) && PlanFor(c, master, id, ModMap(mods)[id]) == Upsert(u.attributes)
    ensures id in ModMap(mods) && PlanFor(c, master, id, ModMap(mods)[id]).Upsert?
      ==> ObjectUpdate(id, PlanFor(c, master, id, ModMap(mods)[id]).attributes) in updates
  {
    hide PlanFor;
    ModMapMembers(mods, id);
    if id in ModMap(mods) {
      var i :| 0 <= i < |mods| && mods[i].ident == id;
      if PlanFor(c, master, id, mods[i].command) == Remove {
        assert PlansRemoval(c, master, mods[i], id);
      }
      if PlanFor(c, master, id, mods[i].command).Upsert? {
        var u := ObjectUpdate(id, PlanFor(c, master, id, mods[i].command).attributes);
        assert PlansUpdate(c, master, mods[i], u);
      }
    }
  }

  lemma ListedInMods(c: Local, master: Objects, mods: seq<Modification>, deletes: seq<Ident>,
                     updates: seq<ObjectUpdate>)
    requires OnePerObject(mods) && Listed(c, master, mods, |mods|, deletes, updates)
    ensures forall id :: id in deletes ==> id in ModMap(mods)
    ensures forall u :: u in updates ==> u.ident in ModMap(mods) && u.ident !in deletes
  {
    hide PlanFor, Listed, OnePerObject, ModMap;
    forall id
      ensures id in deletes ==> id in ModMap(mods)
      ensures forall u :: u in updates && u.ident == id ==> id in ModMap(mods) && id !in deletes
    {
      ListedAt(c, master, mods, deletes, updates, id);
    }
  }

  /** Two uploads of different objects, one after the other, are one upload of both. */
  lemma AppliedInTurn(c: Local, master: Objects, mods: Tracker, first: set<Ident>, next: Tracker, done: set<Ident>,
                      both: set<Ident>)
    requires forall id :: id in next ==> id !in first && id in mods && mods[id] == next[id]
    requires both == first + (set id | id in next && id in done)
    ensures Applied(c, Applied(c, master, Restrict(mods, first)), Restrict(next, done)) ==
              Applied(c, master, Restrict(mods, both))
  {
    hide PlanFor;
    var m := Applied(c, master, Restrict(mods, first));
    var n, r := Applied(c, m, Restrict(next, done)), Applied(c, master, Restrict(mods, both));
    forall id
      ensures Lookup(n, id) == Lookup(r, id)
    {
      assert Lookup(m, id) == ResultAt(c, master, Restrict(mods, first), id);
      assert Lookup(n, id) == ResultAt(c, m, Restrict(next, done), id);
      assert Lookup(r, id) == ResultAt(c, master, Restrict(mods, both), id);
      if id in next && id in done {
        SamePlan(c, master, m, id, next[id]);
      }
    }
    SameMaps(n, r);
  }

  lemma SamePlan(c: Local, m: Objects, n: Objects, id: Ident, command: Command)
    requires Lookup(m, id) == Lookup(n, id)
    ensures PlanFor(c, m, id, command) == PlanFor(c, n, id, command)
  {
  }

  ghost function Below(mods: Tracker, k: nat): set<Ident> {
    set id | id in mods && ClassOf(id) < k
  }

  lemma NothingApplied(c: Local, master: Objects, mods: Tracker)
    ensures Below(mods, 0) == {}
    ensures Applied(c, master, Restrict(mods, {})) == master
  {
    hide PlanFor;
    var r := Applied(c, master, Restrict(mods, {}));
    forall id
      ensures Lookup(r, id) == Lookup(master, id)
    {
      assert Lookup(r, id) == ResultAt(c, master, Restrict(mods, {}), id);
    }
    SameMaps(r, master);
  }

  lemma AllRestricted(mods: Tracker)
    ensures Restrict(mods, mods.Keys) == mods
  {
  }

  lemma ClassSplit(mods: seq<Modification>, k: nat)
    requires OnePerObject(mods)
    ensures OnePerObject(OfClass(mods, k))
    ensures forall id :: id in ModMap(OfClass(mods, k)) <==> id in ModMap(mods) && ClassOf(id) == k
    ensures forall id :: id in ModMap(OfClass(mods, k)) ==> ModMap(OfClass(mods, k))[id] == ModMap(mods)[id]
    ensures Below(ModMap(mods), k + 1) == Below(ModMap(mods), k) + ModMap(OfClass(mods, k)).Keys
  {
    OfClassMembers(mods, k);
    forall id
      ensures id in ModMap(OfClass(mods, k)) <==> id in ModMap(mods) && ClassOf(id) == k
      ensures id in ModMap(OfClass(mods, k)) ==> ModMap(OfClass(mods, k))[id] == ModMap(mods)[id]
    {
      OfClassMap(mods, k, id);
    }
  }

  /** What the master answers to a request for a license for a product. */
  type Grants = map<string, (Ident, Attributes)>

  predicate ValidGrants(granted: Grants) {
    forall p :: p in granted ==> granted[p].0.LicenseOnClient?
  }

  /** The product has an action request, and there is a license pool for it. */
  predicate NeedsLicense(a: Attributes, pools: map<string, seq<string>>, productId: string)
    ensures NeedsLicense(a, pools, productId) ==> productId in pools && |pools[productId]| > 0
  {
    "actionRequest" in a && a["actionRequest"] != Single("none") && productId in pools && pools[productId] != []
  }

  /** The i-th license of the client is the first one in the pool. */
  predicate FirstInPool(licenses: seq<Ident>, poolId: string, i: int) {
    && 0 <= i < |licenses| && licenses[i].LicenseOnClient? && licenses[i].licensePoolId == poolId
    && forall j :: 0 <= j < i ==> licenses[j].LicenseOnClient? && licenses[j].licensePoolId != poolId
  }

  ghost predicate HasLicense(licenses: seq<Ident>, poolId: string) {
    exists i :: FirstInPool(licenses, poolId, i)
  }

  /** The license that is stored for a product and a pool: the first one that the client has in the pool, or else
      the one that the master grants, if it grants one. */
  ghost predicate Takes(licenses: seq<Ident>, granted: Grants, poolId: string, productId: string, l: Ident) {
    if HasLicense(licenses, poolId) then exists i :: FirstInPool(licenses, poolId, i) && licenses[i] == l
    else productId in granted && granted[productId].0 == l
  }

  /** Product p of the cached objects has an action other than "none" requested and a license pool, and license l
      is taken for it. */
  ghost predicate TakesFor(work: Objects, pools: map<string, seq<string>>, licenses: seq<Ident>, granted: Grants,
                           p: Ident, l: Ident) {
    && p.ProductOnClient? && p in work
    && "actionRequest" in work[p] && work[p]["actionRequest"] != Single("none")
    && p.productId in pools && pools[p.productId] != []
    && Takes(licenses, granted, pools[p.productId][0], p.productId, l)
  }

  /** License l is taken for one of the products. */
  ghost predicate Taken(work: Objects, products: seq<Ident>, pools: map<string, seq<string>>, licenses: seq<Ident>,
                        granted: Grants, l: Ident) {
    exists p :: p in products && TakesFor(work, pools, licenses, granted, p, l)
  }

  /** Every cached object is as on the master, and all recorded changes are deletions of stored licenses. */
  ghost predicate Copied(s: Cache, master: Objects) {
    && (forall id :: id in s.work ==> Lookup(s.work, id) == Lookup(master, id))
    && (forall id :: id in s.tracker ==> id in s.work && Freed(s, id))
  }

  ghost predicate OnlyLicensesAdded(before: Objects, after: Objects) {
    && (forall id :: id in before ==> Lookup(after, id) == Lookup(before, id))
    && (forall id :: id in after && id !in before ==> id.LicenseOnClient?)
  }

  /** What an aborted replication leaves behind: any objects, deletions recorded for licenses, and maybe new
      licenses on the master. */
  datatype Partial = Partial(work: Objects, snapshot: Objects, tracker: Tracker, master: Objects)

  ghost predicate ValidPartial(p: Partial, master: Objects) {
    && OnlyLicensesAdded(master, p.master)
    && forall id :: id in p.tracker ==> id.LicenseOnClient? && p.tracker[id] == Delete
  }

  lemma TakenMore(work: Objects, products: seq<Ident>, p: Ident, pools: map<string, seq<string>>,
                  licenses: seq<Ident>, granted: Grants)
    ensures forall l :: Taken(work, products + [p], pools, licenses, granted, l) <==>
                        Taken(work, products, pools, licenses, granted, l) ||
                          TakesFor(work, pools, licenses, granted, p, l)
  {
    hide TakesFor;
    assert p in products + [p];
    assert forall q :: q in products + [p] <==> q in products || q == p;
  }

  lemma NoneTaken(work: Objects, pools: map<string, seq<string>>, licenses: seq<Ident>, granted: Grants)
    ensures forall l :: !Taken(work, [], pools, licenses, granted, l)
  {
  }

  lemma TakesIff(work: Objects, pools: map<string, seq<string>>, licenses: seq<Ident>, granted: Grants, p: Ident)
    requires p.ProductOnClient? && p in work
    ensures forall l :: TakesFor(work, pools, licenses, granted, p, l) <==>
                        NeedsLicense(work[p], pools, p.productId) &&
                        Takes(licenses, granted, pools[p.productId][0], p.productId, l)
  {
    hide Takes;
  }

  lemma TakesOne(licenses: seq<Ident>, granted: Grants, poolId: string, productId: string, license: Option<Ident>)
    requires HasLicense(licenses, poolId) ==>
               license.Some? && exists i :: FirstInPool(licenses, poolId, i) && licenses[i] == license.value
    requires !HasLicense(licenses, poolId) ==>
               license == if productId in granted then Some(granted[productId].0) else None
    ensures forall l :: Takes(licenses, granted, poolId, productId, l) <==> license == Some(l)
  {
  }

  lemma TakenSame(work: Objects, master: Objects, products: seq<Ident>, pools: map<string, seq<string>>,
                  licenses: seq<Ident>, granted: Grants, l: Ident)
    requires forall p :: p in products ==> p in work && p in master && work[p] == master[p]
    ensures Taken(work, products, pools, licenses, granted, l) <==>
            Taken(master, products, pools, licenses, granted, l)
  {
    hide Takes;
    forall p | p in products
      ensures TakesFor(work, pools, licenses, granted, p, l) <==> TakesFor(master, pools, licenses, granted, p, l)
    {
    }
  }

  lemma TakenAreLicenses(work: Objects, products: seq<Ident>, pools: map<string, seq<string>>, licenses: seq<Ident>,
                         granted: Grants)
    requires ValidGrants(granted)
    ensures forall l :: Taken(work, products, pools, licenses, granted, l) ==> l.LicenseOnClient?
  {
  }

  class ClientCacheBackend {
    const clientId: string
    var work: Objects
    var snapshot: Objects
    var master: Objects
    var workVersions: Versions
    var snapshotVersions: Versions
    var masterVersions: Versions
    var tracker: Tracker

    constructor (clientId: string, master: Objects, masterVersions: Versions)
      ensures this.clientId == clientId && this.master == master && this.masterVersions == masterVersions
      ensures work == map[] && snapshot == map[] && tracker == map[]
    {
      this.clientId := clientId;
      work, snapshot, tracker := map[], map[], map[];
      this.master := master;
      workVersions, snapshotVersions := map[], map[];
      this.masterVersions := masterVersions;
    }

    function LocalSide(): Local
      reads this
    {
      Local(clientId, work, snapshot, snapshotVersions, masterVersions)
    }

    // ----- upload -----

    /** The comparison of the value lists, loop by loop. */
    method SameValueLists(snapshotValues: seq<string>, masterValues: seq<string>) returns (same: bool)
      ensures same == SameMembers(snapshotValues, masterValues)
    {
      if |snapshotValues| != |masterValues| {
        return false;
      }
      for i := 0 to |snapshotValues|
        invariant forall k :: 0 <= k < i ==> snapshotValues[k] in masterValues
      {
        if snapshotValues[i] !in masterValues {
          return false;
        }
      }
      for i := 0 to |masterValues|
        invariant forall k :: 0 <= k < i ==> masterValues[k] in snapshotValues
      {
        if masterValues[i] !in snapshotValues {
          return false;
        }
      }
      return true;
    }

    method MergeObjects(id: Ident, snapshotObj: Attributes, updateObj: Attributes, masterObj: Attributes)
      returns (r: Option<Attributes>)
      ensures r == Merge(LocalSide(), id, snapshotObj, updateObj, masterObj)
    {
      if id.ProductOnClient? {
        r := Some(updateObj);
        if VersionsOf(snapshotVersions, id.productId) != VersionsOf(masterVersions, id.productId) {
          // The product changed on the server: do not update the action request
          r := Some(updateObj - {"actionRequest", "targetConfiguration"});
        }
      } else if id.LicenseOnClient? {
        r := Some(updateObj);
      } else {
        var same := SameValueLists(ValuesOf(snapshotObj), ValuesOf(masterObj));
        r := if same then Some(updateObj) else None;
      }
    }

    /** The plan for one modification, decision by decision. */
    method PlanModification(m: Modification) returns (plan: Plan)
      ensures plan == PlanFor(LocalSide(), master, m.ident, m.command)
    {
      plan := Nothing;
      var source := if m.command == Delete then snapshot else work;
      if m.ident !in source {
        return;
      }
      var masterObj := MasterObject(LocalSide(), master, m.ident);
      if m.command == Delete {
        if masterObj.None? {
          return;
        }
        if Differ(m.ident, snapshot[m.ident], masterObj.value) {
          return;
        }
        plan := Remove;
      } else {
        var updateObj := Some(work[m.ident]);
        if masterObj.Some? && m.ident in snapshot {
          updateObj := MergeObjects(m.ident, snapshot[m.ident], work[m.ident], masterObj.value);
        }
        if updateObj.Some? {
          plan := Upsert(updateObj.value);
        }
      }
    }

    /** Fills the lists of objects to delete and to update. */
    method PlanModifications(mods: seq<Modification>) returns (deletes: seq<Ident>, updates: seq<ObjectUpdate>)
      requires OnePerObject(mods)
      ensures Listed(LocalSide(), master, mods, |mods|, deletes, updates)
      ensures forall i, j :: 0 <= i < j < |updates| ==> updates[i].ident != updates[j].ident
    {
      hide PlanFor, Listed;
      deletes, updates := [], [];
      ListedNothing(LocalSide(), master, mods);
      ghost var seen := {};
      for i := 0 to |mods|
        invariant Listed(LocalSide(), master, mods, i, deletes, updates)
        invariant forall k :: i <= k < |mods| ==> mods[k].ident !in seen
        invariant forall k :: 0 <= k < |updates| ==> updates[k].ident in seen
        invariant forall k, j :: 0 <= k < j < |updates| ==> updates[k].ident != updates[j].ident
      {
        ListedStep(LocalSide(), master, mods, i, deletes, updates);
        var plan := PlanModification(mods[i]);
        if plan.Remove? {
          deletes := deletes + [mods[i].ident];
        } else if plan.Upsert? {
          updates := updates + [ObjectUpdate(mods[i].ident, plan.attributes)];
        }
        seen := seen + {mods[i].ident};
      }
    }

    /** The master deletes the objects it reaches; the call fails unless it reaches all. */
    method DeleteObjects(deletes: seq<Ident>, reached: set<Ident>) returns (ok: bool)
      modifies this`master
      ensures ok <==> forall id :: id in deletes ==> id in reached
      ensures forall id :: Lookup(master, id) ==
                if id in deletes && id in reached then None else Lookup(old(master), id)
    {
      ok := true;
      for i := 0 to |deletes|
        invariant ok <==> forall k :: 0 <= k < i ==> deletes[k] in reached
        invariant forall id :: Lookup(master, id) ==
                    if id in deletes[..i] && id in reached then None else Lookup(old(master), id)
      {
        if deletes[i] in reached {
          master := master - {deletes[i]};
        } else {
          ok := false;
        }
      }
    }

    /** The master updates or creates the objects it reaches; the call fails unless it reaches all. */
    method UpdateObjects(updates: seq<ObjectUpdate>, reached: set<Ident>) returns (ok: bool)
      requires forall i, j :: 0 <= i < j < |updates| ==> updates[i].ident != updates[j].ident
      modifies this`master
      ensures ok <==> forall u :: u in updates ==> u.ident in reached
      ensures forall u :: u in updates && u.ident in reached ==>
                Lookup(master, u.ident) == Executed(Upsert(u.attributes), Lookup(old(master), u.ident))
      ensures forall id :: (id !in reached || forall u :: u in updates ==> u.ident != id) ==>
                Lookup(master, id) == Lookup(old(master), id)
    {
      ok := true;
      for i := 0 to |updates|
        invariant ok <==> forall k :: 0 <= k < i ==> updates[k].ident in reached
        invariant forall k :: 0 <= k < i && updates[k].ident in reached ==>
                    Lookup(master, updates[k].ident) ==
                      Executed(Upsert(updates[k].attributes), Lookup(old(master), updates[k].ident))
        invariant forall id :: (id !in reached || forall k :: 0 <= k < i ==> updates[k].ident != id) ==>
                    Lookup(master, id) == Lookup(old(master), id)
      {
        var u := updates[i];
        if u.ident in reached {
          master := master[u.ident := if u.ident in master then master[u.ident] + u.attributes else u.attributes];
        } else {
          ok := false;
        }
      }
    }

    /** The upload of one class: all deletes in one call, then all updates in another. */
    method SyncModifiedObjectsWithMaster(mods: seq<Modification>, reached: set<Ident>)
        returns (ok: bool, ghost done: set<Ident>)
      requires OnePerObject(mods)
      modifies this`master
      ensures master == Applied(LocalSide(), old(master), Restrict(ModMap(mods), done))
      ensures done <= reached && done <= ModMap(mods).Keys
      ensures ok ==> master == Applied(LocalSide(), old(master), ModMap(mods))
      ensures ModMap(mods).Keys <= reached ==> ok
    {
      hide PlanFor;
      var deletes, updates := PlanModifications(mods);
      ListedInMods(LocalSide(), master, mods, deletes, updates);
      ok := DeleteObjects(deletes, reached);
      ghost var deleted := master;
      ghost var updated := ok;
      if ok {
        ok := UpdateObjects(updates, reached);
      }
      ListsApplied(LocalSide(), old(master), master, mods, deletes, updates, reached, updated);
      done := Reached(ModMap(mods), deletes, reached, updated);
      if ok {
        AllReached(LocalSide(), old(master), mods, deletes, updates, done);
      }
    }

    /** The upload of all classes in turn; it ends at the first class that fails. */
    method UpdateMasterFromWorkBackend(mods: seq<Modification>, reached: set<Ident>)
        returns (ok: bool, ghost done: set<Ident>)
      requires OnePerObject(mods)
      modifies this`master
      ensures master == Applied(LocalSide(), old(master), Restrict(ModMap(mods), done)) && done <= reached
      ensures ok ==> master == Applied(LocalSide(), old(master), ModMap(mods))
      ensures ModMap(mods).Keys <= reached ==> ok
    {
      hide PlanFor, Applied, OfClass, ModMap, Restrict;
      ghost var all, before := ModMap(mods), master;
      NothingApplied(LocalSide(), master, all);
      ok, done := true, {};
      for k := 0 to 4
        invariant ok && done <= Below(all, k) && done <= reached
        invariant master == Applied(LocalSide(), before, Restrict(all, done))
        invariant master == Applied(LocalSide(), before, Restrict(all, Below(all, k)))
      {
        ClassSplit(mods, k);
        ghost var next := ModMap(OfClass(mods, k));
        ghost var d;
        ok, d := SyncModifiedObjectsWithMaster(OfClass(mods, k), reached);
        AppliedInTurn(LocalSide(), before, all, done, next, d, done + d);
        done := done + d;
        if !ok {
          return;
        }
        AllRestricted(next);
        AppliedInTurn(LocalSide(), before, all, Below(all, k), next, next.Keys, Below(all, k + 1));
      }
      assert Below(all, 4) == all.Keys;
      AllRestricted(all);
    }

    // ----- local changes -----

    function CacheState(): Cache
      reads this
    {
      Cache(work, tracker)
    }

    method InsertObject(id: Ident, attributes: Attributes)
      modifies this`work, this`tracker
      ensures CacheState() == Step(old(CacheState()), Change.InsertObject(id, attributes))
    {
      work := work[id := attributes];
      tracker := tracker[id := Insert];
    }

    method UpdateObject(id: Ident, attributes: Attributes)
      modifies this`work, this`tracker
      ensures CacheState() == Step(old(CacheState()), Change.UpdateObject(id, attributes))
    {
      work := work[id := Overlay(Lookup(work, id), attributes)];
      tracker := tracker[id := Update];
    }

    method DeleteObject(id: Ident)
      modifies this`work, this`tracker
      ensures CacheState() == Step(old(CacheState()), Change.DeleteObject(id))
    {
      work := work - {id};
      tracker := tracker[id := Delete];
    }

    /** The query of the work backend. */
    method QueryLicenses(selected: Option<set<string>>, matching: seq<Ident>) returns (found: seq<(Ident, Attributes)>)
      ensures forall p :: p in found <==>
                p.0 in matching && p.0.LicenseOnClient? && p.0 in work && p.1 == Select(work[p.0], selected)
    {
      found := [];
      for i := 0 to |matching|
        invariant forall p :: p in found <==>
                    p.0 in matching[..i] && p.0.LicenseOnClient? && p.0 in work && p.1 == Select(work[p.0], selected)
      {
        if matching[i].LicenseOnClient? && matching[i] in work {
          found := found + [(matching[i], Select(work[matching[i]], selected))];
        }
      }
    }

    method Recreate(licenses: seq<(Ident, Attributes)>)
      requires forall p, q :: p in licenses && q in licenses && p.0 == q.0 ==> p == q
      modifies this`work, this`tracker
      ensures forall p :: p in licenses ==> Lookup(work, p.0) == Some(p.1) && Lookup(tracker, p.0) == Some(Insert)
      ensures forall id :: (forall p :: p in licenses ==> p.0 != id) ==>
                Lookup(work, id) == Lookup(old(work), id) && Lookup(tracker, id) == Lookup(old(tracker), id)
    {
      for i := 0 to |licenses|
        invariant forall k :: 0 <= k < i ==>
                    Lookup(work, licenses[k].0) == Some(licenses[k].1) && Lookup(tracker, licenses[k].0) == Some(Insert)
        invariant forall id :: (forall k :: 0 <= k < i ==> licenses[k].0 != id) ==>
                    Lookup(work, id) == Lookup(old(work), id) && Lookup(tracker, id) == Lookup(old(tracker), id)
      {
        // Recreate for later sync to server
        InsertObject(licenses[i].0, licenses[i].1);
      }
    }

    /** Reads licenses and inserts each of them again, so that the upload keeps them. */
    method GetLicenseOnClients(selected: Option<set<string>>, matching: seq<Ident>)
        returns (found: seq<(Ident, Attributes)>)
      modifies this`work, this`tracker
      ensures CacheState() == Step(old(CacheState()), GetLicenses(selected, set id | id in matching))
      ensures forall p :: p in found <==>
                p.0 in matching && p.0.LicenseOnClient? && p.0 in old(work) && p.1 == Select(old(work)[p.0], selected)
    {
      hide Select;
      found := QueryLicenses(selected, matching);
      Recreate(found);
      ghost var end := Step(old(CacheState()), GetLicenses(selected, set id | id in matching));
      forall id
        ensures Lookup(work, id) == Lookup(end.work, id) && Lookup(tracker, id) == Lookup(end.tracker, id)
      {
        if id in old(work) && id.LicenseOnClient? && id in matching {
          assert (id, Select(old(work)[id], selected)) in found;
        }
      }
      SameMaps(work, end.work);
      SameMaps(tracker, end.tracker);
    }

    // ----- replication -----

    /** A license of the client in the pool, as the master lists them. */
    method FindLicense(licenses: seq<Ident>, poolId: string) returns (found: Option<Ident>)
      requires forall l :: l in licenses ==> l.LicenseOnClient?
      ensures found.Some? ==> exists i :: FirstInPool(licenses, poolId, i) && licenses[i] == found.value
      ensures found.Some? <==> HasLicense(licenses, poolId)
    {
      for i := 0 to |licenses|
        invariant forall k :: 0 <= k < i ==> licenses[k].licensePoolId != poolId
      {
        if licenses[i].licensePoolId == poolId {
          return Some(licenses[i]);
        }
      }
      return None;
    }

    /** `licenseOnClient_getOrCreateObject` on the master; it may fail. */
    method GetOrCreateLicense(granted: Grants, productId: string) returns (license: Option<Ident>)
      requires ValidGrants(granted)
      modifies this`master
      ensures license.Some? <==> productId in granted
      ensures license.Some? ==> license.value == granted[productId].0 && license.value in master
      ensures forall id :: id in old(master) ==> Lookup(master, id) == Lookup(old(master), id)
      ensures forall id :: id !in old(master) && id in master ==> productId in granted && id == granted[productId].0
    {
      if productId !in granted {
        return None;
      }
      var (id, attributes) := granted[productId];
      if id !in master {
        master := master[id := attributes];
      }
      return Some(id);
    }

    /** Stores a license for one product and records its deletion, so that the next upload frees it unless it
        is used. */
    method StoreLicense(productId: string, poolId: string, licenses: seq<Ident>, granted: Grants)
      requires forall l :: l in licenses ==> l.LicenseOnClient? && l in master
      requires ValidGrants(granted) && Copied(CacheState(), master)
      modifies this`master, this`work, this`tracker
      ensures Copied(CacheState(), master) && OnlyLicensesAdded(old(master), master)
      ensures forall id :: id in work <==> id in old(work) || Takes(licenses, granted, poolId, productId, id)
      ensures forall id :: id in tracker <==> id in old(tracker) || Takes(licenses, granted, poolId, productId, id)
      ensures forall id :: id in master ==> id in old(master) || Takes(licenses, granted, poolId, productId, id)
      ensures forall id :: id in old(work) ==> Lookup(work, id) == Lookup(old(work), id)
    {
      var license := FindLicense(licenses, poolId);
      if license.None? {
        license := GetOrCreateLicense(granted, productId);
      }
      if license.Some? {
        // Fake deletion
        tracker := tracker[license.value := Delete];
        work := work[license.value := master[license.value]];
      }
      TakesOne(licenses, granted, poolId, productId, license);
    }

    method StoreLicenses(products: seq<Ident>, licenses: seq<Ident>, pools: map<string, seq<string>>, granted: Grants)
      requires forall p :: p in products ==> p.ProductOnClient? && p in work
      requires forall l :: l in licenses ==> l.LicenseOnClient? && l in master
      requires ValidGrants(granted) && Copied(CacheState(), master)
      modifies this`master, this`work, this`tracker
      ensures Copied(CacheState(), master) && OnlyLicensesAdded(old(master), master)
      ensures forall id :: id in work <==> id in old(work) || Taken(old(work), products, pools, licenses, granted, id)
      ensures forall id :: id in tracker <==>
                           id in old(tracker) || Taken(old(work), products, pools, licenses, granted, id)
      ensures forall id :: id in master ==>
                id in old(master) || Taken(old(work), products, pools, licenses, granted, id)
    {
      hide Takes, Copied, HasLicense, TakesFor, Taken;
      NoneTaken(work, pools, licenses, granted);
      for i := 0 to |products|
        invariant Copied(CacheState(), master) && OnlyLicensesAdded(old(master), master)
        invariant forall id :: id in old(work) ==> Lookup(work, id) == Lookup(old(work), id)
        invariant forall id :: id in work <==>
                               id in old(work) || Taken(old(work), products[..i], pools, licenses, granted, id)
        invariant forall id :: id in tracker <==>
                               id in old(tracker) || Taken(old(work), products[..i], pools, licenses, granted, id)
        invariant forall id :: id in master ==>
                               id in old(master) || Taken(old(work), products[..i], pools, licenses, granted, id)
      {
        var p := products[i];
        assert p in products && Lookup(work, p) == Lookup(old(work), p);
        TakenMore(old(work), products[..i], p, pools, licenses, granted);
        TakesIff(old(work), pools, licenses, granted, p);
        assert products[..i + 1] == products[..i] + [p];
        if NeedsLicense(work[p], pools, p.productId) {
          StoreLicense(p.productId, pools[p.productId][0], licenses, granted);
        }
      }
      assert products[..|products|] == products;
    }

    /** Wipes the work backend and the snapshot and fills them from the master. The caller cleared the tracker;
        the replicator copies the objects named by the filters, but no licenses. */
    method ReplicateMasterToWorkBackend(kept: set<Ident>, products: seq<Ident>, licenses: seq<Ident>,
                                        pools: map<string, seq<string>>, granted: Grants)
      requires tracker == map[]
      requires forall id :: id in kept ==> !id.LicenseOnClient?
      requires forall p :: p in products <==> p.ProductOnClient? && p in kept && p in master
      requires forall l :: l in licenses <==> l.LicenseOnClient? && l in master && l.Owner() == clientId
      requires ValidGrants(granted)
      modifies this`master, this`work, this`tracker, this`snapshot, this`snapshotVersions
      ensures JustReplicated(CacheState(), snapshot)
      ensures forall id :: id in snapshot ==> Unchanged(LocalSide(), master, id)
      ensures forall id: Ident :: !id.LicenseOnClient? ==> (id in work <==> id in kept && id in master)
      ensures OnlyLicensesAdded(old(master), master)
      ensures forall l :: l in master && l !in old(master) ==>
                Taken(old(master), products, pools, licenses, granted, l)
      ensures forall l: Ident :: l.LicenseOnClient? ==>
                (l in work <==> Taken(old(master), products, pools, licenses, granted, l))
      ensures forall l: Ident :: l in tracker <==> l.LicenseOnClient? && l in work
      ensures forall id :: id in work ==> Lookup(work, id) == Lookup(master, id)
    {
      hide Taken, TakesFor;
      work := map id | id in master && id in kept :: master[id];
      snapshot := map[];
      ghost var copied := work;
      StoreLicenses(products, licenses, pools, granted);
      forall l
        ensures Taken(copied, products, pools, licenses, granted, l) <==>
                Taken(old(master), products, pools, licenses, granted, l)
      {
        TakenSame(copied, old(master), products, pools, licenses, granted, l);
      }
      TakenAreLicenses(old(master), products, pools, licenses, granted);
      snapshot := work;
      snapshotVersions := masterVersions;
    }

    /** A replication that stops on an error leaves whatever it had written so far. */
    method AbortReplication(partial: Partial)
      requires tracker == map[]
      requires ValidPartial(partial, master)
      modifies this`master, this`work, this`tracker, this`snapshot
      ensures work == partial.work && snapshot == partial.snapshot && tracker == partial.tracker &&
                master == partial.master
    {
      work, snapshot, tracker, master := partial.work, partial.snapshot, partial.tracker, partial.master;
    }
  }

  /** If every planned operation was reached, the others had nothing to do. */
  lemma AllReached(c: Local, master: Objects, mods: seq<Modification>, deletes: seq<Ident>, updates: seq<ObjectUpdate>,
                   done: set<Ident>)
    requires OnePerObject(mods) && Listed(c, master, mods, |mods|, deletes, updates)
    requires forall id :: id in deletes ==> id in done
    requires forall u :: u in updates ==> u.ident in done
    ensures Applied(c, master, Restrict(ModMap(mods), done)) == Applied(c, master, ModMap(mods))
  {
    hide PlanFor;
    var a, b := Applied(c, master, Restrict(ModMap(mods), done)), Applied(c, master, ModMap(mods));
    forall id
      ensures Lookup(a, id) == Lookup(b, id)
    {
      assert Lookup(a, id) == ResultAt(c, master, Restrict(ModMap(mods), done), id);
      assert Lookup(b, id) == ResultAt(c, master, ModMap(mods), id);
      ListedAt(c, master, mods, deletes, updates, id);
    }
    SameMaps(a, b);
  }
}
