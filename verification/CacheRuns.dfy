/** Local changes between a replication from the server and the next upload
    (opsiclientd/nonfree/CacheBackend.py, opsiclientd/nonfree/CacheService.py). */
module CacheRuns {
  import opened CacheBackends
  import opened Common

  /** The work backend and the modifications that its listener recorded. */
  datatype Cache = Cache(work: Objects, tracker: Tracker)

  datatype Change =
    | InsertObject(id: Ident, attributes: Attributes)
    | UpdateObject(id: Ident, attributes: Attributes)
    | DeleteObject(id: Ident)
    | GetLicenses(selected: Option<set<string>>, matching: set<Ident>)

  predicate Reads(ch: Change, id: Ident) {
    ch.GetLicenses? && id.LicenseOnClient? && id in ch.matching
  }

  /** An object as a query with an attribute list returns it. */
  function Select(a: Attributes, selected: Option<set<string>>): Attributes {
    match selected
    case None => a
    case Some(keys) => map k | k in a && k in keys :: a[k]
  }

  function Overlay(current: Option<Attributes>, a: Attributes): Attributes {
    if current.Some? then current.value + a else a
  }

  function Step(s: Cache, ch: Change): Cache {
    match ch
    case InsertObject(id, a) => Cache(s.work[id := a], s.tracker[id := Insert])
    case UpdateObject(id, a) => Cache(s.work[id := Overlay(Lookup(s.work, id), a)], s.tracker[id := Update])
    case DeleteObject(id) => Cache(s.work - {id}, s.tracker[id := Delete])
    case GetLicenses(selected, matching) =>
      // Every license that is read is inserted again
      Cache(map id | id in s.work :: if Reads(ch, id) then Select(s.work[id], selected) else s.work[id],
            s.tracker + map id | id in s.work && Reads(ch, id) :: Insert)
  }

  function Run(s: Cache, changes: seq<Change>): Cache {
    if changes == [] then s else Step(Run(s, changes[..|changes| - 1]), changes[|changes| - 1])
  }

  /** The state after a replication: the snapshot is a copy of the work backend, and the tracker was cleared
      before a deletion was recorded for every license that was stored. */
  predicate JustReplicated(s: Cache, snapshot: Objects) {
    && s.work == snapshot
    && forall id :: id in s.tracker ==> id.LicenseOnClient? && id in snapshot && s.tracker[id] == Delete
  }

  predicate Freed(s: Cache, id: Ident) {
    id.LicenseOnClient? && id in s.tracker && s.tracker[id] == Delete
  }

  /** The tracker explains every difference between the work backend and the snapshot. */
  ghost predicate Explained(s: Cache, snapshot: Objects) {
    && (forall id :: id !in s.tracker ==> Lookup(s.work, id) == Lookup(snapshot, id))
    && (forall id :: id in s.tracker && s.tracker[id] != Delete ==> id in s.work)
    && (forall id :: id in s.tracker && s.tracker[id] == Delete ==> id !in s.work || id.LicenseOnClient?)
  }

  lemma {:induction false} RunIsExplained(s: Cache, snapshot: Objects, changes: seq<Change>)
    requires JustReplicated(s, snapshot)
    ensures Explained(Run(s, changes), snapshot)
  {
    if changes != [] {
      RunIsExplained(s, snapshot, changes[..|changes| - 1]);
    }
  }

  /** If the server did not change an object since the replication, the upload of any local changes brings the
      object to the state of the work backend. A license goes exactly if the deletion recorded for it is the
      last word; attributes that only the server's object has are kept. */
  lemma UploadReflectsChanges(c: Local, s: Cache, master: Objects, changes: seq<Change>, id: Ident)
    requires JustReplicated(s, c.snapshot) && c.work == Run(s, changes).work
    requires id.Owner() == c.clientId && Unchanged(c, master, id)
    ensures var end, r := Run(s, changes), Applied(c, master, Run(s, changes).tracker);
      && (id in r <==> id in end.work && !Freed(end, id))
      && (id in r ==> r[id] == Overlay(Lookup(master, id), end.work[id]))
      && (id in r ==> (r[id] == end.work[id] <==> (id in master ==> master[id].Keys <= end.work[id].Keys)))
  {
    hide Run, Step;
    var end := Run(s, changes);
    RunIsExplained(s, c.snapshot, changes);
    assert Lookup(Applied(c, master, end.tracker), id) == ResultAt(c, master, end.tracker, id);
    if id in c.snapshot {
      DifferRefl(id, c.snapshot[id]);
      SameMembersRefl(ValuesOf(c.snapshot[id]));
      if id !in end.tracker {
        assert master[id] + end.work[id] == master[id];
      } else if id in end.work && !Freed(end, id) {
        assert (master[id] + end.work[id]).Keys == master[id].Keys + end.work[id].Keys;
      }
    }
  }

  /** A license stored at the replication is freed by the next upload exactly if it was not read meanwhile. */
  lemma LicenseFreedIffNotRead(c: Local, s: Cache, master: Objects, changes: seq<Change>, id: Ident)
    requires JustReplicated(s, c.snapshot) && c.work == Run(s, changes).work
    requires id.Owner() == c.clientId && Unchanged(c, master, id) && id in s.tracker
    requires forall k :: 0 <= k < |changes| && !changes[k].GetLicenses? ==> changes[k].id != id
    ensures id !in Applied(c, master, Run(s, changes).tracker) <==>
              forall k :: 0 <= k < |changes| ==> !Reads(changes[k], id)
  {
    LicenseTracked(s, c.snapshot, changes, id);
    UploadReflectsChanges(c, s, master, changes, id);
  }

  lemma {:induction false} LicenseTracked(s: Cache, snapshot: Objects, changes: seq<Change>, id: Ident)
    requires JustReplicated(s, snapshot) && id in s.tracker
    requires forall k :: 0 <= k < |changes| && !changes[k].GetLicenses? ==> changes[k].id != id
    ensures id in Run(s, changes).work
    ensures Freed(Run(s, changes), id) <==> forall k :: 0 <= k < |changes| ==> !Reads(changes[k], id)
  {
    if changes != [] {
      var n := |changes| - 1;
      LicenseTracked(s, snapshot, changes[..n], id);
      assert forall k :: 0 <= k < n ==> changes[..n][k] == changes[k];
      assert (forall k :: 0 <= k < |changes| ==> !Reads(changes[k], id)) <==>
        (forall k :: 0 <= k < n ==> !Reads(changes[..n][k], id)) && !Reads(changes[n], id);
    }
  }
}
