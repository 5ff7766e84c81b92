/** The sync methods of the config cache service, against its state machine
    (opsiclientd/nonfree/CacheService.py). */
module ConfigCacheServices {
  import opened CacheBackends
  import opened CacheRuns
  import opened ClientCacheBackends
  import opened Common
  import opened ConfigCaches

  /** How a sync to the server goes: the recorded modifications in some order, and what the server carries out. */
  datatype Upload = Upload(connects: bool, modifications: seq<Modification>, reached: set<Ident>)

  /** The answers of the server that a replication uses. */
  datatype Source = Source(kept: set<Ident>, products: seq<Ident>, licenses: seq<Ident>,
                           pools: map<string, seq<string>>, granted: Grants)

  /** How a sync from the server goes; serverActions are the entries of the client's localboot products on the
      server, products of included groups only, with their action requests. */
  datatype Fetch = Fetch(connects: bool, depotSwitched: bool, queriesAnswered: bool,
                         serverActions: seq<(string, string)>,
                         completes: bool, source: Source, partial: Partial)

  const PENDING := {"setup", "uninstall", "update", "always", "once", "custom"}

  predicate IsPending(a: Attributes) {
    "actionRequest" in a && a["actionRequest"].Single? && a["actionRequest"].s in PENDING
  }

  /** The pending actions of the cached configuration by product. */
  function LocalActions(work: Objects, clientId: string): map<string, string> {
    map id | id in work && id.ProductOnClient? && id.productType == "LocalbootProduct" && id.clientId == clientId &&
      IsPending(work[id]) ::
      id.productId := work[id]["actionRequest"].s
  }

  /** Both sides list the same products with the same actions. */
  predicate SameActions(server: seq<(string, string)>, cached: map<string, string>) {
    && (forall k :: 0 <= k < |server| ==> server[k].0 in cached && cached[server[k].0] == server[k].1)
    && (forall p :: p in cached ==> exists k :: 0 <= k < |server| && server[k].0 == p)
  }

  /** The action requests that the server is asked for; "always" is not among them. */
  const QUERIED := {"setup", "uninstall", "update", "once", "custom"}

  function Queried(serverActions: seq<(string, string)>): seq<(string, string)> {
    if serverActions == [] then []
    else if serverActions[0].1 in QUERIED then [serverActions[0]] + Queried(serverActions[1..])
    else Queried(serverActions[1..])
  }

  lemma {:induction false} QueriedMembers(serverActions: seq<(string, string)>)
    ensures forall e :: e in Queried(serverActions) <==> e in serverActions && e.1 in QUERIED
    ensures OnePerProduct(serverActions) ==> OnePerProduct(Queried(serverActions))
  {
    if serverActions != [] {
      var rest := serverActions[1..];
      QueriedMembers(rest);
      assert forall e :: e in serverActions <==> e == serverActions[0] || e in rest;
      if OnePerProduct(serverActions) {
        forall e | e in rest
          ensures e.0 != serverActions[0].0
        {
          var k :| 0 <= k < |rest| && rest[k] == e;
          assert serverActions[k + 1] == e;
        }
        assert OnePerProduct(rest);
      }
    }
  }

  /** A replication is asked for, where it is not forced. */
  predicate AsksForSync(fetch: Fetch, work: Objects, clientId: string) {
    var server := Queried(fetch.serverActions);
    fetch.depotSwitched || (server != [] && !SameActions(server, LocalActions(work, clientId)))
  }

  predicate QueriedLiterally(action: string) {
    action == "setup" || action == "uninstall" || action == "update" || action == "once" || action == "custom"
  }

  /** The cached configuration has the action pending for the product. */
  predicate PendingHere(work: Objects, clientId: string, p: string, action: string) {
    var id := ProductOnClient(p, "LocalbootProduct", clientId);
    && id in work && "actionRequest" in work[id] && work[id]["actionRequest"] == Single(action)
    && (QueriedLiterally(action) || action == "always")
  }

  predicate PendingThere(fetch: Fetch, p: string, action: string) {
    (p, action) in fetch.serverActions && QueriedLiterally(action)
  }

  lemma LocalActionsIff(work: Objects, clientId: string, p: string, action: string)
    ensures p in LocalActions(work, clientId) && LocalActions(work, clientId)[p] == action <==>
            PendingHere(work, clientId, p, action)
  {
    var id := ProductOnClient(p, "LocalbootProduct", clientId);
    assert id in work && IsPending(work[id]) ==> p in LocalActions(work, clientId);
  }

  /** A replication is asked for exactly if the depot was switched, or the server has an action pending and the
      two sides do not have exactly the same actions pending for the same products. */
  lemma AsksForSyncIff(fetch: Fetch, work: Objects, clientId: string)
    requires OnePerProduct(fetch.serverActions)
    ensures AsksForSync(fetch, work, clientId) <==>
              fetch.depotSwitched ||
              ((exists p, action :: PendingThere(fetch, p, action)) &&
               exists p, action :: PendingThere(fetch, p, action) != PendingHere(work, clientId, p, action))
  {
    hide LocalActions, PendingHere, SameActions;
    var server, cached := Queried(fetch.serverActions), LocalActions(work, clientId);
    QueriedMembers(fetch.serverActions);
    forall p, action
      ensures p in cached && cached[p] == action <==> PendingHere(work, clientId, p, action)
      ensures (p, action) in server <==> PendingThere(fetch, p, action)
    {
      LocalActionsIff(work, clientId, p, action);
    }
    if server != [] {
      assert server[0] in server && PendingThere(fetch, server[0].0, server[0].1);
    }
    SameActionsIff(server, cached);
  }

  lemma SameActionsIff(server: seq<(string, string)>, cached: map<string, string>)
    requires OnePerProduct(server)
    ensures SameActions(server, cached) <==>
              forall p, action :: (p, action) in server <==> p in cached && cached[p] == action
  {
    if SameActions(server, cached) {
      forall p, action
        ensures (p, action) in server <==> p in cached && cached[p] == action
      {
        if (p, action) in server {
          var k :| 0 <= k < |server| && server[k] == (p, action);
        }
        if p in cached {
          var k :| 0 <= k < |server| && server[k].0 == p;
          assert (p, server[k].1) in server && cached[p] == server[k].1;
        }
      }
    } else if forall p, action :: (p, action) in server <==> p in cached && cached[p] == action {
      forall k | 0 <= k < |server|
        ensures server[k].0 in cached && cached[server[k].0] == server[k].1
      {
        assert (server[k].0, server[k].1) in server;
      }
      forall p | p in cached
        ensures exists k :: 0 <= k < |server| && server[k].0 == p
      {
        assert (p, cached[p]) in server;
        var k :| 0 <= k < |server| && server[k] == (p, cached[p]);
        assert server[k].0 == p;
      }
      assert false;
    }
  }

  /** The client has cached the very actions that the server lists. */
  ghost predicate InStep(fetch: Fetch, work: Objects, clientId: string) {
    forall p, action :: PendingHere(work, clientId, p, action) <==>
                          (p, action) in fetch.serverActions && (QueriedLiterally(action) || action == "always")
  }

  /** On a client that is in step with the server a replication is asked for all the same exactly if one product
      has "always" pending and another has another action pending: the server is not asked for "always". */
  lemma AlwaysAsksForSync(fetch: Fetch, work: Objects, clientId: string)
    requires OnePerProduct(fetch.serverActions) && InStep(fetch, work, clientId)
    ensures AsksForSync(fetch, work, clientId) <==>
              fetch.depotSwitched ||
              ((exists p, action :: PendingThere(fetch, p, action)) &&
               exists p :: PendingHere(work, clientId, p, "always"))
  {
    hide PendingHere, AsksForSync;
    AsksForSyncIff(fetch, work, clientId);
    forall p, action
      ensures PendingThere(fetch, p, action) != PendingHere(work, clientId, p, action) <==>
                action == "always" && PendingHere(work, clientId, p, "always")
    {
    }
    assert !QueriedLiterally("always");
  }

  /** One entry a product, as one client has at most one object for a product. */
  predicate OnePerProduct(server: seq<(string, string)>) {
    forall i, j :: 0 <= i < j < |server| ==> server[i].0 != server[j].0
  }

  ghost predicate ValidSource(s: Source, b: ClientCacheBackend)
    reads b
  {
    && (forall id :: id in s.kept ==> !id.LicenseOnClient?)
    && (forall p :: p in s.products <==> p.ProductOnClient? && p in s.kept && p in b.master)
    && (forall l :: l in s.licenses <==> l.LicenseOnClient? && l in b.master && l.Owner() == b.clientId)
    && ValidGrants(s.granted)
  }

  class ConfigCacheService {
    const backend: ClientCacheBackend
    var configCached: bool
    var forceSync: bool
    var toServerRequested: bool
    var fromServerRequested: bool
    var toServerError: bool
    var working: bool

    constructor (backend: ClientCacheBackend, configCached: bool)
      ensures this.backend == backend && this.configCached == configCached && !working
      ensures Initial(Current())
    {
      this.backend := backend;
      this.configCached := configCached;
      forceSync, toServerRequested, fromServerRequested, toServerError, working := false, false, false, false, false;
    }

    function Current(): State
      reads this, backend
    {
      State(configCached, forceSync, toServerRequested, fromServerRequested, toServerError, backend.tracker)
    }

    method SetObsolete()
      modifies this`configCached
      ensures Current() == Next(old(Current()), Event.SetObsolete)
    {
      configCached := false;
    }

    method SetFaulty()
      modifies this`configCached, this`forceSync
      ensures Current() == Next(old(Current()), Event.SetFaulty)
    {
      forceSync := true;
      SetObsolete();
    }

    method SyncConfig(force: bool)
      modifies this`forceSync, this`toServerRequested, this`fromServerRequested
      ensures Current() == Next(old(Current()), Event.SyncConfig(force))
    {
      forceSync := force;
      toServerRequested := true;
      fromServerRequested := true;
    }

    /** Uploads what the tracker holds; the tracker is cleared only when the server took everything. */
    method SyncToServer(upload: Upload) returns (ok: bool, ghost done: set<Ident>)
      requires OnePerObject(upload.modifications) && ModMap(upload.modifications) == backend.tracker
      modifies this`toServerError, this`working, backend`master, backend`tracker
      ensures Current() == Uploaded(old(Current()), ok)
      ensures backend.master == Applied(backend.LocalSide(), old(backend.master), Restrict(old(backend.tracker), done))
      ensures ok ==> backend.master == Applied(backend.LocalSide(), old(backend.master), old(backend.tracker))
      ensures ok <== old(backend.tracker) == map[] || (upload.connects && old(backend.tracker).Keys <= upload.reached)
      ensures !working
    {
      hide Applied, ModMap;
      working := true;
      ok, done := false, {};
      NothingApplied(backend.LocalSide(), backend.master, backend.tracker);
      if backend.tracker == map[] {
        // Cache backend was not modified, no sync to server required
        ok := true;
        AllRestricted(backend.tracker);
      } else if upload.connects {
        ok, done := backend.UpdateMasterFromWorkBackend(upload.modifications, upload.reached);
        if ok {
          backend.tracker := map[];
        }
      }
      toServerError := !ok;
      working := false;
    }

    /** Compares the pending actions product by product, striking out the products found. */
    method ActionsChanged(serverActions: seq<(string, string)>) returns (changed: bool)
      requires OnePerProduct(serverActions)
      ensures changed <==>
                serverActions != [] && !SameActions(serverActions, LocalActions(backend.work, backend.clientId))
    {
      hide LocalActions;
      if serverActions == [] {
        // No product action requests set on config service, no sync from server required
        return false;
      }
      var cached := LocalActions(backend.work, backend.clientId);
      var remaining := cached;
      for k := 0 to |serverActions|
        invariant forall i :: 0 <= i < k ==>
                    serverActions[i].0 in cached && cached[serverActions[i].0] == serverActions[i].1
        invariant forall p :: p in remaining <==> p in cached && forall i :: 0 <= i < k ==> serverActions[i].0 != p
        invariant forall p :: p in remaining ==> remaining[p] == cached[p]
      {
        var (productId, action) := serverActions[k];
        if productId !in remaining {
          return true;
        }
        if remaining[productId] != action {
          return true;
        }
        remaining := remaining - {productId};
      }
      // Obsolete entries may be left
      changed := remaining != map[];
      if changed {
        var p :| p in remaining;
        assert p in cached;
      }
    }

    /** The download as the state machine sees it. */
    function DownloadOf(fetch: Fetch): Download
      reads this, backend
    {
      Download(
        fetch.connects && (forceSync || fetch.depotSwitched || fetch.queriesAnswered),
        AsksForSync(fetch, backend.work, backend.clientId),
        fetch.completes,
        backend.tracker)
    }

    /** Fetches the configuration; nothing happens while the last upload failed. After a completed replication
        the snapshot and the cached objects are those of the server, and the tracker holds nothing but the
        deletions of the stored licenses. */
    method SyncFromServer(fetch: Fetch)
      requires OnePerProduct(fetch.serverActions)
      requires ValidSource(fetch.source, backend) && ValidPartial(fetch.partial, backend.master)
      modifies this`configCached, this`forceSync, this`working, backend
      ensures Current() == Downloaded(old(Current()), old(DownloadOf(fetch)).(recorded := backend.tracker))
      ensures Replicates(old(Current()).(toServerRequested := false, fromServerRequested := true),
                Tick(true, old(DownloadOf(fetch)))) ==>
                JustReplicated(backend.CacheState(), backend.snapshot) &&
                forall id :: id in backend.snapshot ==> Unchanged(backend.LocalSide(), backend.master, id)
      ensures !old(toServerError) ==>
                (configCached <==>
                   fetch.connects &&
                   (if old(forceSync) || fetch.depotSwitched then fetch.completes
                    else fetch.queriesAnswered &&
                         (!old(AsksForSync(fetch, backend.work, backend.clientId)) || fetch.completes)))
      ensures old(toServerError) ==>
                backend.CacheState() == old(backend.CacheState()) && backend.master == old(backend.master) &&
                backend.snapshot == old(backend.snapshot)
      ensures !working
    {
      hide SameActions, JustReplicated, LocalActions;
      if toServerError {
        working := false;
        return;
      }
      working := true;
      SetObsolete();
      var needSync := forceSync;
      if fetch.connects && (forceSync || fetch.depotSwitched || fetch.queriesAnswered) {
        needSync := needSync || fetch.depotSwitched;
        if !needSync {
          QueriedMembers(fetch.serverActions);
          needSync := ActionsChanged(Queried(fetch.serverActions));
        }
        if needSync {
          Replicate(fetch);
        } else {
          configCached := true;
        }
      }
      working := false;
    }

    method Replicate(fetch: Fetch)
      requires ValidSource(fetch.source, backend) && ValidPartial(fetch.partial, backend.master)
      modifies this`configCached, this`forceSync, backend
      ensures configCached == fetch.completes && forceSync == !fetch.completes
      ensures fetch.completes ==> JustReplicated(backend.CacheState(), backend.snapshot)
      ensures fetch.completes ==> forall id :: id in backend.snapshot ==>
                Unchanged(backend.LocalSide(), backend.master, id)
    {
      forceSync := false;
      backend.tracker := map[];
      if fetch.completes {
        var s := fetch.source;
        backend.ReplicateMasterToWorkBackend(s.kept, s.products, s.licenses, s.pools, s.granted);
        configCached := true;
      } else {
        backend.AbortReplication(fetch.partial);
        SetFaulty();
      }
    }

    /** One round of the service's loop: an upload goes first. */
    method RunOnce(upload: Upload, fetch: Fetch) returns (ghost uploads: bool)
      requires OnePerObject(upload.modifications) && ModMap(upload.modifications) == backend.tracker
      requires OnePerProduct(fetch.serverActions)
      requires ValidSource(fetch.source, backend) && ValidPartial(fetch.partial, backend.master)
      requires !working
      modifies this, backend
      ensures Current() == Next(old(Current()), Tick(uploads, old(DownloadOf(fetch)).(recorded := backend.tracker)))
      ensures !working
    {
      hide SameActions, ModMap, Applied, LocalActions;
      uploads := true;
      if toServerRequested {
        toServerRequested := false;
        ghost var done;
        var ok;
        ok, done := SyncToServer(upload);
        uploads := ok;
      } else if fromServerRequested {
        fromServerRequested := false;
        SyncFromServer(fetch);
      }
    }
  }
}
