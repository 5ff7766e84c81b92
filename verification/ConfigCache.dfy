/** The service that keeps the cached configuration in sync: requests, flags and the two syncs
    (opsiclientd/nonfree/CacheService.py). */
module ConfigCaches {
  import opened CacheBackends
  import opened CacheRuns
  import opened ClientCacheBackends
  import opened Common

  // ----- the state machine -----

  /** cached is `config_cached`; uploadFailed tells whether `_syncConfigToServerError` is set. */
  datatype State = State(cached: bool, forceSync: bool, toServerRequested: bool, fromServerRequested: bool,
                         uploadFailed: bool, tracker: Tracker)

  /** How a sync from the server goes: whether the service answers, whether the comparison asks for a
      replication, whether the replication completes and what it leaves in the tracker. */
  datatype Download = Download(answers: bool, differs: bool, completes: bool, recorded: Tracker)

  datatype Event =
    | SetObsolete
    | SetFaulty
    | SyncConfig(force: bool)
    | SyncConfigToServer
    | SyncConfigFromServer
    | LocalChange(change: Change, work: Objects)
    | Tick(uploads: bool, download: Download)

  function Uploaded(s: State, uploads: bool): State {
    if s.tracker == map[] then s.(uploadFailed := false)
    else if uploads then s.(uploadFailed := false, tracker := map[])
    else s.(uploadFailed := true)
  }

  function Downloaded(s: State, d: Download): State {
    if s.uploadFailed then s
    else if !d.answers then s.(cached := false)
    else if !s.forceSync && !d.differs then s.(cached := true)
    else if d.completes then s.(cached := true, forceSync := false, tracker := d.recorded)
    else s.(cached := false, forceSync := true, tracker := d.recorded)
  }

  function Next(s: State, e: Event): State {
    match e
    case SetObsolete => s.(cached := false)
    case SetFaulty => s.(cached := false, forceSync := true)
    case SyncConfig(force) => s.(forceSync := force, toServerRequested := true, fromServerRequested := true)
    case SyncConfigToServer => s.(toServerRequested := true)
    case SyncConfigFromServer => s.(fromServerRequested := true)
    case LocalChange(change, work) => s.(tracker := Step(Cache(work, s.tracker), change).tracker)
    case Tick(uploads, download) =>
      if s.toServerRequested then Uploaded(s.(toServerRequested := false), uploads)
      else if s.fromServerRequested then Downloaded(s.(fromServerRequested := false), download)
      else s
  }

  function After(s: State, events: seq<Event>): State {
    if events == [] then s else Next(After(s, events[..|events| - 1]), events[|events| - 1])
  }

  /** P holds in all states of the run. */
  ghost predicate Throughout(p: State -> bool, s: State, events: seq<Event>) {
    p(After(s, events)) && (events != [] ==> Throughout(p, s, events[..|events| - 1]))
  }

  /** Q holds of every event of the run and the state that it meets. */
  ghost predicate Each(q: (State, Event) -> bool, s: State, events: seq<Event>) {
    events != [] ==>
      Each(q, s, events[..|events| - 1]) && q(After(s, events[..|events| - 1]), events[|events| - 1])
  }

  /** The state of a service that was just created. */
  predicate Initial(s: State) {
    !s.uploadFailed && !s.forceSync && !s.toServerRequested && !s.fromServerRequested
  }

  /** The step is an upload that empties a tracker with modifications in it. */
  predicate Uploads(s: State, e: Event) {
    e.Tick? && s.toServerRequested && e.uploads && s.tracker != map[]
  }

  /** The step replicates the server's configuration to the end. */
  predicate Replicates(s: State, e: Event) {
    && e.Tick? && !s.toServerRequested && s.fromServerRequested && !s.uploadFailed
    && e.download.answers && (s.forceSync || e.download.differs) && e.download.completes
  }

  // ----- requests -----

  /** A requested sync to the server is the next thing the loop does, and it either empties the tracker or, where
      something is pending, sets the error. */
  lemma UploadServed(s: State, uploads: bool, d: Download)
    ensures var n := After(s, [SyncConfigToServer, Tick(uploads, d)]);
      && (n.tracker == if uploads then map[] else s.tracker)
      && (n.uploadFailed <==> s.tracker != map[] && !uploads)
      && !n.toServerRequested && n.fromServerRequested == s.fromServerRequested
      && n.cached == s.cached && n.forceSync == s.forceSync
  {
    var events := [SyncConfigToServer, Tick(uploads, d)];
    assert events[..1] == [SyncConfigToServer] && [SyncConfigToServer][..0] == [];
    assert After(s, [SyncConfigToServer]) == Next(s, SyncConfigToServer);
  }

  /** A requested sync from the server waits for one to the server. Then the configuration is cached exactly if
      the upload worked, the server answers, and either nothing asks for a replication or it completes. */
  lemma DownloadServed(s: State, request: Event, uploads: bool, d: Download, e: Download)
    requires request == SyncConfigFromServer || request.SyncConfig?
    requires s.toServerRequested || request.SyncConfig?
    ensures var n, force := After(s, [request, Tick(uploads, e), Tick(uploads, d)]),
                            if request.SyncConfig? then request.force else s.forceSync;
      && !n.toServerRequested && !n.fromServerRequested
      && (s.tracker != map[] && !uploads ==> n.uploadFailed && n.cached == s.cached && n.tracker == s.tracker)
      && (s.tracker == map[] || uploads ==>
            && !n.uploadFailed && (n.cached <==> d.answers && ((!force && !d.differs) || d.completes))
            && (n.forceSync <==> if d.answers then (force || d.differs) && !d.completes else force)
            && (n.tracker == if d.answers && (force || d.differs) then d.recorded else map[]))
  {
    var events := [request, Tick(uploads, e), Tick(uploads, d)];
    assert events[..2] == [request, Tick(uploads, e)] && [request, Tick(uploads, e)][..1] == [request];
    assert [request][..0] == [];
    assert After(s, [request]) == Next(s, request);
    assert After(s, [request, Tick(uploads, e)]) == Next(Next(s, request), Tick(uploads, e));
  }

  // ----- a failed upload -----

  /** A failed upload always has modifications that wait for the next one. */
  lemma {:induction false} FailureKeepsModifications(s: State, events: seq<Event>)
    requires Initial(s)
    ensures After(s, events).uploadFailed ==> After(s, events).tracker != map[]
  {
    hide Step;
    if events != [] {
      var before, e := After(s, events[..|events| - 1]), events[|events| - 1];
      FailureKeepsModifications(s, events[..|events| - 1]);
      if e.LocalChange? {
        ChangeKeepsPending(Cache(e.work, before.tracker), e.change);
      }
    }
  }

  lemma ChangeKeepsPending(s: Cache, ch: Change)
    ensures s.tracker.Keys <= Step(s, ch).tracker.Keys
  {
  }

  /** Until an upload succeeds, no modification leaves the tracker and a configuration that is not cached does
      not become cached. */
  lemma {:induction false} FailedUploadBlocks(s: State, events: seq<Event>)
    requires s.uploadFailed && s.tracker != map[]
    requires forall k :: 0 <= k < |events| ==> !Uploads(After(s, events[..k]), events[k])
    ensures After(s, events).uploadFailed
    ensures s.tracker.Keys <= After(s, events).tracker.Keys
    ensures After(s, events).cached ==> s.cached
  {
    hide Next;
    if events != [] {
      var n := |events| - 1;
      forall k | 0 <= k < n
        ensures !Uploads(After(s, events[..n][..k]), events[..n][k])
      {
        assert events[..n][..k] == events[..k];
      }
      FailedUploadBlocks(s, events[..n]);
      assert After(s, events[..n]).tracker != map[] by {
        var id :| id in s.tracker;
        assert id in After(s, events[..n]).tracker;
      }
      assert !Uploads(After(s, events[..n]), events[n]);
      BlockedStep(After(s, events[..n]), events[n]);
    }
  }

  lemma BlockedStep(s: State, e: Event)
    requires s.uploadFailed && s.tracker != map[] && !Uploads(s, e)
    ensures Next(s, e).uploadFailed && (Next(s, e).cached ==> s.cached)
    ensures s.tracker.Keys <= Next(s, e).tracker.Keys
  {
    hide Step;
    if e.LocalChange? {
      ChangeKeepsPending(Cache(e.work, s.tracker), e.change);
    }
  }

  // ----- a faulty configuration -----

  predicate Faulty(s: State) {
    s.forceSync && !s.cached
  }

  /** A step that replicates nothing takes the faulty mark away exactly if it is a `syncConfig` without force. */
  lemma FaultyStepIff(s: State, e: Event)
    requires Faulty(s) && !Replicates(s, e)
    ensures Faulty(Next(s, e)) <==> e != SyncConfig(false)
  {
    hide Step;
  }

  predicate ReplicatesNothing(s: State, e: Event) {
    !Replicates(s, e)
  }

  predicate NotUnforced(s: State, e: Event) {
    e != SyncConfig(false)
  }

  /** After `setFaulty`, in a run without a completed replication, the configuration stays marked as faulty and
      not cached throughout exactly if nobody calls `syncConfig` without force. */
  lemma {:induction false} FaultyThroughoutIff(s: State, events: seq<Event>)
    requires Faulty(s) && Each(ReplicatesNothing, s, events)
    ensures Throughout(Faulty, s, events) <==> Each(NotUnforced, s, events)
  {
    hide Next, Replicates, Faulty;
    if events != [] {
      var n := |events| - 1;
      FaultyThroughoutIff(s, events[..n]);
      if Throughout(Faulty, s, events[..n]) {
        assert Faulty(After(s, events[..n]));
        FaultyStepIff(After(s, events[..n]), events[n]);
      }
    }
  }

  /** The cache turns faulty, then a sync in both directions is requested and carried out. */
  function FaultyThenSync(force: bool, d: Download): seq<Event> {
    [SetFaulty, SyncConfig(force), Tick(true, d), Tick(true, d)]
  }

  /** `syncConfig` overwrites the mark: one call without force makes a faulty configuration count as cached
      although nothing was replicated. A call with force keeps the mark. */
  lemma SyncConfigForgetsFaulty(s: State, force: bool, d: Download)
    requires !s.uploadFailed && s.tracker == map[] && d.answers && !d.differs
    ensures After(s, FaultyThenSync(force, d)).cached <==> !force || d.completes
    ensures !force ==> forall k :: 0 <= k < 4 ==>
              !Replicates(After(s, FaultyThenSync(force, d)[..k]), FaultyThenSync(force, d)[k])
  {
    var events := FaultyThenSync(force, d);
    assert events[..3][..2] == events[..2] && events[..2][..1] == events[..1] && events[..1][..0] == [];
    var s1 := Next(s, SetFaulty);
    assert After(s, events[..1]) == s1;
    var s2 := Next(s1, SyncConfig(force));
    assert After(s, events[..2]) == s2;
    var s3 := Next(s2, Tick(true, d));
    assert After(s, events[..3]) == s3;
    assert After(s, events) == Next(s3, Tick(true, d));
  }

  // ----- pending modifications -----

  /** The step throws pending modifications away without an upload. */
  predicate Drops(s: State, e: Event) {
    && e.Tick? && !s.toServerRequested && s.fromServerRequested && !s.uploadFailed && s.tracker != map[]
    && e.download.answers && (s.forceSync || e.download.differs)
  }

  /** The next round of the loop may throw pending modifications away. */
  ghost predicate AtRisk(s: State) {
    exists uploads, d :: Drops(s, Tick(uploads, d))
  }

  /** Where a sync from the server waits, a sync to the server goes first, the last one failed or nothing is
      pending. */
  predicate UploadFirst(s: State) {
    s.fromServerRequested ==> s.toServerRequested || s.uploadFailed || s.tracker == map[]
  }

  lemma AtRiskIff(s: State)
    ensures AtRisk(s) <==> !UploadFirst(s)
  {
    if !UploadFirst(s) {
      assert Drops(s, Tick(true, Download(true, true, true, map[])));
    }
  }

  /** A sync from the server alone is requested only where a sync to the server waits, the last one failed or
      nothing is pending. While only a sync from the server waits and no upload failed, no modification is made. */
  predicate Orderly(s: State, e: Event) {
    && (e.SyncConfigFromServer? ==> s.toServerRequested || s.uploadFailed || s.tracker == map[])
    && (e.LocalChange? && s.fromServerRequested && !s.toServerRequested && !s.uploadFailed ==>
          Step(Cache(e.work, s.tracker), e.change).tracker == map[])
  }

  lemma OrderlyStepIff(s: State, e: Event)
    requires UploadFirst(s)
    ensures UploadFirst(Next(s, e)) <==> Orderly(s, e)
  {
    hide Step;
  }

  ghost predicate Safe(s: State) {
    !AtRisk(s)
  }

  /** In no state of a run pending modifications are at risk exactly if every request and every change of the
      run is orderly. */
  lemma {:induction false} NothingAtRiskIff(s: State, events: seq<Event>)
    requires Initial(s)
    ensures Throughout(Safe, s, events) <==> Each(Orderly, s, events)
  {
    hide Next, Orderly, AtRisk, UploadFirst;
    if events == [] {
      AtRiskIff(s);
      NothingRequested(s);
    } else {
      var n := |events| - 1;
      NothingAtRiskIff(s, events[..n]);
      AtRiskIff(After(s, events[..n]));
      AtRiskIff(After(s, events));
      if Throughout(Safe, s, events[..n]) {
        assert Safe(After(s, events[..n]));
        OrderlyStepIff(After(s, events[..n]), events[n]);
      }
    }
  }

  lemma NothingRequested(s: State)
    requires Initial(s)
    ensures UploadFirst(s)
  {
  }

  /** So an orderly run never drops a pending modification, at whatever point the next round of the loop comes. */
  lemma OrderlyRunsDropNothing(s: State, events: seq<Event>, e: Event)
    requires Initial(s) && Each(Orderly, s, events)
    ensures !Drops(After(s, events), e)
  {
    hide Next, After, Orderly, Initial;
    NothingAtRiskIff(s, events);
    assert Safe(After(s, events));
    assert e.Tick? ==> e == Tick(e.uploads, e.download);
  }

  /** A request for a sync from the server alone drops what is pending. */
  lemma DownloadAloneDrops(s: State, id: Ident, attributes: Attributes, work: Objects, uploads: bool, d: Download)
    requires Initial(s) && d.answers && d.differs && d.completes && id !in d.recorded
    ensures var change := LocalChange(Change.UpdateObject(id, attributes), work);
      var events := [change, SyncConfigFromServer, Tick(uploads, d)];
      id in After(s, events[..2]).tracker && id !in After(s, events).tracker
  {
    var events := [LocalChange(Change.UpdateObject(id, attributes), work), SyncConfigFromServer, Tick(uploads, d)];
    assert events[..2][..1] == events[..1] && events[..1][..0] == [];
    assert After(s, events[..1]) == Next(s, events[0]);
    assert After(s, events[..2]) == Next(Next(s, events[0]), events[1]);
  }
}
