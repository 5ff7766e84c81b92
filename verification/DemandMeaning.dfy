/** What dependencies ask for and what is collected for them, in terms of the product tables themselves
    (opsiclientd/nonfree/RPCProductDependencyMixin.py). */
module DemandMeanings {
  import opened ActionGroups
  import opened Common
  import opened DependencyTables
  import opened DependencyWalks
  import opened DependencyRecords
  import opened Gathering

  // ----- the tables -----

  /** The installation status that an action leaves behind. */
  function StatusAfter(action: string): Option<string> {
    if action == "setup" then Some("installed")
    else if action == "uninstall" then Some("not_installed")
    else None
  }

  predicate OnDepot(t: Tables, p: ProductId) {
    p in t.depot && (p, t.depot[p]) in t.products
  }

  predicate HasScript(t: Tables, p: ProductId, action: string) {
    OnDepot(t, p) && action in t.products[(p, t.depot[p])].scripts
  }

  /** The required product is on the depot, in the versions that are asked for. */
  predicate Offered(t: Tables, d: Dependency) {
    && OnDepot(t, d.requiredProductId)
    && d.requiredProductVersion in {"", t.depot[d.requiredProductId].productVersion}
    && d.requiredPackageVersion in {"", t.depot[d.requiredProductId].packageVersion}
  }

  /** The client already has the required status, and no version is known to be another one. */
  predicate InPlace(t: Tables, d: Dependency) {
    if d.requiredProductId in t.clients then
      var c := t.clients[d.requiredProductId];
      && c.installationStatus == d.requiredInstallationStatus
      && (d.requiredProductVersion != "" && c.productVersion != "" ==> d.requiredProductVersion == c.productVersion)
      && (d.requiredPackageVersion != "" && c.packageVersion != "" ==> d.requiredPackageVersion == c.packageVersion)
    else d.requiredInstallationStatus == "not_installed"
  }

  /** The dependency is not in place, and no action leads to the status that it requires. */
  predicate BadStatus(t: Tables, d: Dependency) {
    && Offered(t, d) && d.requiredAction == "" && !InPlace(t, d)
    && d.requiredInstallationStatus != "installed" && d.requiredInstallationStatus != "not_installed"
  }

  /** The dependency asks for this action: the one it names, or the one that leads to the required status where
      that is not in place; and the product has a script for it. */
  predicate Asks(t: Tables, d: Dependency, action: string) {
    && Offered(t, d) && HasScript(t, d.requiredProductId, action)
    && if d.requiredAction != "" then action == d.requiredAction
       else !InPlace(t, d) && StatusAfter(action) == Some(d.requiredInstallationStatus)
  }

  /** Action a triggers dependency d. */
  ghost predicate Causes(t: Tables, a: Action, d: Dependency) {
    && OnDepot(t, a.productId)
    && (a.productId, t.depot[a.productId]) in t.dependencies
    && d in t.dependencies[(a.productId, t.depot[a.productId])]
    && d.productAction == a.action
  }

  // ----- what one dependency asks for -----

  lemma DemandIff(t: Tables, d: Dependency, action: string)
    ensures t.Demand(d) == Need(action) <==> Asks(t, d, action)
  {
  }

  /** Nothing is demanded exactly where the product is not offered, the client is in place already, no action
      leads to the required status, or the script is missing. */
  lemma NothingDemandedIff(t: Tables, d: Dependency)
    ensures t.Demand(d) == NotAvailable <==> !Offered(t, d)
    ensures t.Demand(d) == AlreadyFulfilled <==> Offered(t, d) && d.requiredAction == "" && InPlace(t, d)
    ensures t.Demand(d) == InvalidStatus <==> BadStatus(t, d)
    ensures t.Demand(d) == MissingScript <==>
              && Offered(t, d) && !BadStatus(t, d) && !(d.requiredAction == "" && InPlace(t, d))
              && (forall action :: HasScript(t, d.requiredProductId, action) ==>
                                     if d.requiredAction != "" then action != d.requiredAction
                                     else StatusAfter(action) != Some(d.requiredInstallationStatus))
  {
    assert StatusAfter("setup") == Some("installed") && StatusAfter("uninstall") == Some("not_installed");
    assert HasScript(t, d.requiredProductId, d.requiredAction) || !HasScript(t, d.requiredProductId, d.requiredAction);
    assert HasScript(t, d.requiredProductId, "setup") || !HasScript(t, d.requiredProductId, "setup");
    assert HasScript(t, d.requiredProductId, "uninstall") || !HasScript(t, d.requiredProductId, "uninstall");
  }

  // ----- what is collected -----

  /** The action of the i-th requested product on client; an unset request counts as "none". */
  predicate IsRequest(t: Tables, requested: seq<ProductOnClient>, i: nat, b: Action)
    requires i < |requested|
  {
    var poc := requested[i];
    && OnDepot(t, poc.productId) && b.productId == poc.productId && b.productOnClient == Some(poc)
    && b.priority == t.products[(poc.productId, t.depot[poc.productId])].priority
    && b.action == if poc.actionRequest == "" then "none" else poc.actionRequest
  }

  ghost predicate IsRequested(t: Tables, requested: seq<ProductOnClient>, b: Action) {
    exists i :: 0 <= i < |requested| && IsRequest(t, requested, i, b)
  }

  predicate AsksFor(t: Tables, d: Dependency, b: Action) {
    && Asks(t, d, b.action) && b.productId == d.requiredProductId && b.productOnClient == None
    && b.priority == t.products[(b.productId, t.depot[b.productId])].priority
  }

  ghost predicate AskedBy(t: Tables, steps: seq<Step>, b: Action) {
    exists s :: s in steps && AsksFor(t, s.d, b)
  }

  ghost predicate AskedIn(t: Tables, u: Unsorted, b: Action) {
    exists a, d :: IsIn(u, a) && Causes(t, a, d) && AsksFor(t, d, b)
  }

  lemma RequestedIff(t: Tables, requested: seq<ProductOnClient>, b: Action)
    ensures b in RequestedActions(t, requested) <==> IsRequested(t, requested, b)
  {
    forall i | 0 <= i < |requested|
      ensures IsRequest(t, requested, i, b) <==>
                t.Available(requested[i].productId) && b == RequestedAction(t, requested[i])
    {
    }
  }

  lemma AsksForIff(t: Tables, d: Dependency, b: Action)
    ensures AsksFor(t, d, b) <==> t.Demand(d).Need? && RequiredAction(t, d) == b
  {
    hide Asks;
    DemandIff(t, d, b.action);
    if t.Demand(d).Need? {
      DemandIff(t, d, t.Demand(d).action);
    }
  }

  lemma CausesIff(t: Tables, a: Action, d: Dependency)
    ensures Causes(t, a, d) <==> t.Triggers(a, d)
  {
  }

  lemma {:induction false} RequestedListsNew(t: Tables, requested: seq<ProductOnClient>, b: Action)
    ensures IsIn(RequestedLists(t, requested), b) ==> b in RequestedActions(t, requested)
  {
    if requested != [] {
      var n := |requested| - 1;
      RequestedListsNew(t, requested[..n], b);
      RequestedActionsStep(t, requested, n);
      assert requested[..n + 1] == requested;
    }
  }

  /** What is collected: exactly the requests for products on the depot and what the dependencies that are
      followed ask for. */
  lemma GatheredIff(t: Tables, requested: seq<ProductOnClient>, b: Action)
    ensures IsIn(Gathered(t, requested), b) <==>
              IsRequested(t, requested, b) || AskedBy(t, Steps(t, requested), b)
  {
    hide RequestedLists, RequestedActions, AsksFor, IsRequested, AppendAll, Steps;
    var u, steps := RequestedLists(t, requested), Steps(t, requested);
    RequestedIff(t, requested, b);
    GatheredFollows(t, requested);
    if AskedBy(t, steps, b) {
      var s :| s in steps && AsksFor(t, s.d, b);
      AsksForIff(t, s.d, b);
      AppendAllHas(t, u, steps, s);
    }
    if IsIn(Gathered(t, requested), b) && b !in RequestedActions(t, requested) {
      RequestedListsNew(t, requested, b);
      NewIsAsked(t, u, steps, b);
    }
  }

  lemma NewIsAsked(t: Tables, u: Unsorted, steps: seq<Step>, b: Action)
    requires IsIn(AppendAll(t, u, steps), b) && !IsIn(u, b)
    ensures AskedBy(t, steps, b)
  {
    hide AsksFor;
    var v := AppendAll(t, u, steps);
    AppendAllExtends(t, u, steps);
    var k :| 0 <= k < |v[b.productId]| && v[b.productId][k] == b;
    AppendAllNew(t, u, steps, b.productId, k);
    var s :| s in steps && t.Demand(s.d).Need? && RequiredAction(t, s.d) == b;
    AsksForIff(t, s.d, b);
  }

  /** Every collected action was requested, or some collected action triggers a dependency that asks for it. */
  lemma GatheredAsked(t: Tables, requested: seq<ProductOnClient>, b: Action)
    requires IsIn(Gathered(t, requested), b)
    ensures IsRequested(t, requested, b) || AskedIn(t, Gathered(t, requested), b)
  {
    hide IsRequested, AsksFor, Causes, Gathered, Steps;
    GatheredIff(t, requested, b);
    GatheredFollows(t, requested);
    if !IsRequested(t, requested, b) {
      var s :| s in Steps(t, requested) && AsksFor(t, s.d, b);
      assert Reached(t, Gathered(t, requested), s);
      var a :| IsIn(Gathered(t, requested), a) && a.productId == s.p && t.Triggers(a, s.d);
      CausesIff(t, a, s.d);
    }
  }

  /** So an action that a status asks for leads to that status, on a client that is not in place. */
  lemma GatheredLeadsToStatus(t: Tables, requested: seq<ProductOnClient>, b: Action)
    requires IsIn(Gathered(t, requested), b) && !IsRequested(t, requested, b)
    ensures exists a, d ::
              && IsIn(Gathered(t, requested), a) && Causes(t, a, d) && d.requiredProductId == b.productId
              && HasScript(t, b.productId, b.action)
              && (d.requiredAction == b.action || (d.requiredAction == "" && !InPlace(t, d) &&
                                                  StatusAfter(b.action) == Some(d.requiredInstallationStatus)))
  {
    hide IsRequested, Causes, Gathered, Offered, InPlace, HasScript, StatusAfter;
    GatheredAsked(t, requested, b);
    var a, d :| IsIn(Gathered(t, requested), a) && Causes(t, a, d) && AsksFor(t, d, b);
  }

  /** Of every dependency that a collected action triggers the required product is collected, or the dependency
      asks for nothing. */
  lemma GatheredServes(t: Tables, requested: seq<ProductOnClient>, a: Action, d: Dependency)
    requires IsIn(Gathered(t, requested), a) && Causes(t, a, d)
    ensures d.requiredProductId in Gathered(t, requested) || forall action :: !Asks(t, d, action)
  {
    hide Gathered, Causes, Asks, AllClosed;
    var u := Gathered(t, requested);
    CausesIff(t, a, d);
    GatheredClosed(t, requested);
    ClosedAt(t, u, a);
    forall action | Asks(t, d, action)
      ensures d.requiredProductId in u
    {
      DemandIff(t, d, action);
    }
  }

  lemma ClosedAt(t: Tables, u: Unsorted, a: Action)
    requires AllClosed(t, u) && IsIn(u, a)
    ensures ClosedFor(t, u, a)
  {
    hide ClosedFor;
    var k :| 0 <= k < |u[a.productId]| && u[a.productId][k] == a;
  }

  /** A dependency is recorded for the order exactly if it was followed, names a direction and its product is
      offered; whether it asks for anything does not matter. */
  lemma RecordedIffOffered(t: Tables, requested: seq<ProductOnClient>, p: ProductId, d: Dependency)
    ensures d in DependenciesOf(RecordedFor(t, requested), p) <==>
              Step(p, d) in Steps(t, requested) && d.direction in {Before, After} && Offered(t, d)
  {
    hide RecordedFor, Steps, Offered;
    RecordedIff(t, requested, p, d);
    NothingDemandedIff(t, d);
  }

  // ----- when gathering fails -----

  /** Gathering succeeds exactly if no dependency that is followed requires a status that no action leads to,
      and every requested product and every product of a dependency that is followed is on the depot or that is
      ignored. An error has one of these causes. */
  lemma GatherFailsIff(t: Tables, ignoreUnavailable: bool, requested: seq<ProductOnClient>)
    ensures GatherOutcome(t, ignoreUnavailable, requested) == Done <==>
              && (forall s :: s in Steps(t, requested) ==> !BadStatus(t, s.d))
              && (ignoreUnavailable || AllOffered(t, requested))
    ensures GatherOutcome(t, ignoreUnavailable, requested) == ProductNotAvailable ==>
              !ignoreUnavailable && !AllOffered(t, requested)
    ensures GatherOutcome(t, ignoreUnavailable, requested) == InvalidInstallationStatus ==>
              exists s :: s in Steps(t, requested) && BadStatus(t, s.d)
  {
    hide GatherOutcome, Steps, Offered, BadStatus;
    GatherOutcomeIff(t, ignoreUnavailable, requested);
    forall s | s in Steps(t, requested)
      ensures t.Demand(s.d) == NotAvailable <==> !Offered(t, s.d)
      ensures t.Demand(s.d) == InvalidStatus <==> BadStatus(t, s.d)
    {
      NothingDemandedIff(t, s.d);
    }
    assert AllAvailable(t, requested) <==> forall i :: 0 <= i < |requested| ==> OnDepot(t, requested[i].productId);
  }

  ghost predicate AllOffered(t: Tables, requested: seq<ProductOnClient>) {
    && (forall i :: 0 <= i < |requested| ==> OnDepot(t, requested[i].productId))
    && (forall s :: s in Steps(t, requested) ==> Offered(t, s.d))
  }
}
