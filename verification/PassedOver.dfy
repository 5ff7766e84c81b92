/** A hard dependency that the expansion passes over, and what becomes of the order of actions
    (opsiclientd/nonfree/RPCProductDependencyMixin.py). */
module PassedOver {
  import opened ActionGroupOrder
  import opened ActionGroups
  import opened ActionPlans
  import opened ActionSorters
  import opened Common
  import opened DependencyRecords
  import opened DependencyTables
  import opened DependencyWalks
  import opened Gathering
  import opened Graph
  import opened ProductActionGroups
  import opened ProductIdGroups

  const VERSION := DepotVersion("1", "1")

  /** "p" requires "x", and it requires "q" before itself; "x" requires "q", too. */
  const P_ON_X := Dependency("setup", "x", "", "", "setup", "", Soft)
  const P_ON_Q := Dependency("setup", "q", "", "", "setup", "", Before)
  const X_ON_Q := Dependency("setup", "q", "", "", "setup", "", Soft)

  const TABLES := Tables(
    map["p" := VERSION, "x" := VERSION, "q" := VERSION],
    map[("p", VERSION) := Product(10, {"setup"}), ("x", VERSION) := Product(0, {"setup"}),
      ("q", VERSION) := Product(0, {"setup"})],
    map[("p", VERSION) := [P_ON_X, P_ON_Q], ("x", VERSION) := [X_ON_Q]],
    map[])

  const REQUEST := ProductOnClient("p", "setup", "not_installed", "", "")
  const REQUESTED := Action("p", "setup", 10, Some(REQUEST))

  lemma NamesDiffer()
    ensures "p" != "x" && "p" != "q" && "x" != "q"
  {
    assert "p"[0] != "x"[0] && "p"[0] != "q"[0] && "x"[0] != "q"[0];
  }

  lemma TableEntries()
    ensures TABLES.Available("p") && TABLES.Available("x") && TABLES.Available("q")
    ensures TABLES.DependenciesFrom("p") == [P_ON_X, P_ON_Q]
    ensures TABLES.DependenciesFrom("x") == [X_ON_Q] && TABLES.DependenciesFrom("q") == []
    ensures TABLES.Demand(P_ON_X) == TABLES.Demand(P_ON_Q) == TABLES.Demand(X_ON_Q) == Need("setup")
    ensures TABLES.ProductOf("p").priority == 10 &&
              TABLES.ProductOf("x").priority == TABLES.ProductOf("q").priority == 0
  {
    NamesDiffer();
  }

  lemma WalkOfQ(path: seq<ProductId>)
    requires "q" !in path
    ensures WalkFrom(TABLES, "q", "setup", path) == Walk(path + ["q"], [])
  {
    TableEntries();
    AlongNothing(TABLES, "q", "setup", path + ["q"]);
  }

  lemma WalkOfX(path: seq<ProductId>)
    requires path == ["p"]
    ensures WalkFrom(TABLES, "x", "setup", path) == Walk(["p", "x", "q"], [Step("x", X_ON_Q)])
  {
    hide Tables.Demand, Tables.Available, Tables.DependenciesFrom;
    NamesDiffer();
    TableEntries();
    var next := path + ["x"];
    WalkOfQ(next);
    assert WalkOne(TABLES, "x", "setup", X_ON_Q, next) == Walk(["p", "x", "q"], [Step("x", X_ON_Q)]);
    AlongHead(TABLES, "x", "setup", [X_ON_Q], next);
    AlongNothing(TABLES, "x", "setup", ["p", "x", "q"]);
  }

  /** The walk comes to "q" through "x", so that it passes over the dependency of "p" on "q". */
  lemma WalkOfP()
    ensures WalkFrom(TABLES, "p", "setup", []) == Walk(["p", "x", "q"], [Step("p", P_ON_X), Step("x", X_ON_Q)])
  {
    hide Tables.Demand, Tables.Available, Tables.DependenciesFrom;
    NamesDiffer();
    TableEntries();
    WalkOfX(["p"]);
    var path := ["p", "x", "q"];
    assert [] + ["p"] == ["p"];
    assert WalkOne(TABLES, "p", "setup", P_ON_X, ["p"]) == Walk(path, [Step("p", P_ON_X), Step("x", X_ON_Q)]);
    assert WalkOne(TABLES, "p", "setup", P_ON_Q, path) == Walk(path, []);
    AlongHead(TABLES, "p", "setup", [P_ON_X, P_ON_Q], ["p"]);
    AlongHead(TABLES, "p", "setup", [P_ON_Q], path);
    AlongNothing(TABLES, "p", "setup", path);
  }

  lemma StepsOfRequest()
    ensures RequestedActions(TABLES, [REQUEST]) == {REQUESTED}
    ensures Steps(TABLES, [REQUEST]) == [Step("p", P_ON_X), Step("x", X_ON_Q)]
  {
    hide Tables.Demand, Tables.Available, Tables.DependenciesFrom, WalkFrom, AppendAll;
    TableEntries();
    WalkOfP();
    RequestLists();
    var u: Unsorted := map["p" := [REQUESTED]];
    ListHead(TABLES, "p", [REQUESTED]);
    ListHead(TABLES, "p", []);
    assert [REQUESTED][1..] == [];
    ExpandHead(TABLES, ["p"], u);
    assert ["p"][1..] == [];
    assert RequestedActions(TABLES, [REQUEST]) == {REQUESTED} by {
      assert [REQUEST][0] == REQUEST && RequestedAction(TABLES, REQUEST) == REQUESTED;
    }
  }

  /** The dependency is hard, triggered by the requested action and can be met, and both products are collected.
      Yet it is not recorded. */
  lemma HardDependencyPassedOver()
    ensures REQUESTED in RequestedActions(TABLES, [REQUEST]) && TABLES.Triggers(REQUESTED, P_ON_Q) &&
              IsHard(TABLES, P_ON_Q)
    ensures "p" in Gathered(TABLES, [REQUEST]) && "q" in Gathered(TABLES, [REQUEST])
    ensures RecordedFor(TABLES, [REQUEST]) == map[]
  {
    hide Tables.Demand, Tables.Available, Tables.DependenciesFrom, AppendAll;
    TableEntries();
    StepsOfRequest();
    GatheredFollows(TABLES, [REQUEST]);
    assert IsIn(Gathered(TABLES, [REQUEST]), REQUESTED);
    var steps := Steps(TABLES, [REQUEST]);
    assert steps[1] in steps;
    AppendAllHas(TABLES, RequestedLists(TABLES, [REQUEST]), steps, steps[1]);
    assert steps[1..] == [steps[1]];
    assert RecordStep(TABLES, map[], steps[0]) == RecordStep(TABLES, map[], steps[1]) == map[];
    OneStep(TABLES, true, map[], map[], steps[1]);
  }

  // ----- the order of the actions -----

  /** A product that no recorded dependency touches is a group of its own. */
  lemma SingleGroup(merged: Merged, components: Groups, groups: seq<GroupResult>, p: ProductId) returns (n: nat)
    requires Components(components, {}) && PlannedGroups(groups, components, merged, map[]) && p in merged
    ensures n < |groups| && groups[n] == Alone(merged[p])
  {
    var parts, rest :| Parts(parts, components, rest, merged, map[]) && groups == SortByPriority(parts);
    SortByPriorityMeaning(parts);
    if p in UnionOf(components) {
      var i :| 0 <= i < |components| && p in components[i];
      assert Together(components, p, p);
      assert false;
    }
    var j :| 0 <= j < |rest| && rest[j] == p;
    assert parts[|components| + j] in multiset(groups);
    n :| 0 <= n < |groups| && groups[n] == Alone(merged[p]);
  }

  lemma MergedPriorities(collected: Unsorted)
    requires collected == Gathered(TABLES, [REQUEST]) && Named(collected)
    ensures "p" in MergedActions(collected) && MergedActions(collected)["p"].priority == 10
    ensures "q" in MergedActions(collected) && MergedActions(collected)["q"].priority == 0
  {
    hide Tables.Demand, Tables.Available, Tables.DependenciesFrom, AppendAll, WalkFrom;
    NamesDiffer();
    TableEntries();
    StepsOfRequest();
    HardDependencyPassedOver();
    var u, steps := RequestedLists(TABLES, [REQUEST]), Steps(TABLES, [REQUEST]);
    RequestLists();
    AppendAllKeeps(TABLES, u, steps, "p");
    MergedActionMeaning(collected["p"]);
    MergedActionMeaning(collected["q"]);
    forall k | 0 <= k < |collected["q"]|
      ensures collected["q"][k].priority == 0
    {
      AppendAllNew(TABLES, u, steps, "q", k);
    }
  }

  lemma RequestLists()
    ensures RequestedLists(TABLES, [REQUEST]) == map["p" := [REQUESTED]] && RequestedOrder(TABLES, [REQUEST]) == ["p"]
  {
    TableEntries();
    NothingRequested(TABLES);
    RequestedStep(TABLES, [REQUEST], 0);
    assert [REQUEST][..0] == [] && [REQUEST][..1] == [REQUEST];
    assert [] + [REQUESTED] == [REQUESTED];
  }

  lemma AlonePriority(a: Action)
    ensures Alone(a).priority == a.priority
  {
    assert [a][..|[a]| - 1] == [];
    assert GroupPriority([a]) == CombinePriority(GroupPriority([]), a.priority);
  }

  /** In every plan for the request the group of "p" comes before that of "q", although "p" requires "q" before
      itself: the priority decides. */
  lemma PassedOverOrder(collected: Unsorted, components: Groups, deps: Dependencies, groups: seq<GroupResult>)
    returns (i: nat, j: nat)
    requires PlanOf(TABLES, [REQUEST], collected, components, deps, groups)
    ensures i < j < |groups| && "p" in Ids(groups[i].actions) && "q" in Ids(groups[j].actions)
  {
    hide Gathered, RecordedFor, PlannedGroups, Flatten, Lists, MergedActions, GroupPriority, Components,
      Tables.Available, Tables.Demand;
    HardDependencyPassedOver();
    MergedPriorities(collected);
    MergedNames(collected);
    EachProductOnce(TABLES, [REQUEST], collected, components, deps, groups);
    assert Links(map[]) == {};
    AlonePriority(MergedActions(collected)["p"]);
    AlonePriority(MergedActions(collected)["q"]);
    i := SingleGroup(MergedActions(collected), components, groups, "p");
    j := SingleGroup(MergedActions(collected), components, groups, "q");
    assert groups[i].actions[0].productId == "p" && groups[j].actions[0].productId == "q";
  }
}
