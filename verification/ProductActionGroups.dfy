/** `get_product_action_groups` for one client, and what its result guarantees
    (opsiclientd/nonfree/RPCProductDependencyMixin.py). */
module ProductActionGroups {
  import opened ActionGroupOrder
  import opened ActionGroups
  import opened ActionPlans
  import opened ActionSorters
  import opened DependencyRecords
  import opened DependencyTables
  import opened DependencyWalks
  import opened Gathering
  import opened Graph
  import opened ProductIdGroups

  method GetProductActionGroups(tables: Tables, ignoreUnavailable: bool, requested: seq<ProductOnClient>)
    returns (r: Outcome, out: seq<ProductActionGroup>, ghost collected: Unsorted, ghost components: Groups,
             ghost deps: Dependencies, ghost groups: seq<GroupResult>)
    ensures r == GatherOutcome(tables, ignoreUnavailable, requested)
    ensures r == Done ==> PlanOf(tables, requested, collected, components, deps, groups) && |out| == |groups|
    ensures r == Done ==> forall n :: 0 <= n < |groups| ==> out[n].priority == groups[n].priority
    ensures r == Done ==> forall n :: 0 <= n < |groups| ==>
              NumberedFrom(groups[n].actions, CountReal(Flatten(groups[..n])), out[n].scheduled)
  {
    hide GatherOutcome, PlanOf;
    out, components, deps, groups := [], [], map[], [];
    var sorter := new ActionSorter(tables, ignoreUnavailable);
    r, collected := sorter.ProcessProductOnClients(requested);
    if r == Done {
      components, deps, groups := sorter.productIdGroups, sorter.dependencies, sorter.groups;
      out := NumberGroups(sorter.groups);
    }
  }

  /** Every collected product is in the output exactly once, with the merged action of its list, and the
      groups come in descending priority. */
  lemma EachProductOnce(t: Tables, requested: seq<ProductOnClient>, collected: Unsorted, components: Groups,
                        deps: Dependencies, groups: seq<GroupResult>)
    requires PlanOf(t, requested, collected, components, deps, groups)
    ensures Lists(Flatten(groups), MergedActions(collected), collected.Keys)
    ensures Descending(groups)
  {
    var merged := MergedActions(collected);
    MergedNames(collected);
    var parts, rest :| Parts(parts, components, rest, merged, deps) && groups == SortByPriority(parts);
    PlanConserves(parts, components, rest, merged, deps);
  }

  lemma MergedNames(collected: Unsorted)
    requires Named(collected)
    ensures MergedActions(collected).Keys == collected.Keys
    ensures forall p :: p in collected ==> MergedActions(collected)[p].productId == p
  {
    forall p | p in collected
      ensures MergedActions(collected)[p].productId == p
    {
      LastRealMember(collected[p], collected[p][0]);
    }
  }

  /** An output group of the products ids is either a sorted component or a single product. */
  ghost predicate IsGroup(g: GroupResult, ids: set<ProductId>, components: Groups, merged: Merged, deps: Dependencies) {
    || (exists c :: c in components && ids == c * merged.Keys && BuiltFrom(g, merged, ids, deps))
    || (exists p :: p in merged && ids == {p} && p !in UnionOf(components) && g == Alone(merged[p]))
  }

  lemma GroupKinds(parts: seq<GroupResult>, components: Groups, rest: seq<ProductId>, merged: Merged,
                   deps: Dependencies,
                   groups: seq<GroupResult>, g: GroupResult)
    returns (ids: set<ProductId>)
    requires Parts(parts, components, rest, merged, deps) && groups == SortByPriority(parts) && g in groups
    ensures IsGroup(g, ids, components, merged, deps)
  {
    SortByPriorityMeaning(parts);
    assert g in multiset(parts);
    var i :| 0 <= i < |parts| && parts[i] == g;
    if i < |components| {
      ids := components[i] * merged.Keys;
      assert components[i] in components;
    } else {
      var j := i - |components|;
      assert rest[j] in rest && parts[|components| + j] == Alone(merged[rest[j]]);
      ids := {rest[j]};
    }
  }

  lemma GroupOfComponent(parts: seq<GroupResult>, components: Groups, rest: seq<ProductId>, merged: Merged,
                         deps: Dependencies,
                         groups: seq<GroupResult>, i: nat)
    returns (n: nat)
    requires Parts(parts, components, rest, merged, deps) && groups == SortByPriority(parts) && i < |components|
    ensures n < |groups| && BuiltFrom(groups[n], merged, components[i] * merged.Keys, deps)
  {
    SortByPriorityMeaning(parts);
    assert parts[i] in multiset(groups);
    n :| 0 <= n < |groups| && groups[n] == parts[i];
  }

  /** The group's requirements can be met by moving each required product to one side. */
  ghost predicate Orderly(g: GroupResult) {
    AcyclicRequires(g.actions, g.dependencies) && OneSided(g.actions, g.dependencies) &&
      AfterPresent(g.actions, g.dependencies)
  }

  /** The guarantee for one group: products of its component, each once, and every recorded dependency of a
      product of the group known to the group. */
  lemma ComponentGroup(g: GroupResult, merged: Merged, ids: set<ProductId>, deps: Dependencies)
    requires BuiltFrom(g, merged, ids, deps)
    ensures Lists(g.actions, merged, ids) && g.dependencies == Restricted(deps, ids)
    ensures Orderly(g) ==> Satisfied(g.actions, g.dependencies)
  {
    BuiltLists(g, merged, ids, deps);
    var l :| Lists(l, merged, ids) && g == Grouped(l, Restricted(deps, ids));
    if Orderly(g) {
      ConditionsCarryOver(g.actions, l, g.dependencies);
      SortSatisfies(l, g.dependencies);
    }
  }

  lemma ConditionsCarryOver(l: seq<Action>, g: seq<Action>, deps: Dependencies)
    requires Ids(l) == Ids(g) && AcyclicRequires(l, deps) && OneSided(l, deps) && AfterPresent(l, deps)
    ensures AcyclicRequires(g, deps) && OneSided(g, deps) && AfterPresent(g, deps)
  {
    RequiresOnPermutation(l, g, deps);
    forall p, d, q, e | Hard(g, deps, p, d) && Hard(g, deps, q, e) && d.requiredProductId == e.requiredProductId
      ensures d.direction == e.direction
    {
      assert Hard(l, deps, p, d) && Hard(l, deps, q, e);
    }
  }

  /** A recorded dependency is a dependency of the group of its component. */
  lemma DependencyInGroup(t: Tables, g: GroupResult, merged: Merged, ids: set<ProductId>, deps: Dependencies,
                          p: ProductId, d: Dependency)
    requires BuiltFrom(g, merged, ids, deps) && WellRecorded(t, deps)
    requires p in ids && d in DependenciesOf(deps, p) && d.requiredProductId in ids
    ensures p in Ids(g.actions) && d.requiredProductId in Ids(g.actions)
    ensures Orderly(g) ==> Good(g.actions, d.direction, p, d.requiredProductId)
  {
    hide BuiltFrom, Orderly, Good, Lists;
    ComponentGroup(g, merged, ids, deps);
    assert Recordable(t, p, d);
    assert Hard(g.actions, g.dependencies, p, d);
  }

  lemma GoodInFlatten(gs: seq<GroupResult>, n: nat, k: Direction, p: ProductId, x: ProductId)
    requires n < |gs| && Distinct(Flatten(gs)) && Good(gs[n].actions, k, p, x)
    ensures Good(Flatten(gs), k, p, x) && NumbersAgree(Flatten(gs), k, p, x)
  {
    if k == Before {
      PrecedesInFlatten(gs, n, x, p);
    } else {
      PrecedesInFlatten(gs, n, p, x);
    }
    NumberingMeaning(Flatten(gs));
  }

  /** If both actions ask for something, their sequence numbers are ordered as the direction asks. */
  ghost predicate NumbersAgree(l: seq<Action>, k: Direction, p: ProductId, x: ProductId)
    requires Good(l, k, p, x)
  {
    var i, j := IndexOf(l, p), IndexOf(l, x);
    IsReal(l[i]) && IsReal(l[j]) ==>
      if k == Before then SequenceOf(l, j, 0) < SequenceOf(l, i, 0) else SequenceOf(l, i, 0) < SequenceOf(l, j, 0)
  }

  /** The main guarantee of the schedule. Both products of a recorded hard dependency that have an action are
      in one group, and unless the requirements of that group are cyclic, two-sided or absent, the required
      action stands on the right side of the requiring one in the output, and so does its number. */
  lemma HardDependencyScheduled(t: Tables, requested: seq<ProductOnClient>, collected: Unsorted, components: Groups,
                                deps: Dependencies, groups: seq<GroupResult>, p: ProductId, d: Dependency)
    returns (n: nat)
    requires PlanOf(t, requested, collected, components, deps, groups)
    requires p in collected && d in DependenciesOf(deps, p) && d.requiredProductId in collected
    ensures n < |groups| && p in Ids(groups[n].actions) && d.requiredProductId in Ids(groups[n].actions)
    ensures Orderly(groups[n]) ==> Good(Flatten(groups), d.direction, p, d.requiredProductId)
    ensures Orderly(groups[n]) ==> NumbersAgree(Flatten(groups), d.direction, p, d.requiredProductId)
  {
    hide Orderly, Good, NumbersAgree, Parts, Components, WellRecorded, Gathered, RecordedFor;
    hide Links, SortByPriority, Flatten, Lists, Descending;
    RecordedWell(t, requested);
    EachProductOnce(t, requested, collected, components, deps, groups);
    var parts, rest :| Parts(parts, components, rest, MergedActions(collected), deps) &&
                       groups == SortByPriority(parts);
    n := HardDependencyGrouped(t, MergedActions(collected), components, deps, groups, parts, rest, p, d);
    if Orderly(groups[n]) {
      GoodInFlatten(groups, n, d.direction, p, d.requiredProductId);
    }
  }

  lemma HardDependencyGrouped(t: Tables, merged: Merged, components: Groups, deps: Dependencies,
                              groups: seq<GroupResult>,
                              parts: seq<GroupResult>, rest: seq<ProductId>, p: ProductId, d: Dependency)
    returns (n: nat)
    requires Parts(parts, components, rest, merged, deps) && groups == SortByPriority(parts)
    requires WellRecorded(t, deps) && Components(components, Links(deps))
    requires p in merged && d in DependenciesOf(deps, p) && d.requiredProductId in merged
    ensures n < |groups| && p in Ids(groups[n].actions) && d.requiredProductId in Ids(groups[n].actions)
    ensures Orderly(groups[n]) ==> Good(groups[n].actions, d.direction, p, d.requiredProductId)
  {
    var i := LinkedTogether(components, deps, p, d);
    n := GroupOfComponent(parts, components, rest, merged, deps, groups, i);
    DependencyInGroup(t, groups[n], merged, components[i] * merged.Keys, deps, p, d);
  }

  lemma LinkedTogether(components: Groups, deps: Dependencies, p: ProductId, d: Dependency) returns (i: nat)
    requires Components(components, Links(deps)) && d in DependenciesOf(deps, p)
    ensures i < |components| && p in components[i] && d.requiredProductId in components[i]
  {
    var k :| 0 <= k < |deps[p]| && deps[p][k] == d;
    assert (p, deps[p][k].requiredProductId) in Links(deps);
    i :| 0 <= i < |components| && p in components[i] && d.requiredProductId in components[i];
  }

  /** What a plan collects: the requested actions, all that they demand in turn and nothing else. */
  lemma PlanCollects(t: Tables, requested: seq<ProductOnClient>, collected: Unsorted, components: Groups,
                     deps: Dependencies, groups: seq<GroupResult>)
    requires PlanOf(t, requested, collected, components, deps, groups)
    ensures forall a :: a in RequestedActions(t, requested) ==> IsIn(collected, a)
    ensures forall a :: IsIn(collected, a) ==> Justified(t, RequestedActions(t, requested), collected, a)
    ensures AllClosed(t, collected)
  {
    hide Components, PlannedGroups, Gathered, RecordedFor, RequestedActions, Justified, WellCollected, AllClosed;
    GatheredFollows(t, requested);
    GatheredClosed(t, requested);
    forall a | IsIn(collected, a)
      ensures Justified(t, RequestedActions(t, requested), collected, a)
    {
      InJustified(t, RequestedActions(t, requested), collected, a);
    }
  }

  /** Two collected products share an output group exactly when a chain of recorded hard dependencies joins them. */
  lemma SharedGroupIffLinked(t: Tables, requested: seq<ProductOnClient>, collected: Unsorted, components: Groups,
                             deps: Dependencies, groups: seq<GroupResult>, p: ProductId, q: ProductId)
    requires PlanOf(t, requested, collected, components, deps, groups)
    requires p in collected && q in collected && p != q
    ensures (exists n :: SharedAt(groups, n, p, q)) <==> Connected(Links(deps), p, q)
  {
    var merged := MergedActions(collected);
    MergedNames(collected);
    var parts, rest :| Parts(parts, components, rest, merged, deps) && groups == SortByPriority(parts);
    SameGroupIffConnected(components, Links(deps), p, q);
    if n :| SharedAt(groups, n, p, q) {
      SharedTogether(merged, components, deps, groups, parts, rest, n, p, q);
    }
    if Connected(Links(deps), p, q) {
      LinkedHasLink(Links(deps), p, q);
      var n := TogetherShared(merged, components, deps, groups, parts, rest, p, q);
    }
  }

  ghost predicate SharedAt(groups: seq<GroupResult>, n: nat, p: ProductId, q: ProductId) {
    n < |groups| && p in Ids(groups[n].actions) && q in Ids(groups[n].actions)
  }

  lemma SharedTogether(merged: Merged, components: Groups, deps: Dependencies, groups: seq<GroupResult>,
                       parts: seq<GroupResult>, rest: seq<ProductId>, n: nat, p: ProductId, q: ProductId)
    requires Parts(parts, components, rest, merged, deps) && groups == SortByPriority(parts)
    requires SharedAt(groups, n, p, q) && p != q
    ensures Together(components, p, q)
  {
    var ids := GroupKinds(parts, components, rest, merged, deps, groups, groups[n]);
    assert forall r :: r in merged && groups[n] == Alone(merged[r]) ==> Ids(groups[n].actions) == {merged[r].productId};
    var c :| c in components && ids == c * merged.Keys && BuiltFrom(groups[n], merged, ids, deps);
    BuiltLists(groups[n], merged, ids, deps);
    var i :| 0 <= i < |components| && components[i] == c;
    assert p in components[i] && q in components[i];
  }

  lemma TogetherShared(merged: Merged, components: Groups, deps: Dependencies, groups: seq<GroupResult>,
                       parts: seq<GroupResult>, rest: seq<ProductId>, p: ProductId, q: ProductId)
    returns (n: nat)
    requires Parts(parts, components, rest, merged, deps) && groups == SortByPriority(parts)
    requires Together(components, p, q) && p in merged && q in merged
    ensures SharedAt(groups, n, p, q)
  {
    var i :| 0 <= i < |components| && p in components[i] && q in components[i];
    n := GroupOfComponent(parts, components, rest, merged, deps, groups, i);
    BuiltLists(groups[n], merged, components[i] * merged.Keys, deps);
  }

  lemma LinkedHasLink(e: set<(Node, Node)>, p: Node, q: Node)
    requires Connected(e, p, q) && p != q
    ensures exists z :: (p, z) in e
  {
    var w :| IsWalk(e, w) && w[0] == p && w[|w| - 1] == q;
    assert (w[0], w[0 + 1]) in e;
  }
}
