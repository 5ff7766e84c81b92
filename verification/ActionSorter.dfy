/** Collecting the actions of one client along its dependency table, grouping, merging and sorting them
    (opsiclientd/nonfree/RPCProductDependencyMixin.py). */
module ActionSorters {
  import opened ActionGroupOrder
  import opened ActionGroups
  import opened ActionPlans
  import opened Common
  import opened DependencyRecords
  import opened DependencyTables
  import opened DependencyWalks
  import opened Gathering
  import opened Graph
  import opened ProductIdGroups

  /** The list of visited products that all calls below one top-level call share. */
  class DependencyPath {
    var products: seq<ProductId>

    constructor ()
      ensures products == []
    {
      products := [];
    }
  }

  // ----- the recorded hard dependencies -----

  /** Both directions of every recorded hard dependency. */
  ghost function Links(deps: Dependencies): set<(ProductId, ProductId)> {
    (set p, i | p in deps && 0 <= i < |deps[p]| :: (p, deps[p][i].requiredProductId))
    + (set p, i | p in deps && 0 <= i < |deps[p]| :: (deps[p][i].requiredProductId, p))
  }

  lemma RecordedLinks(deps: Dependencies, p: ProductId, d: Dependency)
    ensures Links(Recorded(deps, p, d)) == Links(deps) + {(p, d.requiredProductId), (d.requiredProductId, p)}
  {
    var r := Recorded(deps, p, d);
    assert r[p][|r[p]| - 1] == d;
    forall q, i | q in deps && 0 <= i < |deps[q]|
      ensures q in r && i < |r[q]| && r[q][i] == deps[q][i]
    {
    }
    assert Links(deps) <= Links(r);
    forall q, i | q in r && 0 <= i < |r[q]|
      ensures (q == p && r[q][i] == d) || (q in deps && i < |deps[q]| && r[q][i] == deps[q][i])
    {
    }
    assert Links(r) <= Links(deps) + {(p, d.requiredProductId), (d.requiredProductId, p)};
  }

  /** Keys of a dictionary in insertion order. */
  ghost predicate IsOrder(order: seq<ProductId>, keys: set<ProductId>) {
    && (forall p :: p in order <==> p in keys)
    && (forall i, j :: 0 <= i < j < |order| ==> order[i] != order[j])
  }

  /** The order of a dictionary after one key was removed. */
  function Removed(order: seq<ProductId>, p: ProductId): seq<ProductId> {
    if order == [] then []
    else if order[0] == p then order[1..]
    else [order[0]] + Removed(order[1..], p)
  }

  lemma {:induction false} RemovedMembers(order: seq<ProductId>, p: ProductId)
    requires forall i, j :: 0 <= i < j < |order| ==> order[i] != order[j]
    ensures forall q :: q in Removed(order, p) <==> q in order && q != p
    ensures forall i, j :: 0 <= i < j < |Removed(order, p)| ==> Removed(order, p)[i] != Removed(order, p)[j]
  {
    if order != [] {
      assert order == [order[0]] + order[1..];
      if order[0] == p {
        assert p !in order[1..];
      } else {
        RemovedMembers(order[1..], p);
        var r := Removed(order, p);
        forall i, j | 0 <= i < j < |r|
          ensures r[i] != r[j]
        {
          assert r[j] == Removed(order[1..], p)[j - 1];
          assert r[j] in order[1..];
        }
      }
    }
  }

  class ActionSorter {
    const tables: Tables
    const ignoreUnavailable: bool
    var unsorted: Unsorted
    /** Insertion order of the keys of `unsorted`. */
    var order: seq<ProductId>
    var productIdGroups: Groups
    var dependencies: Dependencies
    var groups: seq<GroupResult>

    constructor (t: Tables, ignoreUnavailableProducts: bool)
      ensures tables == t && ignoreUnavailable == ignoreUnavailableProducts
      ensures Valid() && unsorted == map[] && order == [] && dependencies == map[] && groups == []
    {
      tables, ignoreUnavailable := t, ignoreUnavailableProducts;
      unsorted, order, productIdGroups, dependencies := map[], [], [], map[];
      groups := [];
    }

    /** The groups of product ids are the components of the recorded dependencies. */
    ghost predicate Valid()
      reads this
    {
      IsOrder(order, unsorted.Keys) && Components(productIdGroups, Links(dependencies))
    }

    /** `unsorted_actions[a.product_id].append(a)` on a default dictionary. */
    method Append(a: Action)
      requires Valid()
      modifies this`unsorted, this`order
      ensures Valid() && unsorted == Appended(old(unsorted), a)
      ensures order == if a.productId in old(order) then old(order) else old(order) + [a.productId]
    {
      hide Components, Links;
      if a.productId !in unsorted {
        order := order + [a.productId];
        unsorted := unsorted[a.productId := []];
      }
      unsorted := unsorted[a.productId := unsorted[a.productId] + [a]];
      assert unsorted == Appended(old(unsorted), a);
    }

    /** Index of the first group that holds p, the number of groups if there is none. */
    method FindGroup(p: ProductId) returns (idx: nat)
      ensures idx == GroupOf(productIdGroups, p)
    {
      idx := 0;
      while idx < |productIdGroups|
        invariant idx <= |productIdGroups|
        invariant forall k :: 0 <= k < idx ==> p !in productIdGroups[k]
      {
        if p in productIdGroups[idx] {
          break;
        }
        idx := idx + 1;
      }
      assert idx <= GroupOf(productIdGroups, p);
    }

    /** Ties p and q together, joining their groups where both have one. */
    method MergeGroups(p: ProductId, q: ProductId)
      modifies this`productIdGroups
      ensures productIdGroups == MergedGroups(old(productIdGroups), p, q)
    {
      var i := FindGroup(p);
      var j := FindGroup(q);
      var none := |productIdGroups|;
      if i == none && j == none {
        productIdGroups := productIdGroups + [{p, q}];
      } else {
        var lo, hi := if i <= j then i else j, if i <= j then j else i;
        if lo != hi && hi != none {
          productIdGroups := productIdGroups[lo := productIdGroups[lo] + productIdGroups[hi]];
          productIdGroups := productIdGroups[..hi] + productIdGroups[hi + 1..];
        }
        productIdGroups := productIdGroups[lo := productIdGroups[lo] + {p, q}];
      }
    }

    method RecordHardDependency(p: ProductId, d: Dependency)
      requires Valid()
      modifies this`dependencies, this`productIdGroups
      ensures Valid()
      ensures dependencies == if d in DependenciesOf(old(dependencies), p) then old(dependencies)
                              else Recorded(old(dependencies), p, d)
    {
      hide Links, Components, MergedGroups, IsOrder;
      if d !in DependenciesOf(dependencies, p) {
        RecordedLinks(dependencies, p, d);
        MergedComponents(productIdGroups, Links(dependencies), p, d.requiredProductId);
        dependencies := Recorded(dependencies, p, d);
        MergeGroups(p, d.requiredProductId);
      }
    }

    // ----- the walk along the dependencies of one action -----

    /** The state after the steps were taken from the state u and deps; after an error nothing is promised. */
    ghost predicate Took(u: Unsorted, deps: Dependencies, steps: seq<Step>, r: Outcome)
      reads this
    {
      && r == StepsOutcome(tables, ignoreUnavailable, steps)
      && (r == Done ==>
        Valid() && unsorted == AppendAll(tables, u, steps) && dependencies == RecordAll(tables, deps, steps))
    }

    /** Takes exactly the steps of the walk of the action. The shared path only grows. */
    method ProcessDependencies(action: Action, path: DependencyPath) returns (r: Outcome)
      requires Valid() && tables.Available(action.productId) && action.productId !in path.products
      modifies this`unsorted, this`order, this`productIdGroups, this`dependencies, path
      ensures var w := WalkFrom(tables, action.productId, action.action, old(path.products));
        Took(old(unsorted), old(dependencies), w.steps, r) && (r == Done ==> path.products == w.path)
      decreases Unvisited(tables, path.products), 0
    {
      hide Components, Links, IsOrder;
      VisitStep(tables, action.productId, path.products);
      path.products := path.products + [action.productId];
      r := ProcessAll(action, path);
    }

    /** The loop over the dependencies of the product of an action. */
    method ProcessAll(action: Action, path: DependencyPath) returns (r: Outcome)
      requires Valid() && tables.Available(action.productId)
      modifies this`unsorted, this`order, this`productIdGroups, this`dependencies, path
      ensures var w := WalkAlong(tables, action.productId, action.action,
                                 tables.DependenciesFrom(action.productId), old(path.products));
        Took(old(unsorted), old(dependencies), w.steps, r) && (r == Done ==> path.products == w.path)
      decreases Unvisited(tables, path.products), 3
    {
      hide Components, Links, IsOrder, AppendAll, RecordAll, StepsOutcome;
      var ds := tables.DependenciesFrom(action.productId);
      ghost var whole := WalkAlong(tables, action.productId, action.action, ds, path.products);
      ghost var taken: seq<Step> := [];
      NoSteps(tables, ignoreUnavailable, unsorted, dependencies);
      r := Done;
      for i := 0 to |ds|
        invariant r == Done && Took(old(unsorted), old(dependencies), taken, r) && old(path.products) <= path.products
        invariant var rest := WalkAlong(tables, action.productId, action.action, ds[i..], path.products);
          whole == Walk(rest.path, taken + rest.steps)
      {
        AlongHead(tables, action.productId, action.action, ds[i..], path.products);
        ghost var before := path.products;
        ghost var one := WalkOne(tables, action.productId, action.action, ds[i], before);
        PathGrew(tables, old(path.products), before);
        r := ProcessDependency(action, ds[i], path);
        TakenOn(tables, ignoreUnavailable, old(unsorted), old(dependencies), taken, one.steps);
        ghost var rest := WalkAlong(tables, action.productId, action.action, ds[i + 1..], one.path);
        assert taken + (one.steps + rest.steps) == taken + one.steps + rest.steps;
        if r != Done {
          StepsOutcomeConcat(tables, ignoreUnavailable, taken + one.steps, rest.steps);
          return;
        }
        taken := taken + one.steps;
      }
      assert ds[|ds|..] == [];
      AlongNothing(tables, action.productId, action.action, path.products);
      assert taken + [] == taken;
    }

    /** One dependency: passed over, recorded, or recorded and demanded. */
    method ProcessDependency(action: Action, d: Dependency, path: DependencyPath) returns (r: Outcome)
      requires Valid() && tables.Available(action.productId)
      modifies this`unsorted, this`order, this`productIdGroups, this`dependencies, path
      ensures var w := WalkOne(tables, action.productId, action.action, d, old(path.products));
        Took(old(unsorted), old(dependencies), w.steps, r) && (r == Done ==> path.products == w.path)
      decreases Unvisited(tables, path.products), 2
    {
      hide Components, Links, IsOrder;
      if d.productAction != action.action || d.requiredProductId in path.products {
        return Done;
      }
      ghost var step := Step(action.productId, d);
      OneStep(tables, ignoreUnavailable, unsorted, dependencies, step);
      if !tables.AvailableAs(d.requiredProductId, d.requiredProductVersion, d.requiredPackageVersion) {
        return if ignoreUnavailable then Done else ProductNotAvailable;
      }
      if d.direction != Soft {
        // Only hard requirements affect the order of actions
        RecordHardDependency(action.productId, d);
      }
      var requiredAction := d.requiredAction;
      if requiredAction == "" {
        if tables.Fulfilled(d) {
          return Done;
        }
        if d.requiredInstallationStatus == "installed" {
          requiredAction := "setup";
        } else if d.requiredInstallationStatus == "not_installed" {
          requiredAction := "uninstall";
        } else {
          return InvalidInstallationStatus;
        }
      }
      if requiredAction !in tables.ProductOf(d.requiredProductId).scripts {
        return Done;
      }
      r := AddRequired(d, requiredAction, path);
    }

    /** Collects the action that dependency d demands, and all that follows from it. */
    method AddRequired(d: Dependency, requiredAction: string, path: DependencyPath) returns (r: Outcome)
      requires Valid() && tables.Demand(d) == Need(requiredAction) && d.requiredProductId !in path.products
      modifies this`unsorted, this`order, this`productIdGroups, this`dependencies, path
      ensures var w := WalkFrom(tables, d.requiredProductId, requiredAction, old(path.products));
        && Took(Appended(old(unsorted), RequiredAction(tables, d)), old(dependencies), w.steps, r)
        && (r == Done ==> path.products == w.path)
      decreases Unvisited(tables, path.products), 1
    {
      hide Components, Links, IsOrder;
      var required := Action(d.requiredProductId, requiredAction, tables.ProductOf(d.requiredProductId).priority, None);
      Append(required);
      r := ProcessDependencies(required, path);
    }

    // ----- the requested actions and the expansion of all of them -----

    method AddProductOnClient(poc: ProductOnClient) returns (r: Outcome)
      requires Valid()
      modifies this`unsorted, this`order
      ensures r == if tables.Available(poc.productId) || ignoreUnavailable then Done else ProductNotAvailable
      ensures Valid()
      ensures unsorted == if tables.Available(poc.productId)
        then Appended(old(unsorted), RequestedAction(tables, poc)) else old(unsorted)
      ensures order == if tables.Available(poc.productId) && poc.productId !in old(order)
        then old(order) + [poc.productId] else old(order)
    {
      hide Components, Links;
      if !tables.Available(poc.productId) {
        return if ignoreUnavailable then Done else ProductNotAvailable;
      }
      Append(RequestedAction(tables, poc));
      r := Done;
    }

    method AddRequested(requested: seq<ProductOnClient>) returns (r: Outcome)
      requires Valid() && unsorted == map[] && order == []
      modifies this`unsorted, this`order
      ensures r == if ignoreUnavailable || AllAvailable(tables, requested) then Done else ProductNotAvailable
      ensures Valid()
      ensures r == Done ==> unsorted == RequestedLists(tables, requested) && order == RequestedOrder(tables, requested)
    {
      hide Components, Links, IsOrder, RequestedLists, RequestedOrder, RequestedAction, Appended;
      NothingRequested(tables);
      for i := 0 to |requested|
        invariant Valid() && unsorted == RequestedLists(tables, requested[..i]) &&
                    order == RequestedOrder(tables, requested[..i])
        invariant ignoreUnavailable || AllAvailable(tables, requested[..i])
      {
        RequestedStep(tables, requested, i);
        r := AddProductOnClient(requested[i]);
        if r != Done {
          return;
        }
      }
      assert requested[..|requested|] == requested;
      r := Done;
    }

    /** Processes every action in the list of p. The list does not grow while it is worked on. */
    method ProcessList(p: ProductId) returns (r: Outcome)
      requires Valid() && p in unsorted && tables.Available(p) && forall a :: a in unsorted[p] ==> a.productId == p
      modifies this`unsorted, this`order, this`productIdGroups, this`dependencies
      ensures Took(old(unsorted), old(dependencies), ListSteps(tables, p, old(unsorted[p])), r)
      ensures r == Done ==> p in unsorted && unsorted[p] == old(unsorted[p])
    {
      hide Components, Links, IsOrder, AppendAll, RecordAll, StepsOutcome, ListSteps, WalkFrom;
      ghost var actions := unsorted[p];
      ghost var taken: seq<Step> := [];
      NoSteps(tables, ignoreUnavailable, unsorted, dependencies);
      r := Done;
      var i := 0;
      while i < |unsorted[p]|
        invariant 0 <= i <= |actions| && p in unsorted && unsorted[p] == actions
        invariant r == Done && Took(old(unsorted), old(dependencies), taken, r)
        invariant ListSteps(tables, p, actions) == taken + ListSteps(tables, p, actions[i..])
        decreases |actions| - i
      {
        var path := new DependencyPath();
        ghost var was := unsorted;
        ghost var steps := WalkFrom(tables, p, actions[i].action, []).steps;
        ListHead(tables, p, actions[i..]);
        assert actions[i..][1..] == actions[i + 1..];
        r := ProcessDependencies(unsorted[p][i], path);
        TakenOn(tables, ignoreUnavailable, old(unsorted), old(dependencies), taken, steps);
        WalkKeepsList(tables, was, p, actions[i].action);
        ghost var rest := ListSteps(tables, p, actions[i + 1..]);
        assert taken + (steps + rest) == taken + steps + rest;
        if r != Done {
          StepsOutcomeConcat(tables, ignoreUnavailable, taken + steps, rest);
          return;
        }
        taken := taken + steps;
        i := i + 1;
      }
      assert actions[|actions|..] == [] && taken + [] == taken;
      ListHead(tables, p, []);
    }

    method Expand() returns (r: Outcome)
      requires Valid() && exists q :: WellCollected(tables, q, unsorted)
      modifies this`unsorted, this`order, this`productIdGroups, this`dependencies
      ensures Took(old(unsorted), old(dependencies), ExpandSteps(tables, old(order), old(unsorted)), r)
    {
      hide Components, Links, AppendAll, RecordAll, StepsOutcome, WellCollected, ListSteps, ExpandSteps;
      ghost var q :| WellCollected(tables, q, unsorted);
      var keys := order;
      ghost var start, taken := unsorted, [];
      NoSteps(tables, ignoreUnavailable, unsorted, dependencies);
      r := Done;
      for i := 0 to |keys|
        invariant r == Done && Took(start, old(dependencies), taken, r)
        invariant forall k :: 0 <= k < |keys| ==> keys[k] in unsorted
        invariant WellCollected(tables, q, unsorted)
        invariant ExpandSteps(tables, keys, start) == taken + ExpandSteps(tables, keys[i..], unsorted)
      {
        ghost var steps := ListSteps(tables, keys[i], unsorted[keys[i]]);
        ListWell(tables, q, unsorted, keys[i]);
        ExpandOn(tables, ignoreUnavailable, keys, start, i, unsorted, taken);
        TakenOn(tables, ignoreUnavailable, start, old(dependencies), taken, steps);
        r := ProcessList(keys[i]);
        if r != Done {
          return;
        }
        taken := taken + steps;
      }
      assert keys[|keys|..] == [] && taken + [] == taken;
      ExpandNothing(tables, unsorted);
    }

    /** Adds the requested actions and everything they demand in turn. */
    method Collect(requested: seq<ProductOnClient>) returns (r: Outcome)
      requires Valid() && unsorted == map[] && order == [] && dependencies == map[]
      modifies this`unsorted, this`order, this`productIdGroups, this`dependencies
      ensures r == GatherOutcome(tables, ignoreUnavailable, requested)
      ensures r == Done ==>
                Valid() && unsorted == Gathered(tables, requested) && dependencies == RecordedFor(tables, requested)
    {
      hide Components, Links, IsOrder, WellCollected, RequestedActions, AppendAll, RecordAll, StepsOutcome;
      r := AddRequested(requested);
      if r != Done {
        return;
      }
      RequestedListsMeaning(tables, requested);
      r := Expand();
    }

    // ----- merging, grouping and ordering what was collected -----

    /** Every remaining list holds just the merged action of its product. */
    ghost predicate Singles(merged: Merged)
      reads this`unsorted, this`order
    {
      && IsOrder(order, unsorted.Keys)
      && forall p :: p in unsorted ==> p in merged && merged[p].productId == p && unsorted[p] == [merged[p]]
    }

    method MergeList(l: seq<Action>) returns (a: Action)
      requires l != []
      ensures a == MergedAction(l)
    {
      a := l[0];
      if |l| <= 1 {
        MergedActionMeaning(l);
        return;
      }
      var productOnClient := None;
      for i := 0 to |l|
        invariant a == LastReal(l[..i], l[0])
        invariant productOnClient == FirstProductOnClient(l[..i])
      {
        assert l[..i + 1][..i] == l[..i];
        if productOnClient.None? && l[i].productOnClient.Some? {
          productOnClient := l[i].productOnClient;
        }
        if l[i].action == "" || l[i].action == "none" {
          continue;
        }
        a := l[i];
      }
      assert l[..|l|] == l;
      a := a.(productOnClient := productOnClient);
    }

    method MergeDuplicates()
      requires IsOrder(order, unsorted.Keys) && Named(unsorted)
      modifies this`unsorted
      ensures Singles(MergedActions(old(unsorted)))
      ensures unsorted.Keys == old(unsorted.Keys)
    {
      ghost var collected := unsorted;
      for i := 0 to |order|
        invariant unsorted.Keys == collected.Keys
        invariant forall k :: 0 <= k < i ==> unsorted[order[k]] == [MergedActions(collected)[order[k]]]
        invariant forall k :: i <= k < |order| ==> unsorted[order[k]] == collected[order[k]]
      {
        assert order[i] in order;
        var a := MergeList(unsorted[order[i]]);
        unsorted := unsorted[order[i] := [a]];
      }
      forall p | p in unsorted
        ensures MergedActions(collected)[p].productId == p && unsorted[p] == [MergedActions(collected)[p]]
      {
        var k :| 0 <= k < |order| && order[k] == p;
        LastRealMember(collected[p], collected[p][0]);
      }
    }

    /** `unsorted_actions.pop(p)` for a product that has actions. */
    method Pop(p: ProductId, ghost merged: Merged) returns (actions: seq<Action>)
      requires Singles(merged) && p in unsorted
      modifies this`unsorted, this`order
      ensures actions == [merged[p]] && Singles(merged)
      ensures unsorted == old(unsorted) - {p} && order == Removed(old(order), p)
    {
      actions := unsorted[p];
      unsorted := unsorted - {p};
      order := Removed(order, p);
      RemovedMembers(old(order), p);
    }

    /** Moves the action of p, if there is one, and the dependencies of p into the group. */
    method TakeInto(group: ActionGroup, p: ProductId, ghost merged: Merged, ghost done: set<ProductId>)
      requires Singles(merged) && p !in done
      requires group.priority == GroupPriority(group.actions)
      requires Lists(group.actions, merged, done) && group.dependencies == Restricted(dependencies, done)
      modifies this`unsorted, this`order, group
      ensures Singles(merged) && unsorted.Keys == old(unsorted.Keys) - {p}
      ensures group.priority == GroupPriority(group.actions)
      ensures Lists(group.actions, merged, done + ({p} * old(unsorted.Keys)))
      ensures group.dependencies == Restricted(dependencies, done + ({p} * old(unsorted.Keys)))
    {
      if p in unsorted {
        var actions := Pop(p, merged);
        ListsSingle(merged, p);
        ListsAppend(group.actions, [merged[p]], merged, done, {p});
        group.AddAction(actions[0]);
        var ds := DependenciesOf(dependencies, actions[0].productId);
        RestrictedStep(dependencies, done, p);
        if ds != [] {
          group.dependencies := group.dependencies[actions[0].productId := ds];
        }
        assert {p} * old(unsorted.Keys) == {p};
      } else {
        assert done + ({p} * old(unsorted.Keys)) == done;
      }
    }

    /** Iterates the set of products of a component in any order. */
    method FillGroup(group: ActionGroup, component: set<ProductId>, ghost merged: Merged)
      requires Singles(merged)
      requires group.priority == 0 && group.actions == [] && group.dependencies == map[]
      modifies this`unsorted, this`order, group
      ensures Singles(merged) && unsorted.Keys == old(unsorted.Keys) - component
      ensures group.priority == GroupPriority(group.actions)
      ensures Lists(group.actions, merged, component * old(unsorted.Keys))
      ensures group.dependencies == Restricted(dependencies, component * old(unsorted.Keys))
    {
      var todo := component;
      ghost var keys, done := unsorted.Keys, {};
      while todo != {}
        invariant todo <= component
        invariant done == (component - todo) * keys && unsorted.Keys == keys - (component - todo)
        invariant Singles(merged)
        invariant group.priority == GroupPriority(group.actions)
        invariant Lists(group.actions, merged, done) && group.dependencies == Restricted(dependencies, done)
        decreases todo
      {
        var p :| p in todo;
        TakenStep(component, todo, keys, p);
        TakeInto(group, p, merged, done);
        done := done + ({p} * (keys - (component - todo)));
        todo := todo - {p};
      }
      assert done == component * keys;
    }

    static lemma TakenStep(component: set<ProductId>, todo: set<ProductId>, keys: set<ProductId>, p: ProductId)
      requires todo <= component && p in todo
      ensures p !in (component - todo) * keys
      ensures (component - todo) * keys + ({p} * (keys - (component - todo))) == (component - (todo - {p})) * keys
      ensures keys - (component - todo) - {p} == keys - (component - (todo - {p}))
    {
    }

    /** Builds and sorts the action group of one component. */
    method BuildGroup(component: set<ProductId>, ghost merged: Merged) returns (g: GroupResult)
      requires Singles(merged)
      modifies this`unsorted, this`order
      ensures Singles(merged) && unsorted.Keys == old(unsorted.Keys) - component
      ensures BuiltFrom(g, merged, component * old(unsorted.Keys), dependencies)
    {
      var group := new ActionGroup();
      FillGroup(group, component, merged);
      ghost var l := group.actions;
      group.Sort();
      g := GroupResult(group.priority, group.actions, group.dependencies);
      assert g == Grouped(l, Restricted(dependencies, component * old(unsorted.Keys)));
    }

    /** Groups for all components, in the order of the component list. */
    method BuildGroups(ghost merged: Merged)
      requires Singles(merged) && unsorted.Keys == merged.Keys && groups == [] && Disjoint(productIdGroups)
      modifies this`unsorted, this`order, this`groups
      ensures Singles(merged) && unsorted.Keys == merged.Keys - UnionOf(productIdGroups)
      ensures |groups| == |productIdGroups|
      ensures forall i :: 0 <= i < |groups| ==>
                BuiltFrom(groups[i], merged, productIdGroups[i] * merged.Keys, dependencies)
    {
      hide BuiltFrom, UnionOf;
      NoComponents(productIdGroups);
      for n := 0 to |productIdGroups|
        invariant Singles(merged) && |groups| == n
        invariant unsorted.Keys == merged.Keys - UnionOf(productIdGroups[..n])
        invariant forall i :: 0 <= i < n ==>
                    BuiltFrom(groups[i], merged, productIdGroups[i] * merged.Keys, dependencies)
      {
        ComponentStep(productIdGroups, n, merged.Keys);
        var g := BuildGroup(productIdGroups[n], merged);
        groups := groups + [g];
      }
      assert productIdGroups[..|productIdGroups|] == productIdGroups;
    }

    static lemma NoComponents(components: Groups)
      ensures UnionOf(components[..0]) == {}
    {
    }

    static lemma ComponentStep(components: Groups, n: nat, keys: set<ProductId>)
      requires Disjoint(components) && n < |components|
      ensures components[n] * (keys - UnionOf(components[..n])) == components[n] * keys
      ensures keys - UnionOf(components[..n]) - components[n] == keys - UnionOf(components[..n + 1])
    {
      forall p
        ensures p in UnionOf(components[..n + 1]) <==> p in UnionOf(components[..n]) || p in components[n]
      {
        if p in UnionOf(components[..n]) {
          var i :| 0 <= i < n && p in components[..n][i];
          assert p in components[..n + 1][i];
        }
        if p in components[n] {
          assert p in components[..n + 1][n];
        }
      }
    }

    /** One group for each product that is left, in dictionary order. */
    method AddIndependent(ghost merged: Merged)
      requires Singles(merged)
      modifies this`groups
      ensures |groups| == |old(groups)| + |order| && old(groups) <= groups
      ensures forall j :: 0 <= j < |order| ==>
                order[j] in merged && groups[|old(groups)| + j] == Alone(merged[order[j]])
    {
      for n := 0 to |order|
        invariant |groups| == |old(groups)| + n && old(groups) <= groups
        invariant forall j :: 0 <= j < n ==> order[j] in merged && groups[|old(groups)| + j] == Alone(merged[order[j]])
      {
        assert order[n] in order;
        var group := new ActionGroup();
        group.AddAction(unsorted[order[n]][0]);
        groups := groups + [GroupResult(group.priority, group.actions, group.dependencies)];
      }
    }

    /** Builds all groups from the merged actions and orders them by priority. */
    method ArrangeGroups(ghost merged: Merged)
      requires Singles(merged) && unsorted.Keys == merged.Keys && groups == [] && Disjoint(productIdGroups)
      modifies this`unsorted, this`order, this`groups
      ensures PlannedGroups(groups, productIdGroups, merged, dependencies)
    {
      hide BuiltFrom, UnionOf, SortByPriority;
      BuildGroups(merged);
      AddIndependent(merged);
      ghost var parts := groups;
      groups := SortByPriority(groups);
      assert Parts(parts, productIdGroups, order, merged, dependencies);
    }

    method ProcessProductOnClients(requested: seq<ProductOnClient>) returns (r: Outcome, ghost collected: Unsorted)
      requires Valid() && unsorted == map[] && order == [] && dependencies == map[] && groups == []
      modifies this
      ensures r == GatherOutcome(tables, ignoreUnavailable, requested)
      ensures r == Done ==> PlanOf(tables, requested, collected, productIdGroups, dependencies, groups)
    {
      hide Links, PlannedGroups, Named, Connected, Gathered, GatherOutcome, RecordedFor;
      collected := map[];
      r := Collect(requested);
      if r != Done {
        return;
      }
      collected := unsorted;
      GatheredNamed(tables, requested);
      MergeDuplicates();
      ArrangeGroups(MergedActions(collected));
    }
  }

  ghost predicate PlannedGroups(groups: seq<GroupResult>, components: Groups, merged: Merged, deps: Dependencies) {
    exists parts, rest :: Parts(parts, components, rest, merged, deps) && groups == SortByPriority(parts)
  }

  /** The result of a successful run: what the requests lead to is collected, the groups of product ids are
      the components of the dependencies that were followed, and the groups built from them are in order. */
  ghost predicate PlanOf(t: Tables, requested: seq<ProductOnClient>, collected: Unsorted, components: Groups,
                         deps: Dependencies, groups: seq<GroupResult>)
  {
    && collected == Gathered(t, requested) && Named(collected)
    && deps == RecordedFor(t, requested)
    && Components(components, Links(deps))
    && PlannedGroups(groups, components, MergedActions(collected), deps)
  }

  /** Each list is not empty and holds actions of its own product. */
  ghost predicate Named(u: Unsorted) {
    forall p :: p in u ==> |u[p]| > 0 && forall k :: 0 <= k < |u[p]| ==> u[p][k].productId == p
  }

  ghost function MergedActions(u: Unsorted): Merged
    requires Named(u)
  {
    map p | p in u :: MergedAction(u[p])
  }

  lemma GatheredNamed(t: Tables, requested: seq<ProductOnClient>)
    ensures Named(Gathered(t, requested))
  {
    hide RequestedActions, Justified;
    GatheredFollows(t, requested);
    CollectedNamed(t, RequestedActions(t, requested), Gathered(t, requested));
  }

  lemma ListsSingle(merged: Merged, p: ProductId)
    requires p in merged && merged[p].productId == p
    ensures Lists([merged[p]], merged, {p})
  {
    assert [merged[p]][0].productId in Ids([merged[p]]);
  }

  lemma RestrictedStep(deps: Dependencies, ids: set<ProductId>, p: ProductId)
    ensures Restricted(deps, ids + {p}) ==
      if DependenciesOf(deps, p) == [] then Restricted(deps, ids)
      else Restricted(deps, ids)[p := DependenciesOf(deps, p)]
  {
  }
}
