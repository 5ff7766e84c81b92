/** Which hard dependencies are recorded for the order of actions, and which are passed over
    (opsiclientd/nonfree/RPCProductDependencyMixin.py). */
module DependencyRecords {
  import opened ActionGroups
  import opened Common
  import opened DependencyTables
  import opened DependencyWalks
  import opened Gathering

  /** Only hard dependencies of the tables between two different products of the depot are recorded. */
  ghost predicate Recordable(t: Tables, p: ProductId, d: Dependency) {
    && t.Available(p) && d in t.DependenciesFrom(p) && d.direction != Soft
    && d.requiredProductId != p && t.Available(d.requiredProductId)
  }

  ghost predicate WellRecorded(t: Tables, deps: Dependencies) {
    forall p, d :: p in deps && d in deps[p] ==> Recordable(t, p, d)
  }

  // ----- steps and walks -----

  /** The step is one of the walk of a collected action. */
  ghost predicate StepOfWalk(t: Tables, u: Unsorted, s: Step) {
    exists a :: IsIn(u, a) && s in WalkFrom(t, a.productId, a.action, []).steps
  }

  lemma StepOfWalkMono(t: Tables, u: Unsorted, v: Unsorted, s: Step)
    requires StepOfWalk(t, u, s) && Extends(u, v)
    ensures StepOfWalk(t, v, s)
  {
    hide Extends;
    var a :| IsIn(u, a) && s in WalkFrom(t, a.productId, a.action, []).steps;
    ExtendsIsIn(u, v, a);
  }

  lemma {:induction false} ListStepsOfWalks(t: Tables, u: Unsorted, p: ProductId, actions: seq<Action>)
    requires forall a :: a in actions ==> IsIn(u, a) && a.productId == p
    ensures forall s :: s in ListSteps(t, p, actions) ==> StepOfWalk(t, u, s)
    decreases |actions|
  {
    if actions != [] {
      ListStepsOfWalks(t, u, p, actions[1..]);
    }
  }

  lemma {:induction false} ExpandStepsOfWalks(t: Tables, q: set<Action>, keys: seq<ProductId>, u: Unsorted)
    requires WellCollected(t, q, u)
    ensures forall s :: s in ExpandSteps(t, keys, u) ==> StepOfWalk(t, AppendAll(t, u, ExpandSteps(t, keys, u)), s)
    decreases |keys|
  {
    hide StepOfWalk, WellCollected, Extends, Follows;
    if keys != [] {
      var steps := if keys[0] in u then ListSteps(t, keys[0], u[keys[0]]) else [];
      var v := AppendAll(t, u, steps);
      var rest := ExpandSteps(t, keys[1..], v);
      CollectedNamed(t, q, u);
      if keys[0] in u {
        ListFollows(t, q, u, keys[0], u[keys[0]]);
        ListStepsOfWalks(t, u, keys[0], u[keys[0]]);
      } else {
        FollowsNothing(t, q, u);
      }
      FollowsCollected(t, q, u, steps);
      ExpandStepsOfWalks(t, q, keys[1..], v);
      AppendAllConcat(t, u, steps, rest);
      AppendAllExtends(t, u, steps + rest);
      forall s | s in steps
        ensures StepOfWalk(t, AppendAll(t, v, rest), s)
      {
        StepOfWalkMono(t, u, AppendAll(t, v, rest), s);
      }
    }
  }

  /** Every dependency that is followed is followed in the walk of some collected action. */
  lemma StepsOfWalks(t: Tables, requested: seq<ProductOnClient>)
    ensures forall s :: s in Steps(t, requested) ==> StepOfWalk(t, Gathered(t, requested), s)
  {
    hide WellCollected, RequestedActions, StepOfWalk;
    RequestedListsMeaning(t, requested);
    ExpandStepsOfWalks(t, RequestedActions(t, requested), RequestedOrder(t, requested), RequestedLists(t, requested));
  }

  lemma {:induction false} ListIncludes(t: Tables, p: ProductId, actions: seq<Action>, a: Action, s: Step)
    requires a in actions && s in WalkFrom(t, p, a.action, []).steps
    ensures s in ListSteps(t, p, actions)
    decreases |actions|
  {
    if a != actions[0] {
      assert a in actions[1..];
      ListIncludes(t, p, actions[1..], a, s);
    }
  }

  lemma {:induction false} ExpandIncludes(t: Tables, keys: seq<ProductId>, u: Unsorted, a: Action, s: Step)
    requires a.productId in keys && IsIn(u, a) && s in WalkFrom(t, a.productId, a.action, []).steps
    ensures s in ExpandSteps(t, keys, u)
    decreases |keys|
  {
    hide Extends;
    var steps := if keys[0] in u then ListSteps(t, keys[0], u[keys[0]]) else [];
    if a.productId == keys[0] {
      ListIncludes(t, a.productId, u[a.productId], a, s);
    } else {
      assert a.productId in keys[1..];
      AppendAllExtends(t, u, steps);
      ExtendsIsIn(u, AppendAll(t, u, steps), a);
      ExpandIncludes(t, keys[1..], AppendAll(t, u, steps), a, s);
    }
  }

  /** Whatever the walk of a requested action follows is followed. */
  lemma RequestedWalkIncluded(t: Tables, requested: seq<ProductOnClient>, a: Action, s: Step)
    requires a in RequestedActions(t, requested) && s in WalkFrom(t, a.productId, a.action, []).steps
    ensures s in Steps(t, requested)
  {
    hide WellCollected, RequestedActions;
    RequestedListsMeaning(t, requested);
    ExpandIncludes(t, RequestedOrder(t, requested), RequestedLists(t, requested), a, s);
  }

  lemma StepsFit(t: Tables, requested: seq<ProductOnClient>)
    ensures forall s :: s in Steps(t, requested) ==> Fits(t, [], s)
  {
    hide StepOfWalk, Fits;
    StepsOfWalks(t, requested);
    forall s | s in Steps(t, requested)
      ensures Fits(t, [], s)
    {
      StepFits(t, Gathered(t, requested), s);
    }
  }

  lemma StepFits(t: Tables, u: Unsorted, s: Step)
    requires StepOfWalk(t, u, s)
    ensures Fits(t, [], s)
  {
    var a :| IsIn(u, a) && s in WalkFrom(t, a.productId, a.action, []).steps;
    FromFits(t, a.productId, a.action, []);
  }

  // ----- what is recorded -----

  /** A dependency is recorded exactly if it is hard, can be met and was followed. */
  lemma RecordedIff(t: Tables, requested: seq<ProductOnClient>, p: ProductId, d: Dependency)
    ensures d in DependenciesOf(RecordedFor(t, requested), p) <==> Step(p, d) in Steps(t, requested) && IsHard(t, d)
  {
    RecordAllMembers(t, map[], Steps(t, requested), p, d);
  }

  lemma RecordedWell(t: Tables, requested: seq<ProductOnClient>)
    ensures WellRecorded(t, RecordedFor(t, requested))
  {
    hide Steps;
    var deps := RecordedFor(t, requested);
    StepsFit(t, requested);
    forall p, d | p in deps && d in deps[p]
      ensures Recordable(t, p, d)
    {
      RecordedIff(t, requested, p, d);
      assert Fits(t, [], Step(p, d));
    }
  }

  // ----- when the walk of an action follows a dependency -----

  /** The path when the walk of the action of p comes to its k-th dependency. */
  function PathBefore(t: Tables, p: ProductId, action: string, k: nat): seq<ProductId>
    requires t.Available(p) && k <= |t.DependenciesFrom(p)|
  {
    WalkAlong(t, p, action, t.DependenciesFrom(p)[..k], [p]).path
  }

  lemma {:induction false} AlongSplit(t: Tables, p: ProductId, action: string, a: seq<Dependency>, b: seq<Dependency>,
                                      path: seq<ProductId>)
    ensures var first := WalkAlong(t, p, action, a, path);
      var second := WalkAlong(t, p, action, b, first.path);
      WalkAlong(t, p, action, a + b, path) == Walk(second.path, first.steps + second.steps)
    decreases |a|
  {
    if a == [] {
      assert a + b == b;
    } else {
      assert (a + b)[1..] == a[1..] + b;
      var one := WalkOne(t, p, action, a[0], path);
      AlongSplit(t, p, action, a[1..], b, one.path);
      var middle := WalkAlong(t, p, action, a[1..], one.path);
      var second := WalkAlong(t, p, action, b, middle.path);
      assert one.steps + (middle.steps + second.steps) == one.steps + middle.steps + second.steps;
    }
  }

  /** Once p is on the path, only its own loop follows its dependencies. */
  lemma {:induction false} AlongOwn(t: Tables, p: ProductId, action: string, ds: seq<Dependency>, path: seq<ProductId>)
    requires p in path
    ensures forall s :: s in WalkAlong(t, p, action, ds, path).steps && s.p == p ==> s.d in ds
    decreases |ds|
  {
    if ds != [] {
      var one := WalkOne(t, p, action, ds[0], path);
      AlongOwn(t, p, action, ds[1..], one.path);
      if ds[0].productAction == action && ds[0].requiredProductId !in path && t.Demand(ds[0]).Need? {
        FromOther(t, ds[0].requiredProductId, t.Demand(ds[0]).action, path, p);
      }
      assert ds == [ds[0]] + ds[1..];
    }
  }

  lemma {:induction false} FromOther(t: Tables, x: ProductId, action: string, path: seq<ProductId>, p: ProductId)
    requires x !in path && p in path
    ensures forall s :: s in WalkFrom(t, x, action, path).steps ==> s.p != p
    decreases Unvisited(t, path), 0, 0
  {
    if t.Available(x) {
      VisitStep(t, x, path);
      AlongOther(t, x, action, t.DependenciesFrom(x), path + [x], p);
    }
  }

  lemma {:induction false} AlongOther(t: Tables, x: ProductId, action: string, ds: seq<Dependency>,
                                      path: seq<ProductId>, p: ProductId)
    requires x != p && p in path
    ensures forall s :: s in WalkAlong(t, x, action, ds, path).steps ==> s.p != p
    decreases Unvisited(t, path), 2, |ds|
  {
    if ds != [] {
      var one := WalkOne(t, x, action, ds[0], path);
      if ds[0].productAction == action && ds[0].requiredProductId !in path && t.Demand(ds[0]).Need? {
        FromOther(t, ds[0].requiredProductId, t.Demand(ds[0]).action, path, p);
      }
      AlongOther(t, x, action, ds[1..], one.path, p);
    }
  }

  /** The walk of an action follows a dependency that the action triggers exactly if the product of the
      dependency was not visited when its turn came. */
  lemma OwnWalkFollowsIff(t: Tables, p: ProductId, action: string, k: nat)
    requires t.Available(p) && k < |t.DependenciesFrom(p)|
    requires var ds := t.DependenciesFrom(p); ds[k].productAction == action && ds[k] !in ds[..k]
    ensures Step(p, t.DependenciesFrom(p)[k]) in WalkFrom(t, p, action, []).steps <==>
      t.DependenciesFrom(p)[k].requiredProductId !in PathBefore(t, p, action, k)
  {
    var ds := t.DependenciesFrom(p);
    var d, path := ds[k], PathBefore(t, p, action, k);
    var first, second := WalkAlong(t, p, action, ds[..k], [p]), WalkAlong(t, p, action, ds[k..], path);
    assert ds == ds[..k] + ds[k..] && [] + [p] == [p];
    AlongSplit(t, p, action, ds[..k], ds[k..], [p]);
    assert WalkFrom(t, p, action, []).steps == first.steps + second.steps;
    AlongOwn(t, p, action, ds[..k], [p]);
    assert path[0] == p;
    AlongFits(t, p, action, ds[k..], path);
    if d.requiredProductId !in path {
      assert WalkOne(t, p, action, ds[k..][0], path).steps[0] == Step(p, d);
      assert second.steps[0] == Step(p, d);
    } else {
      assert !Fits(t, path, Step(p, d));
    }
  }

  /** So a hard dependency of a requested action is recorded if its product was not visited yet when the walk of
      the action came to it. */
  lemma RequestedDependencyRecorded(t: Tables, requested: seq<ProductOnClient>, a: Action, k: nat)
    requires a in RequestedActions(t, requested) && t.Available(a.productId) && k < |t.DependenciesFrom(a.productId)|
    requires var ds := t.DependenciesFrom(a.productId);
      ds[k].productAction == a.action && ds[k] !in ds[..k] && IsHard(t, ds[k]) &&
      ds[k].requiredProductId !in PathBefore(t, a.productId, a.action, k)
    ensures t.DependenciesFrom(a.productId)[k] in DependenciesOf(RecordedFor(t, requested), a.productId)
  {
    var d := t.DependenciesFrom(a.productId)[k];
    OwnWalkFollowsIff(t, a.productId, a.action, k);
    RequestedWalkIncluded(t, requested, a, Step(a.productId, d));
    RecordedIff(t, requested, a.productId, d);
  }

  // ----- the same in terms of the dependencies alone -----

  /** A product with the action that is demanded of it. */
  datatype Visit = Visit(p: ProductId, action: string)

  /** The action of node x demands that of node y. */
  ghost predicate Edge(t: Tables, x: Visit, y: Visit) {
    exists d :: EdgeBy(t, x, y, d)
  }

  ghost predicate EdgeBy(t: Tables, x: Visit, y: Visit, d: Dependency) {
    && t.Available(x.p) && d in t.DependenciesFrom(x.p) && d.productAction == x.action
    && d.requiredProductId == y.p && t.Demand(d) == Need(y.action)
  }

  /** A chain of demands that stays away from product p. */
  ghost predicate Route(t: Tables, p: ProductId, c: seq<Visit>) {
    && c != [] && (forall i :: 0 <= i < |c| ==> c[i].p != p)
    && (forall i :: 0 <= i < |c| - 1 ==> Edge(t, c[i], c[i + 1]))
  }

  /** One of the dependencies ds of an action of p leads to product q. */
  ghost predicate Leads(t: Tables, p: ProductId, action: string, ds: seq<Dependency>, q: ProductId) {
    exists c, d :: LeadsBy(t, p, action, ds, q, c, d)
  }

  ghost predicate LeadsBy(t: Tables, p: ProductId, action: string, ds: seq<Dependency>, q: ProductId, c: seq<Visit>,
                          d: Dependency) {
    && Route(t, p, c) && c[|c| - 1].p == q
    && d in ds && d.productAction == action && d.requiredProductId == c[0].p && t.Demand(d) == Need(c[0].action)
  }

  /** A route from node x to product q. */
  ghost predicate RouteTo(t: Tables, p: ProductId, x: Visit, q: ProductId) {
    exists c: seq<Visit> :: Route(t, p, c) && c[0] == x && c[|c| - 1].p == q
  }

  lemma RouteSelf(t: Tables, p: ProductId, x: Visit)
    requires x.p != p
    ensures RouteTo(t, p, x, x.p)
  {
    assert Route(t, p, [x]);
  }

  lemma RoutePrepend(t: Tables, p: ProductId, x: Visit, y: Visit, q: ProductId)
    requires x.p != p && Edge(t, x, y) && RouteTo(t, p, y, q)
    ensures RouteTo(t, p, x, q)
  {
    hide Edge;
    var c: seq<Visit> :| Route(t, p, c) && c[0] == y && c[|c| - 1].p == q;
    assert Route(t, p, [x] + c);
  }

  /** Whatever a walk visits can be reached along demands. */
  lemma {:induction false} FromVisits(t: Tables, p: ProductId, x: Visit, path: seq<ProductId>)
    requires x.p !in path && p in path
    ensures forall q :: q in WalkFrom(t, x.p, x.action, path).path ==> q in path || RouteTo(t, p, x, q)
    decreases Unvisited(t, path), 0, 0
  {
    hide RouteTo;
    RouteSelf(t, p, x);
    assert forall q :: q in path + [x.p] ==> q in path || q == x.p;
    if t.Available(x.p) {
      VisitStep(t, x.p, path);
      AlongVisits(t, p, x, t.DependenciesFrom(x.p), path + [x.p]);
    }
  }

  lemma {:induction false} AlongVisits(t: Tables, p: ProductId, x: Visit, ds: seq<Dependency>, path: seq<ProductId>)
    requires p in path && x.p != p && t.Available(x.p) && forall d :: d in ds ==> d in t.DependenciesFrom(x.p)
    ensures forall q :: q in WalkAlong(t, x.p, x.action, ds, path).path ==> q in path || RouteTo(t, p, x, q)
    decreases Unvisited(t, path), 2, |ds|
  {
    hide RouteTo;
    if ds != [] {
      var d := ds[0];
      var one := WalkOne(t, x.p, x.action, d, path);
      if d.productAction == x.action && d.requiredProductId !in path && t.Demand(d).Need? {
        var y := Visit(d.requiredProductId, t.Demand(d).action);
        FromVisits(t, p, y, path);
        assert EdgeBy(t, x, y, d);
        forall q | RouteTo(t, p, y, q)
          ensures RouteTo(t, p, x, q)
        {
          RoutePrepend(t, p, x, y, q);
        }
      }
      AlongVisits(t, p, x, ds[1..], one.path);
    }
  }

  lemma {:induction false} OwnVisits(t: Tables, p: ProductId, action: string, ds: seq<Dependency>, path: seq<ProductId>)
    requires p in path
    ensures forall q :: q in WalkAlong(t, p, action, ds, path).path ==> q in path || Leads(t, p, action, ds, q)
    decreases |ds|
  {
    hide Leads;
    if ds != [] {
      var d := ds[0];
      var one := WalkOne(t, p, action, d, path);
      OwnVisits(t, p, action, ds[1..], one.path);
      if d.productAction == action && d.requiredProductId !in path && t.Demand(d).Need? {
        FromVisits(t, p, Visit(d.requiredProductId, t.Demand(d).action), path);
      }
      forall q
        ensures q in one.path && q !in path ==> Leads(t, p, action, ds, q)
        ensures Leads(t, p, action, ds[1..], q) ==> Leads(t, p, action, ds, q)
      {
        if q in one.path && q !in path {
          FirstLeads(t, p, action, ds, q);
        }
        LeadsMore(t, p, action, ds, q);
      }
    }
  }

  lemma FirstLeads(t: Tables, p: ProductId, action: string, ds: seq<Dependency>, q: ProductId)
    requires ds != [] && ds[0].productAction == action && t.Demand(ds[0]).Need?
    requires RouteTo(t, p, Visit(ds[0].requiredProductId, t.Demand(ds[0]).action), q)
    ensures Leads(t, p, action, ds, q)
  {
    var c: seq<Visit> :| Route(t, p, c) && c[0] == Visit(ds[0].requiredProductId, t.Demand(ds[0]).action) &&
                            c[|c| - 1].p == q;
    assert LeadsBy(t, p, action, ds, q, c, ds[0]);
  }

  lemma LeadsMore(t: Tables, p: ProductId, action: string, ds: seq<Dependency>, q: ProductId)
    requires ds != []
    ensures Leads(t, p, action, ds[1..], q) ==> Leads(t, p, action, ds, q)
  {
    if Leads(t, p, action, ds[1..], q) {
      var c, d :| LeadsBy(t, p, action, ds[1..], q, c, d);
      assert LeadsBy(t, p, action, ds, q, c, d);
    }
  }

  /** Every product is demanded with one action only. */
  ghost predicate OneAction(t: Tables) {
    forall x, y, v, w :: Edge(t, x, y) && Edge(t, v, w) && y.p == w.p ==> y.action == w.action
  }

  lemma RouteVisited(t: Tables, p: ProductId, action: string, k: nat, c: seq<Visit>, i: nat)
    requires OneAction(t) && t.Available(p) && k <= |t.DependenciesFrom(p)|
    requires Route(t, p, c) && i < |c| && Edge(t, Visit(p, action), c[0])
    requires c[0].p in PathBefore(t, p, action, k)
    ensures c[i].p in PathBefore(t, p, action, k)
    decreases i
  {
    if i > 0 {
      RouteVisited(t, p, action, k, c, i - 1);
      VisitedGoOn(t, p, action, k, if i == 1 then Visit(p, action) else c[i - 2], c[i - 1], c[i]);
    }
  }

  lemma VisitedGoOn(t: Tables, p: ProductId, action: string, k: nat, w: Visit, x: Visit, y: Visit)
    requires OneAction(t) && t.Available(p) && k <= |t.DependenciesFrom(p)|
    requires Edge(t, w, x) && Edge(t, x, y) && x.p != p && x.p in PathBefore(t, p, action, k)
    ensures y.p in PathBefore(t, p, action, k)
  {
    hide OneAction;
    var ds := t.DependenciesFrom(p)[..k];
    var walk := WalkAlong(t, p, action, ds, [p]);
    AlongCloses(t, p, action, ds, [p]);
    AlongFits(t, p, action, ds, [p]);
    assert VisitedBy(t, walk.steps, x.p);
    var s :| s in walk.steps && t.Demand(s.d).Need? && s.d.requiredProductId == x.p;
    SameAction(t, w, x, s);
    assert StepClosed(t, walk.path, s);
    var d :| EdgeBy(t, x, y, d);
    assert d in t.DependenciesFrom(x.p);
  }

  lemma SameAction(t: Tables, w: Visit, x: Visit, s: Step)
    requires OneAction(t) && Edge(t, w, x)
    requires t.Available(s.p) && s.d in t.DependenciesFrom(s.p) && t.Demand(s.d).Need? && s.d.requiredProductId == x.p
    ensures t.Demand(s.d) == Need(x.action)
  {
    var y := Visit(x.p, t.Demand(s.d).action);
    assert EdgeBy(t, Visit(s.p, s.d.productAction), y, s.d);
    assert Edge(t, Visit(s.p, s.d.productAction), y);
  }

  /** Where every product is demanded with one action only, the walk of an action of p follows its k-th
      dependency exactly if the product of that is not p and no earlier dependency of the action leads to it. */
  lemma OwnWalkFollowsIffNotLed(t: Tables, p: ProductId, action: string, k: nat)
    requires OneAction(t) && t.Available(p) && k < |t.DependenciesFrom(p)|
    requires var ds := t.DependenciesFrom(p); ds[k].productAction == action && ds[k] !in ds[..k]
    ensures var ds := t.DependenciesFrom(p);
      Step(p, ds[k]) in WalkFrom(t, p, action, []).steps <==>
      ds[k].requiredProductId != p && !Leads(t, p, action, ds[..k], ds[k].requiredProductId)
  {
    hide OneAction, Leads;
    OwnWalkFollowsIff(t, p, action, k);
    PathBeforeIff(t, p, action, k, t.DependenciesFrom(p)[k].requiredProductId);
  }

  /** On any tables: a product that the walk visited before its k-th dependency is p, or an earlier dependency
      leads to it. */
  lemma VisitedBeforeIsLed(t: Tables, p: ProductId, action: string, k: nat, q: ProductId)
    requires t.Available(p) && k <= |t.DependenciesFrom(p)| && q in PathBefore(t, p, action, k)
    ensures q == p || Leads(t, p, action, t.DependenciesFrom(p)[..k], q)
  {
    hide Leads;
    OwnVisits(t, p, action, t.DependenciesFrom(p)[..k], [p]);
  }

  lemma PathBeforeIff(t: Tables, p: ProductId, action: string, k: nat, q: ProductId)
    requires OneAction(t) && t.Available(p) && k <= |t.DependenciesFrom(p)|
    ensures q in PathBefore(t, p, action, k) <==> q == p || Leads(t, p, action, t.DependenciesFrom(p)[..k], q)
  {
    hide OneAction, Route;
    var ds := t.DependenciesFrom(p)[..k];
    if q in PathBefore(t, p, action, k) {
      VisitedBeforeIsLed(t, p, action, k, q);
    }
    AlongCloses(t, p, action, ds, [p]);
    assert PathBefore(t, p, action, k)[0] == p;
    if Leads(t, p, action, ds, q) {
      var c, d :| LeadsBy(t, p, action, ds, q, c, d);
      NotEmptyRoute(t, p, c);
      assert EdgeBy(t, Visit(p, action), c[0], d);
      RouteVisited(t, p, action, k, c, |c| - 1);
    }
  }

  lemma NotEmptyRoute(t: Tables, p: ProductId, c: seq<Visit>)
    requires Route(t, p, c)
    ensures c != []
  {
  }

  /** On any tables a hard dependency of a requested action is recorded if its product is another one and no
      earlier dependency of the action leads to it; it does not matter whether that product is requested, too. */
  lemma RecordedUnlessLed(t: Tables, requested: seq<ProductOnClient>, a: Action, k: nat)
    requires a in RequestedActions(t, requested) && t.Available(a.productId) && k < |t.DependenciesFrom(a.productId)|
    requires var ds := t.DependenciesFrom(a.productId);
      && ds[k].productAction == a.action && ds[k] !in ds[..k] && IsHard(t, ds[k])
      && ds[k].requiredProductId != a.productId && !Leads(t, a.productId, a.action, ds[..k], ds[k].requiredProductId)
    ensures t.DependenciesFrom(a.productId)[k] in DependenciesOf(RecordedFor(t, requested), a.productId)
  {
    hide Leads, RecordedFor, RequestedActions;
    var q := t.DependenciesFrom(a.productId)[k].requiredProductId;
    if q in PathBefore(t, a.productId, a.action, k) {
      VisitedBeforeIsLed(t, a.productId, a.action, k, q);
    }
    RequestedDependencyRecorded(t, requested, a, k);
  }
}
