/** The recursive expansion of one action as a function of the tables alone: which dependencies it follows and
    which products it visits (opsiclientd/nonfree/RPCProductDependencyMixin.py). */
module DependencyWalks {
  import opened ActionGroups
  import opened Common
  import opened DependencyTables

  /** Dependency d of product p is followed. */
  datatype Step = Step(p: ProductId, d: Dependency)

  /** The shared path at the end of a walk, and the steps in order. */
  datatype Walk = Walk(path: seq<ProductId>, steps: seq<Step>)

  ghost function Unvisited(t: Tables, path: seq<ProductId>): set<ProductId> {
    t.depot.Keys - (set p | p in path)
  }

  /** The walk of an action of a product that is not on the path. */
  function WalkFrom(t: Tables, p: ProductId, action: string, path: seq<ProductId>): (w: Walk)
    requires p !in path
    ensures path + [p] <= w.path
    decreases Unvisited(t, path), 0, 0
  {
    if !t.Available(p) then Walk(path + [p], [])
    else
      assert Unvisited(t, path + [p]) < Unvisited(t, path) by {
        assert p in Unvisited(t, path) && p !in Unvisited(t, path + [p]);
      }
      WalkAlong(t, p, action, t.DependenciesFrom(p), path + [p])
  }

  /** The walk along the dependencies ds of p. */
  function WalkAlong(t: Tables, p: ProductId, action: string, ds: seq<Dependency>, path: seq<ProductId>): (w: Walk)
    ensures path <= w.path
    decreases Unvisited(t, path), 2, |ds|
  {
    if ds == [] then Walk(path, [])
    else
      var one := WalkOne(t, p, action, ds[0], path);
      assert Unvisited(t, one.path) <= Unvisited(t, path);
      var rest := WalkAlong(t, p, action, ds[1..], one.path);
      Walk(rest.path, one.steps + rest.steps)
  }

  /** One dependency: it is passed over if its product is on the path. */
  function WalkOne(t: Tables, p: ProductId, action: string, d: Dependency, path: seq<ProductId>): (w: Walk)
    ensures path <= w.path
    decreases Unvisited(t, path), 1, 0
  {
    if d.productAction != action || d.requiredProductId in path then Walk(path, [])
    else if t.Demand(d).Need? then
      var next := WalkFrom(t, d.requiredProductId, t.Demand(d).action, path);
      Walk(next.path, [Step(p, d)] + next.steps)
    else Walk(path, [Step(p, d)])
  }

  // ----- what the steps do to the sorter -----

  predicate IsHard(t: Tables, d: Dependency) {
    d.direction != Soft && t.Demand(d) != NotAvailable
  }

  function Recorded(deps: Dependencies, p: ProductId, d: Dependency): Dependencies {
    deps[p := DependenciesOf(deps, p) + [d]]
  }

  function RecordStep(t: Tables, deps: Dependencies, s: Step): Dependencies {
    if IsHard(t, s.d) && s.d !in DependenciesOf(deps, s.p) then Recorded(deps, s.p, s.d) else deps
  }

  function RecordAll(t: Tables, deps: Dependencies, steps: seq<Step>): Dependencies
    decreases |steps|
  {
    if steps == [] then deps else RecordAll(t, RecordStep(t, deps, steps[0]), steps[1..])
  }

  /** The action that a dependency demands. */
  function RequiredAction(t: Tables, d: Dependency): Action
    requires t.Demand(d).Need?
  {
    Action(d.requiredProductId, t.Demand(d).action, t.ProductOf(d.requiredProductId).priority, None)
  }

  function AppendStep(t: Tables, u: Unsorted, s: Step): Unsorted {
    if t.Demand(s.d).Need? then Appended(u, RequiredAction(t, s.d)) else u
  }

  function AppendAll(t: Tables, u: Unsorted, steps: seq<Step>): Unsorted
    decreases |steps|
  {
    if steps == [] then u else AppendAll(t, AppendStep(t, u, steps[0]), steps[1..])
  }

  /** The error that a dependency raises when it is followed. */
  function StepOutcome(t: Tables, ignoreUnavailable: bool, d: Dependency): Outcome {
    match t.Demand(d)
    case NotAvailable => if ignoreUnavailable then Done else ProductNotAvailable
    case InvalidStatus => InvalidInstallationStatus
    case _ => Done
  }

  /** The first error of the steps. */
  function StepsOutcome(t: Tables, ignoreUnavailable: bool, steps: seq<Step>): Outcome {
    if steps == [] then Done
    else if StepOutcome(t, ignoreUnavailable, steps[0].d) != Done then StepOutcome(t, ignoreUnavailable, steps[0].d)
    else StepsOutcome(t, ignoreUnavailable, steps[1..])
  }

  lemma {:induction false} RecordAllConcat(t: Tables, deps: Dependencies, a: seq<Step>, b: seq<Step>)
    ensures RecordAll(t, deps, a + b) == RecordAll(t, RecordAll(t, deps, a), b)
    decreases |a|
  {
    if a == [] {
      assert a + b == b;
    } else {
      assert (a + b)[1..] == a[1..] + b;
      RecordAllConcat(t, RecordStep(t, deps, a[0]), a[1..], b);
    }
  }

  lemma {:induction false} AppendAllConcat(t: Tables, u: Unsorted, a: seq<Step>, b: seq<Step>)
    ensures AppendAll(t, u, a + b) == AppendAll(t, AppendAll(t, u, a), b)
    decreases |a|
  {
    if a == [] {
      assert a + b == b;
    } else {
      assert (a + b)[1..] == a[1..] + b;
      AppendAllConcat(t, AppendStep(t, u, a[0]), a[1..], b);
    }
  }

  lemma {:induction false} StepsOutcomeConcat(t: Tables, ignoreUnavailable: bool, a: seq<Step>, b: seq<Step>)
    ensures StepsOutcome(t, ignoreUnavailable, a + b) ==
      if StepsOutcome(t, ignoreUnavailable, a) == Done then StepsOutcome(t, ignoreUnavailable, b)
      else StepsOutcome(t, ignoreUnavailable, a)
    decreases |a|
  {
    if a == [] {
      assert a + b == b;
    } else {
      assert (a + b)[1..] == a[1..] + b;
      StepsOutcomeConcat(t, ignoreUnavailable, a[1..], b);
    }
  }

  /** The outcome is an error exactly if some step raises one. */
  lemma {:induction false} StepsOutcomeIff(t: Tables, ignoreUnavailable: bool, steps: seq<Step>)
    ensures StepsOutcome(t, ignoreUnavailable, steps) == Done <==>
      forall s :: s in steps ==> StepOutcome(t, ignoreUnavailable, s.d) == Done
    ensures StepsOutcome(t, ignoreUnavailable, steps) != Done ==>
      exists s :: s in steps && StepsOutcome(t, ignoreUnavailable, steps) == StepOutcome(t, ignoreUnavailable, s.d)
    decreases |steps|
  {
    if steps != [] {
      StepsOutcomeIff(t, ignoreUnavailable, steps[1..]);
      assert steps == [steps[0]] + steps[1..];
    }
  }

  /** Recorded is exactly what was recorded before or is hard and followed. */
  lemma {:induction false} RecordAllMembers(t: Tables, deps: Dependencies, steps: seq<Step>, p: ProductId,
                                            d: Dependency)
    ensures d in DependenciesOf(RecordAll(t, deps, steps), p) <==>
      d in DependenciesOf(deps, p) || (Step(p, d) in steps && IsHard(t, d))
    decreases |steps|
  {
    if steps != [] {
      RecordAllMembers(t, RecordStep(t, deps, steps[0]), steps[1..], p, d);
      RecordStepMembers(t, deps, steps[0], p, d);
      assert steps == [steps[0]] + steps[1..];
    }
  }

  lemma RecordStepMembers(t: Tables, deps: Dependencies, s: Step, p: ProductId, d: Dependency)
    ensures d in DependenciesOf(RecordStep(t, deps, s), p) <==>
              d in DependenciesOf(deps, p) || (Step(p, d) == s && IsHard(t, d))
  {
    hide IsHard;
    if s.p == p && IsHard(t, s.d) && s.d !in DependenciesOf(deps, s.p) {
      assert RecordStep(t, deps, s)[p] == DependenciesOf(deps, p) + [s.d];
    }
  }

  lemma {:induction false} AppendAllExtends(t: Tables, u: Unsorted, steps: seq<Step>)
    ensures Extends(u, AppendAll(t, u, steps))
    decreases |steps|
  {
    hide Extends;
    if steps == [] {
      ExtendsSelf(u);
    } else {
      var v := AppendStep(t, u, steps[0]);
      ExtendsSelf(u);
      if t.Demand(steps[0].d).Need? {
        AppendedExtends(u, RequiredAction(t, steps[0].d));
      }
      AppendAllExtends(t, v, steps[1..]);
      ExtendsTrans(u, v, AppendAll(t, v, steps[1..]));
    }
  }

  lemma ExtendsSelf(u: Unsorted)
    ensures Extends(u, u)
  {
  }

  /** The list of a product changes only if a step demands an action of it. */
  lemma {:induction false} AppendAllKeeps(t: Tables, u: Unsorted, steps: seq<Step>, p: ProductId)
    requires p in u && forall s :: s in steps ==> s.d.requiredProductId != p
    ensures p in AppendAll(t, u, steps) && AppendAll(t, u, steps)[p] == u[p]
    decreases |steps|
  {
    if steps != [] {
      AppendAllKeeps(t, AppendStep(t, u, steps[0]), steps[1..], p);
    }
  }

  ghost predicate DemandedBy(t: Tables, steps: seq<Step>, a: Action) {
    exists s :: s in steps && t.Demand(s.d).Need? && RequiredAction(t, s.d) == a
  }

  /** Everything that is new was demanded by a step. */
  lemma {:induction false} AppendAllNew(t: Tables, u: Unsorted, steps: seq<Step>, p: ProductId, k: nat)
    requires p in AppendAll(t, u, steps) && k < |AppendAll(t, u, steps)[p]| && (p in u ==> |u[p]| <= k)
    ensures DemandedBy(t, steps, AppendAll(t, u, steps)[p][k])
    decreases |steps|
  {
    if steps == [] {
      assert false;
    } else {
      var v := AppendStep(t, u, steps[0]);
      var w := AppendAll(t, v, steps[1..]);
      AppendAllExtends(t, v, steps[1..]);
      assert steps == [steps[0]] + steps[1..];
      if p in v && k < |v[p]| {
        assert v[p] <= w[p] && w[p][k] == v[p][k] == RequiredAction(t, steps[0].d);
      } else {
        AppendAllNew(t, v, steps[1..], p, k);
        var s :| s in steps[1..] && t.Demand(s.d).Need? && RequiredAction(t, s.d) == w[p][k];
        assert s in steps;
      }
    }
  }

  lemma {:induction false} AppendAllHas(t: Tables, u: Unsorted, steps: seq<Step>, s: Step)
    requires s in steps && t.Demand(s.d).Need?
    ensures IsIn(AppendAll(t, u, steps), RequiredAction(t, s.d))
    decreases |steps|
  {
    var v := AppendStep(t, u, steps[0]);
    if s == steps[0] {
      AppendedExtends(u, RequiredAction(t, s.d));
      AppendAllExtends(t, v, steps[1..]);
      ExtendsIsIn(v, AppendAll(t, v, steps[1..]), RequiredAction(t, s.d));
    } else {
      assert s in steps[1..];
      AppendAllHas(t, v, steps[1..], s);
    }
  }

  lemma NoSteps(t: Tables, ignoreUnavailable: bool, u: Unsorted, deps: Dependencies)
    ensures AppendAll(t, u, []) == u && RecordAll(t, deps, []) == deps && StepsOutcome(t, ignoreUnavailable, []) == Done
  {
  }

  lemma TakenOn(t: Tables, ignoreUnavailable: bool, u: Unsorted, deps: Dependencies, taken: seq<Step>, more: seq<Step>)
    ensures AppendAll(t, u, taken + more) == AppendAll(t, AppendAll(t, u, taken), more)
    ensures RecordAll(t, deps, taken + more) == RecordAll(t, RecordAll(t, deps, taken), more)
    ensures StepsOutcome(t, ignoreUnavailable, taken) == Done ==>
      StepsOutcome(t, ignoreUnavailable, taken + more) == StepsOutcome(t, ignoreUnavailable, more)
  {
    AppendAllConcat(t, u, taken, more);
    RecordAllConcat(t, deps, taken, more);
    StepsOutcomeConcat(t, ignoreUnavailable, taken, more);
  }

  lemma OneStep(t: Tables, ignoreUnavailable: bool, u: Unsorted, deps: Dependencies, s: Step)
    ensures AppendAll(t, u, [s]) == AppendStep(t, u, s) && RecordAll(t, deps, [s]) == RecordStep(t, deps, s)
    ensures StepsOutcome(t, ignoreUnavailable, [s]) == StepOutcome(t, ignoreUnavailable, s.d)
    ensures forall rest :: AppendAll(t, u, [s] + rest) == AppendAll(t, AppendStep(t, u, s), rest)
    ensures forall rest :: RecordAll(t, deps, [s] + rest) == RecordAll(t, RecordStep(t, deps, s), rest)
    ensures forall rest :: StepOutcome(t, ignoreUnavailable, s.d) == Done ==>
      StepsOutcome(t, ignoreUnavailable, [s] + rest) == StepsOutcome(t, ignoreUnavailable, rest)
  {
    NoSteps(t, ignoreUnavailable, AppendStep(t, u, s), RecordStep(t, deps, s));
    assert [s][1..] == [];
    assert forall rest: seq<Step> :: ([s] + rest)[1..] == rest;
  }

  lemma AlongHead(t: Tables, p: ProductId, action: string, ds: seq<Dependency>, path: seq<ProductId>)
    requires ds != []
    ensures var one := WalkOne(t, p, action, ds[0], path);
      var rest := WalkAlong(t, p, action, ds[1..], one.path);
      WalkAlong(t, p, action, ds, path) == Walk(rest.path, one.steps + rest.steps)
  {
  }

  lemma AlongNothing(t: Tables, p: ProductId, action: string, path: seq<ProductId>)
    ensures WalkAlong(t, p, action, [], path) == Walk(path, [])
  {
  }

  lemma PathGrew(t: Tables, path: seq<ProductId>, longer: seq<ProductId>)
    requires path <= longer
    ensures Unvisited(t, longer) <= Unvisited(t, path)
  {
  }

  // ----- which steps a walk takes -----

  /** The dependency belongs to an available product, and it leads to a product that was not on the path. */
  ghost predicate Fits(t: Tables, path: seq<ProductId>, s: Step) {
    && t.Available(s.p) && s.d in t.DependenciesFrom(s.p)
    && s.d.requiredProductId !in path && s.d.requiredProductId != s.p
  }

  lemma {:induction false} FromFits(t: Tables, p: ProductId, action: string, path: seq<ProductId>)
    requires p !in path
    ensures forall s :: s in WalkFrom(t, p, action, path).steps ==> Fits(t, path + [p], s)
    decreases Unvisited(t, path), 0, 0
  {
    if t.Available(p) {
      VisitStep(t, p, path);
      AlongFits(t, p, action, t.DependenciesFrom(p), path + [p]);
    }
  }

  lemma VisitStep(t: Tables, p: ProductId, path: seq<ProductId>)
    requires p !in path && t.Available(p)
    ensures Unvisited(t, path + [p]) < Unvisited(t, path)
  {
    assert p in Unvisited(t, path) && p !in Unvisited(t, path + [p]);
  }

  lemma {:induction false} AlongFits(t: Tables, p: ProductId, action: string, ds: seq<Dependency>, path: seq<ProductId>)
    requires t.Available(p) && p in path && forall d :: d in ds ==> d in t.DependenciesFrom(p)
    ensures forall s :: s in WalkAlong(t, p, action, ds, path).steps ==> Fits(t, path, s)
    decreases Unvisited(t, path), 2, |ds|
  {
    if ds != [] {
      var one := WalkOne(t, p, action, ds[0], path);
      OneFits(t, p, action, ds[0], path);
      AlongFits(t, p, action, ds[1..], one.path);
    }
  }

  lemma {:induction false} OneFits(t: Tables, p: ProductId, action: string, d: Dependency, path: seq<ProductId>)
    requires t.Available(p) && p in path && d in t.DependenciesFrom(p)
    ensures forall s :: s in WalkOne(t, p, action, d, path).steps ==> Fits(t, path, s)
    decreases Unvisited(t, path), 1, 0
  {
    if d.productAction == action && d.requiredProductId !in path && t.Demand(d).Need? {
      FromFits(t, d.requiredProductId, t.Demand(d).action, path);
    }
  }

  /** The walk of an action of p leaves the list of p as it is. */
  lemma WalkKeepsList(t: Tables, u: Unsorted, p: ProductId, action: string)
    requires p in u
    ensures var v := AppendAll(t, u, WalkFrom(t, p, action, []).steps); p in v && v[p] == u[p]
  {
    FromFits(t, p, action, []);
    assert p in [] + [p];
    AppendAllKeeps(t, u, WalkFrom(t, p, action, []).steps, p);
  }

  // ----- what a walk visits -----

  /** All products that an action demands are on the path. */
  ghost predicate ClosedIn(t: Tables, p: ProductId, action: string, path: seq<ProductId>) {
    t.Available(p) ==>
      forall d :: d in t.DependenciesFrom(p) && d.productAction == action && t.Demand(d).Need? ==>
        d.requiredProductId in path
  }

  /** The action that a step demands is closed. */
  ghost predicate StepClosed(t: Tables, path: seq<ProductId>, s: Step) {
    t.Demand(s.d).Need? ==> ClosedIn(t, s.d.requiredProductId, t.Demand(s.d).action, path)
  }

  ghost predicate VisitedBy(t: Tables, steps: seq<Step>, x: ProductId) {
    exists s :: s in steps && t.Demand(s.d).Need? && s.d.requiredProductId == x
  }

  lemma StepClosedMono(t: Tables, path: seq<ProductId>, longer: seq<ProductId>, s: Step)
    requires StepClosed(t, path, s) && path <= longer
    ensures StepClosed(t, longer, s)
  {
  }

  /** What is demanded by the steps of the walk is closed, and what the walk visits is demanded by a step. */
  ghost predicate Settles(t: Tables, path: seq<ProductId>, w: Walk) {
    && (forall s :: s in w.steps ==> StepClosed(t, w.path, s))
    && (forall x :: x in w.path ==> x in path || VisitedBy(t, w.steps, x))
  }

  lemma SettlesConcat(t: Tables, path: seq<ProductId>, one: Walk, rest: Walk)
    requires Settles(t, path, one) && Settles(t, one.path, rest) && one.path <= rest.path
    ensures Settles(t, path, Walk(rest.path, one.steps + rest.steps))
  {
    hide StepClosed, VisitedBy;
    forall s | s in one.steps + rest.steps
      ensures StepClosed(t, rest.path, s)
    {
      if s in one.steps {
        StepClosedMono(t, one.path, rest.path, s);
      }
    }
    VisitedByEither(t, one.steps, rest.steps);
  }

  lemma VisitedByEither(t: Tables, a: seq<Step>, b: seq<Step>)
    ensures forall x :: VisitedBy(t, a, x) || VisitedBy(t, b, x) ==> VisitedBy(t, a + b, x)
  {
    forall x | VisitedBy(t, a, x) || VisitedBy(t, b, x)
      ensures VisitedBy(t, a + b, x)
    {
      var s :| (s in a || s in b) && t.Demand(s.d).Need? && s.d.requiredProductId == x;
      assert s in a + b;
    }
  }

  lemma {:induction false} FromCloses(t: Tables, p: ProductId, action: string, path: seq<ProductId>)
    requires p !in path
    ensures ClosedIn(t, p, action, WalkFrom(t, p, action, path).path)
    ensures Settles(t, path + [p], WalkFrom(t, p, action, path))
    decreases Unvisited(t, path), 0, 0
  {
    hide StepClosed, VisitedBy;
    if t.Available(p) {
      VisitStep(t, p, path);
      AlongCloses(t, p, action, t.DependenciesFrom(p), path + [p]);
    }
  }

  lemma {:induction false} AlongCloses(t: Tables, p: ProductId, action: string, ds: seq<Dependency>,
                                       path: seq<ProductId>)
    ensures Settles(t, path, WalkAlong(t, p, action, ds, path))
    ensures forall d :: d in ds && d.productAction == action && t.Demand(d).Need? ==>
              d.requiredProductId in WalkAlong(t, p, action, ds, path).path
    decreases Unvisited(t, path), 2, |ds|
  {
    hide StepClosed, VisitedBy;
    if ds != [] {
      var one := WalkOne(t, p, action, ds[0], path);
      OneCloses(t, p, action, ds[0], path);
      AlongCloses(t, p, action, ds[1..], one.path);
      assert ds == [ds[0]] + ds[1..];
      SettlesConcat(t, path, one, WalkAlong(t, p, action, ds[1..], one.path));
    }
  }

  lemma {:induction false} OneCloses(t: Tables, p: ProductId, action: string, d: Dependency, path: seq<ProductId>)
    ensures Settles(t, path, WalkOne(t, p, action, d, path))
    ensures d.productAction == action && t.Demand(d).Need? ==>
              d.requiredProductId in WalkOne(t, p, action, d, path).path
    decreases Unvisited(t, path), 1, 0
  {
    if d.productAction == action && d.requiredProductId !in path && t.Demand(d).Need? {
      var q := d.requiredProductId;
      FromCloses(t, q, t.Demand(d).action, path);
      var next := WalkFrom(t, q, t.Demand(d).action, path);
      assert next.path[|path|] == q;
      assert Step(p, d) in [Step(p, d)];
      assert StepClosed(t, next.path, Step(p, d));
      VisitedByEither(t, [Step(p, d)], next.steps);
      assert forall x :: x in path + [q] ==> x in path || x == q;
    }
  }

  // ----- all that a walk collects follows from its action -----

  /** A collected action triggers the dependency of the step. */
  ghost predicate Reached(t: Tables, u: Unsorted, s: Step) {
    exists a :: IsIn(u, a) && a.productId == s.p && t.Triggers(a, s.d)
  }

  lemma ReachedMono(t: Tables, u: Unsorted, v: Unsorted, s: Step)
    requires Reached(t, u, s) && Extends(u, v)
    ensures Reached(t, v, s)
  {
    var a :| IsIn(u, a) && a.productId == s.p && t.Triggers(a, s.d);
    ExtendsIsIn(u, v, a);
  }

  /** The steps start from collected actions, and what they add is justified. */
  ghost predicate Follows(t: Tables, q: set<Action>, u: Unsorted, steps: seq<Step>) {
    && WellCollected(t, q, AppendAll(t, u, steps))
    && forall s :: s in steps ==> Reached(t, AppendAll(t, u, steps), s)
  }

  lemma FollowsConcat(t: Tables, q: set<Action>, u: Unsorted, a: seq<Step>, b: seq<Step>)
    requires Follows(t, q, u, a) && Follows(t, q, AppendAll(t, u, a), b)
    ensures Follows(t, q, u, a + b)
  {
    hide Reached, WellCollected, Extends;
    AppendAllConcat(t, u, a, b);
    var v := AppendAll(t, u, a);
    AppendAllExtends(t, v, b);
    forall s | s in a
      ensures Reached(t, AppendAll(t, v, b), s)
    {
      ReachedMono(t, v, AppendAll(t, v, b), s);
    }
  }

  lemma FollowsNothing(t: Tables, q: set<Action>, u: Unsorted)
    requires WellCollected(t, q, u)
    ensures Follows(t, q, u, [])
  {
  }

  lemma {:induction false} FromFollows(t: Tables, q: set<Action>, u: Unsorted, a: Action, path: seq<ProductId>)
    requires WellCollected(t, q, u) && IsIn(u, a) && a.productId !in path
    ensures Follows(t, q, u, WalkFrom(t, a.productId, a.action, path).steps)
    decreases Unvisited(t, path), 0, 0
  {
    hide Follows, WellCollected;
    if t.Available(a.productId) {
      VisitStep(t, a.productId, path);
      AlongFollows(t, q, u, a, t.DependenciesFrom(a.productId), path + [a.productId]);
    } else {
      FollowsNothing(t, q, u);
    }
  }

  lemma {:induction false} AlongFollows(t: Tables, q: set<Action>, u: Unsorted, a: Action, ds: seq<Dependency>,
                                        path: seq<ProductId>)
    requires WellCollected(t, q, u) && IsIn(u, a)
    requires t.Available(a.productId) && forall d :: d in ds ==> d in t.DependenciesFrom(a.productId)
    ensures Follows(t, q, u, WalkAlong(t, a.productId, a.action, ds, path).steps)
    decreases Unvisited(t, path), 2, |ds|
  {
    hide WellCollected, Reached, Extends;
    if ds == [] {
      FollowsNothing(t, q, u);
    } else {
      var one := WalkOne(t, a.productId, a.action, ds[0], path);
      OneFollows(t, q, u, a, ds[0], path);
      AppendAllExtends(t, u, one.steps);
      ExtendsIsIn(u, AppendAll(t, u, one.steps), a);
      AlongFollows(t, q, AppendAll(t, u, one.steps), a, ds[1..], one.path);
      FollowsConcat(t, q, u, one.steps, WalkAlong(t, a.productId, a.action, ds[1..], one.path).steps);
    }
  }

  lemma {:induction false} OneFollows(t: Tables, q: set<Action>, u: Unsorted, a: Action, d: Dependency,
                                      path: seq<ProductId>)
    requires WellCollected(t, q, u) && IsIn(u, a) && t.Available(a.productId) && d in t.DependenciesFrom(a.productId)
    ensures Follows(t, q, u, WalkOne(t, a.productId, a.action, d, path).steps)
    decreases Unvisited(t, path), 1, 0
  {
    hide WellCollected, Follows;
    if d.productAction != a.action || d.requiredProductId in path {
      FollowsNothing(t, q, u);
    } else {
      StepFollows(t, q, u, a, d);
      if t.Demand(d).Need? {
        var b := RequiredAction(t, d);
        var v := AppendAll(t, u, [Step(a.productId, d)]);
        AppendOne(t, u, Step(a.productId, d));
        AppendedExtends(u, b);
        FollowsCollected(t, q, u, [Step(a.productId, d)]);
        FromFollows(t, q, v, b, path);
        FollowsConcat(t, q, u, [Step(a.productId, d)], WalkFrom(t, b.productId, b.action, path).steps);
      }
    }
  }

  lemma FollowsCollected(t: Tables, q: set<Action>, u: Unsorted, steps: seq<Step>)
    requires Follows(t, q, u, steps)
    ensures WellCollected(t, q, AppendAll(t, u, steps))
  {
  }

  lemma AppendOne(t: Tables, u: Unsorted, s: Step)
    ensures AppendAll(t, u, [s]) == AppendStep(t, u, s)
  {
    assert [s][1..] == [];
  }

  lemma StepFollows(t: Tables, q: set<Action>, u: Unsorted, a: Action, d: Dependency)
    requires WellCollected(t, q, u) && IsIn(u, a) && t.Triggers(a, d)
    ensures Follows(t, q, u, [Step(a.productId, d)])
  {
    hide WellCollected, Extends, Justified;
    var v := AppendStep(t, u, Step(a.productId, d));
    AppendOne(t, u, Step(a.productId, d));
    ExtendsSelf(u);
    if t.Demand(d).Need? {
      var b := RequiredAction(t, d);
      AppendedExtends(u, b);
      InJustified(t, q, u, a);
      JustifiedMono(t, q, u, v, a);
      assert Demands(t, a, b);
      DemandJustified(t, q, v, a, b);
      AppendedWellCollected(t, q, u, b);
    }
    ExtendsIsIn(u, v, a);
    assert IsIn(v, a) && a.productId == Step(a.productId, d).p && t.Triggers(a, Step(a.productId, d).d);
  }
}
