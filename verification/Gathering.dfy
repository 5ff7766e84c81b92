/** What is collected for the requests of one client, and which dependencies are followed, as functions of the
    tables and the requests (opsiclientd/nonfree/RPCProductDependencyMixin.py). */
module Gathering {
  import opened ActionGroups
  import opened Common
  import opened DependencyTables
  import opened DependencyWalks

  function RequestedAction(t: Tables, poc: ProductOnClient): Action
    requires t.Available(poc.productId)
  {
    Action(poc.productId, if poc.actionRequest == "" then "none" else poc.actionRequest,
           t.ProductOf(poc.productId).priority, Some(poc))
  }

  /** The actions that are asked for, for the products that are available. */
  ghost function RequestedActions(t: Tables, requested: seq<ProductOnClient>): set<Action> {
    set i | 0 <= i < |requested| && t.Available(requested[i].productId) :: RequestedAction(t, requested[i])
  }

  lemma RequestedActionsStep(t: Tables, requested: seq<ProductOnClient>, i: nat)
    requires i < |requested|
    ensures RequestedActions(t, requested[..i + 1]) == RequestedActions(t, requested[..i])
      + (if t.Available(requested[i].productId) then {RequestedAction(t, requested[i])} else {})
  {
    assert requested[..i + 1][i] == requested[i];
    assert forall k :: 0 <= k < i ==> requested[..i + 1][k] == requested[..i][k];
  }

  /** The lists of requested actions. */
  function RequestedLists(t: Tables, requested: seq<ProductOnClient>): Unsorted {
    if requested == [] then map[]
    else
      var u := RequestedLists(t, requested[..|requested| - 1]);
      var poc := requested[|requested| - 1];
      if t.Available(poc.productId) then Appended(u, RequestedAction(t, poc)) else u
  }

  /** The requested products in the order of their first request. */
  function RequestedOrder(t: Tables, requested: seq<ProductOnClient>): seq<ProductId> {
    if requested == [] then []
    else
      var order := RequestedOrder(t, requested[..|requested| - 1]);
      var p := requested[|requested| - 1].productId;
      if t.Available(p) && p !in order then order + [p] else order
  }

  lemma RequestedStep(t: Tables, requested: seq<ProductOnClient>, i: nat)
    requires i < |requested|
    ensures var p := requested[i].productId;
      var u, order := RequestedLists(t, requested[..i]), RequestedOrder(t, requested[..i]);
      && RequestedLists(t, requested[..i + 1]) ==
        (if t.Available(p) then Appended(u, RequestedAction(t, requested[i])) else u)
      && RequestedOrder(t, requested[..i + 1]) == (if t.Available(p) && p !in order then order + [p] else order)
  {
    assert requested[..i + 1][..i] == requested[..i];
  }

  lemma NothingRequested(t: Tables)
    ensures RequestedLists(t, []) == map[] && RequestedOrder(t, []) == []
  {
  }

  /** The steps of the walks of all actions in the list of p. */
  function ListSteps(t: Tables, p: ProductId, actions: seq<Action>): seq<Step> {
    if actions == [] then [] else WalkFrom(t, p, actions[0].action, []).steps + ListSteps(t, p, actions[1..])
  }

  /** The steps of the walks of all actions in the lists of the products keys, where each list is taken as it is
      when its turn comes. */
  function ExpandSteps(t: Tables, keys: seq<ProductId>, u: Unsorted): seq<Step>
    decreases |keys|
  {
    if keys == [] then []
    else
      var steps := if keys[0] in u then ListSteps(t, keys[0], u[keys[0]]) else [];
      steps + ExpandSteps(t, keys[1..], AppendAll(t, u, steps))
  }

  /** All dependencies that are followed for the requests. */
  function Steps(t: Tables, requested: seq<ProductOnClient>): seq<Step> {
    ExpandSteps(t, RequestedOrder(t, requested), RequestedLists(t, requested))
  }

  /** All actions that are collected for the requests. */
  function Gathered(t: Tables, requested: seq<ProductOnClient>): Unsorted {
    AppendAll(t, RequestedLists(t, requested), Steps(t, requested))
  }

  /** The hard dependencies that are recorded for the order. */
  function RecordedFor(t: Tables, requested: seq<ProductOnClient>): Dependencies {
    RecordAll(t, map[], Steps(t, requested))
  }

  predicate AllAvailable(t: Tables, requested: seq<ProductOnClient>) {
    forall i :: 0 <= i < |requested| ==> t.Available(requested[i].productId)
  }

  function GatherOutcome(t: Tables, ignoreUnavailable: bool, requested: seq<ProductOnClient>): Outcome {
    if !ignoreUnavailable && !AllAvailable(t, requested) then ProductNotAvailable
    else StepsOutcome(t, ignoreUnavailable, Steps(t, requested))
  }

  lemma ListHead(t: Tables, p: ProductId, actions: seq<Action>)
    ensures actions == [] ==> ListSteps(t, p, actions) == []
    ensures actions != [] ==>
      ListSteps(t, p, actions) == WalkFrom(t, p, actions[0].action, []).steps + ListSteps(t, p, actions[1..])
  {
  }

  lemma ExpandHead(t: Tables, keys: seq<ProductId>, u: Unsorted)
    requires keys != [] && keys[0] in u
    ensures var steps := ListSteps(t, keys[0], u[keys[0]]);
      ExpandSteps(t, keys, u) == steps + ExpandSteps(t, keys[1..], AppendAll(t, u, steps))
  {
  }

  lemma ExpandNothing(t: Tables, u: Unsorted)
    ensures ExpandSteps(t, [], u) == []
  {
  }

  /** The steps of one more list, after those of the lists before it; an error in them is the error of all. */
  lemma ExpandOn(t: Tables, ignoreUnavailable: bool, keys: seq<ProductId>, start: Unsorted, i: nat, u: Unsorted,
                 taken: seq<Step>)
    requires i < |keys| && keys[i] in u
    requires ExpandSteps(t, keys, start) == taken + ExpandSteps(t, keys[i..], u)
    ensures var steps := ListSteps(t, keys[i], u[keys[i]]);
      && ExpandSteps(t, keys, start) == taken + steps + ExpandSteps(t, keys[i + 1..], AppendAll(t, u, steps))
      && (StepsOutcome(t, ignoreUnavailable, taken + steps) == Done ||
          StepsOutcome(t, ignoreUnavailable, taken + steps) ==
          StepsOutcome(t, ignoreUnavailable, ExpandSteps(t, keys, start)))
  {
    hide StepsOutcome, ListSteps, AppendAll, ExpandSteps;
    ExpandHead(t, keys[i..], u);
    assert keys[i..][1..] == keys[i + 1..];
    var steps := ListSteps(t, keys[i], u[keys[i]]);
    var rest := ExpandSteps(t, keys[i + 1..], AppendAll(t, u, steps));
    assert taken + (steps + rest) == taken + steps + rest;
    StepsOutcomeConcat(t, ignoreUnavailable, taken + steps, rest);
  }

  /** Processing a collected list adds only what follows from it, and all lists stay. */
  lemma ListWell(t: Tables, q: set<Action>, u: Unsorted, p: ProductId)
    requires WellCollected(t, q, u) && p in u
    ensures t.Available(p) && forall a :: a in u[p] ==> a.productId == p
    ensures WellCollected(t, q, AppendAll(t, u, ListSteps(t, p, u[p])))
    ensures u.Keys <= AppendAll(t, u, ListSteps(t, p, u[p])).Keys
  {
    hide Justified;
    CollectedNamed(t, q, u);
    assert CollectedAt(t, q, u, p, 0);
    ListFollows(t, q, u, p, u[p]);
    FollowsCollected(t, q, u, ListSteps(t, p, u[p]));
    AppendAllExtends(t, u, ListSteps(t, p, u[p]));
  }

  // ----- the requests -----

  lemma {:induction false} RequestedListsMeaning(t: Tables, requested: seq<ProductOnClient>)
    ensures var u := RequestedLists(t, requested);
      && WellCollected(t, RequestedActions(t, requested), u)
      && (forall a :: a in RequestedActions(t, requested) ==> IsIn(u, a))
      && (forall p :: p in RequestedOrder(t, requested) <==> p in u)
  {
    hide Extends, Justified;
    if requested == [] {
    } else {
      var n := |requested| - 1;
      var before := requested[..n];
      var u := RequestedLists(t, before);
      RequestedListsMeaning(t, before);
      RequestedActionsStep(t, requested, n);
      assert requested[..n + 1] == requested;
      MoreRequests(t, RequestedActions(t, before), RequestedActions(t, requested), u);
      if t.Available(requested[n].productId) {
        var a := RequestedAction(t, requested[n]);
        AppendedExtends(u, a);
        RequestJustified(t, RequestedActions(t, requested), Appended(u, a), a);
        AppendedWellCollected(t, RequestedActions(t, requested), u, a);
        forall b | b in RequestedActions(t, before)
          ensures IsIn(Appended(u, a), b)
        {
          ExtendsIsIn(u, Appended(u, a), b);
        }
      }
    }
  }

  // ----- all that is collected follows from the requests -----

  lemma {:induction false} ListFollows(t: Tables, q: set<Action>, u: Unsorted, p: ProductId, actions: seq<Action>)
    requires WellCollected(t, q, u) && forall a :: a in actions ==> IsIn(u, a) && a.productId == p
    ensures Follows(t, q, u, ListSteps(t, p, actions))
    decreases |actions|
  {
    hide WellCollected, Follows, Extends;
    if actions == [] {
      FollowsNothing(t, q, u);
    } else {
      var a := actions[0];
      var steps := WalkFrom(t, p, a.action, []).steps;
      FromFollows(t, q, u, a, []);
      FollowsCollected(t, q, u, steps);
      AppendAllExtends(t, u, steps);
      forall b | b in actions[1..]
        ensures IsIn(AppendAll(t, u, steps), b) && b.productId == p
      {
        ExtendsIsIn(u, AppendAll(t, u, steps), b);
      }
      ListFollows(t, q, AppendAll(t, u, steps), p, actions[1..]);
      FollowsConcat(t, q, u, steps, ListSteps(t, p, actions[1..]));
    }
  }

  lemma {:induction false} ExpandFollows(t: Tables, q: set<Action>, keys: seq<ProductId>, u: Unsorted)
    requires WellCollected(t, q, u)
    ensures Follows(t, q, u, ExpandSteps(t, keys, u))
    decreases |keys|
  {
    hide Follows, Justified;
    if keys == [] {
      FollowsNothing(t, q, u);
    } else {
      var steps := if keys[0] in u then ListSteps(t, keys[0], u[keys[0]]) else [];
      if keys[0] in u {
        CollectedNamed(t, q, u);
        ListFollows(t, q, u, keys[0], u[keys[0]]);
      } else {
        FollowsNothing(t, q, u);
      }
      FollowsCollected(t, q, u, steps);
      ExpandFollows(t, q, keys[1..], AppendAll(t, u, steps));
      FollowsConcat(t, q, u, steps, ExpandSteps(t, keys[1..], AppendAll(t, u, steps)));
    }
  }

  /** Everything that is collected was requested or is demanded through a chain from a request, and every
      dependency that is followed is triggered by a collected action. */
  lemma GatheredFollows(t: Tables, requested: seq<ProductOnClient>)
    ensures WellCollected(t, RequestedActions(t, requested), Gathered(t, requested))
    ensures forall a :: a in RequestedActions(t, requested) ==> IsIn(Gathered(t, requested), a)
    ensures forall s :: s in Steps(t, requested) ==> Reached(t, Gathered(t, requested), s)
  {
    hide WellCollected, Reached, Extends, RequestedActions;
    var u := RequestedLists(t, requested);
    RequestedListsMeaning(t, requested);
    ExpandFollows(t, RequestedActions(t, requested), RequestedOrder(t, requested), u);
    AppendAllExtends(t, u, Steps(t, requested));
    forall a | a in RequestedActions(t, requested)
      ensures IsIn(Gathered(t, requested), a)
    {
      ExtendsIsIn(u, Gathered(t, requested), a);
    }
  }

  /** The outcome is an error exactly if a requested product is missing and that is not ignored, or a dependency
      that is followed raises one; and then it is an error that one of them raises. */
  lemma GatherOutcomeIff(t: Tables, ignoreUnavailable: bool, requested: seq<ProductOnClient>)
    ensures GatherOutcome(t, ignoreUnavailable, requested) == Done <==>
      (ignoreUnavailable || AllAvailable(t, requested)) &&
      forall s :: s in Steps(t, requested) ==> StepOutcome(t, ignoreUnavailable, s.d) == Done
    ensures GatherOutcome(t, ignoreUnavailable, requested) == ProductNotAvailable ==>
      !ignoreUnavailable &&
        (!AllAvailable(t, requested) || exists s :: s in Steps(t, requested) && t.Demand(s.d) == NotAvailable)
    ensures GatherOutcome(t, ignoreUnavailable, requested) == InvalidInstallationStatus ==>
      exists s :: s in Steps(t, requested) && t.Demand(s.d) == InvalidStatus
  {
    StepsOutcomeIff(t, ignoreUnavailable, Steps(t, requested));
  }

  // ----- all that is demanded is collected -----

  ghost predicate DemandsClosed(t: Tables, v: Unsorted, steps: seq<Step>) {
    forall s :: s in steps && t.Demand(s.d).Need? ==> ClosedFor(t, v, RequiredAction(t, s.d))
  }

  lemma ClosedForMono(t: Tables, u: Unsorted, v: Unsorted, a: Action)
    requires ClosedFor(t, u, a) && u.Keys <= v.Keys
    ensures ClosedFor(t, v, a)
  {
  }

  lemma ExtendsKeys(u: Unsorted, v: Unsorted)
    requires Extends(u, v)
    ensures u.Keys <= v.Keys
  {
  }

  lemma WalkClosedFor(t: Tables, u: Unsorted, a: Action)
    requires a.productId in u
    ensures var steps := WalkFrom(t, a.productId, a.action, []).steps;
      ClosedFor(t, AppendAll(t, u, steps), a) && DemandsClosed(t, AppendAll(t, u, steps), steps)
  {
    var w := WalkFrom(t, a.productId, a.action, []);
    var v := AppendAll(t, u, w.steps);
    FromCloses(t, a.productId, a.action, []);
    AppendAllExtends(t, u, w.steps);
    ExtendsKeys(u, v);
    forall x | x in w.path
      ensures x in v
    {
      if x != a.productId {
        assert x !in [] + [a.productId];
        var s :| s in w.steps && t.Demand(s.d).Need? && s.d.requiredProductId == x;
        AppendAllHas(t, u, w.steps, s);
      }
    }
    forall s | s in w.steps && t.Demand(s.d).Need?
      ensures ClosedFor(t, v, RequiredAction(t, s.d))
    {
      assert StepClosed(t, w.path, s);
    }
  }

  lemma DemandsClosedConcat(t: Tables, u: Unsorted, v: Unsorted, a: seq<Step>, b: seq<Step>)
    requires DemandsClosed(t, u, a) && DemandsClosed(t, v, b) && u.Keys <= v.Keys
    ensures DemandsClosed(t, v, a + b)
  {
    hide ClosedFor;
    forall s | s in a + b && t.Demand(s.d).Need?
      ensures ClosedFor(t, v, RequiredAction(t, s.d))
    {
      if s in a {
        ClosedForMono(t, u, v, RequiredAction(t, s.d));
      }
    }
  }

  lemma {:induction false} ListClosed(t: Tables, u: Unsorted, p: ProductId, actions: seq<Action>)
    requires p in u && forall a :: a in actions ==> a.productId == p
    ensures forall a :: a in actions ==> ClosedFor(t, AppendAll(t, u, ListSteps(t, p, actions)), a)
    ensures DemandsClosed(t, AppendAll(t, u, ListSteps(t, p, actions)), ListSteps(t, p, actions))
    decreases |actions|
  {
    hide ClosedFor, Extends, DemandsClosed;
    if actions == [] {
      NothingDemanded(t, u);
    } else {
      var a := actions[0];
      var steps, rest := WalkFrom(t, p, a.action, []).steps, ListSteps(t, p, actions[1..]);
      var v := AppendAll(t, u, steps);
      WalkClosedFor(t, u, a);
      AppendAllExtends(t, u, steps);
      ExtendsKeys(u, v);
      ListClosed(t, v, p, actions[1..]);
      AppendAllConcat(t, u, steps, rest);
      AppendAllExtends(t, v, rest);
      ExtendsKeys(v, AppendAll(t, v, rest));
      DemandsClosedConcat(t, v, AppendAll(t, v, rest), steps, rest);
      ClosedForMono(t, v, AppendAll(t, v, rest), a);
      assert actions == [a] + actions[1..];
    }
  }

  lemma NothingDemanded(t: Tables, u: Unsorted)
    ensures DemandsClosed(t, u, [])
  {
  }

  lemma {:induction false} ExpandClosed(t: Tables, keys: seq<ProductId>, u: Unsorted)
    requires forall p :: p in u ==> forall a :: a in u[p] ==> a.productId == p
    requires forall p :: p in keys ==> p in u
    ensures DemandsClosed(t, AppendAll(t, u, ExpandSteps(t, keys, u)), ExpandSteps(t, keys, u))
    ensures forall p, a :: p in keys && a in u[p] ==> ClosedFor(t, AppendAll(t, u, ExpandSteps(t, keys, u)), a)
    decreases |keys|
  {
    hide ClosedFor, DemandsClosed;
    if keys == [] {
      NothingDemanded(t, u);
    } else {
      var steps := ListSteps(t, keys[0], u[keys[0]]);
      var v := AppendAll(t, u, steps);
      var rest := ExpandSteps(t, keys[1..], v);
      var w := AppendAll(t, v, rest);
      ListClosed(t, u, keys[0], u[keys[0]]);
      AppendAllExtends(t, u, steps);
      AppendAllNamed(t, u, steps);
      ExpandClosed(t, keys[1..], v);
      AppendAllConcat(t, u, steps, rest);
      AppendAllExtends(t, v, rest);
      ExtendsKeys(v, w);
      DemandsClosedConcat(t, v, w, steps, rest);
      forall p, a | p in keys && a in u[p]
        ensures ClosedFor(t, w, a)
      {
        if p == keys[0] {
          ClosedForMono(t, v, w, a);
        } else {
          assert p in keys[1..] && u[p] <= v[p];
        }
      }
    }
  }

  lemma AppendAllNamed(t: Tables, u: Unsorted, steps: seq<Step>)
    requires forall p :: p in u ==> forall a :: a in u[p] ==> a.productId == p
    ensures forall p :: p in AppendAll(t, u, steps) ==> forall a :: a in AppendAll(t, u, steps)[p] ==> a.productId == p
    decreases |steps|
  {
    if steps != [] {
      AppendAllNamed(t, AppendStep(t, u, steps[0]), steps[1..]);
    }
  }

  /** Every product that a collected action demands is collected. */
  lemma GatheredClosed(t: Tables, requested: seq<ProductOnClient>)
    ensures AllClosed(t, Gathered(t, requested))
  {
    hide ClosedFor, Justified, RequestedActions;
    var u, steps := RequestedLists(t, requested), Steps(t, requested);
    var v := Gathered(t, requested);
    RequestedListsMeaning(t, requested);
    CollectedNamed(t, RequestedActions(t, requested), u);
    ExpandClosed(t, RequestedOrder(t, requested), u);
    AppendAllExtends(t, u, steps);
    forall p, k | p in v && 0 <= k < |v[p]|
      ensures ClosedFor(t, v, v[p][k])
    {
      if p in u && k < |u[p]| {
        assert u[p] <= v[p] && v[p][k] == u[p][k] && u[p][k] in u[p];
      } else {
        AppendAllNew(t, u, steps, p, k);
      }
    }
  }
}
