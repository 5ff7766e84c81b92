/** What the list of product action groups says, entry by entry, in terms of the requests and of what was
    collected (opsiclientd/nonfree/RPCProductDependencyMixin.py). */
module OutputMeanings {
  import opened ActionGroupOrder
  import opened ActionGroups
  import opened ActionPlans
  import opened ActionSorters
  import opened Common
  import opened DemandMeanings
  import opened DependencyTables
  import opened DependencyWalks
  import opened Gathering
  import opened ProductActionGroups
  import opened ProductIdGroups

  /** What `GetProductActionGroups` returns where it succeeds. */
  ghost predicate IsOutput(t: Tables, requested: seq<ProductOnClient>, collected: Unsorted, components: Groups,
                           deps: Dependencies, groups: seq<GroupResult>, out: seq<ProductActionGroup>)
  {
    && PlanOf(t, requested, collected, components, deps, groups) && |out| == |groups|
    && (forall n :: 0 <= n < |groups| ==> out[n].priority == groups[n].priority)
    && (forall n :: 0 <= n < |groups| ==>
          NumberedFrom(groups[n].actions, CountReal(Flatten(groups[..n])), out[n].scheduled))
  }

  predicate Asking(action: string) {
    action != "" && action != "none"
  }

  /** The k-th action of the list is the last one that asks for something, or the first where none does. */
  predicate Decides(l: seq<Action>, k: int) {
    && 0 <= k < |l|
    && (if Asking(l[k].action) then forall j :: k < j < |l| ==> !Asking(l[j].action)
        else k == 0 && forall j :: 0 <= j < |l| ==> !Asking(l[j].action))
  }

  /** The first request for the product is the i-th. */
  predicate FirstRequest(requested: seq<ProductOnClient>, p: ProductId, i: int) {
    && 0 <= i < |requested| && requested[i].productId == p
    && forall j :: 0 <= j < i ==> requested[j].productId != p
  }

  lemma MergedDecides(l: seq<Action>) returns (k: nat)
    requires l != []
    ensures Decides(l, k) && MergedAction(l) == l[k].(productOnClient := FirstProductOnClient(l))
  {
    LastRealMember(l, l[0]);
    if j :| 0 <= j < |l| && LastReal(l, l[0]) == l[j] && IsReal(l[j]) && forall m :: j < m < |l| ==> !IsReal(l[m]) {
      k := j;
    } else {
      k := 0;
    }
  }

  // ----- the product on client that an entry carries -----

  /** The first product on client in the list of a product is that of its first request. */
  ghost predicate CarriesFirst(requested: seq<ProductOnClient>, u: Unsorted, p: ProductId) {
    if exists i :: FirstRequest(requested, p, i) then
      p in u && exists i :: FirstRequest(requested, p, i) && FirstProductOnClient(u[p]) == Some(requested[i])
    else p in u ==> FirstProductOnClient(u[p]) == None
  }

  lemma FirstAppended(l: seq<Action>, a: Action)
    ensures FirstProductOnClient(l + [a]) ==
            if FirstProductOnClient(l).Some? then FirstProductOnClient(l) else a.productOnClient
  {
    assert (l + [a])[..|l|] == l;
  }

  lemma {:induction false} RequestedCarry(t: Tables, requested: seq<ProductOnClient>, p: ProductId)
    requires t.Available(p)
    ensures CarriesFirst(requested, RequestedLists(t, requested), p)
  {
    if requested != [] {
      var n := |requested| - 1;
      var before, u := requested[..n], RequestedLists(t, requested[..n]);
      RequestedCarry(t, before, p);
      if requested[n].productId == p {
        FirstAppended(if p in u then u[p] else [], RequestedAction(t, requested[n]));
      }
      FirstRequestStep(requested, p);
    }
  }

  lemma FirstRequestStep(requested: seq<ProductOnClient>, p: ProductId)
    requires requested != []
    ensures var n := |requested| - 1;
      && (forall i :: FirstRequest(requested[..n], p, i) ==> FirstRequest(requested, p, i))
      && (forall i :: FirstRequest(requested, p, i) ==> FirstRequest(requested[..n], p, i) || i == n)
      && ((forall i :: !FirstRequest(requested[..n], p, i)) && requested[n].productId == p ==>
            FirstRequest(requested, p, n))
  {
    var n := |requested| - 1;
    if (forall i :: !FirstRequest(requested[..n], p, i)) && requested[n].productId == p {
      NoRequest(requested[..n], p, n);
    }
  }

  lemma {:induction false} NoRequest(requested: seq<ProductOnClient>, p: ProductId, n: nat)
    requires n <= |requested| && forall i :: !FirstRequest(requested, p, i)
    ensures forall j :: 0 <= j < n ==> requested[j].productId != p
    decreases n
  {
    if n > 0 {
      NoRequest(requested, p, n - 1);
      assert !FirstRequest(requested, p, n - 1);
    }
  }

  /** The first product on client of a product is in v what it is in u. */
  predicate SameFirst(u: Unsorted, v: Unsorted, p: ProductId) {
    && (p in u ==> p in v && FirstProductOnClient(v[p]) == FirstProductOnClient(u[p]))
    && (p in v && p !in u ==> FirstProductOnClient(v[p]) == None)
  }

  lemma StepCarries(t: Tables, u: Unsorted, s: Step, p: ProductId)
    ensures SameFirst(u, AppendStep(t, u, s), p)
  {
    hide FirstProductOnClient;
    if t.Demand(s.d).Need? {
      var a := RequiredAction(t, s.d);
      FirstAppended(if a.productId in u then u[a.productId] else [], a);
      FirstOfNone();
    }
  }

  lemma FirstOfNone()
    ensures FirstProductOnClient([]) == None
  {
  }

  lemma SameFirstTrans(u: Unsorted, v: Unsorted, w: Unsorted, p: ProductId)
    requires SameFirst(u, v, p) && SameFirst(v, w, p)
    ensures SameFirst(u, w, p)
  {
  }

  lemma {:induction false} StepsCarry(t: Tables, u: Unsorted, steps: seq<Step>, p: ProductId)
    ensures SameFirst(u, AppendAll(t, u, steps), p)
    decreases |steps|
  {
    hide SameFirst, AppendStep;
    if steps == [] {
      SameFirstSelf(u, p);
    } else {
      var v := AppendStep(t, u, steps[0]);
      StepCarries(t, u, steps[0], p);
      StepsCarry(t, v, steps[1..], p);
      SameFirstTrans(u, v, AppendAll(t, v, steps[1..]), p);
    }
  }

  lemma SameFirstSelf(u: Unsorted, p: ProductId)
    ensures SameFirst(u, u, p)
  {
  }

  lemma GatheredCarry(t: Tables, requested: seq<ProductOnClient>, p: ProductId)
    requires p in Gathered(t, requested)
    ensures t.Available(p) && Gathered(t, requested)[p] != []
    ensures CarriesFirst(requested, Gathered(t, requested), p)
  {
    hide RequestedActions, Justified, CarriesFirst, SameFirst;
    GatheredFollows(t, requested);
    assert CollectedAt(t, RequestedActions(t, requested), Gathered(t, requested), p, 0);
    RequestedCarry(t, requested, p);
    StepsCarry(t, RequestedLists(t, requested), Steps(t, requested), p);
    CarriedOn(requested, RequestedLists(t, requested), Gathered(t, requested), p);
  }

  lemma CarriedOn(requested: seq<ProductOnClient>, u: Unsorted, v: Unsorted, p: ProductId)
    requires CarriesFirst(requested, u, p) && SameFirst(u, v, p)
    ensures CarriesFirst(requested, v, p)
  {
  }

  // ----- entries -----

  /** Every entry of the output asks the client for the last action that was collected for its product, or for
      nothing where no collected action asks for anything; it is the first request for the product with just the
      action changed, or a new entry where the product was not requested; and it has a number exactly if it asks
      for something. */
  lemma EntryMeaning(t: Tables, requested: seq<ProductOnClient>, collected: Unsorted, components: Groups,
                     deps: Dependencies, groups: seq<GroupResult>, out: seq<ProductActionGroup>, n: nat, k: nat)
    returns (p: ProductId, m: nat)
    requires IsOutput(t, requested, collected, components, deps, groups, out)
    requires n < |groups| && k < |groups[n].actions|
    ensures |out[n].scheduled| == |groups[n].actions| && p == groups[n].actions[k].productId && p in collected
    ensures Decides(collected[p], m)
    ensures var e := out[n].scheduled[k];
      && e.productOnClient.productId == p && e.productOnClient.actionRequest == collected[p][m].action
      && (e.sequence == -1 <==> !Asking(collected[p][m].action))
      && (if exists i :: FirstRequest(requested, p, i) then
            exists i :: FirstRequest(requested, p, i) &&
                        e.productOnClient == requested[i].(actionRequest := collected[p][m].action)
          else e.productOnClient == ProductOnClient(p, collected[p][m].action, "", "", ""))
  {
    hide PlannedGroups, Components, RecordedFor, Gathered, Flatten, CountReal, Lists;
    var a := groups[n].actions[k];
    p := a.productId;
    EachProductOnce(t, requested, collected, components, deps, groups);
    MergedNames(collected);
    EntryListed(groups, MergedActions(collected), n, k);
    GatheredCarry(t, requested, p);
    m := MergedDecides(collected[p]);
    assert out[n].scheduled[k] == Schedule(a, SequenceOf(groups[n].actions, k, CountReal(Flatten(groups[..n]))));
  }

  lemma EntryListed(groups: seq<GroupResult>, merged: Merged, n: nat, k: nat)
    requires n < |groups| && k < |groups[n].actions| && Lists(Flatten(groups), merged, merged.Keys)
    ensures groups[n].actions[k].productId in merged
    ensures merged[groups[n].actions[k].productId] == groups[n].actions[k]
  {
    hide Flatten, CountReal;
    NumberedFlatten(groups, n, k);
    assert groups[n].actions[k] in Flatten(groups);
  }

  // ----- groups -----

  /** The priority of an output group is the highest positive priority in it, else the lowest, and groups of
      higher priority come first. */
  lemma GroupsByPriority(t: Tables, requested: seq<ProductOnClient>, collected: Unsorted, components: Groups,
                         deps: Dependencies, groups: seq<GroupResult>, out: seq<ProductActionGroup>)
    requires IsOutput(t, requested, collected, components, deps, groups, out)
    ensures forall i, j :: 0 <= i < j < |out| ==> out[i].priority >= out[j].priority
    ensures forall n :: 0 <= n < |out| ==> out[n].priority == GroupPriority(groups[n].actions)
    ensures forall n, a :: 0 <= n < |out| && a in groups[n].actions && a.priority > 0 ==> a.priority <= out[n].priority
  {
    hide Components, RecordedFor, Gathered, Flatten, CountReal, Lists, NumberedFrom, Parts, GroupPriority;
    EachProductOnce(t, requested, collected, components, deps, groups);
    var merged := MergedActions(collected);
    var parts, rest :| Parts(parts, components, rest, merged, deps) && groups == SortByPriority(parts);
    forall n | 0 <= n < |out|
      ensures out[n].priority == GroupPriority(groups[n].actions)
      ensures forall a :: a in groups[n].actions && a.priority > 0 ==> a.priority <= out[n].priority
    {
      var ids := GroupKinds(parts, components, rest, merged, deps, groups, groups[n]);
      KindPriority(groups[n], ids, components, merged, deps);
      GroupPriorityMeaning(groups[n].actions);
    }
  }

  lemma KindPriority(g: GroupResult, ids: set<ProductId>, components: Groups, merged: Merged, deps: Dependencies)
    requires IsGroup(g, ids, components, merged, deps)
    ensures g.priority == GroupPriority(g.actions)
  {
    hide GroupPriority, Lists;
    if c :| c in components && ids == c * merged.Keys && BuiltFrom(g, merged, ids, deps) {
      var l :| Lists(l, merged, ids) && g == Grouped(l, Restricted(deps, ids));
      SortedPermutes(l, Restricted(deps, ids));
      GroupPriorityPermutation(l, g.actions);
    }
  }

  /** Inside a group two products that no product of the group requires come by priority and id. */
  lemma IndependentInOutput(t: Tables, requested: seq<ProductOnClient>, collected: Unsorted, components: Groups,
                            deps: Dependencies, groups: seq<GroupResult>, n: nat, a: Action, b: Action)
    requires PlanOf(t, requested, collected, components, deps, groups) && n < |groups|
    requires a in groups[n].actions && b in groups[n].actions && a != b && Orderly(groups[n])
    requires Unrequired(groups[n].actions, groups[n].dependencies, a.productId)
    requires Unrequired(groups[n].actions, groups[n].dependencies, b.productId)
    ensures Precedes(groups[n].actions, a.productId, b.productId) <==>
              a.priority > b.priority || (a.priority == b.priority && Smaller(a.productId, b.productId))
  {
    hide Components, RecordedFor, Gathered, Parts, Sorted, Orderly, Unrequired, Precedes;
    var merged := MergedActions(collected);
    var g := groups[n];
    var parts, rest :| Parts(parts, components, rest, merged, deps) && groups == SortByPriority(parts);
    var ids := GroupKinds(parts, components, rest, merged, deps, groups, g);
    var c :| c in components && ids == c * merged.Keys && BuiltFrom(g, merged, ids, deps);
    var l :| Lists(l, merged, ids) && g == Grouped(l, Restricted(deps, ids));
    SortedCarries(l, g);
    UnrequiredByPriority(l, g.dependencies, a, b);
  }

  lemma SortedCarries(l: seq<Action>, g: GroupResult)
    requires Distinct(l) && g.actions == Sorted(l, g.dependencies)
    ensures Ids(l) == Ids(g.actions)
    ensures forall a :: a in g.actions ==> a in l
    ensures Orderly(g) ==> AfterPresent(l, g.dependencies)
    ensures forall p :: Unrequired(g.actions, g.dependencies, p) ==> Unrequired(l, g.dependencies, p)
  {
    hide Sorted, AcyclicRequires, OneSided;
    SortedPermutes(l, g.dependencies);
    PermutationIds(l, g.actions);
    RequiresOnPermutation(g.actions, l, g.dependencies);
    forall a | a in g.actions
      ensures a in l
    {
      InPermutation(g.actions, l, a);
    }
  }
}
