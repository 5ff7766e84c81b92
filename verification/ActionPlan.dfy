/** The list of action groups built from the collected actions: merging duplicates, one sorted group per
    component, ordering by priority and numbering (opsiclientd/nonfree/RPCProductDependencyMixin.py). */
module ActionPlans {
  import opened ActionGroupOrder
  import opened ActionGroups
  import opened Common
  import opened ProductIdGroups

  // ----- merging duplicate actions -----

  predicate IsReal(a: Action) {
    a.action != "" && a.action != "none"
  }

  /** The last action that asks for something, the first of the list if there is none. */
  function LastReal(l: seq<Action>, first: Action): Action {
    if l == [] then first
    else if IsReal(l[|l| - 1]) then l[|l| - 1]
    else LastReal(l[..|l| - 1], first)
  }

  function FirstProductOnClient(l: seq<Action>): Option<ProductOnClient> {
    if l == [] then None
    else
      var earlier := FirstProductOnClient(l[..|l| - 1]);
      if earlier.Some? then earlier else l[|l| - 1].productOnClient
  }

  function MergedAction(l: seq<Action>): Action
    requires l != []
  {
    LastReal(l, l[0]).(productOnClient := FirstProductOnClient(l))
  }

  lemma {:induction false} LastRealMember(l: seq<Action>, first: Action)
    ensures (exists k :: 0 <= k < |l| && LastReal(l, first) == l[k] && IsReal(l[k]) &&
                         forall j :: k < j < |l| ==> !IsReal(l[j]))
         || (LastReal(l, first) == first && forall j :: 0 <= j < |l| ==> !IsReal(l[j]))
  {
    if l != [] && !IsReal(l[|l| - 1]) {
      LastRealMember(l[..|l| - 1], first);
    }
  }

  lemma {:induction false} FirstProductOnClientMember(l: seq<Action>)
    ensures (exists k :: 0 <= k < |l| && FirstProductOnClient(l) == l[k].productOnClient && l[k].productOnClient.Some?
                    && forall j :: 0 <= j < k ==> l[j].productOnClient.None?)
         || (FirstProductOnClient(l) == None && forall j :: 0 <= j < |l| ==> l[j].productOnClient.None?)
  {
    if l != [] {
      FirstProductOnClientMember(l[..|l| - 1]);
    }
  }

  /** Merging the duplicates of a product loses no request: the merged action asks for something exactly
      when one of the duplicates does, and it is one of those, with the requested product on client. */
  lemma MergedActionMeaning(l: seq<Action>)
    requires l != []
    ensures IsReal(MergedAction(l)) <==> exists a :: a in l && IsReal(a)
    ensures exists a :: a in l && MergedAction(l) == a.(productOnClient := MergedAction(l).productOnClient)
    ensures MergedAction(l).productOnClient.Some? <==> exists a :: a in l && a.productOnClient.Some?
    ensures MergedAction(l).productOnClient.Some? ==>
              exists a :: a in l && a.productOnClient == MergedAction(l).productOnClient
    ensures |l| == 1 ==> MergedAction(l) == l[0]
  {
    LastRealMember(l, l[0]);
    FirstProductOnClientMember(l);
    var last := LastReal(l, l[0]);
    assert last in l;
    assert MergedAction(l) == last.(productOnClient := MergedAction(l).productOnClient);
    if |l| == 1 {
      assert l[..0] == [];
    }
  }

  type Merged = map<ProductId, Action>

  // ----- groups -----

  datatype GroupResult = GroupResult(priority: int, actions: seq<Action>, dependencies: Dependencies)

  /** l lists the merged actions of the products in ids, each once. */
  ghost predicate Lists(l: seq<Action>, merged: Merged, ids: set<ProductId>) {
    Distinct(l) && Ids(l) == ids && forall a :: a in l ==> a.productId in merged && merged[a.productId] == a
  }

  /** The dependencies that the builder copies into a group with these products. */
  function Restricted(deps: Dependencies, ids: set<ProductId>): Dependencies {
    map p | p in deps && p in ids && deps[p] != [] :: deps[p]
  }

  function Grouped(l: seq<Action>, deps: Dependencies): GroupResult {
    GroupResult(GroupPriority(l), Sorted(l, deps), deps)
  }

  /** g is the sorted group of the merged actions of ids, added in some order. */
  ghost predicate BuiltFrom(g: GroupResult, merged: Merged, ids: set<ProductId>, deps: Dependencies) {
    exists l :: Lists(l, merged, ids) && g == Grouped(l, Restricted(deps, ids))
  }

  lemma ListsCount(l: seq<Action>, merged: Merged, ids: set<ProductId>, a: Action)
    requires Lists(l, merged, ids)
    ensures multiset(l)[a] == if a.productId in ids && a.productId in merged && merged[a.productId] == a then 1 else 0
  {
    if a in l {
      var i :| 0 <= i < |l| && l[i] == a;
      DistinctCount(l, i);
    } else if a.productId in ids {
      var i :| 0 <= i < |l| && l[i].productId == a.productId;
      assert l[i] in l;
    }
  }

  lemma ListsPermutation(l: seq<Action>, r: seq<Action>, merged: Merged, ids: set<ProductId>)
    requires Lists(l, merged, ids) && Lists(r, merged, ids)
    ensures multiset(l) == multiset(r)
  {
    forall a
      ensures multiset(l)[a] == multiset(r)[a]
    {
      ListsCount(l, merged, ids, a);
      ListsCount(r, merged, ids, a);
    }
  }

  lemma PermutedLists(l: seq<Action>, r: seq<Action>, merged: Merged, ids: set<ProductId>)
    requires Lists(l, merged, ids) && multiset(l) == multiset(r)
    ensures Lists(r, merged, ids)
  {
    DistinctPermutation(l, r);
    PermutationIds(l, r);
    forall a | a in r
      ensures a.productId in merged && merged[a.productId] == a
    {
      InPermutation(r, l, a);
    }
  }

  lemma GroupPriorityPermutation(l: seq<Action>, r: seq<Action>)
    requires multiset(l) == multiset(r)
    ensures GroupPriority(l) == GroupPriority(r)
  {
    GroupPriorityMeaning(l);
    GroupPriorityMeaning(r);
    forall a
      ensures a in l <==> a in r
    {
      if a in l { InPermutation(l, r, a); }
      if a in r { InPermutation(r, l, a); }
    }
  }

  /** The result for a component does not depend on the order in which its set of products is iterated. */
  lemma BuiltUnique(g: GroupResult, h: GroupResult, merged: Merged, ids: set<ProductId>, deps: Dependencies)
    requires BuiltFrom(g, merged, ids, deps) && BuiltFrom(h, merged, ids, deps)
    ensures g == h
  {
    var l :| Lists(l, merged, ids) && g == Grouped(l, Restricted(deps, ids));
    var r :| Lists(r, merged, ids) && h == Grouped(r, Restricted(deps, ids));
    ListsPermutation(l, r, merged, ids);
    GroupPriorityPermutation(l, r);
    SortedIndependentOfOrder(l, r, Restricted(deps, ids));
  }

  lemma BuiltLists(g: GroupResult, merged: Merged, ids: set<ProductId>, deps: Dependencies)
    requires BuiltFrom(g, merged, ids, deps)
    ensures Lists(g.actions, merged, ids)
  {
    var l :| Lists(l, merged, ids) && g == Grouped(l, Restricted(deps, ids));
    SortedPermutes(l, Restricted(deps, ids));
    PermutedLists(l, g.actions, merged, ids);
  }

  // ----- ordering groups by priority -----

  function InsertByPriority(g: GroupResult, l: seq<GroupResult>): (r: seq<GroupResult>)
    ensures |r| == |l| + 1
  {
    if l == [] || g.priority >= l[0].priority then [g] + l
    else [l[0]] + InsertByPriority(g, l[1..])
  }

  /** `groups.sort(key=lambda g: g.priority, reverse=True)`, which keeps the order of equal priorities. */
  function SortByPriority(l: seq<GroupResult>): (r: seq<GroupResult>)
    ensures |r| == |l|
  {
    if l == [] then [] else InsertByPriority(l[0], SortByPriority(l[1..]))
  }

  ghost predicate Descending(l: seq<GroupResult>) {
    forall i, j :: 0 <= i < j < |l| ==> l[i].priority >= l[j].priority
  }

  lemma {:induction false} InsertByPriorityPermutes(g: GroupResult, l: seq<GroupResult>)
    ensures multiset(InsertByPriority(g, l)) == multiset{g} + multiset(l)
  {
    if l != [] && g.priority < l[0].priority {
      InsertByPriorityPermutes(g, l[1..]);
      assert l == [l[0]] + l[1..];
    }
  }

  lemma {:induction false} InsertByPriorityFlatten(g: GroupResult, l: seq<GroupResult>)
    ensures multiset(Flatten(InsertByPriority(g, l))) == multiset(g.actions) + multiset(Flatten(l))
  {
    var r := InsertByPriority(g, l);
    if l == [] || g.priority >= l[0].priority {
      assert r[0] == g && r[1..] == l;
    } else {
      InsertByPriorityFlatten(g, l[1..]);
      assert r[0] == l[0] && r[1..] == InsertByPriority(g, l[1..]);
    }
  }

  lemma InsertByPriorityAt(g: GroupResult, l: seq<GroupResult>, j: nat)
    requires j < |InsertByPriority(g, l)|
    ensures InsertByPriority(g, l)[j] == g || InsertByPriority(g, l)[j] in l
  {
    InsertByPriorityPermutes(g, l);
    assert InsertByPriority(g, l)[j] in multiset(InsertByPriority(g, l));
  }

  lemma {:induction false} InsertByPriorityDescending(g: GroupResult, l: seq<GroupResult>)
    requires Descending(l)
    ensures Descending(InsertByPriority(g, l))
  {
    if l != [] && g.priority < l[0].priority {
      var t := InsertByPriority(g, l[1..]);
      InsertByPriorityDescending(g, l[1..]);
      forall j | 0 <= j < |t|
        ensures l[0].priority >= t[j].priority
      {
        InsertByPriorityAt(g, l[1..], j);
      }
    }
  }

  lemma {:induction false} SortByPriorityMeaning(l: seq<GroupResult>)
    ensures Descending(SortByPriority(l))
    ensures multiset(SortByPriority(l)) == multiset(l)
    ensures multiset(Flatten(SortByPriority(l))) == multiset(Flatten(l))
  {
    hide InsertByPriority;
    if l != [] {
      SortByPriorityMeaning(l[1..]);
      InsertByPriorityPermutes(l[0], SortByPriority(l[1..]));
      InsertByPriorityFlatten(l[0], SortByPriority(l[1..]));
      InsertByPriorityDescending(l[0], SortByPriority(l[1..]));
      assert l == [l[0]] + l[1..];
    }
  }

  // ----- all actions, in output order -----

  function Flatten(gs: seq<GroupResult>): seq<Action> {
    if gs == [] then [] else gs[0].actions + Flatten(gs[1..])
  }

  lemma Regroup<T>(a: seq<T>, b: seq<T>, c: seq<T>)
    ensures a + (b + c) == a + b + c
  {
  }

  lemma {:induction false} FlattenAppend(gs: seq<GroupResult>, hs: seq<GroupResult>)
    ensures Flatten(gs + hs) == Flatten(gs) + Flatten(hs)
  {
    if gs == [] {
      assert gs + hs == hs;
    } else {
      FlattenAppend(gs[1..], hs);
      assert (gs + hs)[1..] == gs[1..] + hs;
      Regroup(gs[0].actions, Flatten(gs[1..]), Flatten(hs));
    }
  }

  lemma FlattenAt(gs: seq<GroupResult>, i: nat)
    requires i < |gs|
    ensures Flatten(gs) == Flatten(gs[..i]) + gs[i].actions + Flatten(gs[i + 1..])
  {
    assert gs == gs[..i] + gs[i..];
    FlattenAppend(gs[..i], gs[i..]);
  }

  ghost function UnionOf(ids: seq<set<ProductId>>): set<ProductId> {
    set i, p | 0 <= i < |ids| && p in ids[i] :: p
  }

  lemma UnionStep(ids: seq<set<ProductId>>)
    requires ids != []
    ensures UnionOf(ids) == ids[0] + UnionOf(ids[1..])
  {
    assert forall i :: 1 <= i < |ids| ==> ids[1..][i - 1] == ids[i];
  }

  lemma ListsAppend(l: seq<Action>, r: seq<Action>, merged: Merged, a: set<ProductId>, b: set<ProductId>)
    requires Lists(l, merged, a) && Lists(r, merged, b) && a !! b
    ensures Lists(l + r, merged, a + b)
  {
    var s := l + r;
    forall p
      ensures p in Ids(s) <==> p in a + b
    {
      if p in a {
        var i :| 0 <= i < |l| && l[i].productId == p;
        assert s[i].productId == p;
      }
      if p in b {
        var i :| 0 <= i < |r| && r[i].productId == p;
        assert s[|l| + i].productId == p;
      }
    }
    forall i, j | 0 <= i < j < |s|
      ensures s[i].productId != s[j].productId
    {
      assert i < |l| ==> l[i].productId in a;
      assert j >= |l| ==> r[j - |l|].productId in b;
    }
  }

  lemma ListsNone(merged: Merged, ids: seq<set<ProductId>>)
    requires ids == []
    ensures Lists([], merged, UnionOf(ids))
  {
  }

  /** Conservation: groups over disjoint sets of products list every product of the union exactly once. */
  lemma {:induction false} FlattenLists(gs: seq<GroupResult>, merged: Merged, ids: seq<set<ProductId>>)
    requires |gs| == |ids| && Disjoint(ids)
    requires forall i :: 0 <= i < |gs| ==> Lists(gs[i].actions, merged, ids[i])
    ensures Lists(Flatten(gs), merged, UnionOf(ids))
  {
    hide Lists;
    if gs == [] {
      ListsNone(merged, ids);
    } else {
      FlattenLists(gs[1..], merged, ids[1..]);
      UnionStep(ids);
      assert ids[0] !! UnionOf(ids[1..]) by {
        forall p | p in UnionOf(ids[1..])
          ensures p !in ids[0]
        {
          var i :| 0 <= i < |ids[1..]| && p in ids[1..][i];
          assert ids[0] !! ids[i + 1];
        }
      }
      ListsAppend(gs[0].actions, Flatten(gs[1..]), merged, ids[0], UnionOf(ids[1..]));
    }
  }

  // ----- numbering -----

  datatype Scheduled = Scheduled(productOnClient: ProductOnClient, sequence: int)

  datatype ProductActionGroup = ProductActionGroup(priority: int, scheduled: seq<Scheduled>, dependencies: Dependencies)

  function CountReal(l: seq<Action>): nat {
    if l == [] then 0 else CountReal(l[..|l| - 1]) + (if IsReal(l[|l| - 1]) then 1 else 0)
  }

  /** `Action.get_product_on_client` with the given action sequence. */
  function Schedule(a: Action, sequence: int): Scheduled {
    var poc := if a.productOnClient.Some? then a.productOnClient.value
               else ProductOnClient(a.productId, "", "", "", "");
    Scheduled(poc.(actionRequest := a.action), sequence)
  }

  function SequenceOf(l: seq<Action>, i: nat, start: nat): int
    requires i < |l|
  {
    if IsReal(l[i]) then start + CountReal(l[..i]) else -1
  }

  /** l is scheduled with consecutive numbers from start on. */
  ghost predicate NumberedFrom(l: seq<Action>, start: nat, out: seq<Scheduled>) {
    |out| == |l| && forall i :: 0 <= i < |l| ==> out[i] == Schedule(l[i], SequenceOf(l, i, start))
  }

  lemma {:induction false} CountRealAppend(l: seq<Action>, r: seq<Action>)
    ensures CountReal(l + r) == CountReal(l) + CountReal(r)
  {
    if r == [] {
      assert l + r == l;
    } else {
      CountRealAppend(l, r[..|r| - 1]);
      assert (l + r)[..|l + r| - 1] == l + r[..|r| - 1];
    }
  }

  lemma CountRealPrefix(l: seq<Action>, i: nat, j: nat)
    requires i <= j <= |l|
    ensures CountReal(l[..i]) <= CountReal(l[..j])
    ensures i < j && IsReal(l[i]) ==> CountReal(l[..i]) < CountReal(l[..j])
  {
    CountRealAppend(l[..i], l[i..j]);
    assert l[..j] == l[..i] + l[i..j];
    if i < j && IsReal(l[i]) {
      CountRealAppend([l[i]], l[i + 1..j]);
      assert l[i..j] == [l[i]] + l[i + 1..j];
      assert [l[i]][..0] == [];
    }
  }

  ghost predicate NumberUsed(l: seq<Action>, k: int) {
    exists i :: 0 <= i < |l| && IsReal(l[i]) && SequenceOf(l, i, 0) == k
  }

  lemma {:induction false} NumbersReached(l: seq<Action>, k: nat)
    requires k < CountReal(l)
    ensures NumberUsed(l, k)
  {
    var n := |l| - 1;
    if k < CountReal(l[..n]) {
      NumbersReached(l[..n], k);
      var i :| 0 <= i < n && IsReal(l[..n][i]) && SequenceOf(l[..n], i, 0) == k;
      assert l[..n][..i] == l[..i];
      assert SequenceOf(l, i, 0) == k;
    } else {
      assert SequenceOf(l, n, 0) == k;
    }
  }

  /** The real actions are numbered 0, 1, 2, ... in output order, all others carry -1. */
  lemma NumberingMeaning(l: seq<Action>)
    ensures forall i :: 0 <= i < |l| && !IsReal(l[i]) ==> SequenceOf(l, i, 0) == -1
    ensures forall i :: 0 <= i < |l| && IsReal(l[i]) ==> 0 <= SequenceOf(l, i, 0) < CountReal(l)
    ensures forall i, j :: 0 <= i < j < |l| && IsReal(l[i]) && IsReal(l[j]) ==>
              SequenceOf(l, i, 0) < SequenceOf(l, j, 0)
    ensures forall k :: 0 <= k < CountReal(l) ==> NumberUsed(l, k)
  {
    forall i | 0 <= i < |l| && IsReal(l[i])
      ensures 0 <= SequenceOf(l, i, 0) < CountReal(l)
    {
      CountRealPrefix(l, i, |l|);
      assert l[..|l|] == l;
    }
    forall i, j | 0 <= i < j < |l| && IsReal(l[i]) && IsReal(l[j])
      ensures SequenceOf(l, i, 0) < SequenceOf(l, j, 0)
    {
      CountRealPrefix(l, i, j);
    }
    forall k | 0 <= k < CountReal(l)
      ensures NumberUsed(l, k)
    {
      NumbersReached(l, k);
    }
  }

  lemma FlattenNone(groups: seq<GroupResult>)
    ensures Flatten(groups[..0]) == [] && CountReal(Flatten(groups[..0])) == 0
  {
  }

  /** The inner loop over the actions of one group. */
  method NumberActions(actions: seq<Action>, start: nat) returns (scheduled: seq<Scheduled>, actionSequence: nat)
    ensures NumberedFrom(actions, start, scheduled) && actionSequence == start + CountReal(actions)
  {
    scheduled, actionSequence := [], start;
    for k := 0 to |actions|
      invariant actionSequence == start + CountReal(actions[..k])
      invariant |scheduled| == k
      invariant forall i :: 0 <= i < k ==> scheduled[i] == Schedule(actions[i], SequenceOf(actions, i, start))
    {
      assert actions[..k + 1][..k] == actions[..k];
      if actions[k].action != "" && actions[k].action != "none" {
        scheduled := scheduled + [Schedule(actions[k], actionSequence)];
        actionSequence := actionSequence + 1;
      } else {
        scheduled := scheduled + [Schedule(actions[k], -1)];
      }
    }
    assert actions[..|actions|] == actions;
  }

  /** The final loop over groups and actions with its running counter. */
  method NumberGroups(groups: seq<GroupResult>) returns (out: seq<ProductActionGroup>)
    ensures |out| == |groups|
    ensures forall i :: 0 <= i < |groups| ==>
              out[i].priority == groups[i].priority && out[i].dependencies == groups[i].dependencies
    ensures forall i :: 0 <= i < |groups| ==>
              NumberedFrom(groups[i].actions, CountReal(Flatten(groups[..i])), out[i].scheduled)
  {
    hide Flatten, CountReal, NumberedFrom;
    out := [];
    var actionSequence := 0;
    FlattenNone(groups);
    for n := 0 to |groups|
      invariant |out| == n && actionSequence == CountReal(Flatten(groups[..n]))
      invariant forall i :: 0 <= i < n ==>
                  out[i].priority == groups[i].priority && out[i].dependencies == groups[i].dependencies
      invariant forall i :: 0 <= i < n ==>
                  NumberedFrom(groups[i].actions, CountReal(Flatten(groups[..i])), out[i].scheduled)
    {
      var scheduled, next := NumberActions(groups[n].actions, actionSequence);
      actionSequence := next;
      FlattenStep(groups, n);
      out := out + [ProductActionGroup(groups[n].priority, scheduled, groups[n].dependencies)];
    }
  }

  lemma FlattenStep(groups: seq<GroupResult>, n: nat)
    requires n < |groups|
    ensures Flatten(groups[..n + 1]) == Flatten(groups[..n]) + groups[n].actions
    ensures CountReal(Flatten(groups[..n + 1])) == CountReal(Flatten(groups[..n])) + CountReal(groups[n].actions)
  {
    assert groups[..n + 1] == groups[..n] + [groups[n]];
    FlattenAppend(groups[..n], [groups[n]]);
    assert Flatten([groups[n]]) == groups[n].actions;
    CountRealAppend(Flatten(groups[..n]), groups[n].actions);
  }

  /** Numbering group by group numbers the flattened list. */
  lemma NumberedFlatten(groups: seq<GroupResult>, n: nat, k: nat)
    requires n < |groups| && k < |groups[n].actions|
    ensures |Flatten(groups[..n])| + k < |Flatten(groups)|
    ensures Flatten(groups)[|Flatten(groups[..n])| + k] == groups[n].actions[k]
    ensures SequenceOf(groups[n].actions, k, CountReal(Flatten(groups[..n]))) ==
            SequenceOf(Flatten(groups), |Flatten(groups[..n])| + k, 0)
  {
    FlattenAt(groups, n);
    var f, l := Flatten(groups), Flatten(groups[..n]);
    assert f[..|l| + k] == l + groups[n].actions[..k];
    CountRealAppend(l, groups[n].actions[..k]);
  }

  // ----- the whole plan -----

  /** The group of an action that no hard dependency ties to another product. */
  function Alone(a: Action): GroupResult {
    GroupResult(GroupPriority([a]), [a], map[])
  }

  /** The groups before they are ordered by priority: one for each component, then one for each remaining
      product in dictionary order. */
  ghost predicate Parts(parts: seq<GroupResult>, components: Groups, rest: seq<ProductId>, merged: Merged,
                        deps: Dependencies) {
    && |parts| == |components| + |rest|
    && (forall i :: 0 <= i < |components| ==> BuiltFrom(parts[i], merged, components[i] * merged.Keys, deps))
    && (forall j :: 0 <= j < |rest| ==> rest[j] in merged && parts[|components| + j] == Alone(merged[rest[j]]))
    && (forall i, j :: 0 <= i < j < |rest| ==> rest[i] != rest[j])
    && (forall p :: p in rest <==> p in merged && p !in UnionOf(components))
  }

  ghost function PartIds(components: Groups, rest: seq<ProductId>, merged: Merged): seq<set<ProductId>> {
    seq(|components| + |rest|, i requires 0 <= i < |components| + |rest| =>
      if i < |components| then components[i] * merged.Keys else {rest[i - |components|]})
  }

  lemma PartLists(parts: seq<GroupResult>, components: Groups, rest: seq<ProductId>, merged: Merged, deps: Dependencies,
                  i: nat)
    requires Parts(parts, components, rest, merged, deps) && i < |parts|
    requires forall p :: p in merged ==> merged[p].productId == p
    ensures Lists(parts[i].actions, merged, PartIds(components, rest, merged)[i])
  {
    hide BuiltFrom, UnionOf;
    if i < |components| {
      BuiltLists(parts[i], merged, components[i] * merged.Keys, deps);
    } else {
      var j := i - |components|;
      assert parts[|components| + j] == Alone(merged[rest[j]]);
      assert Ids([merged[rest[j]]]) == {rest[j]};
    }
  }

  lemma PartIdsCover(parts: seq<GroupResult>, components: Groups, rest: seq<ProductId>, merged: Merged,
                     deps: Dependencies,
                     p: ProductId)
    requires Parts(parts, components, rest, merged, deps)
    ensures p in UnionOf(PartIds(components, rest, merged)) <==> p in merged
  {
    hide BuiltFrom;
    var ids := PartIds(components, rest, merged);
    if p in merged {
      if i :| 0 <= i < |components| && p in components[i] {
        assert p in ids[i];
      } else {
        assert p in rest;
        var j :| 0 <= j < |rest| && rest[j] == p;
        assert p in ids[|components| + j];
      }
    }
    if p in UnionOf(ids) {
      var i :| 0 <= i < |ids| && p in ids[i];
      assert i >= |components| ==> rest[i - |components|] in rest;
    }
  }

  lemma PartIdsUnion(parts: seq<GroupResult>, components: Groups, rest: seq<ProductId>, merged: Merged,
                     deps: Dependencies)
    requires Parts(parts, components, rest, merged, deps)
    ensures UnionOf(PartIds(components, rest, merged)) == merged.Keys
  {
    hide Parts, UnionOf, PartIds;
    forall p
      ensures p in UnionOf(PartIds(components, rest, merged)) <==> p in merged
    {
      PartIdsCover(parts, components, rest, merged, deps, p);
    }
  }

  lemma PartsLists(parts: seq<GroupResult>, components: Groups, rest: seq<ProductId>, merged: Merged,
                   deps: Dependencies)
    requires Parts(parts, components, rest, merged, deps) && Disjoint(components)
    requires forall p :: p in merged ==> merged[p].productId == p
    ensures Lists(Flatten(parts), merged, merged.Keys)
  {
    hide Lists, BuiltFrom, UnionOf;
    var ids := PartIds(components, rest, merged);
    forall i | 0 <= i < |parts|
      ensures Lists(parts[i].actions, merged, ids[i])
    {
      PartLists(parts, components, rest, merged, deps, i);
    }
    PartIdsDisjoint(parts, components, rest, merged, deps);
    FlattenLists(parts, merged, ids);
    PartIdsUnion(parts, components, rest, merged, deps);
  }

  lemma PartIdsDisjoint(parts: seq<GroupResult>, components: Groups, rest: seq<ProductId>, merged: Merged,
                        deps: Dependencies)
    requires Parts(parts, components, rest, merged, deps) && Disjoint(components)
    ensures Disjoint(PartIds(components, rest, merged))
  {
    hide BuiltFrom;
    var ids := PartIds(components, rest, merged);
    forall i, j | 0 <= i < j < |ids|
      ensures ids[i] !! ids[j]
    {
      if j < |components| {
        assert components[i] !! components[j];
      } else {
        assert rest[j - |components|] in rest;
      }
    }
  }

  /** Conservation: every collected product appears exactly once in the ordered groups, with its merged
      action, and the groups are in descending priority. */
  lemma PlanConserves(parts: seq<GroupResult>, components: Groups, rest: seq<ProductId>, merged: Merged,
                      deps: Dependencies)
    requires Parts(parts, components, rest, merged, deps) && Disjoint(components)
    requires forall p :: p in merged ==> merged[p].productId == p
    ensures Lists(Flatten(SortByPriority(parts)), merged, merged.Keys)
    ensures Descending(SortByPriority(parts))
  {
    hide Parts, Lists, Flatten;
    PartsLists(parts, components, rest, merged, deps);
    SortByPriorityMeaning(parts);
    PermutedLists(Flatten(parts), Flatten(SortByPriority(parts)), merged, merged.Keys);
  }

  lemma PrecedesInFlatten(gs: seq<GroupResult>, n: nat, x: ProductId, y: ProductId)
    requires n < |gs| && Distinct(Flatten(gs)) && Precedes(gs[n].actions, x, y)
    ensures Precedes(Flatten(gs), x, y)
  {
    var l := gs[n].actions;
    var i, j := IndexOf(l, x), IndexOf(l, y);
    NumberedFlatten(gs, n, i);
    NumberedFlatten(gs, n, j);
    IndexOfAt(Flatten(gs), |Flatten(gs[..n])| + i);
    IndexOfAt(Flatten(gs), |Flatten(gs[..n])| + j);
  }
}
