/** Actions, hard dependencies and the sorting of one action group
    (opsiclientd/nonfree/RPCProductDependencyMixin.py). */
module ActionGroups {
  import opened Common

  type ProductId = string

  /** The value of `requirementType`; Soft stands for an unset value. */
  datatype Direction = Soft | Before | After

  /** Optional strings of the source are modelled with "" for an unset value. */
  datatype Dependency = Dependency(
    productAction: string,
    requiredProductId: ProductId,
    requiredProductVersion: string,
    requiredPackageVersion: string,
    requiredAction: string,
    requiredInstallationStatus: string,
    direction: Direction)

  datatype ProductOnClient = ProductOnClient(
    productId: ProductId,
    actionRequest: string,
    installationStatus: string,
    productVersion: string,
    packageVersion: string)

  datatype Action = Action(
    productId: ProductId,
    action: string,
    priority: int,
    productOnClient: Option<ProductOnClient>)

  type Dependencies = map<ProductId, seq<Dependency>>

  function DependenciesOf(deps: Dependencies, p: ProductId): seq<Dependency> {
    if p in deps then deps[p] else []
  }

  // ----- positions -----

  predicate Distinct(l: seq<Action>) {
    forall i, j :: 0 <= i < j < |l| ==> l[i].productId != l[j].productId
  }

  ghost function Ids(l: seq<Action>): set<ProductId> {
    set i | 0 <= i < |l| :: l[i].productId
  }

  /** Position of the action of product p, or -1. */
  function IndexOf(l: seq<Action>, p: ProductId): (r: int)
    ensures -1 <= r < |l|
    ensures r >= 0 ==> l[r].productId == p
    ensures r == -1 <==> forall i :: 0 <= i < |l| ==> l[i].productId != p
  {
    if l == [] then -1
    else if l[0].productId == p then 0
    else var r := IndexOf(l[1..], p); if r < 0 then -1 else r + 1
  }

  lemma IndexOfAt(l: seq<Action>, i: nat)
    requires Distinct(l) && i < |l|
    ensures IndexOf(l, l[i].productId) == i
  {
    var r := IndexOf(l, l[i].productId);
    assert r >= 0;
  }

  /** The action of product x comes before the action of product y. */
  predicate Precedes(l: seq<Action>, x: ProductId, y: ProductId) {
    0 <= IndexOf(l, x) < IndexOf(l, y)
  }

  // ----- one list move -----

  /** `actions.insert(to, actions.pop(from))`; a negative index pops the last element. */
  function Move(l: seq<Action>, from: int, to: nat): (r: seq<Action>)
    requires -1 <= from < |l| && to < |l|
    ensures |r| == |l|
  {
    var f := if from < 0 then |l| - 1 else from;
    var rest := l[..f] + l[f + 1..];
    rest[..to] + [l[f]] + rest[to..]
  }

  /** What the inner loop does for one dependency d of product p. Every product the loop visits has
      its action in the list, so the first branch is never taken by `sort`. */
  function Enforce(l: seq<Action>, p: ProductId, d: Dependency): (r: seq<Action>)
    ensures |r| == |l|
  {
    var posPrd := IndexOf(l, p);
    var posReq := if d.requiredProductId == p then -1 else IndexOf(l, d.requiredProductId);
    if posPrd < 0 then l
    else
      match d.direction
      case Soft => l
      case Before => if posReq > posPrd then Move(l, posReq, posPrd) else l
      case After => if posReq < posPrd then Move(l, posReq, posPrd) else l
  }

  /** All dependencies of one product, in table order. */
  function EnforceAll(l: seq<Action>, p: ProductId, ds: seq<Dependency>): (r: seq<Action>)
    ensures |r| == |l|
  {
    if ds == [] then l
    else Enforce(EnforceAll(l, p, ds[..|ds| - 1]), p, ds[|ds| - 1])
  }

  /** One sort run over a snapshot of the list. */
  function Run(l: seq<Action>, snapshot: seq<Action>, deps: Dependencies): (r: seq<Action>)
    ensures |r| == |l|
  {
    if snapshot == [] then l
    else
      var n := |snapshot| - 1;
      EnforceAll(Run(l, snapshot[..n], deps), snapshot[n].productId, DependenciesOf(deps, snapshot[n].productId))
  }

  /** At most `runs` sort runs, stopping after a run that changed nothing. */
  function Runs(l: seq<Action>, deps: Dependencies, runs: nat): (r: seq<Action>)
    ensures |r| == |l|
    decreases runs
  {
    if runs == 0 then l
    else
      var l' := Run(l, l, deps);
      if l' == l then l else Runs(l', deps, runs - 1)
  }

  // ----- every step permutes the list -----

  lemma PermutationKeepsPresence(l: seq<Action>, r: seq<Action>, p: ProductId)
    requires multiset(l) == multiset(r)
    ensures IndexOf(l, p) >= 0 <==> IndexOf(r, p) >= 0
  {
    if IndexOf(l, p) >= 0 {
      assert l[IndexOf(l, p)] in multiset(r);
    }
    if IndexOf(r, p) >= 0 {
      assert r[IndexOf(r, p)] in multiset(l);
    }
  }

  lemma DistinctCount(l: seq<Action>, a: nat)
    requires Distinct(l) && a < |l|
    ensures multiset(l)[l[a]] == 1
  {
    assert l == l[..a] + [l[a]] + l[a + 1..];
  }

  lemma RepeatedCount(r: seq<Action>, i: nat, j: nat)
    requires i < j < |r| && r[i] == r[j]
    ensures multiset(r)[r[i]] >= 2
  {
    assert r == r[..j] + [r[j]] + r[j + 1..];
    assert r[..j][i] == r[i];
  }

  lemma DistinctPermutation(l: seq<Action>, r: seq<Action>)
    requires Distinct(l) && multiset(l) == multiset(r)
    ensures Distinct(r)
  {
    forall i, j | 0 <= i < j < |r|
      ensures r[i].productId != r[j].productId
    {
      assert r[i] in multiset(l) && r[j] in multiset(l);
      var a :| 0 <= a < |l| && l[a] == r[i];
      if r[i] == r[j] {
        RepeatedCount(r, i, j);
        DistinctCount(l, a);
      }
    }
  }

  lemma MovePermutes(l: seq<Action>, from: int, to: nat)
    requires -1 <= from < |l| && to < |l|
    ensures multiset(Move(l, from, to)) == multiset(l)
  {
    var f := if from < 0 then |l| - 1 else from;
    var rest := l[..f] + l[f + 1..];
    assert l == l[..f] + [l[f]] + l[f + 1..];
    assert multiset(l) == multiset(rest) + multiset{l[f]};
    assert rest == rest[..to] + rest[to..];
  }

  lemma EnforcePermutes(l: seq<Action>, p: ProductId, d: Dependency)
    ensures multiset(Enforce(l, p, d)) == multiset(l)
  {
    var posPrd := IndexOf(l, p);
    var posReq := if d.requiredProductId == p then -1 else IndexOf(l, d.requiredProductId);
    if posPrd >= 0 {
      MovePermutes(l, posReq, posPrd);
    }
  }

  lemma {:induction false} EnforceAllPermutes(l: seq<Action>, p: ProductId, ds: seq<Dependency>)
    ensures multiset(EnforceAll(l, p, ds)) == multiset(l)
  {
    if ds != [] {
      EnforceAllPermutes(l, p, ds[..|ds| - 1]);
      EnforcePermutes(EnforceAll(l, p, ds[..|ds| - 1]), p, ds[|ds| - 1]);
    }
  }

  lemma {:induction false} RunPermutes(l: seq<Action>, snapshot: seq<Action>, deps: Dependencies)
    ensures multiset(Run(l, snapshot, deps)) == multiset(l)
  {
    if snapshot != [] {
      var n := |snapshot| - 1;
      RunPermutes(l, snapshot[..n], deps);
      EnforceAllPermutes(Run(l, snapshot[..n], deps), snapshot[n].productId,
                         DependenciesOf(deps, snapshot[n].productId));
    }
  }

  lemma {:induction false} RunsPermutes(l: seq<Action>, deps: Dependencies, runs: nat)
    ensures multiset(Runs(l, deps, runs)) == multiset(l)
    decreases runs
  {
    if runs > 0 {
      RunPermutes(l, l, deps);
      RunsPermutes(Run(l, l, deps), deps, runs - 1);
    }
  }

  // ----- ordering by priority and product id -----

  predicate KeyLe(a: Action, b: Action) {
    a.priority > b.priority || (a.priority == b.priority && StringLe(a.productId, b.productId))
  }

  predicate KeySorted(l: seq<Action>) {
    forall i, j :: 0 <= i < j < |l| ==> KeyLe(l[i], l[j])
  }

  /** Stable insertion of a into a list sorted by key. */
  function InsertByKey(a: Action, l: seq<Action>): (r: seq<Action>)
    requires KeySorted(l)
    ensures multiset(r) == multiset(l) + multiset{a} && |r| == |l| + 1
    ensures KeySorted(r)
  {
    if l == [] then [a]
    else if KeyLe(a, l[0]) then
      KeySortedBelow(a, l);
      [a] + l
    else
      var t := InsertByKey(a, l[1..]);
      KeySortedInserted(a, l, t);
      [l[0]] + t
  }

  lemma KeySortedBelow(a: Action, l: seq<Action>)
    requires l != [] && KeySorted(l) && KeyLe(a, l[0])
    ensures KeySorted([a] + l)
  {
    forall j | 0 <= j < |l|
      ensures KeyLe(a, l[j])
    {
      if j > 0 && a.priority == l[0].priority && l[0].priority == l[j].priority {
        StringLeTransitive(a.productId, l[0].productId, l[j].productId);
      }
    }
  }

  lemma KeySortedInserted(a: Action, l: seq<Action>, t: seq<Action>)
    requires l != [] && KeySorted(l) && !KeyLe(a, l[0])
    requires KeySorted(t) && multiset(t) == multiset(l[1..]) + multiset{a}
    ensures KeySorted([l[0]] + t) && multiset([l[0]] + t) == multiset(l) + multiset{a}
  {
    assert l == [l[0]] + l[1..];
    StringLeTotal(a.productId, l[0].productId);
    forall j | 0 <= j < |t|
      ensures KeyLe(l[0], t[j])
    {
      assert t[j] in multiset(t);
      assert t[j] == a || t[j] in l[1..];
    }
  }

  /** `actions.sort(key=lambda a: (-a.priority, a.product_id))` */
  function SortByKey(l: seq<Action>): (r: seq<Action>)
    ensures multiset(r) == multiset(l) && |r| == |l|
    ensures KeySorted(r)
  {
    if l == [] then []
    else
      assert l == [l[0]] + l[1..];
      InsertByKey(l[0], SortByKey(l[1..]))
  }

  /** The list `ActionGroup.sort` leaves behind. */
  function Sorted(l: seq<Action>, deps: Dependencies): seq<Action> {
    Runs(SortByKey(l), deps, |l|)
  }

  lemma SortedPermutes(l: seq<Action>, deps: Dependencies)
    ensures multiset(Sorted(l, deps)) == multiset(l)
  {
    RunsPermutes(SortByKey(l), deps, |l|);
  }

  // ----- group priority -----

  function CombinePriority(current: int, added: int): int {
    var maxPriority := if current >= added then current else added;
    var minPriority := if current <= added then current else added;
    if maxPriority > 0 then maxPriority
    else if minPriority < 0 then minPriority
    else current
  }

  /** Priority of a group to which the actions were added one by one. */
  function GroupPriority(l: seq<Action>): int {
    if l == [] then 0 else CombinePriority(GroupPriority(l[..|l| - 1]), l[|l| - 1].priority)
  }

  class ActionGroup {
    var priority: int
    var actions: seq<Action>
    var dependencies: Dependencies

    constructor ()
      ensures priority == 0 && actions == [] && dependencies == map[]
    {
      priority := 0;
      actions := [];
      dependencies := map[];
    }

    method AddAction(action: Action)
      requires priority == GroupPriority(actions)
      modifies this`priority, this`actions
      ensures actions == old(actions) + [action]
      ensures priority == GroupPriority(actions)
    {
      actions := actions + [action];
      var maxPriority := if priority >= action.priority then priority else action.priority;
      var minPriority := if priority <= action.priority then priority else action.priority;
      if maxPriority > 0 {
        // Prefer the highest priority above 0
        priority := maxPriority;
      } else if minPriority < 0 {
        // After that the lowest priority below 0
        priority := minPriority;
      }
      assert actions[..|actions| - 1] == old(actions);
    }

    /** Positions of the product and of its required product, -1 where there is none. */
    method FindPositions(product: ProductId, required: ProductId) returns (posPrd: int, posReq: int)
      requires Distinct(actions)
      ensures posPrd == IndexOf(actions, product)
      ensures posReq == if required == product then -1 else IndexOf(actions, required)
    {
      posPrd, posReq := -1, -1;
      var idx := 0;
      while idx < |actions|
        invariant 0 <= idx <= |actions|
        invariant posPrd == -1 || (0 <= posPrd < idx && actions[posPrd].productId == product)
        invariant posPrd == -1 ==> forall k :: 0 <= k < idx ==> actions[k].productId != product
        invariant posReq == -1 || (0 <= posReq < idx && required != product && actions[posReq].productId == required)
        invariant posReq == -1 && required != product ==> forall k :: 0 <= k < idx ==> actions[k].productId != required
        invariant posPrd == -1 || posReq == -1
      {
        if actions[idx].productId == product {
          posPrd := idx;
        } else if actions[idx].productId == required {
          posReq := idx;
        }
        if posPrd > -1 && posReq > -1 {
          break;
        }
        idx := idx + 1;
      }
      if posPrd >= 0 { IndexOfAt(actions, posPrd); }
      if posReq >= 0 { IndexOfAt(actions, posReq); }
    }

    /** The inner loop over the dependencies of one product. */
    method EnforceDependencies(product: ProductId)
      requires Distinct(actions) && IndexOf(actions, product) >= 0
      modifies this`actions
      ensures actions == EnforceAll(old(actions), product, DependenciesOf(dependencies, product))
      ensures Distinct(actions)
    {
      hide Enforce, Distinct;
      var ds := DependenciesOf(dependencies, product);
      var k := 0;
      while k < |ds|
        invariant 0 <= k <= |ds|
        invariant actions == EnforceAll(old(actions), product, ds[..k])
        invariant Distinct(actions) && IndexOf(actions, product) >= 0
      {
        assert ds[..k + 1][..k] == ds[..k];
        EnforceDependency(product, ds[k]);
        k := k + 1;
      }
      assert ds[..|ds|] == ds;
    }

    method EnforceDependency(product: ProductId, dependency: Dependency)
      requires Distinct(actions) && IndexOf(actions, product) >= 0
      modifies this`actions
      ensures actions == Enforce(old(actions), product, dependency)
      ensures Distinct(actions) && IndexOf(actions, product) >= 0
    {
      hide IndexOf, Distinct;
      if dependency.direction == Soft {
        return;
      }
      var posPrd, posReq := FindPositions(product, dependency.requiredProductId);
      if dependency.direction == Before {
        if posReq > posPrd {
          actions := Move(actions, posReq, posPrd);
        }
      } else if dependency.direction == After {
        if posReq < posPrd {
          actions := Move(actions, posReq, posPrd);
        }
      }
      EnforcePermutes(old(actions), product, dependency);
      DistinctPermutation(old(actions), actions);
      PermutationKeepsPresence(old(actions), actions, product);
    }

    /** One sort run over a copy of the action list. */
    method SortRun()
      requires Distinct(actions)
      modifies this`actions
      ensures actions == Run(old(actions), old(actions), dependencies)
      ensures Distinct(actions)
    {
      hide EnforceAll, Distinct;
      var snapshot := actions;
      var i := 0;
      while i < |snapshot|
        invariant 0 <= i <= |snapshot|
        invariant actions == Run(snapshot, snapshot[..i], dependencies)
        invariant Distinct(actions)
      {
        assert snapshot[..i + 1][..i] == snapshot[..i];
        RunPermutes(snapshot, snapshot[..i], dependencies);
        PermutationKeepsPresence(snapshot, actions, snapshot[i].productId);
        EnforceDependencies(snapshot[i].productId);
        i := i + 1;
      }
      assert snapshot[..|snapshot|] == snapshot;
    }

    /** The loop of sort runs on the list ordered by priority and product id. */
    method SortRuns()
      requires Distinct(actions)
      modifies this`actions
      ensures actions == Runs(old(actions), dependencies, |old(actions)|)
      ensures Distinct(actions)
    {
      hide Run, Distinct;
      var runNumber := 0;
      while runNumber < |actions|
        invariant 0 <= runNumber <= |actions| == |old(actions)|
        invariant Distinct(actions)
        invariant Runs(old(actions), dependencies, |old(actions)|)
               == Runs(actions, dependencies, |old(actions)| - runNumber)
      {
        runNumber := runNumber + 1;
        var snapshot := actions;
        SortRun();
        if actions == snapshot {
          break;
        }
      }
    }

    method Sort()
      requires Distinct(actions)
      modifies this`actions
      ensures actions == Sorted(old(actions), dependencies)
      ensures Distinct(actions)
    {
      actions := SortByKey(actions);
      DistinctPermutation(old(actions), actions);
      SortRuns();
    }
  }
}
