/** What sorting an action group guarantees: when hard dependencies end up satisfied, and that the
    result does not depend on the order in which the actions were collected. */
module ActionGroupOrder {
  import opened ActionGroups
  import opened Common
  import opened Graph

  // ----- the requires relation of a group -----

  /** Product p has a hard dependency d on a product that has an action in the list. */
  ghost predicate Hard(l: seq<Action>, deps: Dependencies, p: ProductId, d: Dependency) {
    p in Ids(l) && d in DependenciesOf(deps, p) && d.direction != Soft && d.requiredProductId in Ids(l)
  }

  /** The pairs (p, x) of products of the group where p has a hard dependency on x. */
  ghost function Requires(l: seq<Action>, deps: Dependencies): (r: set<(ProductId, ProductId)>)
    ensures forall p, d :: Hard(l, deps, p, d) ==> (p, d.requiredProductId) in r
    ensures forall p, x :: (p, x) in r ==> x in Ids(l) && exists d :: Hard(l, deps, p, d) && d.requiredProductId == x
  {
    set p, x | p in Ids(l) && x in Ids(l) && (exists d :: Hard(l, deps, p, d) && d.requiredProductId == x) :: (p, x)
  }

  /** The action of x is on the side of the action of p that direction k asks for. */
  predicate Good(l: seq<Action>, k: Direction, p: ProductId, x: ProductId) {
    if k == Before then Precedes(l, x, p) else Precedes(l, p, x)
  }

  ghost predicate Satisfied(l: seq<Action>, deps: Dependencies) {
    forall p, d :: Hard(l, deps, p, d) ==> Good(l, d.direction, p, d.requiredProductId)
  }

  /** The action at j is required by the one at i, and stands on the wrong side of it. */
  ghost predicate Violated(l: seq<Action>, deps: Dependencies, i: nat, j: nat)
    requires i < |l| && j < |l|
  {
    exists d :: d in DependenciesOf(deps, l[i].productId) && d.requiredProductId == l[j].productId &&
                ((d.direction == Before && j >= i) || (d.direction == After && j <= i))
  }

  /** In terms of positions: products required "before" stand in front, products required "after" behind. */
  lemma SatisfiedIff(l: seq<Action>, deps: Dependencies)
    requires Distinct(l)
    ensures Satisfied(l, deps) <==> forall i: nat, j: nat :: i < |l| && j < |l| ==> !Violated(l, deps, i, j)
  {
    hide IndexOf;
    forall i: nat | i < |l|
      ensures IndexOf(l, l[i].productId) == i && l[i].productId in Ids(l)
    {
      IndexOfAt(l, i);
    }
    if Satisfied(l, deps) {
      forall i: nat, j: nat, d | i < |l| && j < |l| && d in DependenciesOf(deps, l[i].productId) &&
                                 d.requiredProductId == l[j].productId && d.direction != Soft
        ensures if d.direction == Before then j < i else i < j
      {
        assert Hard(l, deps, l[i].productId, d);
      }
    } else {
      var p, d :| Hard(l, deps, p, d) && !Good(l, d.direction, p, d.requiredProductId);
      var i: nat :| i < |l| && l[i].productId == p;
      var j: nat :| j < |l| && l[j].productId == d.requiredProductId;
      assert Violated(l, deps, i, j);
    }
  }

  /** The requires relation of the group has no cycle. */
  ghost predicate AcyclicRequires(l: seq<Action>, deps: Dependencies) {
    Acyclic(Requires(l, deps))
  }

  /** No product is required "before" by one product and "after" by another one. */
  ghost predicate OneSided(l: seq<Action>, deps: Dependencies) {
    forall p, d, q, e :: Hard(l, deps, p, d) && Hard(l, deps, q, e) && d.requiredProductId == e.requiredProductId
      ==> d.direction == e.direction
  }

  /** Every product required "after" has an action in the group and is not the requiring product. */
  ghost predicate AfterPresent(l: seq<Action>, deps: Dependencies) {
    forall p, d :: p in Ids(l) && d in DependenciesOf(deps, p) && d.direction == After
      ==> d.requiredProductId in Ids(l) && d.requiredProductId != p
  }

  lemma IdsIndexOf(l: seq<Action>, p: ProductId)
    ensures p in Ids(l) <==> IndexOf(l, p) >= 0
  {
  }

  lemma PermutationIds(l: seq<Action>, r: seq<Action>)
    requires multiset(l) == multiset(r)
    ensures Ids(l) == Ids(r)
  {
    forall p
      ensures p in Ids(l) <==> p in Ids(r)
    {
      IdsIndexOf(l, p);
      IdsIndexOf(r, p);
      PermutationKeepsPresence(l, r, p);
    }
  }

  // ----- what one list move does to positions -----

  lemma MoveLeftPositions(l: seq<Action>, from: nat, to: nat, y: ProductId)
    requires Distinct(l) && to < from < |l| && IndexOf(l, y) >= 0
    ensures Distinct(Move(l, from, to))
    ensures IndexOf(Move(l, from, to), y) ==
            if IndexOf(l, y) == from then to
            else if to <= IndexOf(l, y) < from then IndexOf(l, y) + 1
            else IndexOf(l, y)
  {
    hide IndexOf;
    var r := Move(l, from, to);
    assert r == l[..to] + [l[from]] + l[to..from] + l[from + 1..];
    MovePermutes(l, from, to);
    DistinctPermutation(l, r);
    var i := IndexOf(l, y);
    var j := if i == from then to else if to <= i < from then i + 1 else i;
    assert r[j] == l[i];
    IndexOfAt(r, j);
  }

  lemma MoveRightPositions(l: seq<Action>, from: nat, to: nat, y: ProductId)
    requires Distinct(l) && from < to < |l| && IndexOf(l, y) >= 0
    ensures Distinct(Move(l, from, to))
    ensures IndexOf(Move(l, from, to), y) ==
            if IndexOf(l, y) == from then to
            else if from < IndexOf(l, y) <= to then IndexOf(l, y) - 1
            else IndexOf(l, y)
  {
    hide IndexOf;
    var r := Move(l, from, to);
    assert r == l[..from] + l[from + 1..to + 1] + [l[from]] + l[to + 1..];
    MovePermutes(l, from, to);
    DistinctPermutation(l, r);
    var i := IndexOf(l, y);
    var j := if i == from then to else if from < i <= to then i - 1 else i;
    assert r[j] == l[i];
    IndexOfAt(r, j);
  }

  /** New position of an element at i when the element at `from` moves to `to`. */
  function Shifted(from: int, to: int, i: int): int {
    if i == from then to
    else if to <= i < from then i + 1
    else if from < i <= to then i - 1
    else i
  }

  lemma EnforcePositions(l: seq<Action>, p: ProductId, d: Dependency, y: ProductId)
    requires Distinct(l) && p in Ids(l) && d.direction != Soft
    requires d.requiredProductId in Ids(l) && d.requiredProductId != p && y in Ids(l)
    ensures IndexOf(l, y) >= 0 && IndexOf(Enforce(l, p, d), y) ==
            if Good(l, d.direction, p, d.requiredProductId) then IndexOf(l, y)
            else Shifted(IndexOf(l, d.requiredProductId), IndexOf(l, p), IndexOf(l, y))
  {
    hide IndexOf, Move;
    IdsIndexOf(l, p);
    IdsIndexOf(l, d.requiredProductId);
    IdsIndexOf(l, y);
    var i, j := IndexOf(l, p), IndexOf(l, d.requiredProductId);
    if d.direction == Before && j > i {
      MoveLeftPositions(l, j, i, y);
    } else if d.direction == After && j < i {
      MoveRightPositions(l, j, i, y);
    }
  }

  lemma EnforceNothing(l: seq<Action>, p: ProductId, d: Dependency)
    requires d.direction != Soft && d.requiredProductId != p
    ensures Good(l, d.direction, p, d.requiredProductId) ==> Enforce(l, p, d) == l
  {
    hide IndexOf;
  }

  /** One list move: it settles its own dependency, keeps the order of all other products and never
      undoes a position of the required product on the side it is moved to. */
  lemma EnforceEffect(l: seq<Action>, p: ProductId, d: Dependency, y: ProductId, z: ProductId)
    requires Distinct(l) && p in Ids(l) && d.direction != Soft
    requires d.requiredProductId in Ids(l) && d.requiredProductId != p
    requires y in Ids(l) && z in Ids(l) && y != d.requiredProductId
    ensures Good(Enforce(l, p, d), d.direction, p, d.requiredProductId)
    ensures Good(l, d.direction, p, d.requiredProductId) ==> Enforce(l, p, d) == l
    ensures z != d.requiredProductId ==> (Precedes(l, y, z) <==> Precedes(Enforce(l, p, d), y, z))
    ensures Good(l, d.direction, y, d.requiredProductId) ==> Good(Enforce(l, p, d), d.direction, y, d.requiredProductId)
  {
    hide Enforce, IndexOf, Ids;
    EnforceNothing(l, p, d);
    EnforcePositions(l, p, d, p);
    EnforcePositions(l, p, d, d.requiredProductId);
    EnforcePositions(l, p, d, y);
    EnforcePositions(l, p, d, z);
  }

  // ----- settled products -----

  /** Nothing in `s` will be moved any more: whatever requires a member is a member, and is satisfied. */
  ghost predicate Settled(l: seq<Action>, g: seq<Action>, deps: Dependencies, s: set<ProductId>) {
    forall p, d :: Hard(g, deps, p, d) && d.requiredProductId in s
      ==> p in s && Good(l, d.direction, p, d.requiredProductId)
  }

  /** Satisfied dependencies of members of s stay satisfied from l to r. */
  ghost predicate Keeps(l: seq<Action>, r: seq<Action>, g: seq<Action>, deps: Dependencies, s: set<ProductId>) {
    forall p, d :: Hard(g, deps, p, d) && p in s && Good(l, d.direction, p, d.requiredProductId)
      ==> Good(r, d.direction, p, d.requiredProductId)
  }

  /** The group g as it was handed over, and a rearrangement l of it during sorting. */
  ghost predicate Arranged(l: seq<Action>, g: seq<Action>, deps: Dependencies) {
    multiset(l) == multiset(g) && Distinct(l) && Ids(l) == Ids(g) && OneSided(g, deps) && AfterPresent(g, deps)
  }

  lemma ArrangedStep(l: seq<Action>, r: seq<Action>, g: seq<Action>, deps: Dependencies)
    requires Arranged(l, g, deps) && multiset(l) == multiset(r)
    ensures Arranged(r, g, deps)
  {
    DistinctPermutation(l, r);
    PermutationIds(l, r);
  }

  /** A dependency that names an absent product, or a soft one, or the product itself, moves nothing. */
  lemma EnforceIdle(l: seq<Action>, g: seq<Action>, deps: Dependencies, p: ProductId, d: Dependency)
    requires Arranged(l, g, deps) && p in Ids(g) && d in DependenciesOf(deps, p)
    requires !Hard(g, deps, p, d) || d.requiredProductId == p
    ensures Enforce(l, p, d) == l
  {
    IdsIndexOf(l, p);
    IdsIndexOf(l, d.requiredProductId);
  }

  lemma EnforceKeeps(l: seq<Action>, g: seq<Action>, deps: Dependencies, s: set<ProductId>, p: ProductId, d: Dependency)
    requires Arranged(l, g, deps) && Settled(l, g, deps, s)
    requires p in Ids(g) && d in DependenciesOf(deps, p)
    ensures Arranged(Enforce(l, p, d), g, deps)
    ensures Keeps(l, Enforce(l, p, d), g, deps, s)
    ensures Hard(g, deps, p, d) && d.requiredProductId != p
      ==> Good(Enforce(l, p, d), d.direction, p, d.requiredProductId)
  {
    var r := Enforce(l, p, d);
    var x := d.requiredProductId;
    EnforcePermutes(l, p, d);
    ArrangedStep(l, r, g, deps);
    if !Hard(g, deps, p, d) || x == p {
      EnforceIdle(l, g, deps, p, d);
    } else {
      EnforceEffect(l, p, d, p, p);
      forall q, e | Hard(g, deps, q, e) && q in s && Good(l, e.direction, q, e.requiredProductId)
        ensures Good(r, e.direction, q, e.requiredProductId)
      {
        if x in s {
          assert Good(l, d.direction, p, x);
        } else if e.requiredProductId == x {
          EnforceEffect(l, p, d, q, q);
        } else {
          EnforceEffect(l, p, d, q, e.requiredProductId);
          EnforceEffect(l, p, d, e.requiredProductId, q);
        }
      }
    }
  }

  lemma KeepsSettled(l: seq<Action>, r: seq<Action>, g: seq<Action>, deps: Dependencies, s: set<ProductId>)
    requires Keeps(l, r, g, deps, s) && Settled(l, g, deps, s)
    ensures Settled(r, g, deps, s)
  {
  }

  lemma {:induction false} EnforceAllKeeps(l: seq<Action>, g: seq<Action>, deps: Dependencies, s: set<ProductId>,
                                           p: ProductId, ds: seq<Dependency>)
    requires Arranged(l, g, deps) && Settled(l, g, deps, s)
    requires p in Ids(g) && forall d :: d in ds ==> d in DependenciesOf(deps, p)
    ensures Arranged(EnforceAll(l, p, ds), g, deps)
    ensures Keeps(l, EnforceAll(l, p, ds), g, deps, s)
    ensures forall d :: p in s && d in ds && Hard(g, deps, p, d) && d.requiredProductId != p ==>
              Good(EnforceAll(l, p, ds), d.direction, p, d.requiredProductId)
  {
    hide IndexOf, Enforce;
    if ds != [] {
      var n := |ds| - 1;
      var m := EnforceAll(l, p, ds[..n]);
      EnforceAllKeeps(l, g, deps, s, p, ds[..n]);
      KeepsSettled(l, m, g, deps, s);
      EnforceKeeps(m, g, deps, s, p, ds[n]);
      assert ds == ds[..n] + [ds[n]];
    }
  }

  lemma {:induction false} RunKeeps(l: seq<Action>, g: seq<Action>, deps: Dependencies, s: set<ProductId>,
                                    snapshot: seq<Action>)
    requires Arranged(l, g, deps) && Settled(l, g, deps, s)
    requires Ids(snapshot) <= Ids(g)
    ensures Arranged(Run(l, snapshot, deps), g, deps)
    ensures Keeps(l, Run(l, snapshot, deps), g, deps, s)
    ensures forall p, d :: p in s && p in Ids(snapshot) && Hard(g, deps, p, d) && d.requiredProductId != p ==>
              Good(Run(l, snapshot, deps), d.direction, p, d.requiredProductId)
  {
    hide IndexOf, EnforceAll;
    if snapshot != [] {
      var n := |snapshot| - 1;
      var last := snapshot[n].productId;
      assert last in Ids(snapshot);
      assert forall p :: p in Ids(snapshot) ==> p in Ids(snapshot[..n]) || p == last by {
        forall p | p in Ids(snapshot)
          ensures p in Ids(snapshot[..n]) || p == last
        {
          var i :| 0 <= i < |snapshot| && snapshot[i].productId == p;
          if i < n {
            assert snapshot[..n][i].productId == p;
          }
        }
      }
      assert Ids(snapshot[..n]) <= Ids(snapshot);
      var m := Run(l, snapshot[..n], deps);
      RunKeeps(l, g, deps, s, snapshot[..n]);
      KeepsSettled(l, m, g, deps, s);
      EnforceAllKeeps(m, g, deps, s, last, DependenciesOf(deps, last));
    }
  }

  // ----- each run settles one more layer of the requires relation -----

  ghost predicate NoSelfRequirement(g: seq<Action>, deps: Dependencies) {
    forall p, d :: Hard(g, deps, p, d) ==> d.requiredProductId != p
  }

  /** One run over a list settled up to s settles all products required by members of s only. */
  lemma RunSettles(l: seq<Action>, g: seq<Action>, deps: Dependencies, s: set<ProductId>)
    requires Arranged(l, g, deps) && Settled(l, g, deps, s) && NoSelfRequirement(g, deps)
    requires s <= NextLayer(Ids(g), Requires(g, deps), s)
    ensures Arranged(Run(l, l, deps), g, deps)
    ensures Settled(Run(l, l, deps), g, deps, NextLayer(Ids(g), Requires(g, deps), s))
  {
    RunKeeps(l, g, deps, s, l);
    var r, t := Run(l, l, deps), NextLayer(Ids(g), Requires(g, deps), s);
    forall p, d | Hard(g, deps, p, d) && d.requiredProductId in t
      ensures p in t && Good(r, d.direction, p, d.requiredProductId)
    {
      assert (p, d.requiredProductId) in Requires(g, deps);
      assert p in s;
    }
  }

  /** `runs` sort runs without the early stop. */
  ghost function Iterated(l: seq<Action>, deps: Dependencies, runs: nat): seq<Action>
    decreases runs
  {
    if runs == 0 then l else Iterated(Run(l, l, deps), deps, runs - 1)
  }

  /** Stopping after an unchanged run is sound: further runs would not change the list either. */
  lemma {:induction false} EarlyStopIsSound(l: seq<Action>, deps: Dependencies, runs: nat)
    ensures Runs(l, deps, runs) == Iterated(l, deps, runs)
    decreases runs
  {
    if runs > 0 {
      EarlyStopIsSound(Run(l, l, deps), deps, runs - 1);
      if Run(l, l, deps) == l {
        FixpointIterated(l, deps, runs);
      }
    }
  }

  lemma {:induction false} FixpointIterated(l: seq<Action>, deps: Dependencies, runs: nat)
    requires Run(l, l, deps) == l
    ensures Iterated(l, deps, runs) == l
    decreases runs
  {
    if runs > 0 {
      FixpointIterated(l, deps, runs - 1);
    }
  }

  lemma {:induction false} IteratedSettles(l: seq<Action>, g: seq<Action>, deps: Dependencies, s: set<ProductId>,
                                           runs: nat)
    requires Arranged(l, g, deps) && Settled(l, g, deps, s) && NoSelfRequirement(g, deps)
    requires s <= NextLayer(Ids(g), Requires(g, deps), s)
    ensures multiset(Iterated(l, deps, runs)) == multiset(g)
    ensures Settled(Iterated(l, deps, runs), g, deps, Layers(Ids(g), Requires(g, deps), s, runs))
    decreases runs
  {
    if runs > 0 {
      RunSettles(l, g, deps, s);
      NextLayerGrows(Ids(g), Requires(g, deps), s);
      IteratedSettles(Run(l, l, deps), g, deps, NextLayer(Ids(g), Requires(g, deps), s), runs - 1);
    }
  }

  lemma {:induction false} IdsSize(l: seq<Action>)
    ensures |Ids(l)| <= |l|
  {
    if l != [] {
      var n := |l| - 1;
      IdsSize(l[..n]);
      assert Ids(l) == Ids(l[..n]) + {l[n].productId} by {
        forall p | p in Ids(l)
          ensures p in Ids(l[..n]) + {l[n].productId}
        {
          var i :| 0 <= i < |l| && l[i].productId == p;
          if i < n {
            assert l[..n][i].productId == p;
          }
        }
      }
    }
  }

  // ----- main results -----

  lemma SatisfiedOnPermutation(l: seq<Action>, g: seq<Action>, deps: Dependencies)
    requires Ids(l) == Ids(g) && Settled(l, g, deps, Ids(g))
    ensures Satisfied(l, deps)
  {
    forall p, d | Hard(l, deps, p, d)
      ensures Good(l, d.direction, p, d.requiredProductId)
    {
      assert Hard(g, deps, p, d);
    }
  }

  /** Sorting satisfies every hard dependency of a group whose requires relation is acyclic, where no
      product is required in both directions and products required "after" are in the group. Its bound
      of one run per action suffices. */
  lemma SortSatisfies(g: seq<Action>, deps: Dependencies)
    requires Distinct(g) && AcyclicRequires(g, deps) && OneSided(g, deps) && AfterPresent(g, deps)
    ensures Satisfied(Sorted(g, deps), deps)
  {
    var l := SortByKey(g);
    DistinctPermutation(g, l);
    PermutationIds(g, l);
    EarlyStopIsSound(l, deps, |g|);
    forall p, d | Hard(g, deps, p, d)
      ensures d.requiredProductId != p
    {
      assert IsWalk(Requires(g, deps), [p, d.requiredProductId]);
    }
    var e := Requires(g, deps);
    IdsSize(g);
    IteratedSettles(l, g, deps, {}, |g|);
    LayersCover(Ids(g), e, {}, |g|);
    var r := Sorted(g, deps);
    PermutationIds(r, g);
    assert Settled(r, g, deps, Ids(g));
    SatisfiedOnPermutation(r, g, deps);
  }

  /** All hard dependencies of the group ask for the same side. */
  ghost predicate SameDirection(l: seq<Action>, deps: Dependencies, k: Direction) {
    forall p, d :: Hard(l, deps, p, d) ==> d.direction == k
  }

  lemma {:induction false} WalkPositions(l: seq<Action>, deps: Dependencies, k: Direction, w: seq<ProductId>)
    requires Satisfied(l, deps) && SameDirection(l, deps, k) && |w| >= 2 && IsWalk(Requires(l, deps), w)
    ensures Good(l, k, w[0], w[|w| - 1])
  {
    var n := |w| - 1;
    assert (w[n - 1], w[n - 1 + 1]) in Requires(l, deps);
    if n > 1 {
      WalkSlice(Requires(l, deps), w, 0, n);
      assert w[..n] == w[0..n];
      WalkPositions(l, deps, k, w[..n]);
    }
  }

  lemma RequiresOnPermutation(l: seq<Action>, g: seq<Action>, deps: Dependencies)
    requires Ids(l) == Ids(g)
    ensures Requires(l, deps) == Requires(g, deps)
  {
    forall p, d
      ensures Hard(l, deps, p, d) <==> Hard(g, deps, p, d)
    {
    }
  }

  /** In a group with dependencies of one direction, sorting satisfies all of them exactly when the
      requires relation has no cycle. */
  lemma SortSatisfiesIffAcyclic(g: seq<Action>, deps: Dependencies, k: Direction)
    requires Distinct(g) && SameDirection(g, deps, k) && AfterPresent(g, deps)
    ensures Satisfied(Sorted(g, deps), deps) <==> AcyclicRequires(g, deps)
  {
    if AcyclicRequires(g, deps) {
      SortSatisfies(g, deps);
    }
    var r := Sorted(g, deps);
    if Satisfied(r, deps) {
      SortedPermutes(g, deps);
      PermutationIds(g, r);
      RequiresOnPermutation(r, g, deps);
      forall p, d | Hard(r, deps, p, d)
        ensures d.direction == k
      {
        assert Hard(g, deps, p, d);
      }
      forall w | IsWalk(Requires(r, deps), w) && |w| >= 2
        ensures w[0] != w[|w| - 1]
      {
        WalkPositions(r, deps, k, w);
      }
    }
  }

  // ----- products nobody requires keep their order -----

  ghost predicate Unrequired(g: seq<Action>, deps: Dependencies, y: ProductId) {
    y in Ids(g) && forall p :: (p, y) !in Requires(g, deps)
  }

  lemma {:induction false} EnforceAllKeepsUnrequired(l: seq<Action>, g: seq<Action>, deps: Dependencies,
                                                     p: ProductId, ds: seq<Dependency>, y: ProductId, z: ProductId)
    requires Distinct(l) && Ids(l) == Ids(g) && AfterPresent(g, deps)
    requires p in Ids(g) && forall d :: d in ds ==> d in DependenciesOf(deps, p)
    requires Unrequired(g, deps, y) && Unrequired(g, deps, z)
    ensures Distinct(EnforceAll(l, p, ds)) && Ids(EnforceAll(l, p, ds)) == Ids(g)
    ensures Precedes(EnforceAll(l, p, ds), y, z) <==> Precedes(l, y, z)
  {
    if ds != [] {
      var n := |ds| - 1;
      var d := ds[n];
      EnforceAllKeepsUnrequired(l, g, deps, p, ds[..n], y, z);
      var m := EnforceAll(l, p, ds[..n]);
      EnforcePermutes(m, p, d);
      DistinctPermutation(m, Enforce(m, p, d));
      PermutationIds(m, Enforce(m, p, d));
      IdsIndexOf(m, p);
      IdsIndexOf(m, d.requiredProductId);
      if Hard(g, deps, p, d) && d.requiredProductId != p {
        assert (p, d.requiredProductId) in Requires(g, deps);
        EnforceEffect(m, p, d, y, z);
      } else {
        assert d.direction == After ==> d.requiredProductId in Ids(g) && d.requiredProductId != p;
        assert Enforce(m, p, d) == m;
      }
    }
  }

  lemma {:induction false} RunKeepsUnrequired(l: seq<Action>, snapshot: seq<Action>, g: seq<Action>, deps: Dependencies,
                                              y: ProductId, z: ProductId)
    requires Distinct(l) && Ids(l) == Ids(g) && AfterPresent(g, deps) && Ids(snapshot) <= Ids(g)
    requires Unrequired(g, deps, y) && Unrequired(g, deps, z)
    ensures Distinct(Run(l, snapshot, deps)) && Ids(Run(l, snapshot, deps)) == Ids(g)
    ensures Precedes(Run(l, snapshot, deps), y, z) <==> Precedes(l, y, z)
  {
    hide IndexOf, EnforceAll;
    if snapshot != [] {
      var n := |snapshot| - 1;
      assert snapshot[n].productId in Ids(snapshot);
      assert Ids(snapshot[..n]) <= Ids(snapshot);
      RunKeepsUnrequired(l, snapshot[..n], g, deps, y, z);
      EnforceAllKeepsUnrequired(Run(l, snapshot[..n], deps), g, deps, snapshot[n].productId,
                                DependenciesOf(deps, snapshot[n].productId), y, z);
    }
  }

  lemma {:induction false} RunsKeepUnrequired(l: seq<Action>, g: seq<Action>, deps: Dependencies, runs: nat,
                                              y: ProductId, z: ProductId)
    requires Distinct(l) && Ids(l) == Ids(g) && AfterPresent(g, deps)
    requires Unrequired(g, deps, y) && Unrequired(g, deps, z)
    ensures Precedes(Runs(l, deps, runs), y, z) <==> Precedes(l, y, z)
    decreases runs
  {
    hide IndexOf, Run;
    if runs > 0 {
      RunKeepsUnrequired(l, l, g, deps, y, z);
      RunsKeepUnrequired(Run(l, l, deps), g, deps, runs - 1, y, z);
    }
  }

  lemma InPermutation(l: seq<Action>, r: seq<Action>, a: Action)
    requires multiset(l) == multiset(r) && a in l
    ensures a in r
  {
    assert a in multiset(r);
  }

  /** In a list sorted by key, position order and key order agree. */
  lemma KeySortedPositions(l: seq<Action>, a: Action, b: Action)
    requires KeySorted(l) && Distinct(l) && a in l && b in l && a != b
    ensures Precedes(l, a.productId, b.productId) <==> KeyLe(a, b)
  {
    hide IndexOf;
    var i :| 0 <= i < |l| && l[i] == a;
    var j :| 0 <= j < |l| && l[j] == b;
    IndexOfAt(l, i);
    IndexOfAt(l, j);
    if KeyLe(a, b) && KeyLe(b, a) {
      StringLeAntisymmetric(a.productId, b.productId);
    }
  }

  /** Products that no product of the group requires stay in the order of priority and product id,
      whatever the other dependencies are, cyclic and mixed ones included. */
  lemma UnrequiredKeepKeyOrder(g: seq<Action>, deps: Dependencies, a: Action, b: Action)
    requires Distinct(g) && AfterPresent(g, deps) && a in g && b in g && a != b
    requires Unrequired(g, deps, a.productId) && Unrequired(g, deps, b.productId)
    ensures Precedes(Sorted(g, deps), a.productId, b.productId) <==> KeyLe(a, b)
  {
    var l := SortByKey(g);
    DistinctPermutation(g, l);
    PermutationIds(g, l);
    InPermutation(g, l, a);
    InPermutation(g, l, b);
    RunsKeepUnrequired(l, g, deps, |g|, a.productId, b.productId);
    KeySortedPositions(l, a, b);
  }

  /** The order of two such products: the higher priority comes first; of equal priorities the product whose id
      has the smaller character at the first difference, or ends there. */
  lemma UnrequiredByPriority(g: seq<Action>, deps: Dependencies, a: Action, b: Action)
    requires Distinct(g) && AfterPresent(g, deps) && a in g && b in g && a != b
    requires Unrequired(g, deps, a.productId) && Unrequired(g, deps, b.productId)
    ensures Precedes(Sorted(g, deps), a.productId, b.productId) <==>
              a.priority > b.priority || (a.priority == b.priority && Smaller(a.productId, b.productId))
  {
    hide Sorted, Unrequired, AfterPresent, Precedes;
    UnrequiredKeepKeyOrder(g, deps, a, b);
    StringLeMeaning(a.productId, b.productId);
    var i :| 0 <= i < |g| && g[i] == a;
    var j :| 0 <= j < |g| && g[j] == b;
    assert i != j && a.productId != b.productId;
  }

  /** In a group without hard dependencies that is the order of all products. */
  lemma IndependentByPriority(g: seq<Action>, a: Action, b: Action)
    requires Distinct(g) && a in g && b in g && a != b
    ensures Precedes(Sorted(g, map[]), a.productId, b.productId) <==>
              a.priority > b.priority || (a.priority == b.priority && Smaller(a.productId, b.productId))
  {
    hide Sorted, Precedes;
    UnrequiredByPriority(g, map[], a, b);
  }

  // ----- independence of the collection order -----

  lemma KeySortedHead(l: seq<Action>, r: seq<Action>)
    requires KeySorted(l) && KeySorted(r) && Distinct(l) && l != [] && r != []
    requires l[0] in r && r[0] in l
    ensures l[0] == r[0]
  {
    var i :| 0 <= i < |l| && l[i] == r[0];
    var j :| 0 <= j < |r| && r[j] == l[0];
    if i > 0 && j > 0 {
      assert KeyLe(l[0], l[i]) && KeyLe(r[0], r[j]);
      StringLeAntisymmetric(l[0].productId, l[i].productId);
    }
  }

  lemma TailPermutation(l: seq<Action>, r: seq<Action>)
    requires l != [] && r != [] && l[0] == r[0] && multiset(l) == multiset(r)
    ensures multiset(l[1..]) == multiset(r[1..])
  {
    assert l == [l[0]] + l[1..] && r == [r[0]] + r[1..];
    assert multiset(l[1..]) == multiset(l) - multiset{l[0]};
  }

  lemma {:induction false} KeySortedUnique(l: seq<Action>, r: seq<Action>)
    requires KeySorted(l) && KeySorted(r) && Distinct(l) && |l| == |r| && multiset(l) == multiset(r)
    ensures l == r
    decreases |l|
  {
    if l != [] {
      InPermutation(l, r, l[0]);
      InPermutation(r, l, r[0]);
      KeySortedHead(l, r);
      TailPermutation(l, r);
      KeySortedUnique(l[1..], r[1..]);
      assert l == [l[0]] + l[1..] && r == [r[0]] + r[1..];
    }
  }

  /** The sorted group is the same for every order in which a set was iterated. */
  lemma SortedIndependentOfOrder(l: seq<Action>, r: seq<Action>, deps: Dependencies)
    requires Distinct(l) && multiset(l) == multiset(r)
    ensures Sorted(l, deps) == Sorted(r, deps)
  {
    DistinctPermutation(l, SortByKey(l));
    assert |l| == |multiset(l)| == |multiset(r)| == |r|;
    KeySortedUnique(SortByKey(l), SortByKey(r));
  }

  /** The group priority is the highest positive priority, else the lowest one (at most 0). */
  lemma {:induction false} GroupPriorityMeaning(l: seq<Action>)
    ensures (exists a :: a in l && a.priority > 0) ==>
              && (exists a :: a in l && a.priority == GroupPriority(l))
              && (forall a :: a in l ==> a.priority <= GroupPriority(l))
    ensures (forall a :: a in l ==> a.priority <= 0) && (exists a :: a in l && a.priority < 0) ==>
              && (exists a :: a in l && a.priority == GroupPriority(l))
              && (forall a :: a in l ==> GroupPriority(l) <= a.priority)
    ensures (forall a :: a in l ==> a.priority == 0) ==> GroupPriority(l) == 0
    ensures GroupPriority(l) > 0 <==> exists a :: a in l && a.priority > 0
    ensures GroupPriority(l) < 0 <==> (exists a :: a in l && a.priority < 0) && forall a :: a in l ==> a.priority <= 0
  {
    if l != [] {
      var n := |l| - 1;
      GroupPriorityMeaning(l[..n]);
      assert l == l[..n] + [l[n]];
      assert l[n] in l;
      assert forall a :: a in l <==> a in l[..n] || a == l[n];
    }
  }

  // ----- where sorting fails -----

  const A := Action("a", "setup", 0, None)
  const B := Action("b", "setup", 0, None)
  const C := Action("c", "setup", 0, None)

  function Needs(p: ProductId, k: Direction): Dependency {
    Dependency("setup", p, "", "", "setup", "", k)
  }

  lemma NamesDiffer()
    ensures A.productId != B.productId && A.productId != C.productId && B.productId != C.productId
    ensures StringLe("a", "b") && StringLe("b", "c") && StringLe("a", "c")
  {
    assert "a"[0] < "b"[0] < "c"[0];
  }

  const MIXED := map["a" := [Needs("c", Before)], "b" := [Needs("c", After)]]

  /** Both dependencies on "c" can be met: the order b, c, a meets them. Yet sorting returns to the list
      it started from and stops after one run, leaving "c required before a" unsatisfied. */
  lemma MixedDirectionsFail()
    ensures AcyclicRequires([A, B, C], MIXED) && AfterPresent([A, B, C], MIXED)
    ensures Sorted([A, B, C], MIXED) == [A, B, C] && !Satisfied([A, B, C], MIXED)
    ensures Satisfied([B, C, A], MIXED)
  {
    hide IndexOf, Run, SortByKey, Satisfied, AcyclicRequires, AfterPresent;
    MixedPositions([A, B, C]);
    MixedPositions([B, C, A]);
    MixedAcyclic([A, B, C]);
    MixedSorted([A, B, C]);
    MixedRun([A, B, C]);
    MixedVerdict([A, B, C], [B, C, A]);
  }

  lemma MixedVerdict(l: seq<Action>, s: seq<Action>)
    requires Ids(l) == {"a", "b", "c"} == Ids(s)
    requires IndexOf(l, "a") == 0 && IndexOf(l, "c") == 2
    requires IndexOf(s, "b") == 0 && IndexOf(s, "c") == 1 && IndexOf(s, "a") == 2
    ensures !Satisfied(l, MIXED) && Satisfied(s, MIXED)
  {
    hide IndexOf, Sorted;
    NamesDiffer();
    assert MIXED["a"][0] == Needs("c", Before);
    assert Hard(l, MIXED, "a", Needs("c", Before));
    assert DependenciesOf(MIXED, "c") == [];
  }

  lemma MixedPositions(l: seq<Action>)
    requires |l| == 3 && Distinct(l) && A in l && B in l && C in l
    ensures Ids(l) == {"a", "b", "c"}
    ensures forall i :: 0 <= i < 3 ==> IndexOf(l, l[i].productId) == i
  {
    hide IndexOf;
    forall i | 0 <= i < 3
      ensures IndexOf(l, l[i].productId) == i
    {
      IndexOfAt(l, i);
    }
    forall p
      ensures p in Ids(l) <==> p in {"a", "b", "c"}
    {
      assert l == [l[0], l[1], l[2]];
    }
  }

  lemma MixedAcyclic(l: seq<Action>)
    requires Ids(l) == {"a", "b", "c"}
    ensures AcyclicRequires(l, MIXED) && AfterPresent(l, MIXED)
  {
    hide IndexOf;
    NamesDiffer();
    var e := Requires(l, MIXED);
    assert forall p, x :: (p, x) in e ==> x == "c" && p != "c";
    forall w | IsWalk(e, w) && |w| >= 2
      ensures w[0] != w[|w| - 1]
    {
      assert (w[0], w[0 + 1]) in e;
      assert (w[|w| - 2], w[|w| - 2 + 1]) in e;
    }
  }

  lemma MixedSorted(l: seq<Action>)
    requires l == [A, B, C]
    ensures SortByKey(l) == l
  {
    NamesDiffer();
    assert l[1..] == [B, C] && [B, C][1..] == [C] && [C][1..] == [];
    assert SortByKey([C]) == [C];
    assert SortByKey([B, C]) == [B, C];
  }

  lemma MixedMoves(l: seq<Action>, m: seq<Action>)
    requires l == [A, B, C] && m == [C, A, B]
    ensures Enforce(l, "a", Needs("c", Before)) == m && Enforce(m, "b", Needs("c", After)) == l
  {
    hide IndexOf;
    NamesDiffer();
    MixedPositions(l);
    MixedPositions(m);
  }

  lemma EnforceSingle(l: seq<Action>, p: ProductId, d: Dependency)
    ensures EnforceAll(l, p, [d]) == Enforce(l, p, d)
  {
    hide Enforce;
    assert [d][..0] == [];
  }

  lemma MixedRun(l: seq<Action>)
    requires l == [A, B, C]
    ensures Run(l, l, MIXED) == l
  {
    hide IndexOf, Enforce, EnforceAll;
    NamesDiffer();
    var m := [C, A, B];
    MixedMoves(l, m);
    EnforceSingle(l, "a", Needs("c", Before));
    EnforceSingle(m, "b", Needs("c", After));
    var s1, s2 := [A], [A, B];
    assert s1[..0] == [] && s2[..1] == s1 && l[..2] == s2;
    assert Run(l, s1, MIXED) == m;
    assert Run(l, s2, MIXED) == l;
    NothingRequired(l, "c");
  }

  lemma NothingRequired(l: seq<Action>, p: ProductId)
    ensures EnforceAll(l, p, []) == l
  {
  }

  const ABSENT := map["a" := [Needs("c", After)]]

  /** "c" is required "after" but has no action in the group: the last action is moved in its place,
      which breaks the priority order of two actions that nobody requires. */
  lemma AbsentAfterMoves()
    ensures Unrequired([A, B], ABSENT, "a") && Unrequired([A, B], ABSENT, "b") && KeyLe(A, B)
    ensures Sorted([A, B], ABSENT) == [B, A]
  {
    NamesDiffer();
    AbsentSorted([A, B]);
    AbsentRun([A, B]);
    AbsentRun([B, A]);
    assert Runs([B, A], ABSENT, 1) == [B, A];
    AbsentUnrequired([A, B]);
  }

  lemma AbsentSorted(l: seq<Action>)
    requires l == [A, B]
    ensures SortByKey(l) == l
  {
    NamesDiffer();
    assert l[1..] == [B] && [B][1..] == [];
    assert SortByKey([B]) == [B];
  }

  lemma AbsentUnrequired(l: seq<Action>)
    requires l == [A, B]
    ensures Unrequired(l, ABSENT, "a") && Unrequired(l, ABSENT, "b")
  {
    NamesDiffer();
    assert l[0].productId in Ids(l) && l[1].productId in Ids(l);
    assert "c" !in Ids(l);
    assert DependenciesOf(ABSENT, "b") == [];
  }

  lemma AbsentMove(l: seq<Action>)
    requires l == [A, B] || l == [B, A]
    ensures Enforce(l, "a", Needs("c", After)) == [B, A]
  {
    hide IndexOf;
    NamesDiffer();
    assert Distinct(l);
    IndexOfAt(l, 0);
    IndexOfAt(l, 1);
    assert IndexOf(l, "c") == -1;
    assert l[..1] == [l[0]] && l[2..] == [] && [l[0]] + [] == [l[0]];
    assert Move(l, -1, if l == [A, B] then 0 else 1) == [B, A];
  }

  lemma AbsentRun(l: seq<Action>)
    requires l == [A, B] || l == [B, A]
    ensures Run(l, l, ABSENT) == [B, A]
  {
    hide IndexOf, Enforce, EnforceAll;
    NamesDiffer();
    AbsentMove(l);
    EnforceSingle(l, "a", Needs("c", After));
    var s := [l[0]];
    assert l[..1] == s && s[..0] == [];
    NothingRequired(l, "b");
    NothingRequired([B, A], "b");
    assert DependenciesOf(ABSENT, "b") == [];
    assert Run(l, s, ABSENT) == if l[0] == A then [B, A] else l;
  }
}
