/** The product tables an action sorter reads, and what a dependency asks for given those tables
    (opsiclientd/nonfree/RPCProductDependencyMixin.py). */
module DependencyTables {
  import opened ActionGroups
  import opened Common

  datatype DepotVersion = DepotVersion(productVersion: string, packageVersion: string)

  /** `scripts` holds the actions for which the product has a script. */
  datatype Product = Product(priority: int, scripts: set<string>)

  /** What the backend and its caches return for one depot and one client. */
  datatype Tables = Tables(
    depot: map<ProductId, DepotVersion>,
    products: map<(ProductId, DepotVersion), Product>,
    dependencies: map<(ProductId, DepotVersion), seq<Dependency>>,
    clients: map<ProductId, ProductOnClient>)
  {
    predicate Available(p: ProductId) {
      p in depot && (p, depot[p]) in products
    }

    /** Available on the depot in the versions asked for, where versions are asked for. */
    predicate AvailableAs(p: ProductId, productVersion: string, packageVersion: string) {
      && p in depot
      && (productVersion == "" || depot[p].productVersion == productVersion)
      && (packageVersion == "" || depot[p].packageVersion == packageVersion)
      && (p, depot[p]) in products
    }

    function ProductOf(p: ProductId): Product
      requires Available(p)
    {
      products[(p, depot[p])]
    }

    function DependenciesFrom(p: ProductId): seq<Dependency>
      requires Available(p)
    {
      if (p, depot[p]) in dependencies then dependencies[(p, depot[p])] else []
    }

    /** The product on client, with the defaults of a product that was never touched. */
    function ClientState(p: ProductId): ProductOnClient {
      if p in clients then clients[p] else ProductOnClient(p, "none", "not_installed", "", "")
    }

    predicate Fulfilled(d: Dependency) {
      var c := ClientState(d.requiredProductId);
      && d.requiredInstallationStatus == c.installationStatus
      && (d.requiredProductVersion == "" || c.productVersion == "" || d.requiredProductVersion == c.productVersion)
      && (d.requiredPackageVersion == "" || c.packageVersion == "" || d.requiredPackageVersion == c.packageVersion)
    }

    /** What a dependency asks for. */
    function Demand(d: Dependency): Demand {
      if !AvailableAs(d.requiredProductId, d.requiredProductVersion, d.requiredPackageVersion) then NotAvailable
      else if d.requiredAction != "" then WithScript(d, d.requiredAction)
      else if Fulfilled(d) then AlreadyFulfilled
      else if d.requiredInstallationStatus == "installed" then WithScript(d, "setup")
      else if d.requiredInstallationStatus == "not_installed" then WithScript(d, "uninstall")
      else InvalidStatus
    }

    function WithScript(d: Dependency, action: string): Demand
      requires Available(d.requiredProductId)
    {
      if action in ProductOf(d.requiredProductId).scripts then Need(action) else MissingScript
    }

    /** Action a triggers dependency d. */
    ghost predicate Triggers(a: Action, d: Dependency) {
      Available(a.productId) && d in DependenciesFrom(a.productId) && d.productAction == a.action
    }
  }

  datatype Demand = NotAvailable | AlreadyFulfilled | MissingScript | InvalidStatus | Need(action: string)

  datatype Outcome = Done | ProductNotAvailable | InvalidInstallationStatus

  type Unsorted = map<ProductId, seq<Action>>

  /** `unsorted_actions[a.product_id].append(a)` on a default dictionary. */
  function Appended(u: Unsorted, a: Action): Unsorted {
    u[a.productId := (if a.productId in u then u[a.productId] else []) + [a]]
  }

  predicate IsIn(u: Unsorted, a: Action) {
    a.productId in u && a in u[a.productId]
  }

  /** Lists only grow at their end. */
  ghost predicate Extends(u: Unsorted, v: Unsorted) {
    forall p :: p in u ==> p in v && u[p] <= v[p]
  }

  lemma ExtendsTrans(u: Unsorted, v: Unsorted, w: Unsorted)
    requires Extends(u, v) && Extends(v, w)
    ensures Extends(u, w)
  {
    forall p | p in u
      ensures p in w && u[p] <= w[p]
    {
      assert u[p] <= v[p] <= w[p];
    }
  }

  lemma ExtendsIsIn(u: Unsorted, v: Unsorted, a: Action)
    requires Extends(u, v) && IsIn(u, a)
    ensures IsIn(v, a)
  {
    assert u[a.productId] <= v[a.productId];
  }

  lemma AppendedExtends(u: Unsorted, a: Action)
    ensures Extends(u, Appended(u, a)) && IsIn(Appended(u, a), a)
  {
    var v := Appended(u, a);
    assert v[a.productId][|v[a.productId]| - 1] == a;
  }

  // ----- where collected actions come from -----

  /** Action a triggers a dependency that demands action b. */
  ghost predicate Demands(t: Tables, a: Action, b: Action) {
    exists d :: t.Triggers(a, d) && d.requiredProductId == b.productId && t.Demand(d) == Need(b.action)
  }

  /** Collected actions, the first of them requested, each demanding the next one. */
  ghost predicate Chain(t: Tables, q: set<Action>, u: Unsorted, c: seq<Action>) {
    && c != [] && c[0] in q
    && (forall i :: 0 <= i < |c| ==> IsIn(u, c[i]))
    && (forall i :: 0 <= i < |c| - 1 ==> Demands(t, c[i], c[i + 1]))
  }

  /** A chain of demands leads from a requested action to a. */
  ghost predicate Justified(t: Tables, q: set<Action>, u: Unsorted, a: Action) {
    exists c :: Chain(t, q, u, c) && c[|c| - 1] == a
  }

  ghost predicate CollectedAt(t: Tables, q: set<Action>, u: Unsorted, p: ProductId, k: nat) {
    p in u && k < |u[p]| && u[p][k].productId == p && t.Available(p) && Justified(t, q, u, u[p][k])
  }

  /** Every list holds actions of its own, available product, at least one, each of them justified. */
  ghost predicate WellCollected(t: Tables, q: set<Action>, u: Unsorted) {
    && (forall p :: p in u ==> |u[p]| > 0)
    && (forall p, k {:trigger CollectedAt(t, q, u, p, k)} :: p in u && 0 <= k < |u[p]| ==> CollectedAt(t, q, u, p, k))
  }

  lemma ChainMono(t: Tables, q: set<Action>, u: Unsorted, v: Unsorted, c: seq<Action>)
    requires Chain(t, q, u, c) && Extends(u, v)
    ensures Chain(t, q, v, c)
  {
    hide Demands, Extends;
    forall i | 0 <= i < |c|
      ensures IsIn(v, c[i])
    {
      ExtendsIsIn(u, v, c[i]);
    }
  }

  lemma JustifiedMono(t: Tables, q: set<Action>, u: Unsorted, v: Unsorted, a: Action)
    requires Justified(t, q, u, a) && Extends(u, v)
    ensures Justified(t, q, v, a)
  {
    hide Extends;
    var c :| Chain(t, q, u, c) && c[|c| - 1] == a;
    ChainMono(t, q, u, v, c);
  }

  lemma RequestJustified(t: Tables, q: set<Action>, u: Unsorted, a: Action)
    requires a in q && IsIn(u, a)
    ensures Justified(t, q, u, a)
  {
    assert Chain(t, q, u, [a]);
  }

  lemma DemandJustified(t: Tables, q: set<Action>, u: Unsorted, a: Action, b: Action)
    requires Justified(t, q, u, a) && Demands(t, a, b) && IsIn(u, b)
    ensures Justified(t, q, u, b)
  {
    hide Demands;
    var c :| Chain(t, q, u, c) && c[|c| - 1] == a;
    assert Chain(t, q, u, c + [b]);
  }

  lemma InJustified(t: Tables, q: set<Action>, u: Unsorted, a: Action)
    requires WellCollected(t, q, u) && IsIn(u, a)
    ensures Justified(t, q, u, a) && t.Available(a.productId)
  {
    hide Justified;
    var k :| 0 <= k < |u[a.productId]| && u[a.productId][k] == a;
    assert CollectedAt(t, q, u, a.productId, k);
  }

  lemma CollectedNamed(t: Tables, q: set<Action>, u: Unsorted)
    requires WellCollected(t, q, u)
    ensures forall p :: p in u ==> forall a :: a in u[p] ==> a.productId == p
  {
    hide Justified;
    forall p, a | p in u && a in u[p]
      ensures a.productId == p
    {
      var k :| 0 <= k < |u[p]| && u[p][k] == a;
      assert CollectedAt(t, q, u, p, k);
    }
  }

  lemma AppendedWellCollected(t: Tables, q: set<Action>, u: Unsorted, a: Action)
    requires WellCollected(t, q, u) && Justified(t, q, Appended(u, a), a) && t.Available(a.productId)
    ensures WellCollected(t, q, Appended(u, a))
  {
    hide Justified;
    var v: Unsorted := Appended(u, a);
    AppendedExtends(u, a);
    forall p, k | p in v && 0 <= k < |v[p]|
      ensures CollectedAt(t, q, v, p, k)
    {
      if p in u && k < |u[p]| {
        assert CollectedAt(t, q, u, p, k);
        JustifiedMono(t, q, u, v, u[p][k]);
        assert v[p][k] == u[p][k];
      }
    }
  }

  lemma MoreRequests(t: Tables, q: set<Action>, r: set<Action>, u: Unsorted)
    requires WellCollected(t, q, u) && q <= r
    ensures WellCollected(t, r, u)
  {
    forall p, k | p in u && 0 <= k < |u[p]|
      ensures CollectedAt(t, r, u, p, k)
    {
      assert CollectedAt(t, q, u, p, k);
      var c :| Chain(t, q, u, c) && c[|c| - 1] == u[p][k];
      assert Chain(t, r, u, c);
    }
  }

  // ----- closure -----

  /** Every product that action a demands is collected. */
  ghost predicate ClosedFor(t: Tables, u: Unsorted, a: Action) {
    forall d :: t.Triggers(a, d) && t.Demand(d).Need? ==> d.requiredProductId in u
  }

  /** Every product that any collected action demands is collected. */
  ghost predicate AllClosed(t: Tables, u: Unsorted) {
    forall p, k :: p in u && 0 <= k < |u[p]| ==> ClosedFor(t, u, u[p][k])
  }
}
