/** Requests for missing required actions, which a replication makes on the server before it copies anything
    (opsiclientd/nonfree/CacheBackend.py). */
module RequiredActions {
  import opened Common

  /** The client's product entries on the server with their action requests; "" for an unset one. */
  type Requests = map<string, string>

  datatype Requirement = Requirement(productId: string, productAction: string, requiredProductId: string,
                                     requiredAction: string)

  /** The requirement applies to what is requested, and the required product has another request. */
  predicate Missing(requests: Requests, d: Requirement) {
    && d.requiredAction != ""
    && d.productId in requests && requests[d.productId] == d.productAction
    && d.requiredProductId in requests && requests[d.requiredProductId] != d.requiredAction
  }

  /** One requirement: the required product gets the action of the requiring one. */
  function Repaired(requests: Requests, d: Requirement): Requests {
    if Missing(requests, d) then requests[d.requiredProductId := d.productAction] else requests
  }

  function RepairedAll(requests: Requests, ds: seq<Requirement>): Requests {
    if ds == [] then requests else Repaired(RepairedAll(requests, ds[..|ds| - 1]), ds[|ds| - 1])
  }

  /** The entries that are written back to the server, one for each repair. */
  function Updated(requests: Requests, ds: seq<Requirement>): seq<string> {
    if ds == [] then []
    else
      var n := |ds| - 1;
      var more := if Missing(RepairedAll(requests, ds[..n]), ds[n]) then [ds[n].requiredProductId] else [];
      Updated(requests, ds[..n]) + more
  }

  /** A requirement is met if it does not apply or the required product, where the client has it, is requested
      with the required action. */
  predicate Met(requests: Requests, d: Requirement) {
    d.requiredAction != "" && d.productId in requests && requests[d.productId] == d.productAction &&
    d.requiredProductId in requests ==>
    requests[d.requiredProductId] == d.requiredAction
  }

  /** A repair meets the requirement exactly if that was met before, or the required action has the name of the
      requiring one. */
  lemma RepairMeetsIff(requests: Requests, d: Requirement)
    ensures Met(Repaired(requests, d), d) <==>
              Met(requests, d) || d.requiredAction == d.productAction
  {
  }

  /** Over the whole loop no product is added or dropped; every request is as it was, or it is the action of a
      product that requires it. */
  lemma {:induction false} RepairedFrom(requests: Requests, ds: seq<Requirement>, p: string)
    ensures RepairedAll(requests, ds).Keys == requests.Keys
    ensures p in requests ==>
              RepairedAll(requests, ds)[p] == requests[p] ||
              exists d :: d in ds && d.requiredProductId == p && RepairedAll(requests, ds)[p] == d.productAction
    ensures p in requests && RepairedAll(requests, ds)[p] != requests[p] ==> p in Updated(requests, ds)
  {
    if ds != [] {
      var n := |ds| - 1;
      RepairedFrom(requests, ds[..n], p);
      assert ds == ds[..n] + [ds[n]];
    }
  }

  /** No required product requires another one, so that no repair changes what requirements apply. */
  ghost predicate OneLevel(ds: seq<Requirement>) {
    forall d, e :: d in ds && e in ds ==> d.requiredProductId != e.productId
  }

  /** No two requirements name different actions for one product. */
  ghost predicate Agreeing(ds: seq<Requirement>) {
    forall d, e :: d in ds && e in ds && d.requiredProductId == e.requiredProductId ==>
      d.requiredAction == e.requiredAction
  }

  /** The requirement applies, and the requiring product itself has the required action. */
  predicate Helps(requests: Requests, e: Requirement, p: string, action: string) {
    && e.requiredAction != "" && e.requiredProductId == p && e.productAction == action
    && e.productId in requests && requests[e.productId] == e.productAction
  }

  ghost predicate HelpedBy(requests: Requests, ds: seq<Requirement>, n: nat, p: string, action: string) {
    exists i :: 0 <= i < n && i < |ds| && Helps(requests, ds[i], p, action)
  }

  /** The requests after the first n requirements, for one level of agreeing requirements. */
  lemma {:induction false} RepairedSoFar(requests: Requests, ds: seq<Requirement>, n: nat, d: Requirement)
    requires OneLevel(ds) && Agreeing(ds) && n <= |ds| && d in ds && d.requiredAction != ""
    requires d.requiredProductId in requests
    ensures var r := RepairedAll(requests, ds[..n]);
      && r.Keys == requests.Keys
      && (forall e :: e in ds && e.productId in requests ==> r[e.productId] == requests[e.productId])
      && (r[d.requiredProductId] == d.requiredAction <==>
            requests[d.requiredProductId] == d.requiredAction ||
            HelpedBy(requests, ds, n, d.requiredProductId, d.requiredAction))
  {
    if n > 0 {
      RepairedSoFar(requests, ds, n - 1, d);
      assert ds[..n][..n - 1] == ds[..n - 1];
      assert ds[n - 1] in ds;
      HelpedMore(requests, ds, n, d.requiredProductId, d.requiredAction);
    }
  }

  lemma HelpedMore(requests: Requests, ds: seq<Requirement>, n: nat, p: string, action: string)
    requires 0 < n <= |ds|
    ensures HelpedBy(requests, ds, n, p, action) <==>
            HelpedBy(requests, ds, n - 1, p, action) || Helps(requests, ds[n - 1], p, action)
  {
  }

  /** For one level of agreeing requirements the loop meets a requirement exactly if it was met before or some
      requiring product itself has the required action. The source promises the required action in all cases. */
  lemma MetAfterIff(requests: Requests, ds: seq<Requirement>, d: Requirement)
    requires OneLevel(ds) && Agreeing(ds) && d in ds
    ensures Met(RepairedAll(requests, ds), d) <==>
              Met(requests, d) || HelpedBy(requests, ds, |ds|, d.requiredProductId, d.requiredAction)
  {
    if d.requiredAction != "" && d.requiredProductId in requests {
      RepairedSoFar(requests, ds, |ds|, d);
      assert ds[..|ds|] == ds;
    } else {
      RepairedFrom(requests, ds, d.requiredProductId);
    }
  }

  /** The loop over the requirements of the products with an action. */
  method SetRequiredActions(requests: Requests, ds: seq<Requirement>) returns (r: Requests, updates: seq<string>)
    ensures r == RepairedAll(requests, ds) && updates == Updated(requests, ds)
  {
    r, updates := requests, [];
    for k := 0 to |ds|
      invariant r == RepairedAll(requests, ds[..k]) && updates == Updated(requests, ds[..k])
    {
      var d := ds[k];
      assert ds[..k + 1][..k] == ds[..k];
      if d.requiredAction != "" && d.productId in r && r[d.productId] == d.productAction &&
         d.requiredProductId in r && r[d.requiredProductId] != d.requiredAction {
        r := r[d.requiredProductId := d.productAction];
        updates := updates + [d.requiredProductId];
      }
    }
    assert ds[..|ds|] == ds;
  }

  /** An uninstallation that requires a setup: the required product is requested for uninstallation. */
  lemma SetupBecomesUninstall(requests: Requests, d: Requirement)
    requires requests == map["p" := "uninstall", "q" := "none"] && d == Requirement("p", "uninstall", "q", "setup")
    ensures var r := RepairedAll(requests, [d]);
      "q" in r && r["q"] == "uninstall" && !Met(r, d)
  {
    assert [d][..0] == [] && "p"[0] != "q"[0];
  }
}
