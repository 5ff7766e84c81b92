/** The groups of products tied together by hard dependencies: a list of sets, merged in place, that
    always holds the connected components of the recorded dependencies
    (opsiclientd/nonfree/RPCProductDependencyMixin.py). */
module ProductIdGroups {
  import opened Graph

  type Groups = seq<set<Node>>

  ghost predicate Disjoint(groups: Groups) {
    forall i, j :: 0 <= i < j < |groups| ==> groups[i] !! groups[j]
  }

  ghost predicate Together(groups: Groups, x: Node, y: Node) {
    exists i :: 0 <= i < |groups| && x in groups[i] && y in groups[i]
  }

  /** The groups are exactly the connected components of the graph e (given with both directions of
      every edge): disjoint, closed under edges, connected inside, and made of end points of edges. */
  ghost predicate Components(groups: Groups, e: set<(Node, Node)>) {
    && Disjoint(groups)
    && (forall x, y :: (x, y) in e ==> (y, x) in e && Together(groups, x, y))
    && (forall x, y :: Together(groups, x, y) ==> Connected(e, x, y))
    && (forall x :: Together(groups, x, x) ==> exists y :: (x, y) in e)
  }

  /** Two products are in one group exactly when a chain of recorded dependencies joins them. */
  lemma SameGroupIffConnected(groups: Groups, e: set<(Node, Node)>, x: Node, y: Node)
    requires Components(groups, e)
    ensures Together(groups, x, y) <==> Connected(e, x, y) && exists z :: (x, z) in e
  {
    if Together(groups, x, y) {
      assert Together(groups, x, x);
    }
    if Connected(e, x, y) && exists z :: (x, z) in e {
      var z :| (x, z) in e;
      assert Together(groups, x, z);
      var i :| 0 <= i < |groups| && x in groups[i];
      var w :| IsWalk(e, w) && w[0] == x && w[|w| - 1] == y;
      forall a, b | (a, b) in e && a in groups[i]
        ensures b in groups[i]
      {
        assert Together(groups, a, b);
      }
      ConnectedStays(e, groups[i], w);
    }
  }

  /** Index of the group that holds p, |groups| if there is none. */
  function GroupOf(groups: Groups, p: Node): (i: nat)
    ensures i <= |groups|
    ensures i < |groups| ==> p in groups[i]
    ensures forall k :: 0 <= k < i ==> p !in groups[k]
  {
    if groups == [] || p in groups[0] then 0
    else
      var i := GroupOf(groups[1..], p);
      assert forall k :: 1 <= k < i + 1 ==> groups[k] == groups[1..][k - 1];
      i + 1
  }

  /** The groups after a hard dependency between p and q was recorded. */
  function MergedGroups(groups: Groups, p: Node, q: Node): Groups {
    var i, j := GroupOf(groups, p), GroupOf(groups, q);
    var lo, hi := if i <= j then i else j, if i <= j then j else i;
    if lo == |groups| then groups + [{p, q}]
    else if lo == hi || hi == |groups| then groups[lo := groups[lo] + {p, q}]
    else
      var joined := groups[lo := groups[lo] + groups[hi] + {p, q}];
      joined[..hi] + joined[hi + 1..]
  }

  /** Who is together after a merge: whoever was, and everything p or q was together with. */
  lemma MergedTogether(groups: Groups, p: Node, q: Node, x: Node, y: Node)
    requires Disjoint(groups)
    ensures Together(MergedGroups(groups, p, q), x, y) <==>
      Together(groups, x, y) || (Touches(groups, p, q, x) && Touches(groups, p, q, y))
  {
    hide Together, Touches, GroupOf, Disjoint;
    var i, j := GroupOf(groups, p), GroupOf(groups, q);
    var lo, hi := if i <= j then i else j, if i <= j then j else i;
    var r := MergedGroups(groups, p, q);
    if lo == |groups| {
      MergedAppend(groups, p, q, x, y);
    } else if lo == hi || hi == |groups| {
      MergedInto(groups, p, q, x, y);
    } else {
      MergedJoin(groups, p, q, x, y);
    }
  }

  ghost predicate Touches(groups: Groups, p: Node, q: Node, x: Node) {
    x == p || x == q || Together(groups, x, p) || Together(groups, x, q)
  }

  lemma OneGroup(groups: Groups, k: nat, p: Node, x: Node)
    requires Disjoint(groups) && k < |groups| && p in groups[k]
    ensures Together(groups, x, p) <==> x in groups[k]
    ensures GroupOf(groups, p) == k
  {
  }

  lemma MergedAppend(groups: Groups, p: Node, q: Node, x: Node, y: Node)
    requires GroupOf(groups, p) == GroupOf(groups, q) == |groups|
    ensures Together(MergedGroups(groups, p, q), x, y) <==>
      Together(groups, x, y) || (Touches(groups, p, q, x) && Touches(groups, p, q, y))
  {
    var r := MergedGroups(groups, p, q);
    assert forall k :: 0 <= k < |groups| ==> r[k] == groups[k];
    assert r[|groups|] == {p, q};
  }

  lemma MergedInto(groups: Groups, p: Node, q: Node, x: Node, y: Node)
    requires Disjoint(groups)
    requires var i, j := GroupOf(groups, p), GroupOf(groups, q);
      (i == j && i < |groups|) || (i < j && j == |groups|) || (j < i && i == |groups|)
    ensures Together(MergedGroups(groups, p, q), x, y) <==>
      Together(groups, x, y) || (Touches(groups, p, q, x) && Touches(groups, p, q, y))
  {
    var i, j := GroupOf(groups, p), GroupOf(groups, q);
    var lo := if i <= j then i else j;
    var r := MergedGroups(groups, p, q);
    var k := if i <= j then p else q;
    OneGroup(groups, lo, k, x);
    OneGroup(groups, lo, k, y);
    assert forall z :: Touches(groups, p, q, z) <==> z in r[lo];
    assert forall m :: 0 <= m < |groups| && m != lo ==> r[m] == groups[m];
    if Touches(groups, p, q, x) && Touches(groups, p, q, y) {
      assert x in r[lo] && y in r[lo];
    }
    if Together(groups, x, y) {
      var m :| 0 <= m < |groups| && x in groups[m] && y in groups[m];
      assert x in r[m] && y in r[m];
    }
  }

  /** Two groups lo < hi were joined: r holds their union with p and q at lo, and lacks hi. */
  ghost predicate Joined(groups: Groups, p: Node, q: Node, lo: nat, hi: nat, r: Groups) {
    && lo < hi < |groups| && |r| == |groups| - 1
    && r[lo] == groups[lo] + groups[hi] + {p, q}
    && (forall m :: 0 <= m < hi && m != lo ==> r[m] == groups[m])
    && (forall m :: hi <= m < |r| ==> r[m] == groups[m + 1])
  }

  lemma JoinedTogether(groups: Groups, p: Node, q: Node, lo: nat, hi: nat, r: Groups, x: Node, y: Node)
    requires Joined(groups, p, q, lo, hi, r)
    ensures Together(r, x, y) <==> Together(groups, x, y) || (x in r[lo] && y in r[lo])
  {
    if Together(groups, x, y) {
      var m :| 0 <= m < |groups| && x in groups[m] && y in groups[m];
      var k := if m == hi then lo else if m > hi then m - 1 else m;
      assert x in r[k] && y in r[k];
    }
    if Together(r, x, y) {
      var m :| 0 <= m < |r| && x in r[m] && y in r[m];
      if m != lo {
        var k := if m >= hi then m + 1 else m;
        assert x in groups[k] && y in groups[k];
      }
    }
  }

  lemma JoinedTouches(groups: Groups, p: Node, q: Node, x: Node)
    requires Disjoint(groups)
    requires GroupOf(groups, p) < |groups| && GroupOf(groups, q) < |groups|
    ensures Touches(groups, p, q, x) <==> x in groups[GroupOf(groups, p)] + groups[GroupOf(groups, q)] + {p, q}
  {
    OneGroup(groups, GroupOf(groups, p), p, x);
    OneGroup(groups, GroupOf(groups, q), q, x);
  }

  lemma MergedJoin(groups: Groups, p: Node, q: Node, x: Node, y: Node)
    requires Disjoint(groups)
    requires GroupOf(groups, p) < |groups| && GroupOf(groups, q) < |groups| && GroupOf(groups, p) != GroupOf(groups, q)
    ensures Together(MergedGroups(groups, p, q), x, y) <==>
      Together(groups, x, y) || (Touches(groups, p, q, x) && Touches(groups, p, q, y))
  {
    hide Together, Touches, GroupOf, Disjoint;
    var i, j := GroupOf(groups, p), GroupOf(groups, q);
    var lo, hi := if i <= j then i else j, if i <= j then j else i;
    JoinedTouches(groups, p, q, x);
    JoinedTouches(groups, p, q, y);
    JoinedTogether(groups, p, q, lo, hi, MergedGroups(groups, p, q), x, y);
  }

  lemma MergedDisjoint(groups: Groups, p: Node, q: Node)
    requires Disjoint(groups)
    ensures Disjoint(MergedGroups(groups, p, q))
  {
    var i, j := GroupOf(groups, p), GroupOf(groups, q);
    var lo, hi := if i <= j then i else j, if i <= j then j else i;
    var r := MergedGroups(groups, p, q);
    forall a, b | 0 <= a < b < |r|
      ensures r[a] !! r[b]
    {
      if lo < hi < |groups| {
        var c := if a >= hi then a + 1 else a;
        var d := if b >= hi then b + 1 else b;
        assert c < d && groups[c] !! groups[d];
        assert groups[if c < hi then c else hi] !! groups[if c < hi then hi else c];
        assert groups[if d < hi then d else hi] !! groups[if d < hi then hi else d];
      }
    }
  }

  /** Recording one more hard dependency keeps the groups equal to the connected components. */
  lemma MergedComponents(groups: Groups, e: set<(Node, Node)>, p: Node, q: Node)
    requires Components(groups, e)
    ensures Components(MergedGroups(groups, p, q), e + {(p, q), (q, p)})
  {
    var r, f := MergedGroups(groups, p, q), e + {(p, q), (q, p)};
    MergedDisjoint(groups, p, q);
    forall x, y | (x, y) in f
      ensures (y, x) in f && Together(r, x, y)
    {
      MergedTogether(groups, p, q, x, y);
      MergedTogether(groups, p, q, p, q);
      MergedTogether(groups, p, q, q, p);
    }
    forall x, y | Together(r, x, y)
      ensures Connected(f, x, y)
    {
      MergedTogether(groups, p, q, x, y);
      if Together(groups, x, y) {
        ConnectedMono(e, f, x, y);
      } else {
        TouchesConnected(groups, e, p, q, x);
        TouchesConnected(groups, e, p, q, y);
        ConnectedTrans(f, x, p, y);
      }
    }
    forall x | Together(r, x, x)
      ensures exists y :: (x, y) in f
    {
      MergedTogether(groups, p, q, x, x);
      if x == p {
        assert (x, q) in f;
      } else if x == q {
        assert (x, p) in f;
      } else {
        assert Together(groups, x, x);
        var y :| (x, y) in e;
        assert (x, y) in f;
      }
    }
  }

  lemma TouchesConnected(groups: Groups, e: set<(Node, Node)>, p: Node, q: Node, x: Node)
    requires Components(groups, e) && Touches(groups, p, q, x)
    ensures Connected(e + {(p, q), (q, p)}, x, p) && Connected(e + {(p, q), (q, p)}, p, x)
  {
    var f := e + {(p, q), (q, p)};
    ConnectedEdge(f, p, q);
    ConnectedEdge(f, q, p);
    if x == p {
      ConnectedRefl(f, p);
    } else if Together(groups, x, p) {
      assert Together(groups, p, x);
      ConnectedMono(e, f, x, p);
      ConnectedMono(e, f, p, x);
    } else if x != q {
      assert Together(groups, q, x);
      ConnectedMono(e, f, x, q);
      ConnectedMono(e, f, q, x);
      ConnectedTrans(f, x, q, p);
      ConnectedTrans(f, p, q, x);
    }
  }
}
