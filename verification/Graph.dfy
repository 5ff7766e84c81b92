/** Walks, cycles and connectedness in a finite directed graph given by its edges. */
module Graph {
  type Node = string

  ghost predicate IsWalk(e: set<(Node, Node)>, w: seq<Node>) {
    |w| >= 1 && forall i :: 0 <= i < |w| - 1 ==> (w[i], w[i + 1]) in e
  }

  ghost predicate Acyclic(e: set<(Node, Node)>) {
    forall w :: IsWalk(e, w) && |w| >= 2 ==> w[0] != w[|w| - 1]
  }

  ghost predicate Entered(e: set<(Node, Node)>, rest: set<Node>, x: Node) {
    exists p :: p in rest && (p, x) in e
  }

  /** Every member of `rest` is entered by an edge from a member. */
  ghost predicate Endless(e: set<(Node, Node)>, rest: set<Node>) {
    forall x {:trigger Entered(e, rest, x)} :: x in rest ==> Entered(e, rest, x)
  }

  /** A walk of n steps inside an endless set. */
  lemma {:induction false} WalkInside(e: set<(Node, Node)>, rest: set<Node>, x: Node, n: nat) returns (w: seq<Node>)
    requires x in rest && Endless(e, rest)
    ensures |w| == n + 1 && w[n] == x && IsWalk(e, w)
    ensures forall i :: 0 <= i < |w| ==> w[i] in rest
    decreases n
  {
    if n == 0 {
      return [x];
    }
    assert Entered(e, rest, x);
    var p :| p in rest && (p, x) in e;
    var v := WalkInside(e, rest, p, n - 1);
    w := v + [x];
  }

  lemma {:induction false} Pigeonhole(w: seq<Node>, s: set<Node>)
    requires |w| > |s| && forall i :: 0 <= i < |w| ==> w[i] in s
    ensures exists i, j :: 0 <= i < j < |w| && w[i] == w[j]
  {
    if w[0] in w[1..] {
      var j :| 0 <= j < |w[1..]| && w[1..][j] == w[0];
      assert w[0] == w[j + 1];
    } else {
      var v, t := w[1..], s - {w[0]};
      forall i | 0 <= i < |v|
        ensures v[i] in t
      {
        assert v[i] == w[i + 1] && v[i] in v;
      }
      Pigeonhole(v, t);
      var i, j :| 0 <= i < j < |v| && v[i] == v[j];
      assert w[i + 1] == w[j + 1];
    }
  }

  lemma WalkSlice(e: set<(Node, Node)>, w: seq<Node>, i: nat, j: nat)
    requires IsWalk(e, w) && i < j <= |w|
    ensures IsWalk(e, w[i..j])
  {
    forall m | 0 <= m < j - i - 1
      ensures (w[i..j][m], w[i..j][m + 1]) in e
    {
      assert w[i..j][m] == w[i + m] && w[i..j][m + 1] == w[i + m + 1];
    }
  }

  lemma NoReturn(e: set<(Node, Node)>, w: seq<Node>, i: nat, j: nat)
    requires Acyclic(e) && IsWalk(e, w) && i < j < |w|
    ensures w[i] != w[j]
  {
    WalkSlice(e, w, i, j + 1);
    var part := w[i..j + 1];
    assert IsWalk(e, part) && part[0] == w[i] && part[|part| - 1] == w[j];
  }

  lemma EndlessIsEmpty(e: set<(Node, Node)>, rest: set<Node>)
    requires Acyclic(e) && Endless(e, rest)
    ensures rest == {}
  {
    hide IsWalk, Acyclic, Endless;
    if rest != {} {
      var x :| x in rest;
      var w := WalkInside(e, rest, x, |rest|);
      Pigeonhole(w, rest);
      var i, j :| 0 <= i < j < |w| && w[i] == w[j];
      NoReturn(e, w, i, j);
    }
  }

  // ----- layers -----

  /** All edges into x start in s. */
  ghost predicate Ready(e: set<(Node, Node)>, s: set<Node>, x: Node) {
    forall p :: (p, x) in e ==> p in s
  }

  ghost function NextLayer(ids: set<Node>, e: set<(Node, Node)>, s: set<Node>): set<Node> {
    set x | x in ids && Ready(e, s, x)
  }

  ghost function Layers(ids: set<Node>, e: set<(Node, Node)>, s: set<Node>, n: nat): set<Node>
    decreases n
  {
    if n == 0 then s else Layers(ids, e, NextLayer(ids, e, s), n - 1)
  }

  lemma NextLayerGrows(ids: set<Node>, e: set<(Node, Node)>, s: set<Node>)
    requires s <= NextLayer(ids, e, s)
    ensures NextLayer(ids, e, s) <= NextLayer(ids, e, NextLayer(ids, e, s))
  {
  }

  /** In an acyclic graph a layer either holds everything or is properly below the next one. */
  lemma LayerProgress(ids: set<Node>, e: set<(Node, Node)>, s: set<Node>)
    requires Acyclic(e) && NextLayer(ids, e, s) == s && forall p, x :: (p, x) in e ==> p in ids
    ensures ids <= s
  {
    var rest := ids - s;
    forall x | x in rest
      ensures Entered(e, rest, x)
    {
      assert !Ready(e, s, x);
      var p :| (p, x) in e && p !in s;
      assert p in rest;
    }
    EndlessIsEmpty(e, rest);
    forall x | x in ids
      ensures x in s
    {
      assert x !in rest;
    }
  }

  lemma {:induction false} SubsetSize(a: set<Node>, b: set<Node>)
    requires a <= b
    ensures |a| <= |b|
    ensures |a| == |b| ==> a == b
  {
    if a != {} {
      var x :| x in a;
      SubsetSize(a - {x}, b - {x});
      assert a == (a - {x}) + {x} && b == (b - {x}) + {x};
    }
  }

  /** In an acyclic graph every node is in one of the first |ids| layers. */
  lemma {:induction false} LayersCover(ids: set<Node>, e: set<(Node, Node)>, s: set<Node>, n: nat)
    requires Acyclic(e) && forall p, x :: (p, x) in e ==> p in ids
    requires s <= NextLayer(ids, e, s) && s <= ids && |ids| <= |s| + n
    ensures ids <= Layers(ids, e, s, n)
    decreases n
  {
    SubsetSize(s, ids);
    if n > 0 {
      var t := NextLayer(ids, e, s);
      SubsetSize(s, t);
      if t == s {
        LayerProgress(ids, e, s);
        assert ids == s;
      }
      NextLayerGrows(ids, e, s);
      LayersCover(ids, e, t, n - 1);
    }
  }

  // ----- connectedness -----

  ghost predicate Connected(e: set<(Node, Node)>, x: Node, y: Node) {
    exists w :: IsWalk(e, w) && w[0] == x && w[|w| - 1] == y
  }

  lemma ConnectedRefl(e: set<(Node, Node)>, x: Node)
    ensures Connected(e, x, x)
  {
    assert IsWalk(e, [x]);
  }

  lemma ConnectedEdge(e: set<(Node, Node)>, x: Node, y: Node)
    requires (x, y) in e
    ensures Connected(e, x, y)
  {
    var w := [x, y];
    assert IsWalk(e, w) && w[0] == x && w[|w| - 1] == y;
  }

  lemma ConnectedTrans(e: set<(Node, Node)>, x: Node, y: Node, z: Node)
    requires Connected(e, x, y) && Connected(e, y, z)
    ensures Connected(e, x, z)
  {
    var v :| IsWalk(e, v) && v[0] == x && v[|v| - 1] == y;
    var u :| IsWalk(e, u) && u[0] == y && u[|u| - 1] == z;
    var w := v + u[1..];
    forall i | 0 <= i < |w| - 1
      ensures (w[i], w[i + 1]) in e
    {
      if i < |v| - 1 {
        assert w[i] == v[i] && w[i + 1] == v[i + 1];
      } else {
        var k := i - (|v| - 1);
        assert w[i] == u[k] && w[i + 1] == u[k + 1];
      }
    }
    assert IsWalk(e, w) && w[0] == x && w[|w| - 1] == z;
  }

  lemma ConnectedMono(e: set<(Node, Node)>, f: set<(Node, Node)>, x: Node, y: Node)
    requires Connected(e, x, y) && e <= f
    ensures Connected(f, x, y)
  {
    var w :| IsWalk(e, w) && w[0] == x && w[|w| - 1] == y;
    assert IsWalk(f, w);
  }

  /** A set that no edge leaves holds everything connected to one of its members. */
  lemma {:induction false} ConnectedStays(e: set<(Node, Node)>, s: set<Node>, w: seq<Node>)
    requires IsWalk(e, w) && w[0] in s && forall x, y :: (x, y) in e && x in s ==> y in s
    ensures w[|w| - 1] in s
  {
    if |w| > 1 {
      WalkSlice(e, w, 1, |w|);
      assert (w[0], w[0 + 1]) in e;
      ConnectedStays(e, s, w[1..]);
    }
  }
}
