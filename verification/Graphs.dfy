/**
 Finite directed graphs over module names, walks and reachability: the vocabulary in which the
 library-cycle detector is specified.
 */
module Graphs {

  type Node = string
  type Graph = map<Node, set<Node>>

  /** Every edge stays inside the node set, as `dependency_graph` guarantees. */
  ghost predicate Closed<N(!new)>(g: map<N, set<N>>) {
    forall x, y :: x in g && y in g[x] ==> y in g
  }

  ghost predicate IsWalk<N(!new)>(g: map<N, set<N>>, p: seq<N>) {
    && |p| > 0
    && (forall i :: 0 <= i < |p| ==> p[i] in g)
    && (forall i :: 0 <= i < |p| - 1 ==> p[i + 1] in g[p[i]])
  }

  ghost predicate WalkFrom<N(!new)>(g: map<N, set<N>>, p: seq<N>, x: N, y: N) {
    IsWalk(g, p) && p[0] == x && p[|p| - 1] == y
  }

  ghost predicate Reach<N(!new)>(g: map<N, set<N>>, x: N, y: N) {
    exists p :: WalkFrom(g, p, x, y)
  }

  ghost predicate Mutual<N(!new)>(g: map<N, set<N>>, x: N, y: N) {
    Reach(g, x, y) && Reach(g, y, x)
  }

  lemma ReachRefl<N(!new)>(g: map<N, set<N>>, x: N)
    requires x in g
    ensures Reach(g, x, x)
  {
    assert WalkFrom(g, [x], x, x);
  }

  lemma ReachEdge<N(!new)>(g: map<N, set<N>>, x: N, y: N)
    requires Closed(g) && x in g && y in g[x]
    ensures Reach(g, x, y)
  {
    assert WalkFrom(g, [x, y], x, y);
  }

  lemma ReachTrans<N(!new)>(g: map<N, set<N>>, x: N, y: N, z: N)
    requires Reach(g, x, y) && Reach(g, y, z)
    ensures Reach(g, x, z)
  {
    var p :| WalkFrom(g, p, x, y);
    var q :| WalkFrom(g, q, y, z);
    var r := p + q[1..];
    forall i | 0 <= i < |r| - 1 ensures r[i + 1] in g[r[i]] {
      if i >= |p| - 1 {
        assert r[i] == q[i - |p| + 1] && r[i + 1] == q[i - |p| + 2];
      }
    }
    assert WalkFrom(g, r, x, z);
  }

  ghost predicate Absorbing<N(!new)>(g: map<N, set<N>>, s: set<N>) {
    forall x, y :: x in s && x in g && y in g[x] ==> y in s
  }

  /** A set closed under edges cannot be left by a walk. */
  lemma ReachStays<N(!new)>(g: map<N, set<N>>, s: set<N>, x: N, y: N)
    requires Absorbing(g, s) && x in s && Reach(g, x, y)
    ensures y in s
  {
    var p :| WalkFrom(g, p, x, y);
    WalkStays(g, s, p);
  }

  lemma {:induction false} WalkStays<N(!new)>(g: map<N, set<N>>, s: set<N>, p: seq<N>)
    requires Absorbing(g, s) && IsWalk(g, p) && p[0] in s
    ensures p[|p| - 1] in s
    decreases |p|
  {
    if |p| > 1 {
      assert p[1] in g[p[0]];
      forall i | 0 <= i < |p[1..]| - 1 ensures p[1..][i + 1] in g[p[1..][i]] {
        assert p[i + 2] in g[p[i + 1]];
      }
      WalkStays(g, s, p[1..]);
    }
  }
}
