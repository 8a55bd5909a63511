/**
 `strongly_connected_components` of scripts/check_repo_dependency_cycle.py: Tarjan's algorithm over
 its shared mutable state, proved to partition the nodes by mutual reachability and to emit the
 classes in reverse topological order.
 */
module Tarjan {
  import opened Collections
  import opened Graphs
  import opened Ordering

  ghost function Union(cs: seq<set<Node>>): set<Node> {
    set k, x | 0 <= k < |cs| && x in cs[k] :: x
  }

  lemma ElemsPrefix(s: seq<Node>, i: nat)
    requires i < |s|
    ensures Elems(s[..i + 1]) == Elems(s[..i]) + {s[i]}
  {
    assert s[..i + 1] == s[..i] + [s[i]];
  }

  lemma ElemsWhole(s: seq<Node>, t: set<Node>)
    requires forall x :: x in s <==> x in t
    ensures Elems(s[..0]) == {} && Elems(s[..|s|]) == t
  {
    assert s[..|s|] == s;
  }

  /** A non-empty class of the mutual-reachability relation. */
  ghost predicate IsScc(g: Graph, c: set<Node>) {
    && c != {}
    && c <= g.Keys
    && forall x, y :: x in c && y in g ==> (y in c <==> Mutual(g, x, y))
  }

  /** `cs` lists distinct classes, each after every other class it has an edge into. */
  ghost predicate Emitted(g: Graph, cs: seq<set<Node>>) {
    && (forall k :: 0 <= k < |cs| ==> IsScc(g, cs[k]))
    && (forall j, k :: 0 <= j < k < |cs| ==> cs[j] !! cs[k])
    && (forall k, x, y :: 0 <= k < |cs| && x in cs[k] && x in g && y in g[x] ==> y in Union(cs[..k + 1]))
  }

  /** The variables that the nested function `visit` shares. */
  datatype State = State(
    index: nat,
    stack: seq<Node>,
    onStack: set<Node>,
    indexes: map<Node, nat>,
    lowlinks: map<Node, nat>,
    components: seq<set<Node>>)

  /** Bookkeeping: the visited nodes are the emitted ones plus the stack, ordered by index. */
  ghost predicate Shape(g: Graph, s: State) {
    && Closed(g)
    && s.indexes.Keys <= g.Keys
    && s.lowlinks.Keys == s.indexes.Keys
    && s.onStack == Elems(s.stack)
    && s.indexes.Keys == Union(s.components) + s.onStack
    && Union(s.components) !! s.onStack
    && (forall i, j :: 0 <= i < j < |s.stack| ==> s.indexes[s.stack[i]] < s.indexes[s.stack[j]])
    && (forall x :: x in s.indexes ==> s.indexes[x] < s.index)
    && Emitted(g, s.components)
  }

  /** Only a node in `gray` may have an unvisited successor. */
  ghost predicate Explored(g: Graph, s: State, gray: set<Node>) {
    forall x, y :: x in s.indexes && x !in gray && x in g && y in g[x] ==> y in s.indexes
  }

  /** A gray node reaches every stack node that is no older. */
  ghost predicate GrayReaches(g: Graph, s: State, gray: set<Node>) {
    forall x, y :: x in gray && y in s.onStack && x in s.indexes && y in s.indexes && s.indexes[x] <= s.indexes[y]
      ==> Reach(g, x, y)
  }

  ghost predicate ReachesGray(g: Graph, s: State, gray: set<Node>, y: Node) {
    y in s.indexes && exists x :: x in gray && x in s.indexes && s.indexes[x] <= s.indexes[y] && Reach(g, y, x)
  }

  /** Every stack node reaches a gray node that is no younger. */
  ghost predicate ReachedGray(g: Graph, s: State, gray: set<Node>) {
    forall y :: y in s.onStack ==> ReachesGray(g, s, gray, y)
  }

  /** The depth-first invariant; `gray` holds the nodes whose `visit` is still running. */
  ghost predicate Inv(g: Graph, s: State, gray: set<Node>) {
    && Shape(g, s)
    && gray <= s.onStack
    && Explored(g, s, gray)
    && GrayReaches(g, s, gray)
    && ReachedGray(g, s, gray)
  }

  /** `low` is the index of a stack node that `node` reaches. */
  ghost predicate Attained(g: Graph, s: State, node: Node, low: nat) {
    exists y :: y in s.onStack && y in s.indexes && s.indexes[y] == low && Reach(g, node, y)
  }

  /** `low` bounds the target index of every edge from the stack at or above `p` to below `q`. */
  ghost predicate Bounds(g: Graph, s: State, low: nat, p: nat, q: nat) {
    forall i, j ::
      p <= i < |s.stack| && 0 <= j < q && j < |s.stack| && s.stack[i] in g && s.stack[j] in g[s.stack[i]]
      && s.stack[j] in s.indexes
      ==> low <= s.indexes[s.stack[j]]
  }

  /** A `visit` only adds to what it found. */
  ghost predicate Extends(s0: State, s: State) {
    && s0.stack <= s.stack
    && s0.components <= s.components
    && (forall x :: x in s0.indexes ==> x in s.indexes && s.indexes[x] == s0.indexes[x])
    && (forall x :: x in s0.lowlinks ==> x in s.lowlinks && s.lowlinks[x] == s0.lowlinks[x])
  }

  // ----- Entering a node

  ghost function Enter(s: State, node: Node): State {
    State(s.index + 1, s.stack + [node], s.onStack + {node}, s.indexes[node := s.index],
          s.lowlinks[node := s.index], s.components)
  }

  lemma EnterShape(g: Graph, s: State, node: Node)
    requires Shape(g, s) && node in g && node !in s.indexes
    ensures Shape(g, Enter(s, node))
  {
  }

  lemma EnterKeepsInv(g: Graph, s: State, gray: set<Node>, node: Node)
    requires Inv(g, s, gray) && node in g && node !in s.indexes
    requires forall x :: x in gray ==> Reach(g, x, node)
    ensures Inv(g, Enter(s, node), gray + {node})
    ensures Attained(g, Enter(s, node), node, s.index)
  {
    hide Reach, Emitted;
    var t, active := Enter(s, node), gray + {node};
    EnterShape(g, s, node);
    ReachRefl(g, node);
    assert Explored(g, t, active);
    assert GrayReaches(g, t, active);
    forall y | y in t.onStack ensures ReachesGray(g, t, active, y) {
      if y != node {
        assert ReachesGray(g, s, gray, y);
      }
    }
  }

  // ----- Scanning the successors of a node

  /** What the successor loop of `visit(node)` keeps once the targets in `seen` are handled. */
  ghost predicate Scanning(g: Graph, s0: State, s: State, gray: set<Node>, node: Node, seen: set<Node>) {
    && Inv(g, s, gray + {node})
    && s0.stack + [node] <= s.stack
    && Extends(s0, s)
    && node !in s0.lowlinks
    && node in s.indexes && node in s.lowlinks
    && s.indexes[node] == s0.index
    && s.lowlinks[node] <= s.indexes[node]
    && Attained(g, s, node, s.lowlinks[node])
    && Bounds(g, s, s.lowlinks[node], |s0.stack| + 1, |s0.stack|)
    && SeenBounded(s, s.lowlinks[node], seen)
  }

  ghost predicate SeenBounded(s: State, low: nat, seen: set<Node>) {
    forall t :: t in seen ==> t in s.indexes && (t in s.onStack ==> low <= s.indexes[t])
  }

  /** The postcondition of `visit(node)`. */
  ghost predicate Visited(g: Graph, s0: State, s: State, gray: set<Node>, node: Node) {
    && Inv(g, s, gray)
    && Extends(s0, s)
    && node in s.indexes && node in s.lowlinks
    && s.indexes[node] == s0.index
    && s.lowlinks[node] <= s.indexes[node]
    && (s.lowlinks[node] == s.indexes[node] ==> s.stack == s0.stack)
    && (s.lowlinks[node] < s.indexes[node] ==> Attained(g, s, node, s.lowlinks[node]))
    && Bounds(g, s, s.lowlinks[node], |s0.stack|, |s0.stack|)
  }

  lemma LowlinkKeepsInv(g: Graph, s: State, gray: set<Node>, node: Node, low: nat)
    requires Inv(g, s, gray) && node in s.lowlinks
    ensures Inv(g, s.(lowlinks := s.lowlinks[node := low]), gray)
  {
    hide Reach, Shape, ReachesGray;
    var t := s.(lowlinks := s.lowlinks[node := low]);
    LowlinkShape(g, s, node, low);
    assert Explored(g, t, gray);
    hide Explored;
    assert GrayReaches(g, t, gray);
    hide GrayReaches;
    forall y | y in t.onStack ensures ReachesGray(g, t, gray, y) {
      LowlinkReaches(g, s, gray, node, low, y);
    }
  }

  lemma LowlinkShape(g: Graph, s: State, node: Node, low: nat)
    requires Shape(g, s) && node in s.lowlinks
    ensures Shape(g, s.(lowlinks := s.lowlinks[node := low]))
  {
    hide Emitted, Union, Closed, Elems;
  }

  lemma LowlinkReaches(g: Graph, s: State, gray: set<Node>, node: Node, low: nat, y: Node)
    requires ReachesGray(g, s, gray, y)
    ensures ReachesGray(g, s.(lowlinks := s.lowlinks[node := low]), gray, y)
  {
    hide Reach;
  }

  lemma InvBasics(g: Graph, s: State, gray: set<Node>)
    requires Inv(g, s, gray)
    ensures Closed(g)
    ensures s.onStack == Elems(s.stack)
    ensures s.indexes.Keys == Union(s.components) + s.onStack && Union(s.components) !! s.onStack
    ensures forall x :: x in s.indexes ==> s.indexes[x] < s.index
    ensures Absorbing(g, Union(s.components))
  {
    EmittedAbsorbing(g, s.components);
  }

  lemma InvExplored(g: Graph, s: State, gray: set<Node>, x: Node, y: Node)
    requires Inv(g, s, gray) && x in s.indexes && x !in gray && x in g && y in g[x]
    ensures y in s.indexes
  {
    hide Shape, GrayReaches, ReachedGray;
  }

  lemma StackOrder(g: Graph, s: State, gray: set<Node>, i: nat, j: nat)
    requires Inv(g, s, gray) && i <= j < |s.stack|
    ensures s.stack[i] in s.onStack && s.stack[i] in s.indexes
    ensures s.stack[j] in s.onStack && s.stack[j] in s.indexes
    ensures s.indexes[s.stack[i]] <= s.indexes[s.stack[j]]
  {
    hide Reach, Emitted, Explored, GrayReaches, ReachedGray;
  }

  lemma StackReaches(g: Graph, s: State, gray: set<Node>, y: Node) returns (x: Node)
    requires Inv(g, s, gray) && y in s.onStack
    ensures y in s.indexes && x in gray && x in s.indexes && s.indexes[x] <= s.indexes[y] && Reach(g, y, x)
  {
    hide Reach, Shape, Explored, GrayReaches;
    assert ReachesGray(g, s, gray, y);
    x :| x in gray && x in s.indexes && s.indexes[x] <= s.indexes[y] && Reach(g, y, x);
  }

  lemma GrayReach(g: Graph, s: State, gray: set<Node>, x: Node, y: Node)
    requires Inv(g, s, gray) && x in gray && y in s.onStack
    requires x in s.indexes && y in s.indexes && s.indexes[x] <= s.indexes[y]
    ensures Reach(g, x, y)
  {
    hide Reach, Shape, Explored, ReachedGray;
  }

  /** A target on the stack: its index is attained through the edge. */
  lemma ScanStackTarget(g: Graph, s0: State, s: State, gray: set<Node>, node: Node, seen: set<Node>, target: Node)
    requires Scanning(g, s0, s, gray, node, seen)
    requires node in g && target in g[node] && target in s.indexes && target in s.onStack
    ensures Scanning(g, s0, s.(lowlinks := s.lowlinks[node := Min(s.lowlinks[node], s.indexes[target])]),
                     gray, node, seen + {target})
  {
    hide Reach, Inv;
    var low := Min(s.lowlinks[node], s.indexes[target]);
    LowlinkKeepsInv(g, s, gray + {node}, node, low);
    InvBasics(g, s, gray + {node});
    ReachEdge(g, node, target);
    var t := s.(lowlinks := s.lowlinks[node := low]);
    assert Attained(g, t, node, low) by {
      if low == s.indexes[target] {
      } else {
        var y :| y in s.onStack && y in s.indexes && s.indexes[y] == low && Reach(g, node, y);
      }
    }
  }

  /** A target already emitted is ignored. */
  lemma ScanEmittedTarget(g: Graph, s0: State, s: State, gray: set<Node>, node: Node, seen: set<Node>, target: Node)
    requires Scanning(g, s0, s, gray, node, seen)
    requires target in s.indexes && target !in s.onStack
    ensures Scanning(g, s0, s, gray, node, seen + {target})
  {
    hide Reach, Inv;
  }

  /** A new target: whatever its visit left on the stack is accounted for by its lowlink. */
  lemma ScanNewTarget(g: Graph, s0: State, s1: State, s: State, gray: set<Node>, node: Node, seen: set<Node>, target: Node)
    requires Scanning(g, s0, s1, gray, node, seen)
    requires node in g && target in g[node]
    requires Visited(g, s1, s, gray + {node}, target)
    ensures node in s.lowlinks && target in s.lowlinks
    ensures Scanning(g, s0, s.(lowlinks := s.lowlinks[node := Min(s.lowlinks[node], s.lowlinks[target])]),
                     gray, node, seen + {target})
  {
    hide Reach, Inv, Attained, Bounds, SeenBounded, Union, Elems;
    var low := Min(s.lowlinks[node], s.lowlinks[target]);
    var t := s.(lowlinks := s.lowlinks[node := low]);
    LowlinkKeepsInv(g, s, gray + {node}, node, low);
    NewTargetAttained(g, s0, s1, s, gray, node, seen, target);
    AttainedIgnoresLowlinks(g, s, t, node, low);
    NewTargetSeen(g, s0, s1, s, gray, node, seen, target);
    assert SeenBounded(t, low, seen + {target}) by { SeenIgnoresLowlinks(s, t, low, seen + {target}); }
    StackAgrees(g, s1, s, gray + {node});
    BoundsCombine(g, s1, s, s1.lowlinks[node], s.lowlinks[target], |s0.stack|);
    BoundsIgnoresLowlinks(g, s, t, low, |s0.stack| + 1, |s0.stack|);
  }

  lemma SeenIgnoresLowlinks(s: State, t: State, low: nat, seen: set<Node>)
    requires SeenBounded(s, low, seen) && t == s.(lowlinks := t.lowlinks)
    ensures SeenBounded(t, low, seen)
  {
  }

  lemma StackAgrees(g: Graph, s1: State, s: State, gray: set<Node>)
    requires Inv(g, s1, gray) && Extends(s1, s)
    ensures forall x :: x in s1.stack ==> x in s1.indexes && x in s.indexes && s.indexes[x] == s1.indexes[x]
  {
    hide Inv, Union, Absorbing;
    InvBasics(g, s1, gray);
    assert forall x :: x in s1.stack ==> x in Elems(s1.stack);
  }

  lemma AttainedIgnoresLowlinks(g: Graph, s: State, t: State, node: Node, low: nat)
    requires Attained(g, s, node, low) && t == s.(lowlinks := t.lowlinks)
    ensures Attained(g, t, node, low)
  {
    hide Reach;
    var y :| y in s.onStack && y in s.indexes && s.indexes[y] == low && Reach(g, node, y);
    assert y in t.onStack && y in t.indexes && t.indexes[y] == low;
  }

  lemma BoundsIgnoresLowlinks(g: Graph, s: State, t: State, low: nat, p: nat, q: nat)
    requires Bounds(g, s, low, p, q) && t == s.(lowlinks := t.lowlinks)
    ensures Bounds(g, t, low, p, q)
  {
  }

  lemma BoundsCombine(g: Graph, s1: State, s: State, low1: nat, low2: nat, p: nat)
    requires s1.stack <= s.stack && p < |s1.stack|
    requires forall x :: x in s1.stack ==> x in s1.indexes && x in s.indexes && s.indexes[x] == s1.indexes[x]
    requires Bounds(g, s1, low1, p + 1, p) && Bounds(g, s, low2, |s1.stack|, |s1.stack|)
    ensures Bounds(g, s, Min(low1, low2), p + 1, p)
  {
    forall i, j | p + 1 <= i < |s.stack| && 0 <= j < p && s.stack[i] in g && s.stack[j] in g[s.stack[i]]
      ensures Min(low1, low2) <= s.indexes[s.stack[j]]
    {
      assert s.stack[j] == s1.stack[j] && s1.stack[j] in s1.stack;
      if i < |s1.stack| {
        assert s.stack[i] == s1.stack[i];
      }
    }
  }

  lemma NewTargetAttained(g: Graph, s0: State, s1: State, s: State, gray: set<Node>, node: Node, seen: set<Node>, target: Node)
    requires Scanning(g, s0, s1, gray, node, seen)
    requires node in g && target in g[node]
    requires Visited(g, s1, s, gray + {node}, target)
    ensures Attained(g, s, node, Min(s.lowlinks[node], s.lowlinks[target]))
  {
    hide Reach, Inv, Bounds;
    InvBasics(g, s1, gray + {node});
    InvBasics(g, s, gray + {node});
    if s.lowlinks[node] <= s.lowlinks[target] {
      var y :| y in s1.onStack && y in s1.indexes && s1.indexes[y] == s1.lowlinks[node] && Reach(g, node, y);
      assert y in s.onStack;
    } else {
      assert s.indexes[target] == s1.index;
      var y :| y in s.onStack && y in s.indexes && s.indexes[y] == s.lowlinks[target] && Reach(g, target, y);
      ReachEdge(g, node, target);
      ReachTrans(g, node, target, y);
    }
  }

  lemma NewTargetSeen(g: Graph, s0: State, s1: State, s: State, gray: set<Node>, node: Node, seen: set<Node>, target: Node)
    requires Scanning(g, s0, s1, gray, node, seen)
    requires Visited(g, s1, s, gray + {node}, target)
    ensures SeenBounded(s, Min(s.lowlinks[node], s.lowlinks[target]), seen + {target})
  {
    hide Reach, Inv, Bounds, Attained;
    InvBasics(g, s1, gray + {node});
    InvBasics(g, s, gray + {node});
    assert Union(s1.components) <= Union(s.components) by {
      forall k, x | 0 <= k < |s1.components| && x in s1.components[k] ensures x in Union(s.components) {
        assert x in s.components[k];
      }
    }
  }

  // ----- Leaving a node

  /** Every stack node from `node` upwards reaches `node`, and `node` reaches it. */
  lemma SectionMutual(g: Graph, s: State, gray: set<Node>, node: Node, p: nat, j: nat)
    requires Inv(g, s, gray + {node}) && p <= j < |s.stack| && s.stack[p] == node
    requires gray <= Elems(s.stack[..p])
    ensures Mutual(g, node, s.stack[j])
  {
    hide Reach, Inv;
    var active, y := gray + {node}, s.stack[j];
    StackOrder(g, s, active, p, j);
    GrayReach(g, s, active, node, y);
    var x := StackReaches(g, s, active, y);
    if x != node {
      assert x in s.stack[..p];
      var i :| 0 <= i < p && s.stack[i] == x;
      StackOrder(g, s, active, i, p);
      GrayReach(g, s, active, x, node);
      ReachTrans(g, y, x, node);
    }
  }

  /** `lowlinks[node] < indexes[node]`: the node stays on the stack and stops being gray. */
  lemma StayKeepsInv(g: Graph, s: State, gray: set<Node>, node: Node, low: nat)
    requires Inv(g, s, gray + {node}) && gray <= s.onStack
    requires node in g && node in s.indexes && g[node] <= s.indexes.Keys
    requires Attained(g, s, node, low) && low < s.indexes[node]
    ensures Inv(g, s, gray)
  {
    hide Reach, Shape, ReachesGray, Attained;
    assert Explored(g, s, gray);
    hide Explored;
    assert GrayReaches(g, s, gray);
    hide GrayReaches;
    forall y | y in s.onStack ensures ReachesGray(g, s, gray, y) {
      StayReaches(g, s, gray, node, low, y);
    }
  }

  lemma StayReaches(g: Graph, s: State, gray: set<Node>, node: Node, low: nat, y: Node)
    requires Inv(g, s, gray + {node}) && y in s.onStack
    requires node in s.indexes && Attained(g, s, node, low) && low < s.indexes[node]
    ensures ReachesGray(g, s, gray, y)
  {
    hide Reach, Inv;
    var x := StackReaches(g, s, gray + {node}, y);
    if x == node {
      var y0 :| y0 in s.onStack && y0 in s.indexes && s.indexes[y0] == low && Reach(g, node, y0);
      var x0 := StackReaches(g, s, gray + {node}, y0);
      ReachTrans(g, y, node, y0);
      ReachTrans(g, y, y0, x0);
    }
  }

  ghost function Emit(s: State, p: nat): State
    requires p <= |s.stack|
  {
    s.(stack := s.stack[..p], onStack := Elems(s.stack[..p]), components := s.components + [Elems(s.stack[p..])])
  }

  lemma UnionSnoc(cs: seq<set<Node>>, c: set<Node>)
    ensures Union(cs + [c]) == Union(cs) + c
  {
    var ds := cs + [c];
    forall x ensures x in Union(ds) <==> x in Union(cs) || x in c {
      if x in Union(cs) {
        var k :| 0 <= k < |cs| && x in cs[k];
        assert ds[k] == cs[k];
      }
      if x in c {
        assert ds[|cs|] == c;
      }
    }
  }

  lemma EmittedAbsorbing(g: Graph, cs: seq<set<Node>>)
    requires Emitted(g, cs)
    ensures Absorbing(g, Union(cs))
  {
    hide IsScc;
    forall x, y | x in Union(cs) && x in g && y in g[x] ensures y in Union(cs) {
      var k :| 0 <= k < |cs| && x in cs[k];
      assert y in Union(cs[..k + 1]);
    }
  }

  lemma EmittedSnoc(g: Graph, cs: seq<set<Node>>, c: set<Node>)
    requires Emitted(g, cs) && IsScc(g, c) && c !! Union(cs)
    requires Absorbing(g, Union(cs) + c)
    ensures Emitted(g, cs + [c])
  {
    hide IsScc, Absorbing;
    var ds := cs + [c];
    forall j, k | 0 <= j < k < |ds| ensures ds[j] !! ds[k] {
      if k == |cs| {
        assert forall x :: x in cs[j] ==> x in Union(cs);
      }
    }
    forall k, x, y | 0 <= k < |ds| && x in ds[k] && x in g && y in g[x] ensures y in Union(ds[..k + 1]) {
      EmittedEdge(g, cs, c, k, x, y);
    }
  }

  lemma EmittedEdge(g: Graph, cs: seq<set<Node>>, c: set<Node>, k: nat, x: Node, y: Node)
    requires Emitted(g, cs) && Absorbing(g, Union(cs) + c)
    requires k <= |cs| && x in (cs + [c])[k] && x in g && y in g[x]
    ensures y in Union((cs + [c])[..k + 1])
  {
    hide IsScc;
    if k < |cs| {
      assert (cs + [c])[..k + 1] == cs[..k + 1];
    } else {
      assert (cs + [c])[..k + 1] == cs + [c];
      UnionSnoc(cs, c);
    }
  }

  /** The section of the stack from `node` upwards has no edge to the rest of the stack. */
  ghost predicate Sealed(g: Graph, s: State, p: nat) {
    forall i, y :: p <= i < |s.stack| && p <= |s.stack| && s.stack[i] in g && y in g[s.stack[i]] ==> y !in s.stack[..p]
  }

  lemma SectionFacts(g: Graph, s: State, gray: set<Node>, p: nat)
    requires Inv(g, s, gray) && p < |s.stack|
    ensures s.onStack == Elems(s.stack[..p]) + Elems(s.stack[p..]) && Elems(s.stack[..p]) !! Elems(s.stack[p..])
    ensures Elems(s.stack[p..]) <= g.Keys && Elems(s.stack[p..]) !! Union(s.components)
  {
    hide Reach, Emitted, Explored, GrayReaches, ReachedGray, Union;
    assert s.stack == s.stack[..p] + s.stack[p..];
  }

  lemma SectionAbsorbing(g: Graph, s: State, gray: set<Node>, node: Node, p: nat)
    requires Inv(g, s, gray + {node}) && p < |s.stack| && Sealed(g, s, p) && gray <= Elems(s.stack[..p])
    requires node in g && g[node] <= s.indexes.Keys
    ensures Absorbing(g, Union(s.components) + Elems(s.stack[p..]))
  {
    hide Reach, Inv, Union;
    SectionFacts(g, s, gray + {node}, p);
    InvBasics(g, s, gray + {node});
    var c := Elems(s.stack[p..]);
    forall x, y | x in c && x in g && y in g[x] ensures y in Union(s.components) + c {
      assert y in s.indexes by {
        if x != node {
          InvExplored(g, s, gray + {node}, x, y);
        }
      }
      var i :| p <= i < |s.stack| && s.stack[i] == x;
      assert y !in s.stack[..p];
    }
  }

  lemma SectionIsScc(g: Graph, s: State, gray: set<Node>, node: Node, p: nat)
    requires Inv(g, s, gray + {node}) && p < |s.stack| && Sealed(g, s, p) && gray <= Elems(s.stack[..p])
    requires s.stack[p] == node && node in g && g[node] <= s.indexes.Keys
    ensures IsScc(g, Elems(s.stack[p..]))
  {
    hide Reach, Inv, Union, Sealed;
    var c := Elems(s.stack[p..]);
    SectionFacts(g, s, gray + {node}, p);
    assert node == s.stack[p..][0] && node in c;
    forall x | x in c ensures Mutual(g, node, x) {
      var j :| p <= j < |s.stack| && s.stack[j] == x;
      SectionMutual(g, s, gray, node, p, j);
    }
    forall x, y | x in c && y in g ensures y in c <==> Mutual(g, x, y) {
      if y in c {
        ReachTrans(g, x, node, y);
        ReachTrans(g, y, node, x);
      }
      if Mutual(g, x, y) {
        ReachTrans(g, node, x, y);
        ReachTrans(g, y, x, node);
        ReachedInSection(g, s, gray, node, p, y);
      }
    }
  }

  lemma ReachedInSection(g: Graph, s: State, gray: set<Node>, node: Node, p: nat, y: Node)
    requires Inv(g, s, gray + {node}) && p < |s.stack| && Sealed(g, s, p) && gray <= Elems(s.stack[..p])
    requires s.stack[p] == node && node in g && g[node] <= s.indexes.Keys
    requires Mutual(g, node, y)
    ensures y in Elems(s.stack[p..])
  {
    hide Reach, Inv, Union, Sealed, Absorbing;
    var c := Elems(s.stack[p..]);
    SectionFacts(g, s, gray + {node}, p);
    SectionAbsorbing(g, s, gray, node, p);
    assert node == s.stack[p..][0] && node in c;
    ReachStays(g, Union(s.components) + c, node, y);
    if y in Union(s.components) {
      InvBasics(g, s, gray + {node});
      ReachStays(g, Union(s.components), y, node);
    }
  }

  /** `lowlinks[node] == indexes[node]`: the section above the node is popped as one class. */
  lemma EmitKeepsInv(g: Graph, s: State, gray: set<Node>, node: Node, p: nat)
    requires Inv(g, s, gray + {node}) && p < |s.stack| && Sealed(g, s, p) && gray <= Elems(s.stack[..p])
    requires s.stack[p] == node && node in g && g[node] <= s.indexes.Keys
    ensures Inv(g, Emit(s, p), gray)
  {
    hide Reach, Sealed, IsScc, Absorbing, Shape, Elems, ReachesGray;
    var t := Emit(s, p);
    EmitShape(g, s, gray, node, p);
    assert Explored(g, t, gray);
    hide Explored;
    SectionFacts(g, s, gray + {node}, p);
    assert GrayReaches(g, t, gray);
    hide GrayReaches;
    forall y | y in t.onStack ensures ReachesGray(g, t, gray, y) {
      EmitReaches(g, s, gray, node, p, y);
    }
  }

  lemma EmitReaches(g: Graph, s: State, gray: set<Node>, node: Node, p: nat, y: Node)
    requires Inv(g, s, gray + {node}) && p < |s.stack| && s.stack[p] == node
    requires y in Elems(s.stack[..p])
    ensures ReachesGray(g, Emit(s, p), gray, y)
  {
    hide Reach, Inv;
    var j :| 0 <= j < p && s.stack[j] == y;
    StackOrder(g, s, gray + {node}, j, p);
    var x := StackReaches(g, s, gray + {node}, y);
    StackStrict(g, s, gray + {node}, j, p);
  }

  lemma StackStrict(g: Graph, s: State, gray: set<Node>, i: nat, j: nat)
    requires Inv(g, s, gray) && i < j < |s.stack|
    ensures s.stack[i] in s.indexes && s.stack[j] in s.indexes && s.indexes[s.stack[i]] < s.indexes[s.stack[j]]
  {
    hide Reach, Emitted, Explored, GrayReaches, ReachedGray;
  }

  lemma EmitShape(g: Graph, s: State, gray: set<Node>, node: Node, p: nat)
    requires Inv(g, s, gray + {node}) && p < |s.stack| && Sealed(g, s, p) && gray <= Elems(s.stack[..p])
    requires s.stack[p] == node && node in g && g[node] <= s.indexes.Keys
    ensures Shape(g, Emit(s, p))
  {
    hide Reach, Sealed, IsScc, Absorbing, Explored, GrayReaches, ReachedGray, Union, Emitted;
    var c := Elems(s.stack[p..]);
    SectionFacts(g, s, gray + {node}, p);
    SectionIsScc(g, s, gray, node, p);
    SectionAbsorbing(g, s, gray, node, p);
    EmittedSnoc(g, s.components, c);
    UnionSnoc(s.components, c);
  }

  // ----- The steps of `visit`, as its loop uses them

  lemma EnterScanning(g: Graph, s0: State, gray: set<Node>, node: Node)
    requires Inv(g, s0, gray) && node in g && node !in s0.indexes
    requires forall x :: x in gray ==> Reach(g, x, node)
    ensures Scanning(g, s0, Enter(s0, node), gray, node, {})
  {
    hide Reach, Inv, Attained;
    EnterKeepsInv(g, s0, gray, node);
    InvKeys(g, s0, gray);
  }

  lemma InvKeys(g: Graph, s: State, gray: set<Node>)
    requires Inv(g, s, gray)
    ensures s.lowlinks.Keys == s.indexes.Keys <= g.Keys
  {
  }

  /** The recursive call's preconditions, and the measure that makes the recursion terminate. */
  lemma VisitTarget(g: Graph, s0: State, s1: State, gray: set<Node>, node: Node, seen: set<Node>, target: Node)
    requires Scanning(g, s0, s1, gray, node, seen)
    requires forall x :: x in gray ==> Reach(g, x, node)
    requires node in g && node !in s0.indexes && target in g[node]
    ensures target in g && forall x :: x in gray + {node} ==> Reach(g, x, target)
    ensures g.Keys - s1.indexes.Keys < g.Keys - s0.indexes.Keys
  {
    hide Inv, Attained, Bounds, SeenBounded, Reach, Union, Elems, Absorbing;
    InvBasics(g, s1, gray + {node});
    ReachEdge(g, node, target);
    forall x | x in gray ensures Reach(g, x, target) {
      ReachTrans(g, x, node, target);
    }
    assert node in g.Keys - s0.indexes.Keys && node !in g.Keys - s1.indexes.Keys;
  }

  lemma LeaveOnStack(g: Graph, s0: State, s: State, gray: set<Node>, node: Node)
    requires Inv(g, s0, gray) && node in g && Scanning(g, s0, s, gray, node, g[node])
    requires s.lowlinks[node] != s.indexes[node]
    ensures Visited(g, s0, s, gray, node)
  {
    hide Reach, Attained, Extends, Inv, Elems;
    GrayBelow(g, s0, s, gray, node);
    StayKeepsInv(g, s, gray, node, s.lowlinks[node]);
    forall i, j |
      |s0.stack| <= i < |s.stack| && 0 <= j < |s0.stack| && s.stack[i] in g && s.stack[j] in g[s.stack[i]]
      && s.stack[j] in s.indexes
      ensures s.lowlinks[node] <= s.indexes[s.stack[j]]
    {
      if i == |s0.stack| {
        assert s.stack[i] == (s0.stack + [node])[i] == node;
        StackOrder(g, s, gray + {node}, j, j);
      }
    }
  }

  lemma GrayBelow(g: Graph, s0: State, s: State, gray: set<Node>, node: Node)
    requires Inv(g, s0, gray) && s0.stack + [node] <= s.stack && Inv(g, s, gray + {node})
    ensures gray <= s.onStack && gray <= Elems(s.stack[..|s0.stack|])
    ensures s.stack[|s0.stack|] == node && s.stack[..|s0.stack|] == s0.stack
  {
    hide Shape, Explored, GrayReaches, ReachedGray, Union, Absorbing;
    InvBasics(g, s0, gray);
    assert s.stack[|s0.stack|] == (s0.stack + [node])[|s0.stack|];
    assert s.stack[..|s0.stack|] == (s0.stack + [node])[..|s0.stack|] == s0.stack;
  }

  lemma LeaveAsComponent(g: Graph, s0: State, s: State, gray: set<Node>, node: Node)
    requires Inv(g, s0, gray) && node in g && Scanning(g, s0, s, gray, node, g[node])
    requires s.lowlinks[node] == s.indexes[node]
    ensures |s0.stack| < |s.stack| && s.stack[|s0.stack|] == node
    ensures s.onStack == Elems(s.stack) && Distinct(s.stack)
    ensures Visited(g, s0, Emit(s, |s0.stack|), gray, node)
  {
    var p := |s0.stack|;
    hide Reach, Attained, Inv;
    GrayBelow(g, s0, s, gray, node);
    InvBasics(g, s, gray + {node});
    StackDistinct(g, s, gray + {node});
    hide Union, Absorbing, Elems;
    forall i, y | p <= i < |s.stack| && s.stack[i] in g && y in g[s.stack[i]] ensures y !in s.stack[..p] {
      if y in s.stack[..p] {
        var j :| 0 <= j < p && s.stack[j] == y;
        StackStrict(g, s, gray + {node}, j, p);
      }
    }
    assert Sealed(g, s, p);
    EmitKeepsInv(g, s, gray, node, p);
  }

  lemma StackDistinct(g: Graph, s: State, gray: set<Node>)
    requires Inv(g, s, gray)
    ensures Distinct(s.stack)
  {
    hide Reach, Emitted, Explored, GrayReaches, ReachedGray;
  }

  class SccFinder {
    const graph: Graph
    var index: nat
    var stack: seq<Node>
    var onStack: set<Node>
    var indexes: map<Node, nat>
    var lowlinks: map<Node, nat>
    var components: seq<set<Node>>

    ghost function View(): State
      reads this
    {
      State(index, stack, onStack, indexes, lowlinks, components)
    }

    constructor (g: Graph)
      requires Closed(g)
      ensures graph == g && Inv(g, View(), {}) && index == 0 && stack == [] && indexes == map[]
    {
      graph := g;
      index := 0;
      stack := [];
      onStack := {};
      indexes := map[];
      lowlinks := map[];
      components := [];
    }

    method Visit(node: Node, ghost gray: set<Node>)
      requires Inv(graph, View(), gray) && node in graph && node !in indexes
      requires forall x :: x in gray ==> Reach(graph, x, node)
      modifies this
      decreases graph.Keys - indexes.Keys
      ensures Visited(graph, old(View()), View(), gray, node)
    {
      hide Reach, Inv, Attained, Bounds, Extends, SeenBounded, Increasing, Elems;
      ghost var s0 := View();
      InvKeys(graph, s0, gray);
      EnterScanning(graph, s0, gray, node);
      indexes := indexes[node := index];
      lowlinks := lowlinks[node := index];
      index := index + 1;
      stack := stack + [node];
      onStack := onStack + {node};
      assert View() == Enter(s0, node);

      var targets := Sorted(graph[node]);
      var i := 0;
      ElemsWhole(targets, graph[node]);
      while i < |targets|
        invariant 0 <= i <= |targets|
        invariant Scanning(graph, s0, View(), gray, node, Elems(targets[..i]))
      {
        var target := targets[i];
        ghost var s1 := View();
        if target !in indexes {
          VisitTarget(graph, s0, s1, gray, node, Elems(targets[..i]), target);
          Visit(target, gray + {node});
          ghost var s2 := View();
          ScanNewTarget(graph, s0, s1, s2, gray, node, Elems(targets[..i]), target);
          lowlinks := lowlinks[node := Min(lowlinks[node], lowlinks[target])];
        } else if target in onStack {
          ScanStackTarget(graph, s0, s1, gray, node, Elems(targets[..i]), target);
          lowlinks := lowlinks[node := Min(lowlinks[node], indexes[target])];
        } else {
          ScanEmittedTarget(graph, s0, s1, gray, node, Elems(targets[..i]), target);
        }
        ElemsPrefix(targets, i);
        i := i + 1;
      }

      ghost var s3 := View();
      if lowlinks[node] != indexes[node] {
        LeaveOnStack(graph, s0, s3, gray, node);
        return;
      }
      LeaveAsComponent(graph, s0, s3, gray, node);
      var component := PopComponent(node, |s0.stack|);
      components := components + [component];
      assert View() == Emit(s3, |s0.stack|);
    }

    /** The pop loop: takes the stack from `node` upwards as one component. */
    method PopComponent(node: Node, ghost p: nat) returns (component: set<Node>)
      requires p < |stack| && stack[p] == node && Distinct(stack) && onStack == Elems(stack)
      modifies this`stack, this`onStack
      ensures stack == old(stack)[..p] && onStack == Elems(stack) && component == Elems(old(stack)[p..])
    {
      ghost var full := stack;
      component := {};
      while true
        invariant p < |stack| <= |full| && stack == full[..|stack|]
        invariant onStack == Elems(stack)
        invariant component == Elems(full[|stack|..])
        decreases |stack|
      {
        var popped := stack[|stack| - 1];
        stack := stack[..|stack| - 1];
        onStack := onStack - {popped};
        component := component + {popped};
        assert full[|stack|..] == [popped] + full[|stack| + 1..];
        if popped == node {
          break;
        }
      }
    }
  }

  /** With no visit running the stack is empty: everything visited has been emitted. */
  lemma IdleStack(g: Graph, s: State)
    requires Inv(g, s, {})
    ensures s.indexes.Keys == Union(s.components) && Emitted(g, s.components)
  {
    hide Emitted, Union;
    assert forall y :: y in s.onStack ==> ReachesGray(g, s, {}, y);
  }

  /** `cs` is the partition of the nodes of `g` into its classes, sinks first. */
  ghost predicate SccOrder(g: Graph, cs: seq<set<Node>>) {
    Emitted(g, cs) && Union(cs) == g.Keys
  }

  method StronglyConnectedComponents(graph: Graph) returns (components: seq<set<Node>>)
    requires Closed(graph)
    ensures SccOrder(graph, components)
  {
    hide Inv, Bounds, Attained, Emitted, Union, Closed, Reach;
    var finder := new SccFinder(graph);
    var nodes := Sorted(graph.Keys);
    var i := 0;
    while i < |nodes|
      invariant 0 <= i <= |nodes|
      invariant finder.graph == graph && Inv(graph, finder.View(), {})
      invariant forall k :: 0 <= k < i ==> nodes[k] in finder.indexes
    {
      if nodes[i] !in finder.indexes {
        finder.Visit(nodes[i], {});
      }
      i := i + 1;
    }
    IdleStack(graph, finder.View());
    InvKeys(graph, finder.View(), {});
    components := finder.components;
  }

  /** Every node lies in exactly one component. */
  lemma ComponentUnique(g: Graph, cs: seq<set<Node>>, x: Node)
    requires SccOrder(g, cs) && x in g
    ensures exists k :: 0 <= k < |cs| && x in cs[k]
    ensures forall j, k :: 0 <= j < |cs| && 0 <= k < |cs| && x in cs[j] && x in cs[k] ==> j == k
  {
    hide IsScc;
    assert x in Union(cs);
    assert forall j, k :: 0 <= j < k < |cs| ==> cs[j] !! cs[k];
  }

  /** Two nodes share a component iff each reaches the other. */
  lemma SharedIffMutual(g: Graph, cs: seq<set<Node>>, x: Node, y: Node)
    requires SccOrder(g, cs) && x in g && y in g
    ensures (exists k :: 0 <= k < |cs| && x in cs[k] && y in cs[k]) <==> Mutual(g, x, y)
  {
    hide Reach;
    ComponentUnique(g, cs, x);
    var k :| 0 <= k < |cs| && x in cs[k];
    assert IsScc(g, cs[k]);
    assert y in cs[k] <==> Mutual(g, x, y);
    hide IsScc, Mutual;
    if exists j :: 0 <= j < |cs| && x in cs[j] && y in cs[j] {
      var j :| 0 <= j < |cs| && x in cs[j] && y in cs[j];
      assert j == k;
    }
  }

  /** An edge that leaves a component goes to one emitted earlier. */
  lemma LeavingEdgeGoesEarlier(g: Graph, cs: seq<set<Node>>, j: nat, k: nat, x: Node, y: Node)
    requires SccOrder(g, cs) && j < |cs| && k < |cs| && x in cs[k] && x in g && y in g[x] && y in cs[j] && y in g
    ensures j <= k
  {
    hide IsScc;
    assert y in Union(cs[..k + 1]);
    var i :| 0 <= i < k + 1 && y in cs[..k + 1][i];
    ComponentUnique(g, cs, y);
    assert i == j;
  }
}
