/**
 The library-cycle detector and its shrink-only ratchet
 (scripts/check_repo_dependency_cycle.py): the rank-pruned enumeration of simple cycles inside each
 strongly connected component returns exactly the simple cycles of the whole graph.
 */
module CycleRatchet {
  import opened Collections
  import opened Graphs
  import opened Ordering
  import opened Results
  import opened Strings
  import opened Tarjan

  function CanonicalCycle(nodes: set<Node>): string {
    Join(SEPARATOR, Sorted(nodes))
  }

  /** Distinct nodes, each with an edge to the next and the last with an edge to the first. */
  ghost predicate SimpleCycle(g: Graph, q: seq<Node>) {
    IsWalk(g, q) && Distinct(q) && q[0] in g[q[|q| - 1]]
  }

  /** `t` is the canonical text of a simple cycle of `g` that stays inside `within`. */
  ghost predicate IsCycleText(g: Graph, within: set<Node>, t: string) {
    exists q :: SimpleCycle(g, q) && Elems(q) <= within && t == CanonicalCycle(Elems(q))
  }

  // ----- The search from one start node

  /** `q` extends `path` to a simple cycle of the component whose first node has the least rank. */
  ghost predicate Completes(g: Graph, rank: map<Node, nat>, path: seq<Node>, q: seq<Node>) {
    && path <= q
    && SimpleCycle(g, q)
    && (forall i :: 0 <= i < |q| ==> q[i] in rank)
    && (forall i :: 0 <= i < |q| ==> rank[q[0]] <= rank[q[i]])
  }

  /** The node that `q` takes after `path`; a completed cycle takes its start again. */
  ghost function NextNode(path: seq<Node>, q: seq<Node>): Node
    requires |path| > 0 && path <= q
  {
    if |q| == |path| then path[0] else q[|path|]
  }

  /** `t` names a cycle that completes `path` through one of `nexts`. */
  ghost predicate FoundVia(g: Graph, rank: map<Node, nat>, path: seq<Node>, nexts: set<Node>, t: string)
    requires |path| > 0
  {
    exists q :: Completes(g, rank, path, q) && NextNode(path, q) in nexts && t == CanonicalCycle(Elems(q))
  }

  ghost predicate Found(g: Graph, rank: map<Node, nat>, path: seq<Node>, t: string) {
    exists q :: Completes(g, rank, path, q) && t == CanonicalCycle(Elems(q))
  }

  /** A path that the search may be extending: simple, inside the component, least node first. */
  ghost predicate SearchPath(g: Graph, rank: map<Node, nat>, path: seq<Node>) {
    && IsWalk(g, path) && Distinct(path)
    && (forall i :: 0 <= i < |path| ==> path[i] in rank)
    && (forall i :: 0 <= i < |path| ==> rank[path[0]] <= rank[path[i]])
  }

  lemma NextNodeIsTarget(g: Graph, rank: map<Node, nat>, path: seq<Node>, q: seq<Node>)
    requires SearchPath(g, rank, path) && Completes(g, rank, path, q)
    ensures NextNode(path, q) in g[path[|path| - 1]] && NextNode(path, q) in rank
  {
    assert q[|path| - 1] == path[|path| - 1] && q[0] == path[0];
    if |q| > |path| {
      assert q[|path| - 1 + 1] in g[q[|path| - 1]];
    } else {
      assert q == path;
    }
  }

  /** All targets handled: what was found through them is everything that completes the path. */
  lemma FoundViaAll(g: Graph, rank: map<Node, nat>, path: seq<Node>, nexts: set<Node>, t: string)
    requires SearchPath(g, rank, path)
    requires nexts == g[path[|path| - 1]] * rank.Keys
    ensures FoundVia(g, rank, path, nexts, t) <==> Found(g, rank, path, t)
  {
    hide SimpleCycle, CanonicalCycle, SearchPath;
    if Found(g, rank, path, t) {
      var q :| Completes(g, rank, path, q) && t == CanonicalCycle(Elems(q));
      NextNodeIsTarget(g, rank, path, q);
    }
  }

  /** Closing the path: the only completion that returns to the start is the path itself. */
  lemma FoundViaStart(g: Graph, rank: map<Node, nat>, path: seq<Node>, t: string)
    requires SearchPath(g, rank, path) && path[0] in g[path[|path| - 1]]
    ensures FoundVia(g, rank, path, {path[0]}, t) <==> t == CanonicalCycle(Elems(path))
  {
    hide CanonicalCycle;
    assert Completes(g, rank, path, path) && NextNode(path, path) == path[0];
    forall q | Completes(g, rank, path, q) && NextNode(path, q) == path[0] ensures q == path {
      assert q[0] == path[0];
      assert forall k :: 0 < k < |q| ==> q[k] != q[0];
    }
  }

  /** A target already on the path, or of lower rank than the start, completes nothing. */
  lemma FoundViaPruned(g: Graph, rank: map<Node, nat>, path: seq<Node>, target: Node, t: string)
    requires SearchPath(g, rank, path) && target != path[0] && target in rank
    requires target in path || rank[target] < rank[path[0]]
    ensures !FoundVia(g, rank, path, {target}, t)
  {
    hide CanonicalCycle;
    forall q | Completes(g, rank, path, q) ensures NextNode(path, q) != target {
      assert q[0] == path[0];
      if |q| > |path| && target in path {
        var i :| 0 <= i < |path| && path[i] == target;
        assert q[i] == target && q[i] != q[|path|];
      }
    }
  }

  /** Any other target: its completions are those of the extended path. */
  lemma FoundViaExtension(g: Graph, rank: map<Node, nat>, path: seq<Node>, target: Node, t: string)
    requires SearchPath(g, rank, path) && target != path[0]
    ensures FoundVia(g, rank, path, {target}, t) <==> Found(g, rank, path + [target], t)
  {
    assert |path| > 0;
    hide CanonicalCycle, SimpleCycle, SearchPath;
    var longer := path + [target];
    forall q ensures Completes(g, rank, path, q) && NextNode(path, q) == target <==> Completes(g, rank, longer, q) {
      if longer <= q {
        assert path <= q && q[|path|] == longer[|path|] == target;
      }
      if path <= q && |q| > |path| && q[|path|] == target {
        assert longer == q[..|path| + 1];
      }
    }
  }

  lemma FoundViaUnion(g: Graph, rank: map<Node, nat>, path: seq<Node>, seen: set<Node>, target: Node, t: string)
    requires |path| > 0
    ensures FoundVia(g, rank, path, seen + {target}, t)
       <==> FoundVia(g, rank, path, seen, t) || FoundVia(g, rank, path, {target}, t)
  {
    hide CanonicalCycle, Completes;
  }

  class CycleSearch {
    const graph: Graph
    const component: set<Node>
    const rank: map<Node, nat>
    var cycles: set<string>

    constructor (graph: Graph, component: set<Node>, rank: map<Node, nat>)
      ensures this.graph == graph && this.component == component && this.rank == rank && cycles == {}
    {
      this.graph, this.component, this.rank := graph, component, rank;
      cycles := {};
    }

    /** Adds exactly the cycles that complete `path`. */
    method Visit(start: Node, node: Node, path: seq<Node>, seen: set<Node>)
      requires rank.Keys == component <= graph.Keys
      requires SearchPath(graph, rank, path) && seen == Elems(path)
      requires path[0] == start && path[|path| - 1] == node
      modifies this`cycles
      decreases component - seen
      ensures forall t :: t in cycles <==> t in old(cycles) || Found(graph, rank, path, t)
    {
      hide Found, FoundVia, CanonicalCycle, Increasing, Elems;
      var targets := Sorted(graph[node] * component);
      var i := 0;
      ElemsWhole(targets, graph[node] * component);
      forall t ensures !FoundVia(graph, rank, path, Elems(targets[..0]), t) {
        FoundViaNone(graph, rank, path, t);
      }
      while i < |targets|
        invariant 0 <= i <= |targets|
        invariant forall t :: t in cycles <==> t in old(cycles) || FoundVia(graph, rank, path, Elems(targets[..i]), t)
      {
        var target := targets[i];
        assert target in graph[node] * component;
        ElemsPrefix(targets, i);
        forall t { FoundViaUnion(graph, rank, path, Elems(targets[..i]), target, t); }
        if target == start {
          forall t { FoundViaStart(graph, rank, path, t); }
          cycles := cycles + {CanonicalCycle(seen)};
        } else if target in seen || rank[target] < rank[start] {
          forall t ensures !FoundVia(graph, rank, path, {target}, t) { PrunedTarget(graph, rank, path, seen, target, t); }
        } else {
          forall t { FoundViaExtension(graph, rank, path, target, t); }
          ExtendSearchPath(graph, rank, path, seen, target);
          Visit(start, target, path + [target], seen + {target});
        }
        i := i + 1;
      }
      forall t { FoundViaAll(graph, rank, path, graph[node] * component, t); }
    }
  }

  lemma FoundViaNone(g: Graph, rank: map<Node, nat>, path: seq<Node>, t: string)
    requires |path| > 0
    ensures !FoundVia(g, rank, path, {}, t)
  {
  }

  lemma PrunedTarget(g: Graph, rank: map<Node, nat>, path: seq<Node>, seen: set<Node>, target: Node, t: string)
    requires SearchPath(g, rank, path) && seen == Elems(path) && target != path[0] && target in rank
    requires target in seen || rank[target] < rank[path[0]]
    ensures !FoundVia(g, rank, path, {target}, t)
  {
    FoundViaPruned(g, rank, path, target, t);
  }

  lemma ExtendSearchPath(g: Graph, rank: map<Node, nat>, path: seq<Node>, seen: set<Node>, target: Node)
    requires SearchPath(g, rank, path) && seen == Elems(path)
    requires target in g[path[|path| - 1]] && target in g && target in rank && target !in seen
    requires rank[path[0]] <= rank[target]
    ensures SearchPath(g, rank, path + [target]) && seen + {target} == Elems(path + [target])
    ensures rank.Keys - (seen + {target}) < rank.Keys - seen
  {
    assert target !in path;
    assert target in rank.Keys - seen && target !in rank.Keys - (seen + {target});
  }

  // ----- From one component to the whole graph

  ghost function Rotate(q: seq<Node>, m: nat): seq<Node>
    requires m < |q|
  {
    q[m..] + q[..m]
  }

  lemma RotateEdge(g: Graph, q: seq<Node>, m: nat, i: nat)
    requires SimpleCycle(g, q) && m < |q| && i < |q|
    ensures Rotate(q, m)[i] in g && Rotate(q, m)[if i + 1 < |q| then i + 1 else 0] in g[Rotate(q, m)[i]]
  {
    var k := if i < |q| - m then m + i else i - (|q| - m);
    assert Rotate(q, m)[i] == q[k];
    if k + 1 < |q| {
      assert q[k + 1] in g[q[k]];
    }
  }

  lemma RotateElems(q: seq<Node>, m: nat)
    requires m < |q| && Distinct(q)
    ensures Elems(Rotate(q, m)) == Elems(q) && Distinct(Rotate(q, m))
  {
    assert q == q[..m] + q[m..];
  }

  lemma RotateIsCycle(g: Graph, q: seq<Node>, m: nat)
    requires SimpleCycle(g, q) && m < |q|
    ensures SimpleCycle(g, Rotate(q, m)) && Rotate(q, m)[0] == q[m] && Elems(Rotate(q, m)) == Elems(q)
  {
    RotateElems(q, m);
    forall i | 0 <= i < |q|
      ensures Rotate(q, m)[i] in g && Rotate(q, m)[if i + 1 < |q| then i + 1 else 0] in g[Rotate(q, m)[i]]
    {
      RotateEdge(g, q, m, i);
    }
    hide Elems, Distinct;
  }

  lemma LeastRank(rank: map<Node, nat>, q: seq<Node>) returns (m: nat)
    requires |q| > 0 && forall i :: 0 <= i < |q| ==> q[i] in rank
    ensures m < |q| && forall i :: 0 <= i < |q| ==> rank[q[m]] <= rank[q[i]]
  {
    m := 0;
    for n := 1 to |q|
      invariant m < |q| && forall i :: 0 <= i < n ==> rank[q[m]] <= rank[q[i]]
    {
      if rank[q[n]] < rank[q[m]] {
        m := n;
      }
    }
  }

  /** Every simple cycle of the component is found from its node of least rank. */
  lemma FoundFromLeast(g: Graph, rank: map<Node, nat>, q: seq<Node>) returns (start: Node)
    requires SimpleCycle(g, q) && Elems(q) <= rank.Keys
    ensures start in rank && Found(g, rank, [start], CanonicalCycle(Elems(q)))
  {
    assert forall i :: 0 <= i < |q| ==> q[i] in Elems(q);
    var m := LeastRank(rank, q);
    start := q[m];
    RotateIsCycle(g, q, m);
    var r := Rotate(q, m);
    assert forall i :: 0 <= i < |r| ==> r[i] in Elems(r);
    forall i | 0 <= i < |r| ensures r[i] in rank && rank[r[0]] <= rank[r[i]] {
      assert r[i] in q;
    }
    assert [start] <= r;
    assert Completes(g, rank, [start], r);
  }

  ghost predicate FoundFrom(g: Graph, rank: map<Node, nat>, starts: set<Node>, t: string) {
    exists x :: x in starts && Found(g, rank, [x], t)
  }

  method SimpleCyclesInComponent(graph: Graph, component: set<Node>) returns (cycles: set<string>)
    requires component <= graph.Keys
    ensures forall t :: t in cycles <==> IsCycleText(graph, component, t)
  {
    hide Found, FoundFrom, IsCycleText, CanonicalCycle, Increasing, Elems, SearchPath;
    var ordered := Sorted(component);
    ElemsWhole(ordered, component);
    var rank := RankOf(component, ordered);
    var search := new CycleSearch(graph, component, rank);
    forall t { FoundFromStep(graph, rank, {}, "", t); }
    for i := 0 to |ordered|
      invariant search.graph == graph && search.component == component && search.rank == rank
      invariant forall t :: t in search.cycles <==> FoundFrom(graph, rank, Elems(ordered[..i]), t)
    {
      var start := ordered[i];
      assert start in component;
      StartPath(graph, rank, start);
      ElemsPrefix(ordered, i);
      forall t { FoundFromStep(graph, rank, Elems(ordered[..i]), start, t); }
      search.Visit(start, start, [start], {start});
    }
    cycles := search.cycles;
    forall t { StartsCoverComponent(graph, component, rank, t); }
  }

  /** `{node: index for index, node in enumerate(ordered)}` */
  method RankOf(component: set<Node>, ordered: seq<Node>) returns (rank: map<Node, nat>)
    requires Elems(ordered[..|ordered|]) == component && Elems(ordered[..0]) == {}
    ensures rank.Keys == component
  {
    rank := map[];
    for i := 0 to |ordered|
      invariant rank.Keys == Elems(ordered[..i])
    {
      ElemsPrefix(ordered, i);
      rank := rank[ordered[i] := i];
    }
  }

  lemma StartPath(g: Graph, rank: map<Node, nat>, start: Node)
    requires start in g && start in rank
    ensures SearchPath(g, rank, [start]) && Elems([start]) == {start}
  {
  }

  lemma FoundFromStep(g: Graph, rank: map<Node, nat>, starts: set<Node>, start: Node, t: string)
    ensures !FoundFrom(g, rank, {}, t)
    ensures FoundFrom(g, rank, starts + {start}, t) <==> FoundFrom(g, rank, starts, t) || Found(g, rank, [start], t)
  {
    hide Found;
  }

  lemma StartsCoverComponent(g: Graph, component: set<Node>, rank: map<Node, nat>, t: string)
    requires rank.Keys == component
    ensures FoundFrom(g, rank, component, t) <==> IsCycleText(g, component, t)
  {
    hide CanonicalCycle;
    if FoundFrom(g, rank, component, t) {
      var x :| x in component && Found(g, rank, [x], t);
      var q :| Completes(g, rank, [x], q) && t == CanonicalCycle(Elems(q));
      assert Elems(q) <= component;
    }
    if IsCycleText(g, component, t) {
      var q :| SimpleCycle(g, q) && Elems(q) <= component && t == CanonicalCycle(Elems(q));
      var start := FoundFromLeast(g, rank, q);
    }
  }

  /** The nodes of a cycle reach each other, so a cycle lies inside one component. */
  lemma CycleInsideComponent(g: Graph, c: set<Node>, q: seq<Node>)
    requires SimpleCycle(g, q) && IsScc(g, c) && q[0] in c
    ensures Elems(q) <= c
  {
    forall i | 0 <= i < |q| ensures q[i] in c {
      assert WalkFrom(g, q[..i + 1], q[0], q[i]);
      var back := q[i..] + [q[0]];
      forall j | 0 <= j < |back| - 1 ensures back[j + 1] in g[back[j]] {
        if i + j < |q| - 1 {
          assert q[i + j + 1] in g[q[i + j]];
        }
      }
      assert WalkFrom(g, back, q[i], q[0]);
      assert Mutual(g, q[0], q[i]);
    }
  }

  /** `cycles_from_graph`: exactly the canonical texts of the graph's simple cycles. */
  method CyclesFromGraph(graph: Graph) returns (cycles: set<string>)
    requires Closed(graph)
    ensures forall t :: t in cycles <==> IsCycleText(graph, graph.Keys, t)
  {
    hide IsCycleText, Emitted, Union, CanonicalCycle, SccOrder;
    var components := StronglyConnectedComponents(graph);
    cycles := {};
    for i := 0 to |components|
      invariant forall t :: t in cycles <==> exists k :: 0 <= k < i && IsCycleText(graph, components[k], t)
    {
      var component := components[i];
      ComponentFacts(graph, components, i);
      if |component| > 1 {
        var found := SimpleCyclesInComponent(graph, component);
        cycles := cycles + found;
      } else {
        SingletonComponent(graph, component);
        var node :| node in component;
        forall t { SelfLoopCycle(graph, node, t); }
        if node in graph[node] {
          cycles := cycles + {node};
        }
      }
    }
    forall t { ComponentsCoverCycles(graph, components, t); }
  }

  lemma ComponentFacts(g: Graph, cs: seq<set<Node>>, k: nat)
    requires SccOrder(g, cs) && k < |cs|
    ensures IsScc(g, cs[k])
  {
  }

  lemma SingletonComponent(g: Graph, c: set<Node>)
    requires IsScc(g, c) && |c| <= 1
    ensures exists x :: x in c && c == {x}
    ensures forall x, y :: x in c && y in c ==> x == y
  {
    var x :| x in c;
    assert c == {x} by {
      assert |c - {x}| == |c| - 1;
    }
  }

  /** Inside a single node the only simple cycle is its self-loop, whose text is the node's name. */
  lemma SelfLoopCycle(g: Graph, node: Node, t: string)
    requires node in g
    ensures IsCycleText(g, {node}, t) <==> node in g[node] && t == node
  {
    SingleText(node);
    hide CanonicalCycle;
    if node in g[node] {
      assert SimpleCycle(g, [node]) && Elems([node]) == {node};
    }
    if IsCycleText(g, {node}, t) {
      var q :| SimpleCycle(g, q) && Elems(q) <= {node} && t == CanonicalCycle(Elems(q));
      assert forall i :: 0 <= i < |q| ==> q[i] in Elems(q);
      assert |q| == 1 && q == [node];
      assert Elems(q) == {node};
    }
  }

  lemma ComponentsCoverCycles(g: Graph, cs: seq<set<Node>>, t: string)
    requires SccOrder(g, cs)
    ensures (exists k :: 0 <= k < |cs| && IsCycleText(g, cs[k], t)) <==> IsCycleText(g, g.Keys, t)
  {
    hide CanonicalCycle, Reach, Union, Emitted;
    if k :| 0 <= k < |cs| && IsCycleText(g, cs[k], t) {
      ComponentFacts(g, cs, k);
      var q :| SimpleCycle(g, q) && Elems(q) <= cs[k] && t == CanonicalCycle(Elems(q));
      assert Elems(q) <= g.Keys;
    }
    if IsCycleText(g, g.Keys, t) {
      var q :| SimpleCycle(g, q) && Elems(q) <= g.Keys && t == CanonicalCycle(Elems(q));
      ComponentUnique(g, cs, q[0]);
      var k :| 0 <= k < |cs| && q[0] in cs[k];
      ComponentFacts(g, cs, k);
      CycleInsideComponent(g, cs[k], q);
    }
  }

  // ----- What the texts mean

  const SEPARATOR := " <-> "

  /** No separator starts inside the name, even one that ends with the first space after it. */
  ghost predicate Separable(name: Node) {
    !Contains(name + " ", SEPARATOR)
  }

  /** No separator starts inside a name, whether it is the last one or a separator follows. */
  lemma FirstSeparator(name: Node, rest: string, j: nat)
    requires Separable(name) && j < |name| && (rest == "" || rest[0] == ' ')
    ensures !OccursAt(name + rest, SEPARATOR, j)
  {
    var t, u := name + rest, name + " ";
    OccursChars(t, SEPARATOR, j);
    OccursChars(u, SEPARATOR, j);
    assert !OccursAt(u, SEPARATOR, j);
    assert forall k :: j <= k < |u| && k < |t| ==> u[k] == t[k];
    assert |name| < |t| ==> t[j + (|name| - j)] == ' ';
    assert SEPARATOR[1] != ' ' && SEPARATOR[2] != ' ' && SEPARATOR[3] != ' ';
  }

  lemma {:induction false} JoinInjective(a: seq<string>, b: seq<string>)
    requires a != [] && b != [] && (forall i :: 0 <= i < |a| ==> Separable(a[i])) && (forall i :: 0 <= i < |b| ==> Separable(b[i]))
    requires Join(SEPARATOR, a) == Join(SEPARATOR, b)
    ensures a == b
    decreases |a| + |b|
  {
    hide Separable;
    var ra := if |a| == 1 then "" else SEPARATOR + Join(SEPARATOR, a[1..]);
    var rb := if |b| == 1 then "" else SEPARATOR + Join(SEPARATOR, b[1..]);
    assert a[0] + ra == Join(SEPARATOR, a) && b[0] + rb == Join(SEPARATOR, b);
    hide Join;
    FirstNames(a[0], ra, b[0], rb);
    if ra == "" || rb == "" {
      assert a == [a[0]] && b == [b[0]];
    } else {
      assert Join(SEPARATOR, a[1..]) == ra[5..] == rb[5..] == Join(SEPARATOR, b[1..]);
      JoinInjective(a[1..], b[1..]);
      assert a == [a[0]] + a[1..] && b == [b[0]] + b[1..];
    }
  }

  lemma FirstNames(x: Node, r: string, y: Node, s: string)
    requires Separable(x) && Separable(y) && x + r == y + s
    requires (r == "" || SEPARATOR <= r) && (s == "" || SEPARATOR <= s)
    ensures x == y && r == s
  {
    hide Separable;
    if |x| < |y| {
      SeparatorAfter(x, r);
      FirstSeparator(y, s, |x|);
    } else if |y| < |x| {
      SeparatorAfter(y, s);
      FirstSeparator(x, r, |y|);
    }
    assert x == (x + r)[..|x|] && y == (y + s)[..|y|];
    assert r == (x + r)[|x|..] && s == (y + s)[|y|..];
  }

  lemma SeparatorAfter(x: Node, r: string)
    requires SEPARATOR <= r
    ensures OccursAt(x + r, SEPARATOR, |x|)
  {
    assert (x + r)[|x|..|x| + 5] == r[..5];
  }

  /** When no separator starts inside a name, the canonical text determines the node set. */
  lemma CanonicalCycleInjective(a: set<Node>, b: set<Node>)
    requires a != {} && b != {} && (forall x :: x in a ==> Separable(x)) && (forall x :: x in b ==> Separable(x))
    ensures CanonicalCycle(a) == CanonicalCycle(b) <==> a == b
  {
    hide Separable, Increasing;
    var ra, rb := Sorted(a), Sorted(b);
    assert Elems(ra) == a && Elems(rb) == b;
    if CanonicalCycle(a) == CanonicalCycle(b) {
      forall i | 0 <= i < |ra| ensures Separable(ra[i]) { assert ra[i] in ra; }
      forall i | 0 <= i < |rb| ensures Separable(rb[i]) { assert rb[i] in rb; }
      JoinInjective(ra, rb);
    }
  }

  lemma SingleText(x: Node)
    ensures CanonicalCycle({x}) == x
  {
    var only := Sorted({x});
    assert only[0] in only && only == [x];
  }

  lemma PairText(u: Node, v: Node)
    requires Lt(u, v)
    ensures CanonicalCycle({u, v}) == u + SEPARATOR + v
  {
    LtIrreflexive(u);
    var names, pair := Sorted({u, v}), [u, v];
    forall x ensures x in names <==> x in pair {
      assert x in names <==> x in {u, v};
    }
    IncreasingUnique(names, pair);
    assert Join(SEPARATOR, [v]) == v && pair[1..] == [v];
    assert Join(SEPARATOR, pair) == pair[0] + SEPARATOR + Join(SEPARATOR, pair[1..]);
  }

  lemma {:induction false} PrefixLe(x: string, rest: string)
    ensures Le(x, x + rest)
  {
    if x == "" {
      assert x + rest == rest;
    } else {
      assert (x + rest)[1..] == x[1..] + rest;
      PrefixLe(x[1..], rest);
      assert x == [x[0]] + x[1..] && x + rest == [x[0]] + (x[1..] + rest);
    }
  }

  lemma FirstPartLe(parts: seq<string>)
    requires parts != []
    ensures Le(parts[0], Join(SEPARATOR, parts))
  {
    if |parts| > 1 {
      var rest := SEPARATOR + Join(SEPARATOR, parts[1..]);
      assert Join(SEPARATOR, parts) == parts[0] + rest;
      PrefixLe(parts[0], rest);
    }
  }

  /** The text of several nodes is a first name, the separator and a greater text. */
  lemma SeveralText(s: set<Node>) returns (u: string, v: string)
    requires |s| > 1
    ensures Lt(u, v) && CanonicalCycle(s) == u + SEPARATOR + v
  {
    var names := Sorted(s);
    u, v := names[0], Join(SEPARATOR, names[1..]);
    assert Lt(names[0], names[1]);
    FirstPartLe(names[1..]);
    assert names[1..][0] == names[1];
    hide Join, Sorted;
    if names[1] != v {
      LtTrans(u, names[1], v);
    }
  }

  /** The text of a self-loop is the text of another node set exactly when it reads as two ascending parts. */
  lemma SharedTextIff(x: Node)
    ensures (exists s :: s != {} && s != {x} && CanonicalCycle(s) == CanonicalCycle({x})) <==>
            (exists u, v :: Lt(u, v) && x == u + SEPARATOR + v)
  {
    SingleText(x);
    hide CanonicalCycle;
    if s :| s != {} && s != {x} && CanonicalCycle(s) == CanonicalCycle({x}) {
      if |s| == 1 {
        var y :| y in s;
        assert |s - {y}| == 0;
        assert s == {y};
        SingleText(y);
      } else {
        var u, v := SeveralText(s);
      }
    }
    if u, v :| Lt(u, v) && x == u + SEPARATOR + v {
      PairText(u, v);
      assert |u| < |x| && u in {u, v} && {u, v} != {x};
    }
  }

  /** Two different cycles with one text. */
  lemma AmbiguousText()
    ensures CanonicalCycle({"a <-> b"}) == CanonicalCycle({"a", "b"})
  {
    SingleText("a <-> b");
    assert Lt("a", "b");
    PairText("a", "b");
    assert "a" + SEPARATOR + "b" == "a <-> b";
  }

  /** No node reaches itself along one or more edges. */
  ghost predicate Acyclic(g: Graph) {
    forall p :: IsWalk(g, p) ==> p[0] !in g[p[|p| - 1]]
  }

  /** A closed walk contains a simple cycle. */
  lemma {:induction false} ClosedWalkHasCycle(g: Graph, p: seq<Node>) returns (q: seq<Node>)
    requires IsWalk(g, p) && p[0] in g[p[|p| - 1]]
    ensures SimpleCycle(g, q) && Elems(q) <= g.Keys
    decreases |p|
  {
    if i, j :| 0 <= i < j < |p| && p[i] == p[j] {
      var inner := p[i..j];
      forall k | 0 <= k < |inner| - 1 ensures inner[k + 1] in g[inner[k]] {
        assert p[i + k + 1] in g[p[i + k]];
      }
      assert p[j - 1 + 1] in g[p[j - 1]];
      q := ClosedWalkHasCycle(g, inner);
    } else {
      q := p;
    }
  }

  ghost predicate IsCycleSet(g: Graph, cycles: set<string>) {
    forall t :: t in cycles <==> IsCycleText(g, g.Keys, t)
  }

  /** The detector reports nothing iff the graph is acyclic. */
  lemma NoCyclesIffAcyclic(g: Graph, cycles: set<string>)
    requires IsCycleSet(g, cycles)
    ensures cycles == {} <==> Acyclic(g)
  {
    hide CanonicalCycle;
    if !Acyclic(g) {
      var p :| IsWalk(g, p) && p[0] in g[p[|p| - 1]];
      var q := ClosedWalkHasCycle(g, p);
      assert IsCycleText(g, g.Keys, CanonicalCycle(Elems(q)));
    }
    if cycles != {} {
      var t :| t in cycles;
      var q :| SimpleCycle(g, q) && Elems(q) <= g.Keys && t == CanonicalCycle(Elems(q));
    }
  }

  // ----- The shrink-only ratchet

  datatype Message = NotAllowed(cycle: string) | Stale(cycle: string) | Grows(cycle: string)

  function Each(cycles: seq<string>, message: string -> Message): (r: seq<Message>)
    ensures |r| == |cycles| && forall i :: 0 <= i < |cycles| ==> r[i] == message(cycles[i])
  {
    seq(|cycles|, i requires 0 <= i < |cycles| => message(cycles[i]))
  }

  function RatchetMessages(current: set<string>, allowlist: set<string>, base: Option<set<string>>): seq<Message> {
    var added := Sorted(current - allowlist);
    var stale := Sorted(allowlist - current);
    var grown := if base.Some? then Sorted(allowlist - base.value) else [];
    Each(added, c => NotAllowed(c)) + Each(stale, c => Stale(c)) + Each(grown, c => Grows(c))
  }

  lemma SilentIff(current: set<string>, allowlist: set<string>, base: Option<set<string>>)
    ensures RatchetMessages(current, allowlist, base) == []
       <==> current == allowlist && (base.Some? ==> allowlist <= base.value)
  {
    var added, stale := Sorted(current - allowlist), Sorted(allowlist - current);
    assert |RatchetMessages(current, allowlist, base)| ==
      |added| + |stale| + (if base.Some? then |Sorted(allowlist - base.value)| else 0);
    assert |added| == 0 <==> current - allowlist == {};
    assert |stale| == 0 <==> allowlist - current == {};
  }

  /** Exactly the cycles that are not allowed, those that are allowed and gone, and those that a base did not allow are reported. */
  lemma MessageIff(current: set<string>, allowlist: set<string>, base: Option<set<string>>, m: Message)
    ensures m in RatchetMessages(current, allowlist, base) <==>
            match m
            case NotAllowed(c) => c in current && c !in allowlist
            case Stale(c) => c in allowlist && c !in current
            case Grows(c) => base.Some? && c in allowlist && c !in base.value
    ensures |RatchetMessages(current, allowlist, base)|
         == |current - allowlist| + |allowlist - current| + (if base.Some? then |allowlist - base.value| else 0)
  {
    var added, stale := Sorted(current - allowlist), Sorted(allowlist - current);
    var grown := if base.Some? then Sorted(allowlist - base.value) else [];
    InEach(added, c => NotAllowed(c), m);
    InEach(stale, c => Stale(c), m);
    InEach(grown, c => Grows(c), m);
    hide Each, Increasing;
  }

  ghost function Place(m: Message): nat {
    match m
    case NotAllowed(_) => 0
    case Stale(_) => 1
    case Grows(_) => 2
  }

  /** The three kinds come one after the other, each in increasing order. */
  lemma MessagesInOrder(current: set<string>, allowlist: set<string>, base: Option<set<string>>)
    ensures var ms := RatchetMessages(current, allowlist, base);
            forall i, j :: 0 <= i < j < |ms| ==> Place(ms[i]) < Place(ms[j]) || (Place(ms[i]) == Place(ms[j]) && Lt(ms[i].cycle, ms[j].cycle))
  {
    hide Lt;
  }

  lemma InEach(cycles: seq<string>, message: string -> Message, m: Message)
    requires forall c :: message(c).cycle == c
    ensures m in Each(cycles, message) <==> m.cycle in cycles && m == message(m.cycle)
  {
    var r := Each(cycles, message);
    if m in r {
      var i :| 0 <= i < |r| && r[i] == m;
      assert cycles[i] == m.cycle;
    }
    if m.cycle in cycles {
      var i :| 0 <= i < |cycles| && cycles[i] == m.cycle;
      assert r[i] == message(m.cycle);
    }
  }

  /** One accepted state of the repository: its library graph, its cycles and its allowlist. */
  datatype Revision = Revision(graph: Graph, cycles: set<string>, allowlist: set<string>)

  /** Every revision passes the ratchet against the allowlist of the one before it. */
  ghost predicate AcceptedHistory(h: seq<Revision>) {
    && (forall i :: 0 <= i < |h| ==> IsCycleSet(h[i].graph, h[i].cycles))
    && (forall i {:trigger h[i]} :: 0 < i < |h| ==>
          RatchetMessages(h[i].cycles, h[i].allowlist, Some(h[i - 1].allowlist)) == [])
  }

  lemma {:induction false} HistoryShrinks(h: seq<Revision>, i: nat, j: nat)
    requires AcceptedHistory(h) && i < j < |h|
    ensures h[j].cycles == h[j].allowlist <= h[i].allowlist
    decreases j
  {
    hide IsCycleSet, RatchetMessages;
    assert RatchetMessages(h[j].cycles, h[j].allowlist, Some(h[j - 1].allowlist)) == [];
    SilentIff(h[j].cycles, h[j].allowlist, Some(h[j - 1].allowlist));
    if i < j - 1 {
      HistoryShrinks(h, i, j - 1);
    }
  }

  /** Once an accepted allowlist is empty, every later accepted graph is acyclic. */
  lemma EmptyAllowlistMeansAcyclic(h: seq<Revision>, i: nat, j: nat)
    requires AcceptedHistory(h) && i < j < |h| && h[i].allowlist == {}
    ensures Acyclic(h[j].graph)
  {
    HistoryShrinks(h, i, j);
    NoCyclesIffAcyclic(h[j].graph, h[j].cycles);
  }
}
