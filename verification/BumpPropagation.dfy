/** The derived-bump engine: a memoised depth-first walk against its closed forms. */
module BumpPropagation {
  import opened Common
  import opened BumpLevels
  import opened DependencyGraph

  // ----- The problem and its declarative answer -----

  /** Own levels of the active components, and the product's edges. */
  datatype Graph = Graph(own: map<Id, BumpLevel>, edges: set<Edge>) {
    function Nodes(): set<Id> {
      own.Keys + Endpoints(edges)
    }

    /** An endpoint with no active version counts as a major change. */
    function Base(n: Id): BumpLevel {
      if n in own then own[n] else Major
    }
  }

  /** What a change at the end of walk `w` amounts to at its start: `P` once per step. */
  ghost function Felt(g: Graph, w: seq<Id>): BumpLevel
    requires |w| > 0
    decreases |w|
  {
    if |w| == 1 then g.Base(w[0]) else Propagate(Felt(g, w[1..]))
  }

  ghost predicate Carries(g: Graph, n: Id, level: BumpLevel) {
    exists w :: IsWalk(g.edges, w) && w[0] == n && Felt(g, w) == level
  }

  /** The greatest level any walk out of `n` carries to it. */
  ghost function Strongest(g: Graph, n: Id): BumpLevel {
    if Carries(g, n, Major) then Major
    else if Carries(g, n, Minor) then Minor
    else if Carries(g, n, Patch) then Patch
    else NoBump
  }

  lemma BaseIsCarried(g: Graph, n: Id)
    ensures Carries(g, n, g.Base(n))
  {
    assert IsWalk(g.edges, [n]) && Felt(g, [n]) == g.Base(n);
  }

  /** `Strongest` is the maximum of `Felt` over all walks from `n`. */
  lemma StrongestIsMaximum(g: Graph, n: Id)
    ensures Carries(g, n, Strongest(g, n))
    ensures forall w :: IsWalk(g.edges, w) && w[0] == n ==> AtMost(Felt(g, w), Strongest(g, n))
  {
    BaseIsCarried(g, n);
    forall w | IsWalk(g.edges, w) && w[0] == n
      ensures AtMost(Felt(g, w), Strongest(g, n))
    {
      assert Carries(g, n, Felt(g, w));
    }
  }

  /** The level a node feels through one edge never exceeds its strongest walk. */
  lemma StrongestAbsorbs(g: Graph, n: Id, d: Id)
    requires Edge(n, d) in g.edges
    ensures AtMost(Propagate(Strongest(g, d)), Strongest(g, n))
  {
    StrongestIsMaximum(g, d);
    StrongestIsMaximum(g, n);
    var w :| IsWalk(g.edges, w) && w[0] == d && Felt(g, w) == Strongest(g, d);
    Prepend(g.edges, n, w);
    assert Felt(g, [n] + w) == Propagate(Felt(g, w));
  }

  /** The strongest walk either stays put or goes through some dependency. */
  lemma StrongestIsAttained(g: Graph, n: Id) returns (d: Id)
    ensures Strongest(g, n) == g.Base(n)
         || (Edge(n, d) in g.edges && Strongest(g, n) == Propagate(Strongest(g, d)))
    ensures AtMost(g.Base(n), Strongest(g, n))
  {
    StrongestIsMaximum(g, n);
    BaseIsCarried(g, n);
    d := n;
    var w :| IsWalk(g.edges, w) && w[0] == n && Felt(g, w) == Strongest(g, n);
    if |w| > 1 {
      d := w[1];
      StrongestIsMaximum(g, d);
      assert AtMost(Felt(g, w[1..]), Strongest(g, d));
      StrongestAbsorbs(g, n, d);
    }
  }

  /** `s(n) = max(base(n), max over edges n -> d of P(s(d)))` at one node. */
  ghost predicate SolvesAt(g: Graph, s: map<Id, BumpLevel>, n: Id)
    requires s.Keys == g.Nodes() && n in s
  {
    && AtMost(g.Base(n), s[n])
    && (forall d :: Edge(n, d) in g.edges ==> d in s && AtMost(Propagate(s[d]), s[n]))
    && (s[n] == g.Base(n) || exists d :: Edge(n, d) in g.edges && d in s && s[n] == Propagate(s[d]))
  }

  ghost predicate Solves(g: Graph, s: map<Id, BumpLevel>) {
    s.Keys == g.Nodes() && forall n {:trigger SolvesAt(g, s, n)} :: n in s ==> SolvesAt(g, s, n)
  }

  ghost function StrongestLevels(g: Graph): map<Id, BumpLevel> {
    map n | n in g.Nodes() :: Strongest(g, n)
  }

  lemma EdgeEndsAreNodes(g: Graph, n: Id, d: Id)
    requires Edge(n, d) in g.edges
    ensures n in g.Nodes() && d in g.Nodes()
  {
  }

  lemma {:induction false} WalkBoundsSolution(g: Graph, s: map<Id, BumpLevel>, w: seq<Id>)
    requires Solves(g, s) && IsWalk(g.edges, w) && w[0] in s
    ensures AtMost(Felt(g, w), s[w[0]])
    decreases |w|
  {
    assert SolvesAt(g, s, w[0]);
    if |w| > 1 {
      EdgeEndsAreNodes(g, w[0], w[1]);
      WalkBoundsSolution(g, s, w[1..]);
    }
  }

  lemma StrongestSolvesAt(g: Graph, n: Id)
    requires n in g.Nodes()
    ensures SolvesAt(g, StrongestLevels(g), n)
  {
    var best := StrongestLevels(g);
    var via := StrongestIsAttained(g, n);
    forall d | Edge(n, d) in g.edges
      ensures d in best && AtMost(Propagate(best[d]), best[n])
    {
      EdgeEndsAreNodes(g, n, d);
      StrongestAbsorbs(g, n, d);
    }
    if best[n] != g.Base(n) {
      assert Edge(n, via) in g.edges && best[n] == Propagate(best[via]);
    }
  }

  lemma SolutionAboveStrongest(g: Graph, s: map<Id, BumpLevel>, n: Id)
    requires Solves(g, s) && n in s
    ensures AtMost(Strongest(g, n), s[n])
  {
    StrongestIsMaximum(g, n);
    var w :| IsWalk(g.edges, w) && w[0] == n && Felt(g, w) == Strongest(g, n);
    WalkBoundsSolution(g, s, w);
  }

  /** On every edge set, cyclic or not, the maximum over walks is the least solution. */
  lemma StrongestIsLeastSolution(g: Graph)
    ensures Solves(g, StrongestLevels(g))
    ensures forall s, n :: Solves(g, s) && n in s ==> AtMost(Strongest(g, n), s[n])
  {
    forall n | n in g.Nodes()
      ensures SolvesAt(g, StrongestLevels(g), n)
    {
      StrongestSolvesAt(g, n);
    }
    forall s, n | Solves(g, s) && n in s
      ensures AtMost(Strongest(g, n), s[n])
    {
      SolutionAboveStrongest(g, s, n);
    }
  }

  lemma CycleFreeStep(edges: set<Edge>, n: Id, d: Id)
    requires CycleFree(edges, n) && Edge(n, d) in edges
    ensures CycleFree(edges, d)
  {
    EdgeIsDependency(edges, n, d);
    forall b | Reaches(edges, d, b)
      ensures !DependsOn(edges, b, b)
    {
      ReachesTransitive(edges, n, d, b);
    }
  }

  /** Every node of `above` has `n` as a (transitive) dependency. */
  ghost predicate AllDependOn(edges: set<Edge>, above: set<Id>, n: Id) {
    forall a {:trigger DependsOn(edges, a, n)} :: a in above ==> DependsOn(edges, a, n)
  }

  lemma NothingAbove(edges: set<Edge>, n: Id)
    ensures AllDependOn(edges, {}, n)
  {
  }

  /** Walking from `n` down to a dependency keeps the nodes above it above. */
  lemma DescendOnce(edges: set<Edge>, above: set<Id>, n: Id, d: Id)
    requires AllDependOn(edges, above, n) && Edge(n, d) in edges
    ensures AllDependOn(edges, above + {n}, d)
    ensures CycleFree(edges, n) ==> n !in above && CycleFree(edges, d)
  {
    EdgeIsDependency(edges, n, d);
    forall a | a in above
      ensures DependsOn(edges, a, d)
    {
      assert DependsOn(edges, a, n);
      DependencyReaches(edges, a, n);
      ReachesTransitive(edges, a, n, d);
    }
    if CycleFree(edges, n) {
      ReachesItself(edges, n);
      assert !DependsOn(edges, n, n);
      CycleFreeStep(edges, n, d);
    }
  }

  /** Unrolls a solution's justifications; on a cycle-free node the chain must end at a base. */
  lemma {:induction false} SolutionIsCarried(g: Graph, s: map<Id, BumpLevel>, n: Id, above: set<Id>)
    requires Solves(g, s) && n in s && CycleFree(g.edges, n)
    requires above <= g.Nodes() && AllDependOn(g.edges, above, n)
    ensures Carries(g, n, s[n])
    decreases g.Nodes() - above
  {
    hide CycleFree;
    assert SolvesAt(g, s, n);
    if s[n] == g.Base(n) {
      BaseIsCarried(g, n);
    } else {
      var d :| Edge(n, d) in g.edges && d in s && s[n] == Propagate(s[d]);
      DescendOnce(g.edges, above, n, d);
      SolutionIsCarried(g, s, d, above + {n});
      var w :| IsWalk(g.edges, w) && w[0] == d && Felt(g, w) == s[d];
      Prepend(g.edges, n, w);
      assert Felt(g, [n] + w) == s[n];
    }
  }

  /** Wherever no cycle is reachable, every solution agrees with the strongest walk. */
  lemma SolutionUniqueWhereCycleFree(g: Graph, s: map<Id, BumpLevel>, n: Id)
    requires Solves(g, s) && n in s && CycleFree(g.edges, n)
    ensures s[n] == Strongest(g, n)
  {
    SolutionIsCarried(g, s, n, {});
    StrongestIsMaximum(g, n);
    SolutionAboveStrongest(g, s, n);
    var w :| IsWalk(g.edges, w) && w[0] == n && Felt(g, w) == s[n];
    assert AtMost(Felt(g, w), Strongest(g, n));
  }

  /** On an acyclic graph the recursive equation has exactly one solution. */
  lemma AcyclicSolutionIsUnique(g: Graph, s: map<Id, BumpLevel>)
    requires Acyclic(g.edges)
    ensures Solves(g, s) <==> s == StrongestLevels(g)
  {
    StrongestIsLeastSolution(g);
    if Solves(g, s) {
      forall n | n in s
        ensures s[n] == Strongest(g, n)
      {
        SolutionUniqueWhereCycleFree(g, s, n);
      }
    }
  }

  /** Acyclicity is needed: an unchanged component on a self-edge admits a spurious patch. */
  lemma CyclicSolutionsDiffer() returns (g: Graph, s: map<Id, BumpLevel>)
    ensures Solves(g, s) && s != StrongestLevels(g)
  {
    g := Graph(map["a" := NoBump], {Edge("a", "a")});
    s := map["a" := Patch];
    var t := map["a" := NoBump];
    assert Edge("a", "a") in g.edges;
    assert g.Nodes() == {"a"};
    assert SolvesAt(g, t, "a") && SolvesAt(g, s, "a");
    SolutionAboveStrongest(g, t, "a");
  }

  // ----- The traversal -----

  /** Between the base and the strongest walk, and exact wherever no cycle is reachable. */
  ghost predicate Sound(g: Graph, n: Id, level: BumpLevel) {
    && AtMost(g.Base(n), level)
    && AtMost(level, Strongest(g, n))
    && (CycleFree(g.edges, n) ==> level == Strongest(g, n))
  }

  /** What a finished node guarantees: soundness, and every direct dependency's base is felt. */
  ghost predicate Settled(g: Graph, n: Id, level: BumpLevel) {
    && Sound(g, n, level)
    && (forall d :: Edge(n, d) in g.edges ==> AtMost(Propagate(g.Base(d)), level))
  }

  lemma SettledIsSound(g: Graph, n: Id, level: BumpLevel)
    requires Settled(g, n, level)
    ensures Sound(g, n, level)
  {
  }

  /** Cutting off a back-edge at the base is sound, because its end lies on a cycle. */
  lemma BackEdgeIsSound(g: Graph, visiting: set<Id>, n: Id)
    requires AllDependOn(g.edges, visiting, n) && n in visiting
    ensures Sound(g, n, g.Base(n))
  {
    var _ := StrongestIsAttained(g, n);
    ReachesItself(g.edges, n);
    assert DependsOn(g.edges, n, n);
  }

  /** Combining sound contributions, one per dependency, settles the node. */
  lemma CombiningSettles(g: Graph, n: Id, deps: seq<Id>, felt: seq<BumpLevel>, level: BumpLevel)
    requires |felt| == |deps| && forall d :: Edge(n, d) in g.edges <==> d in deps
    requires forall i :: 0 <= i < |deps| ==> Sound(g, deps[i], felt[i])
    requires AtMost(g.Base(n), level)
    requires forall i :: 0 <= i < |deps| ==> AtMost(Propagate(felt[i]), level)
    requires level == g.Base(n) || exists i :: 0 <= i < |deps| && level == Propagate(felt[i])
    ensures Settled(g, n, level)
  {
    hide Strongest, CycleFree;
    var best := StrongestIsAttained(g, n);
    if level != g.Base(n) {
      var i :| 0 <= i < |deps| && level == Propagate(felt[i]);
      assert Sound(g, deps[i], felt[i]);
      StrongestAbsorbs(g, n, deps[i]);
    }
    forall d | Edge(n, d) in g.edges
      ensures AtMost(Propagate(g.Base(d)), level)
    {
      var i :| 0 <= i < |deps| && deps[i] == d;
      assert Sound(g, deps[i], felt[i]);
    }
    if CycleFree(g.edges, n) && Strongest(g, n) != g.Base(n) {
      CycleFreeStep(g.edges, n, best);
      var i :| 0 <= i < |deps| && deps[i] == best;
      assert Sound(g, deps[i], felt[i]) && AtMost(Propagate(felt[i]), level);
    }
  }

  /** `dependencies` lists exactly the edges, with an entry for every node. */
  ghost predicate Lists(g: Graph, dependencies: map<Id, seq<Id>>) {
    && dependencies.Keys == g.Nodes()
    && forall a, b {:trigger Edge(a, b)} :: a in dependencies ==> (Edge(a, b) in g.edges <==> b in dependencies[a])
  }

  /** What the recursive call on a listed dependency needs to know. */
  lemma DependencyCanBeVisited(g: Graph, dependencies: map<Id, seq<Id>>, visiting: set<Id>, node: Id, d: Id)
    requires Lists(g, dependencies) && node in dependencies && d in dependencies[node]
    requires node in visiting && AllDependOn(g.edges, visiting - {node}, node)
    ensures d in g.Nodes() && AllDependOn(g.edges, visiting, d)
  {
    assert Edge(node, d) in g.edges;
    EdgeEndsAreNodes(g, node, d);
    DescendOnce(g.edges, visiting - {node}, node, d);
    assert visiting - {node} + {node} == visiting;
  }

  lemma ListedContributionsSettle(g: Graph, dependencies: map<Id, seq<Id>>, node: Id, felt: seq<BumpLevel>,
                                  all: seq<BumpLevel>, level: BumpLevel)
    requires Lists(g, dependencies) && node in dependencies && |felt| == |dependencies[node]|
    requires forall i :: 0 <= i < |felt| ==> Sound(g, dependencies[node][i], felt[i])
    requires |all| == |felt| + 1 && all[0] == g.Base(node)
    requires forall i :: 0 <= i < |felt| ==> all[i + 1] == Propagate(felt[i])
    requires level in all && forall l :: l in all ==> AtMost(l, level)
    ensures Settled(g, node, level)
  {
    hide Sound, Settled;
    assert forall l :: l in all[1..] ==> l in all;
    assert forall i :: 0 <= i < |felt| ==> all[1..][i] == Propagate(felt[i]);
    var k :| 0 <= k < |all| && all[k] == level;
    assert k > 0 ==> level == Propagate(felt[k - 1]);
    assert forall d :: Edge(node, d) in g.edges <==> d in dependencies[node];
    CombiningSettles(g, node, dependencies[node], felt, level);
  }

  /** The state the nested function `effective` closes over. */
  class Traversal {
    ghost const g: Graph
    const dependencies: map<Id, seq<Id>>
    const base: map<Id, BumpLevel>
    var memo: map<Id, BumpLevel>
    var visiting: set<Id>

    ghost predicate Valid()
      reads this
    {
      && Lists(g, dependencies)
      && dependencies.Keys == base.Keys == g.Nodes()
      && (forall n :: n in base ==> base[n] == g.Base(n))
      && memo.Keys <= g.Nodes()
      && visiting <= g.Nodes()
      && (forall n :: n in memo ==> Settled(g, n, memo[n]))
    }

    /** Memoised levels are never revised. */
    twostate predicate Remembers()
      reads this
    {
      forall n :: n in old(memo) ==> n in memo && memo[n] == old(memo)[n]
    }

    constructor (ghost graph: Graph, dependencies: map<Id, seq<Id>>, base: map<Id, BumpLevel>)
      requires Lists(graph, dependencies) && dependencies.Keys == base.Keys == graph.Nodes()
      requires forall n :: n in base ==> base[n] == graph.Base(n)
      ensures Valid() && g == graph && memo == map[] && visiting == {}
    {
      g := graph;
      this.dependencies := dependencies;
      this.base := base;
      memo := map[];
      visiting := {};
    }

    /** Terminates on cycles too: each call either returns at once or visits a new node. */
    method Effective(node: Id) returns (level: BumpLevel)
      requires Valid() && node in g.Nodes() && AllDependOn(g.edges, visiting, node)
      modifies this
      ensures Valid() && visiting == old(visiting) && Remembers()
      ensures Sound(g, node, level)
      ensures node !in visiting ==> node in memo && memo[node] == level
      decreases g.Nodes() - visiting, 1
    {
      hide Sound, Settled, Lists, AllDependOn;
      if node in memo {
        SettledIsSound(g, node, memo[node]);
        return memo[node];
      }
      if node in visiting {
        BackEdgeIsSound(g, visiting, node);
        return base[node];
      }
      visiting := visiting + {node};
      assert visiting - {node} == old(visiting);
      level := Combine(node);
      SettledIsSound(g, node, level);
      visiting := visiting - {node};
      memo := memo[node := level];
    }

    /** The contributions of a node's dependencies and their maximum with its base. */
    method Combine(node: Id) returns (level: BumpLevel)
      requires Valid() && node in visiting && node !in memo
      requires AllDependOn(g.edges, visiting - {node}, node)
      modifies this
      ensures Valid() && visiting == old(visiting) && Remembers()
      ensures Settled(g, node, level)
      decreases g.Nodes() - visiting, 2
    {
      hide Sound, Settled, Lists, AllDependOn;
      var mine := dependencies[node];
      var contributions: seq<BumpLevel> := [];
      ghost var felt: seq<BumpLevel> := [];
      for i := 0 to |mine|
        invariant Valid() && visiting == old(visiting) && Remembers()
        invariant |contributions| == |felt| == i
        invariant forall j :: 0 <= j < i ==> contributions[j] == Propagate(felt[j])
        invariant forall j :: 0 <= j < i ==> Sound(g, mine[j], felt[j])
      {
        var d := mine[i];
        DependencyCanBeVisited(g, dependencies, visiting, node, d);
        var contribution := Effective(d);
        felt := felt + [contribution];
        contributions := contributions + [Propagate(contribution)];
      }
      var all := [base[node]] + contributions;
      level := MaxLevel(all);
      ListedContributionsSettle(g, dependencies, node, felt, all, level);
    }
  }

  /** The dependency lists, in the insertion order of the dictionary that holds them. */
  method BuildDependencies(keys: seq<Id>, own: map<Id, BumpLevel>, edges: seq<Edge>)
    returns (order: seq<Id>, dependencies: map<Id, seq<Id>>)
    requires forall k :: k in keys <==> k in own
    ensures forall n :: n in order <==> n in dependencies
    ensures Lists(Graph(own, EdgeSet(edges)), dependencies)
    ensures dependencies.Keys == Graph(own, EdgeSet(edges)).Nodes()
  {
    hide Lists;
    order, dependencies := keys, map k | k in keys :: [];
    assert Lists(Graph(own, EdgeSet(edges[..0])), dependencies) by {
      NothingListed(own, dependencies);
      assert EdgeSet(edges[..0]) == {};
    }
    for i := 0 to |edges|
      invariant forall n :: n in order <==> n in dependencies
      invariant Lists(Graph(own, EdgeSet(edges[..i])), dependencies)
    {
      var e := edges[i];
      ghost var before := dependencies;
      if e.dependent !in dependencies {
        order, dependencies := order + [e.dependent], dependencies[e.dependent := []];
      }
      if e.dependency !in dependencies {
        order, dependencies := order + [e.dependency], dependencies[e.dependency := []];
      }
      dependencies := dependencies[e.dependent := dependencies[e.dependent] + [e.dependency]];
      ListingGrows(own, EdgeSet(edges[..i]), before, e, dependencies);
      assert EdgeSet(edges[..i + 1]) == EdgeSet(edges[..i]) + {e} by {
        assert edges[..i + 1] == edges[..i] + [e];
      }
    }
    assert edges[..|edges|] == edges;
    assert dependencies.Keys == Graph(own, EdgeSet(edges)).Nodes() by {
      ListedKeys(Graph(own, EdgeSet(edges)), dependencies);
    }
  }

  lemma ListedKeys(g: Graph, dependencies: map<Id, seq<Id>>)
    requires Lists(g, dependencies)
    ensures dependencies.Keys == g.Nodes()
  {
  }

  lemma NothingListed(own: map<Id, BumpLevel>, dependencies: map<Id, seq<Id>>)
    requires dependencies.Keys == own.Keys && forall n :: n in dependencies ==> dependencies[n] == []
    ensures Lists(Graph(own, {}), dependencies)
  {
  }

  /** Recording one more edge keeps the lists exact. */
  lemma EndpointsGrow(edges: set<Edge>, e: Edge)
    ensures Endpoints(edges + {e}) == Endpoints(edges) + {e.dependent, e.dependency}
  {
  }

  lemma ListingGrows(own: map<Id, BumpLevel>, edges: set<Edge>, before: map<Id, seq<Id>>, e: Edge,
                     after: map<Id, seq<Id>>)
    requires Lists(Graph(own, edges), before)
    requires after.Keys == before.Keys + {e.dependent, e.dependency}
    requires forall n :: n in after && n != e.dependent ==>
      after[n] == if n in before then before[n] else []
    requires after[e.dependent] == (if e.dependent in before then before[e.dependent] else []) + [e.dependency]
    ensures Lists(Graph(own, edges + {e}), after)
  {
    EndpointsGrow(edges, e);
    hide Endpoints;
    forall a, b | a in after
      ensures Edge(a, b) in edges + {e} <==> b in after[a]
    {
      if a !in before && Edge(a, b) in edges {
        EdgeEndsAreNodes(Graph(own, edges), a, b);
      }
    }
  }

  /** The levels of a whole graph, one settled level per node. */
  ghost predicate SettledLevels(g: Graph, levels: map<Id, BumpLevel>) {
    levels.Keys == g.Nodes() && forall n {:trigger Settled(g, n, levels[n])} :: n in levels ==> Settled(g, n, levels[n])
  }

  lemma SettledLevelsAreExact(g: Graph, levels: map<Id, BumpLevel>)
    requires SettledLevels(g, levels)
    ensures Acyclic(g.edges) ==> levels == StrongestLevels(g)
  {
    if Acyclic(g.edges) {
      forall n | n in levels
        ensures levels[n] == Strongest(g, n)
      {
        assert Settled(g, n, levels[n]) && CycleFree(g.edges, n);
      }
    }
  }

  /**
   * Terminates on every edge list, in every key order, and settles every node.  On an acyclic list
   * the answer is the maximum over walks, so neither order can be observed.
   */
  method EffectiveLevels(keys: seq<Id>, own: map<Id, BumpLevel>, edges: seq<Edge>)
    returns (levels: map<Id, BumpLevel>)
    requires forall k :: k in keys <==> k in own
    ensures SettledLevels(Graph(own, EdgeSet(edges)), levels)
    ensures Acyclic(EdgeSet(edges)) ==> levels == StrongestLevels(Graph(own, EdgeSet(edges)))
  {
    hide Settled, Sound, Lists, StrongestLevels, Acyclic, EdgeSet, AllDependOn;
    ghost var g := Graph(own, EdgeSet(edges));
    var order, dependencies := BuildDependencies(keys, own, edges);
    var base := map n | n in dependencies :: if n in own then own[n] else Major;
    var traversal := new Traversal(g, dependencies, base);
    levels := map[];
    for i := 0 to |order|
      invariant fresh(traversal) && traversal.Valid() && traversal.g == g && traversal.visiting == {}
      invariant forall n :: n in levels <==> n in order[..i]
      invariant forall n :: n in levels ==> Settled(g, n, levels[n])
    {
      NothingAbove(g.edges, order[i]);
      var level := traversal.Effective(order[i]);
      assert Settled(g, order[i], level);
      levels := levels[order[i] := level];
      assert order[..i + 1] == order[..i] + [order[i]];
    }
    assert order[..|order|] == order;
    SettledLevelsAreExact(g, levels);
  }

  // ----- The product bump -----

  /** Some active component depends directly on an endpoint that has no own level. */
  ghost predicate Dangles(own: map<Id, BumpLevel>, edges: set<Edge>) {
    exists e :: e in edges && e.dependent in own && e.dependency !in own
  }

  /** The closed form of the derived product bump. */
  ghost function ProductBump(own: map<Id, BumpLevel>, edges: set<Edge>, removedAny: bool): BumpLevel {
    Highest(own.Values
            + (if Dangles(own, edges) then {Minor} else {})
            + (if removedAny then {Major} else {}))
  }

  /** A walk out of an active component carries no more than the closed form allows. */
  lemma {:induction false} WalkBelowProductBump(g: Graph, w: seq<Id>, bound: BumpLevel)
    requires IsWalk(g.edges, w) && w[0] in g.own
    requires forall l :: l in g.own.Values ==> AtMost(l, bound)
    requires Dangles(g.own, g.edges) ==> AtMost(Minor, bound)
    ensures AtMost(Felt(g, w), bound)
    decreases |w|
  {
    if |w| > 1 {
      if w[1] in g.own {
        WalkBelowProductBump(g, w[1..], bound);
      } else {
        assert Edge(w[0], w[1]).dependency !in g.own;
      }
    }
  }

  lemma LevelsMeetProductBump(g: Graph, levels: map<Id, BumpLevel>, n: Id)
    requires SettledLevels(g, levels) && n in g.own && n in levels
    ensures AtMost(g.own[n], levels[n])
    ensures AtMost(levels[n], ProductBump(g.own, g.edges, false))
  {
    assert Settled(g, n, levels[n]);
    StrongestIsMaximum(g, n);
    var w :| IsWalk(g.edges, w) && w[0] == n && Felt(g, w) == Strongest(g, n);
    var terms := g.own.Values + if Dangles(g.own, g.edges) then {Minor} else {};
    HighestIsLeastUpperBound(terms, Highest(terms));
    assert ProductBump(g.own, g.edges, false) == Highest(terms) by {
      assert terms + {} == terms;
    }
    WalkBelowProductBump(g, w, Highest(terms));
  }

  /** The graph-wide maximum, for every edge list and in every key order. */
  method DeriveProductBump(keys: seq<Id>, own: map<Id, BumpLevel>, edges: seq<Edge>, removedAny: bool)
    returns (bump: BumpLevel)
    requires forall k :: k in keys <==> k in own
    ensures bump == ProductBump(own, EdgeSet(edges), removedAny)
  {
    hide SettledLevels, Strongest, Acyclic, EdgeSet, ProductBump, StrongestLevels;
    ghost var g := Graph(own, EdgeSet(edges));
    var effective := EffectiveLevels(keys, own, edges);
    NodesHaveLevels(g, effective);
    var levels: seq<BumpLevel> := [];
    for i := 0 to |keys|
      invariant |levels| == i
      invariant forall j :: 0 <= j < i ==> levels[j] == effective[keys[j]]
    {
      levels := levels + [effective[keys[i]]];
    }
    ghost var active := set l | l in levels;
    assert forall n :: n in g.own ==> exists j :: 0 <= j < |keys| && keys[j] == n;
    if removedAny {
      levels := levels + [Major];
      assert Major in levels;
    }
    bump := MaxLevel(levels);
    if removedAny {
      RemovalForcesMajor(own, EdgeSet(edges));
    } else {
      MaximumIsProductBump(g, effective, active, bump);
    }
  }

  lemma RemovalForcesMajor(own: map<Id, BumpLevel>, edges: set<Edge>)
    ensures ProductBump(own, edges, true) == Major
  {
  }

  /** Each direct dependency on an endpoint without a version is felt as a minor change. */
  lemma DanglingIsFelt(g: Graph, levels: map<Id, BumpLevel>, e: Edge)
    requires SettledLevels(g, levels)
    requires e in g.edges && e.dependent in g.own && e.dependency !in g.own
    ensures e.dependent in levels && AtMost(Minor, levels[e.dependent])
  {
    EdgeEndsAreNodes(g, e.dependent, e.dependency);
    assert Settled(g, e.dependent, levels[e.dependent]);
    assert Edge(e.dependent, e.dependency) == e;
  }

  lemma MaximumIsProductBump(g: Graph, effective: map<Id, BumpLevel>, active: set<BumpLevel>, bump: BumpLevel)
    requires SettledLevels(g, effective)
    requires forall l :: l in active <==> exists n :: n in g.own && n in effective && effective[n] == l
    requires forall l :: l in active ==> AtMost(l, bump)
    requires bump in active || (bump == NoBump && active == {})
    ensures bump == ProductBump(g.own, g.edges, false)
  {
    hide SettledLevels;
    var all := ProductBump(g.own, g.edges, false);
    forall n | n in g.own && n in effective
      ensures AtMost(g.own[n], bump) && AtMost(effective[n], all)
    {
      LevelsMeetProductBump(g, effective, n);
      assert effective[n] in active;
    }
    if Dangles(g.own, g.edges) {
      var e :| e in g.edges && e.dependent in g.own && e.dependency !in g.own;
      DanglingIsFelt(g, effective, e);
      assert effective[e.dependent] in active;
    }
    assert AtMost(bump, all);
    assert AtMost(all, bump) by {
      var terms := g.own.Values + if Dangles(g.own, g.edges) then {Minor} else {};
      assert terms + {} == terms;
      assert g.own.Keys <= effective.Keys by { NodesHaveLevels(g, effective); }
      HighestIsLeastUpperBound(terms, bump);
    }
  }

  lemma StrongestLevelsAreSettled(g: Graph)
    ensures SettledLevels(g, StrongestLevels(g))
  {
    hide Strongest, CycleFree;
    forall n | n in g.Nodes()
      ensures Settled(g, n, Strongest(g, n))
    {
      StrongestSettles(g, n);
    }
  }

  lemma StrongestSettles(g: Graph, n: Id)
    ensures Settled(g, n, Strongest(g, n))
  {
    var _ := StrongestIsAttained(g, n);
    hide Strongest, CycleFree;
    forall d | Edge(n, d) in g.edges
      ensures AtMost(Propagate(g.Base(d)), Strongest(g, n))
    {
      StrongestAbsorbs(g, n, d);
      var _ := StrongestIsAttained(g, d);
    }
  }

  /** The product bump is the highest of the active components' strongest walks. */
  lemma HighestStrongestIsBump(g: Graph)
    ensures Highest((map c | c in g.own :: Strongest(g, c)).Values) == ProductBump(g.own, g.edges, false)
  {
    hide Strongest, SettledLevels, ProductBump;
    var effective := StrongestLevels(g);
    StrongestLevelsAreSettled(g);
    var levels := map c | c in g.own :: Strongest(g, c);
    var active := levels.Values;
    forall l
      ensures l in active <==> exists n :: n in g.own && n in effective && effective[n] == l
    {
      if l in active {
        var n :| n in levels && levels[n] == l;
        assert n in effective;
      }
      if n :| n in g.own && n in effective && effective[n] == l {
        assert levels[n] == l;
      }
    }
    HighestIsLeastUpperBound(active, Highest(active));
    MaximumIsProductBump(g, effective, active, Highest(active));
  }

  lemma NodesHaveLevels(g: Graph, levels: map<Id, BumpLevel>)
    requires SettledLevels(g, levels)
    ensures g.own.Keys <= levels.Keys
  {
  }

  /** The documented slogan "product bump = maximum own change" holds exactly under this condition. */
  lemma MaxOwnChangeIff(own: map<Id, BumpLevel>, edges: set<Edge>, removedAny: bool)
    ensures ProductBump(own, edges, removedAny) == Highest(own.Values) <==>
      && (removedAny ==> Major in own.Values)
      && (Dangles(own, edges) ==> Major in own.Values || Minor in own.Values)
  {
  }

  /** A component with nothing changed but an edge to an unversioned one still bumps the product. */
  lemma MaxOwnChangeFails()
    ensures ProductBump(map["a" := NoBump], {Edge("a", "b")}, false) == Minor
    ensures Highest(map["a" := NoBump].Values) == NoBump
  {
  }
}
