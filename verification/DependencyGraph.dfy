/** Walks over dependency edges, and the stack search that guards against cycles. */
module DependencyGraph {
  import opened Common

  /** `dependent` depends on `dependency`. */
  datatype Edge = Edge(dependent: Id, dependency: Id)

  // ----- Walks: what reachability means -----

  ghost predicate IsWalk(edges: set<Edge>, w: seq<Id>) {
    && |w| > 0
    && (|w| > 1 ==> Edge(w[0], w[1]) in edges && IsWalk(edges, w[1..]))
  }

  ghost predicate IsWalkFromTo(edges: set<Edge>, w: seq<Id>, a: Id, b: Id) {
    IsWalk(edges, w) && w[0] == a && w[|w| - 1] == b
  }

  /** A walk of any length, zero steps included. */
  ghost predicate Reaches(edges: set<Edge>, a: Id, b: Id) {
    exists w :: IsWalkFromTo(edges, w, a, b)
  }

  /** A walk of at least one step. */
  ghost predicate DependsOn(edges: set<Edge>, a: Id, b: Id) {
    exists w :: IsWalkFromTo(edges, w, a, b) && |w| >= 2
  }

  ghost predicate Acyclic(edges: set<Edge>) {
    forall a :: !DependsOn(edges, a, a)
  }

  /** No cycle can be reached from `a`. */
  ghost predicate CycleFree(edges: set<Edge>, a: Id) {
    forall b :: Reaches(edges, a, b) ==> !DependsOn(edges, b, b)
  }

  lemma ReachesItself(edges: set<Edge>, a: Id)
    ensures Reaches(edges, a, a)
  {
    assert IsWalkFromTo(edges, [a], a, a);
  }

  lemma EdgeIsDependency(edges: set<Edge>, a: Id, b: Id)
    requires Edge(a, b) in edges
    ensures DependsOn(edges, a, b) && Reaches(edges, a, b)
  {
    assert IsWalkFromTo(edges, [a, b], a, b);
  }

  /** A walk prefixed by an edge into its start. */
  lemma Prepend(edges: set<Edge>, a: Id, w: seq<Id>)
    requires IsWalk(edges, w) && Edge(a, w[0]) in edges
    ensures IsWalkFromTo(edges, [a] + w, a, w[|w| - 1]) && ([a] + w)[1..] == w
  {
  }

  lemma {:induction false} WalkConcat(edges: set<Edge>, v: seq<Id>, w: seq<Id>)
    requires IsWalk(edges, v) && IsWalk(edges, w) && v[|v| - 1] == w[0]
    ensures IsWalkFromTo(edges, v + w[1..], v[0], w[|w| - 1])
    decreases |v|
  {
    if |v| == 1 {
      assert v + w[1..] == w;
    } else {
      WalkConcat(edges, v[1..], w);
      assert v + w[1..] == [v[0]] + (v[1..] + w[1..]);
      Prepend(edges, v[0], v[1..] + w[1..]);
    }
  }

  lemma ReachesTransitive(edges: set<Edge>, a: Id, b: Id, c: Id)
    requires Reaches(edges, a, b) && Reaches(edges, b, c)
    ensures Reaches(edges, a, c)
    ensures DependsOn(edges, a, b) || DependsOn(edges, b, c) ==> DependsOn(edges, a, c)
  {
    var v :| IsWalkFromTo(edges, v, a, b) && (DependsOn(edges, a, b) ==> |v| >= 2);
    var w :| IsWalkFromTo(edges, w, b, c) && (DependsOn(edges, b, c) ==> |w| >= 2);
    WalkConcat(edges, v, w);
    assert IsWalkFromTo(edges, v + w[1..], a, c);
  }

  lemma DependencyReaches(edges: set<Edge>, a: Id, b: Id)
    requires DependsOn(edges, a, b)
    ensures Reaches(edges, a, b)
  {
  }

  /** A walk that leaves a set closed under edges does not exist. */
  lemma {:induction false} ClosedSetConfines(edges: set<Edge>, closed: set<Id>, w: seq<Id>)
    requires IsWalk(edges, w) && w[0] in closed
    requires forall e :: e in edges && e.dependent in closed ==> e.dependency in closed
    ensures w[|w| - 1] in closed
    decreases |w|
  {
    if |w| > 1 {
      assert Edge(w[0], w[1]) in edges;
      ClosedSetConfines(edges, closed, w[1..]);
    }
  }

  lemma {:induction false} MoreEdgesKeepWalks(edges: set<Edge>, more: set<Edge>, w: seq<Id>)
    requires edges <= more && IsWalk(edges, w)
    ensures IsWalk(more, w)
    decreases |w|
  {
    if |w| > 1 {
      MoreEdgesKeepWalks(edges, more, w[1..]);
    }
  }

  lemma MoreEdgesKeepDependencies(edges: set<Edge>, more: set<Edge>, a: Id, b: Id)
    requires edges <= more && DependsOn(edges, a, b)
    ensures DependsOn(more, a, b)
  {
    var w :| IsWalkFromTo(edges, w, a, b) && |w| >= 2;
    MoreEdgesKeepWalks(edges, more, w);
    assert IsWalkFromTo(more, w, a, b);
  }

  lemma SubsetAcyclic(edges: set<Edge>, more: set<Edge>)
    requires edges <= more && Acyclic(more)
    ensures Acyclic(edges)
  {
    forall a
      ensures !DependsOn(edges, a, a)
    {
      if DependsOn(edges, a, a) {
        MoreEdgesKeepDependencies(edges, more, a, a);
      }
    }
  }

  /** A walk over `edges + {new}` either avoids the new edge or visits both its ends, tail first. */
  lemma {:induction false} WalkSplits(edges: set<Edge>, added: Edge, w: seq<Id>)
    requires IsWalk(edges + {added}, w)
    ensures IsWalk(edges, w)
         || (Reaches(edges, w[0], added.dependent) && Reaches(edges, added.dependency, w[|w| - 1]))
    decreases |w|
  {
    if |w| > 1 {
      var t := w[1..];
      WalkSplits(edges, added, t);
      if IsWalk(edges, t) {
        if Edge(w[0], w[1]) in edges {
          Prepend(edges, w[0], t);
          assert [w[0]] + t == w;
        } else {
          ReachesItself(edges, w[0]);
          assert IsWalkFromTo(edges, t, w[1], w[|w| - 1]);
        }
      } else if Edge(w[0], w[1]) in edges {
        EdgeIsDependency(edges, w[0], w[1]);
        ReachesTransitive(edges, w[0], w[1], added.dependent);
      } else {
        ReachesItself(edges, w[0]);
      }
    }
  }

  /** The cycle guard is exact: on an acyclic graph an edge is safe iff its head cannot reach its tail. */
  lemma EdgeKeepsAcyclicIff(edges: set<Edge>, added: Edge)
    requires Acyclic(edges)
    ensures Acyclic(edges + {added}) <==> !Reaches(edges, added.dependency, added.dependent)
  {
    var more := edges + {added};
    if Reaches(edges, added.dependency, added.dependent) {
      var w :| IsWalkFromTo(edges, w, added.dependency, added.dependent);
      MoreEdgesKeepWalks(edges, more, w);
      Prepend(more, added.dependent, w);
      assert DependsOn(more, added.dependent, added.dependent);
    } else {
      forall a
        ensures !DependsOn(more, a, a)
      {
        if DependsOn(more, a, a) {
          var w :| IsWalkFromTo(more, w, a, a) && |w| >= 2;
          WalkSplits(edges, added, w);
          assert !DependsOn(edges, a, a);
          ReachesTransitive(edges, added.dependency, a, added.dependent);
        }
      }
    }
  }

  // ----- The search -----

  function EdgeSet(edges: seq<Edge>): set<Edge> {
    set e | e in edges
  }

  function Endpoints(edges: set<Edge>): set<Id> {
    (set e | e in edges :: e.dependent) + (set e | e in edges :: e.dependency)
  }

  method Adjacency(edges: seq<Edge>) returns (adjacency: map<Id, seq<Id>>)
    ensures forall a, b :: Edge(a, b) in edges <==> a in adjacency && b in adjacency[a]
  {
    adjacency := map[];
    for i := 0 to |edges|
      invariant forall a, b :: Edge(a, b) in edges[..i] <==> a in adjacency && b in adjacency[a]
    {
      var e := edges[i];
      ghost var before := adjacency;
      var known := if e.dependent in adjacency then adjacency[e.dependent] else [];
      adjacency := adjacency[e.dependent := known + [e.dependency]];
      assert edges[..i + 1] == edges[..i] + [e];
      forall a, b
        ensures Edge(a, b) in edges[..i + 1] <==> a in adjacency && b in adjacency[a]
      {
        assert Edge(a, b) in edges[..i] <==> a in before && b in before[a];
      }
    }
    assert edges[..|edges|] == edges;
  }

  lemma EndIsEndpoint(edges: set<Edge>, a: Id, b: Id)
    requires Edge(a, b) in edges
    ensures a in Endpoints(edges) && b in Endpoints(edges)
  {
  }

  lemma NothingLeaves(edges: set<Edge>, closed: set<Id>, a: Id, b: Id)
    requires a in closed && b !in closed
    requires forall e :: e in edges && e.dependent in closed ==> e.dependency in closed
    ensures !Reaches(edges, a, b)
  {
    forall w | IsWalk(edges, w) && w[0] == a
      ensures w[|w| - 1] != b
    {
      ClosedSetConfines(edges, closed, w);
    }
  }

  method IsReachable(edges: seq<Edge>, start: Id, target: Id) returns (found: bool)
    ensures found <==> Reaches(EdgeSet(edges), start, target)
  {
    hide Reaches, IsWalk, Endpoints;
    ghost var es := EdgeSet(edges);
    ghost var nodes := Endpoints(es) + {start};
    var adjacency := Adjacency(edges);
    var stack := [start];
    var seen: set<Id> := {};
    ReachesItself(es, start);
    while stack != []
      invariant seen <= nodes
      invariant forall x :: x in stack ==> x in nodes && Reaches(es, start, x)
      invariant forall x :: x in seen ==> Reaches(es, start, x)
      invariant target !in seen
      invariant start in seen || start in stack
      invariant forall e :: e in es && e.dependent in seen ==> e.dependency in seen || e.dependency in stack
      decreases |nodes - seen|, |stack|
    {
      var node := stack[|stack| - 1];
      ghost var popped := stack;
      stack := stack[..|stack| - 1];
      assert forall x :: x in popped ==> x in stack || x == node;
      if node == target {
        return true;
      }
      if node in seen {
        continue;
      }
      ghost var unseen := nodes - seen;
      seen := seen + {node};
      assert nodes - seen == unseen - {node};
      var next := if node in adjacency then adjacency[node] else [];
      forall x | x in next
        ensures x in nodes && Reaches(es, start, x)
      {
        assert Edge(node, x) in es;
        EndIsEndpoint(es, node, x);
        EdgeIsDependency(es, node, x);
        ReachesTransitive(es, start, node, x);
      }
      assert forall e :: e in es && e.dependent == node ==> Edge(node, e.dependency) in edges;
      stack := stack + next;
    }
    NothingLeaves(es, seen, start, target);
    return false;
  }

  /** Whether adding `dependent -> dependency` to an acyclic edge list would close a cycle. */
  method WouldCreateCycle(edges: seq<Edge>, dependent: Id, dependency: Id) returns (cycle: bool)
    ensures cycle <==> Reaches(EdgeSet(edges), dependency, dependent)
    ensures Acyclic(EdgeSet(edges)) ==>
      (cycle <==> !Acyclic(EdgeSet(edges) + {Edge(dependent, dependency)}))
  {
    cycle := IsReachable(edges, dependency, dependent);
    if Acyclic(EdgeSet(edges)) {
      EdgeKeepsAcyclicIff(EdgeSet(edges), Edge(dependent, dependency));
    }
  }
}
