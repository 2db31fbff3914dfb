/** Impact of a hypothetical major change: the server's forward walk and the client's reverse search. */
module Impact {
  import opened Common
  import opened BumpLevels
  import opened DependencyGraph
  import opened BumpPropagation

  /** What a major change to `target` means for `n`: minor when direct, patch when only transitive. */
  ghost function ImpactLevel(edges: set<Edge>, target: Id, n: Id): BumpLevel {
    if Edge(n, target) in edges then Minor
    else if Reaches(edges, n, target) then Patch
    else NoBump
  }

  /** Every component unchanged except the target. */
  function Hypothesis(components: set<Id>, target: Id): map<Id, BumpLevel> {
    map c | c in components :: if c == target then Major else NoBump
  }

  lemma {:induction false} WalkWithinImpact(g: Graph, target: Id, w: seq<Id>)
    requires g.own == Hypothesis(g.own.Keys, target) && Endpoints(g.edges) <= g.own.Keys
    requires IsWalk(g.edges, w) && w[0] in g.own && w[0] != target
    ensures AtMost(Felt(g, w), ImpactLevel(g.edges, target, w[0]))
    decreases |w|
  {
    if |w| > 1 {
      EdgeEndsAreNodes(g, w[0], w[1]);
      EdgeIsDependency(g.edges, w[0], w[1]);
      if w[1] != target {
        WalkWithinImpact(g, target, w[1..]);
        if ImpactLevel(g.edges, target, w[1]) != NoBump {
          if Edge(w[1], target) in g.edges {
            EdgeIsDependency(g.edges, w[1], target);
          }
          ReachesTransitive(g.edges, w[0], w[1], target);
        }
      }
    }
  }

  /** A walk into a major change is felt at least as a patch. */
  lemma {:induction false} WalkIntoMajorIsFelt(g: Graph, w: seq<Id>)
    requires IsWalk(g.edges, w) && g.Base(w[|w| - 1]) == Major
    ensures AtMost(Patch, Felt(g, w))
    decreases |w|
  {
    if |w| > 1 {
      WalkIntoMajorIsFelt(g, w[1..]);
    }
  }

  /** On every graph over the components, the strongest walk projects exactly the impact. */
  lemma StrongestIsImpact(g: Graph, target: Id, n: Id)
    requires g.own == Hypothesis(g.own.Keys, target) && Endpoints(g.edges) <= g.own.Keys
    requires target in g.own && n in g.own && n != target
    ensures Strongest(g, n) == ImpactLevel(g.edges, target, n)
  {
    StrongestIsMaximum(g, n);
    var best :| IsWalk(g.edges, best) && best[0] == n && Felt(g, best) == Strongest(g, n);
    WalkWithinImpact(g, target, best);
    if Edge(n, target) in g.edges {
      var w := [n, target];
      assert IsWalk(g.edges, w[1..]);
      assert Felt(g, w[1..]) == Major && Felt(g, w) == Minor;
    } else if Reaches(g.edges, n, target) {
      var w :| IsWalkFromTo(g.edges, w, n, target);
      WalkIntoMajorIsFelt(g, w);
    }
  }

  /** The components above `NoBump`, target excluded, in the order of the component list. */
  ghost function Impacted(ids: seq<Id>, edges: set<Edge>, target: Id): seq<(Id, BumpLevel)> {
    if ids == [] then []
    else
      var rest := Impacted(ids[..|ids| - 1], edges, target);
      var last := ids[|ids| - 1];
      if last != target && Reaches(edges, last, target)
      then rest + [(last, ImpactLevel(edges, target, last))]
      else rest
  }

  /** The server's projection over one product's components and edges. */
  method ProjectImpact(ids: seq<Id>, edges: seq<Edge>, target: Id) returns (impacted: seq<(Id, BumpLevel)>)
    requires target in ids && Acyclic(EdgeSet(edges))
    requires forall n :: n in Endpoints(EdgeSet(edges)) ==> n in ids
    ensures impacted == Impacted(ids, EdgeSet(edges), target)
  {
    hide Acyclic, Strongest, Reaches, EdgeSet, SettledLevels;
    var components := set n | n in ids;
    var own := Hypothesis(components, target);
    ghost var g := Graph(own, EdgeSet(edges));
    assert own.Keys == components;
    var effective := EffectiveLevels(ids, own, edges);
    impacted := [];
    for i := 0 to |ids|
      invariant impacted == Impacted(ids[..i], g.edges, target)
    {
      assert ids[..i + 1][..i] == ids[..i];
      var id := ids[i];
      assert id in g.own;
      if id != target {
        StrongestIsImpact(g, target, id);
        ImpactLevelIsReach(g.edges, target, id);
        if effective[id] != NoBump {
          impacted := impacted + [(id, effective[id])];
        }
      }
    }
    assert ids[..|ids|] == ids;
  }

  lemma ImpactLevelIsReach(edges: set<Edge>, target: Id, n: Id)
    ensures ImpactLevel(edges, target, n) != NoBump <==> Reaches(edges, n, target)
  {
    if Edge(n, target) in edges {
      EdgeIsDependency(edges, n, target);
    }
  }

  // ----- The client mock -----

  /** The client's policy: a major is felt as a minor, anything else as a patch. */
  function ClientPropagate(level: BumpLevel): BumpLevel {
    if level == Major then Minor else Patch
  }

  /** All direct dependents of `n`, other than the target, have been recorded. */
  ghost predicate Expanded(edges: set<Edge>, target: Id, impacted: map<Id, BumpLevel>, n: Id) {
    forall e :: e in edges && e.dependency == n ==> e.dependent == target || e.dependent in impacted
  }

  ghost predicate ExactImpact(edges: set<Edge>, target: Id, impacted: map<Id, BumpLevel>) {
    forall n :: n in impacted ==>
      n != target && Reaches(edges, n, target) && impacted[n] == ImpactLevel(edges, target, n)
  }

  /** A search closed under direct dependents has found every node that reaches the target. */
  lemma {:induction false} ClosedSearchIsComplete(edges: set<Edge>, target: Id, impacted: map<Id, BumpLevel>,
                                                  w: seq<Id>)
    requires IsWalk(edges, w) && w[|w| - 1] == target
    requires Expanded(edges, target, impacted, target)
    requires forall n :: n in impacted ==> Expanded(edges, target, impacted, n)
    ensures w[0] == target || w[0] in impacted
    decreases |w|
  {
    if |w| > 1 {
      ClosedSearchIsComplete(edges, target, impacted, w[1..]);
      assert Edge(w[0], w[1]).dependency == w[1];
    }
  }

  lemma NewDependentIsExact(edges: set<Edge>, target: Id, impacted: map<Id, BumpLevel>, e: Edge, level: BumpLevel)
    requires e in edges && e.dependent != target && e.dependent !in impacted
    requires if e.dependency == target then level == Major else
               level != Major && Reaches(edges, e.dependency, target) && Expanded(edges, target, impacted, target)
    ensures Reaches(edges, e.dependent, target)
    ensures ClientPropagate(level) == ImpactLevel(edges, target, e.dependent)
  {
    assert e == Edge(e.dependent, e.dependency);
    EdgeIsDependency(edges, e.dependent, e.dependency);
    if e.dependency != target {
      ReachesTransitive(edges, e.dependent, e.dependency, target);
      assert Edge(e.dependent, target) !in edges by {
        assert Edge(e.dependent, target).dependency == target;
      }
    }
  }

  lemma EndsAreEndpoints(edges: set<Edge>, e: Edge)
    requires e in edges
    ensures e.dependent in Endpoints(edges) && e.dependency in Endpoints(edges)
  {
  }

  /** A queued search entry: the target carries its major change, a dependent what it felt. */
  ghost predicate EntryOk(edges: set<Edge>, target: Id, impacted: map<Id, BumpLevel>, entry: (Id, BumpLevel)) {
    if entry.0 == target then entry.1 == Major
    else entry.1 != Major && entry.0 in impacted && Expanded(edges, target, impacted, target)
  }

  ghost predicate Queued(pending: seq<(Id, BumpLevel)>, n: Id) {
    exists entry :: entry in pending && entry.0 == n
  }

  /** Everything found so far is exact, and is either fully expanded or still queued. */
  ghost predicate SearchState(edges: set<Edge>, target: Id, impacted: map<Id, BumpLevel>, done: set<Id>,
                              pending: seq<(Id, BumpLevel)>) {
    && ExactImpact(edges, target, impacted)
    && impacted.Keys <= Endpoints(edges)
    && (forall entry :: entry in pending ==> EntryOk(edges, target, impacted, entry))
    && (forall n {:trigger Expanded(edges, target, impacted, n)} :: n in done ==> Expanded(edges, target, impacted, n))
    && (forall n {:trigger Queued(pending, n)} :: n == target || n in impacted ==> n in done || Queued(pending, n))
  }

  /** The innermost loop: record every new direct dependent of `id` and queue it. */
  method Expand(edges: seq<Edge>, target: Id, id: Id, level: BumpLevel, before: map<Id, BumpLevel>)
    returns (impacted: map<Id, BumpLevel>, found: seq<(Id, BumpLevel)>)
    requires ExactImpact(EdgeSet(edges), target, before) && before.Keys <= Endpoints(EdgeSet(edges))
    requires EntryOk(EdgeSet(edges), target, before, (id, level))
    ensures ExactImpact(EdgeSet(edges), target, impacted) && impacted.Keys <= Endpoints(EdgeSet(edges))
    ensures forall n :: n in before ==> n in impacted
    ensures forall n :: n in impacted <==> n in before || Queued(found, n)
    ensures forall entry :: entry in found ==> entry.0 != target && entry.1 != Major && entry.0 !in before
    ensures Expanded(EdgeSet(edges), target, impacted, id)
  {
    hide Reaches, ImpactLevel, Endpoints;
    ghost var es := EdgeSet(edges);
    impacted, found := before, [];
    for j := 0 to |edges|
      invariant ExactImpact(es, target, impacted) && impacted.Keys <= Endpoints(es)
      invariant forall n :: n in before ==> n in impacted
      invariant forall n :: n in impacted <==> n in before || Queued(found, n)
      invariant forall entry :: entry in found ==> entry.0 != target && entry.1 != Major && entry.0 !in before
      invariant forall e :: e in edges[..j] && e.dependency == id ==> e.dependent == target || e.dependent in impacted
    {
      var edge := edges[j];
      assert edges[..j + 1] == edges[..j] + [edge];
      if edge.dependency != id {
        continue;
      }
      var dependent := edge.dependent;
      if dependent == target || dependent in impacted {
        continue;
      }
      var projected := ClientPropagate(level);
      NewDependentIsExact(es, target, impacted, edge, level);
      EndsAreEndpoints(es, edge);
      ghost var earlier, queue := impacted, found;
      impacted := impacted[dependent := projected];
      found := found + [(dependent, projected)];
      QueueOneMore(queue, (dependent, projected));
    }
    assert edges[..|edges|] == edges;
  }

  lemma QueueOneMore(queue: seq<(Id, BumpLevel)>, entry: (Id, BumpLevel))
    ensures forall n :: Queued(queue + [entry], n) <==> Queued(queue, n) || n == entry.0
  {
  }

  /** Expanding the first pending entry and queueing its finds preserves the search state. */
  lemma ExpansionStep(edges: set<Edge>, target: Id, before: map<Id, BumpLevel>, impacted: map<Id, BumpLevel>,
                      done: set<Id>, pending: seq<(Id, BumpLevel)>, found: seq<(Id, BumpLevel)>)
    requires |pending| > 0 && SearchState(edges, target, before, done, pending)
    requires ExactImpact(edges, target, impacted) && impacted.Keys <= Endpoints(edges)
    requires forall n :: n in before ==> n in impacted
    requires forall n :: n in impacted <==> n in before || Queued(found, n)
    requires forall entry :: entry in found ==> entry.0 != target && entry.1 != Major
    requires Expanded(edges, target, impacted, pending[0].0)
    ensures SearchState(edges, target, impacted, done + {pending[0].0}, pending[1..] + found)
  {
    var rest := pending[1..] + found;
    forall n | n in done
      ensures Expanded(edges, target, impacted, n)
    {
      assert Expanded(edges, target, before, n);
    }
    forall n | n == target || n in impacted
      ensures n in done + {pending[0].0} || Queued(rest, n)
    {
      if Queued(found, n) {
        var entry :| entry in found && entry.0 == n;
        assert entry in rest;
      } else if n !in done {
        assert Queued(pending, n);
        var entry :| entry in pending && entry.0 == n;
        assert entry == pending[0] || entry in rest;
      }
    }
    assert pending[0] in pending;
    assert EntryOk(edges, target, before, pending[0]);
    forall entry | entry in rest
      ensures EntryOk(edges, target, impacted, entry)
    {
      if entry in found {
        assert Queued(found, entry.0);
      } else {
        assert entry in pending;
        assert EntryOk(edges, target, before, entry);
      }
    }
  }

  /** One turn of the frontier loop, seen as a step of the search. */
  method ExpandFirst(edges: seq<Edge>, target: Id, entry: (Id, BumpLevel), before: map<Id, BumpLevel>,
                     ghost done: set<Id>, ghost rest: seq<(Id, BumpLevel)>)
    returns (impacted: map<Id, BumpLevel>, found: seq<(Id, BumpLevel)>)
    requires SearchState(EdgeSet(edges), target, before, done, [entry] + rest)
    ensures SearchState(EdgeSet(edges), target, impacted, done + {entry.0}, rest + found)
    ensures before.Keys <= impacted.Keys && (found != [] ==> before.Keys < impacted.Keys)
    ensures impacted.Keys <= Endpoints(EdgeSet(edges))
  {
    hide Expanded, ExactImpact, EdgeSet;
    ghost var pending := [entry] + rest;
    assert pending[0] in pending;
    impacted, found := Expand(edges, target, entry.0, entry.1, before);
    ExpansionStep(EdgeSet(edges), target, before, impacted, done, pending, found);
    assert pending[1..] == rest;
    if found != [] {
      assert found[0] in found;
      assert Queued(found, found[0].0);
    }
  }

  /** The client's breadth-first search, exact on every edge list, cyclic or not. */
  method ImpactedBy(edges: seq<Edge>, target: Id) returns (impacted: map<Id, BumpLevel>)
    ensures forall n :: n in impacted <==> n != target && Reaches(EdgeSet(edges), n, target)
    ensures forall n :: n in impacted ==> impacted[n] == ImpactLevel(EdgeSet(edges), target, n)
  {
    hide SearchState, Reaches, EdgeSet, Endpoints;
    ghost var es := EdgeSet(edges);
    ghost var done: set<Id> := {};
    impacted := map[];
    var frontier := [(target, Major)];
    SearchStarts(es, target);
    while frontier != []
      invariant SearchState(es, target, impacted, done, frontier)
      decreases Endpoints(es) - impacted.Keys, |frontier|
    {
      var next: seq<(Id, BumpLevel)> := [];
      ghost var start := impacted.Keys;
      assert frontier[0..] + next == frontier;
      for i := 0 to |frontier|
        invariant SearchState(es, target, impacted, done, frontier[i..] + next)
        invariant i > 0 ==> impacted.Keys <= Endpoints(es)
        invariant start <= impacted.Keys && (next != [] ==> start < impacted.Keys)
      {
        ghost var rest := frontier[i + 1..] + next;
        assert [frontier[i]] + rest == frontier[i..] + next;
        var found;
        ghost var id := frontier[i].0;
        impacted, found := ExpandFirst(edges, target, frontier[i], impacted, done, rest);
        done := done + {id};
        next := next + found;
        assert rest + found == frontier[i + 1..] + next;
      }
      assert frontier[|frontier|..] + next == next;
      frontier := next;
    }
    SearchEnds(es, target, impacted, done);
  }

  lemma SearchStarts(edges: set<Edge>, target: Id)
    ensures SearchState(edges, target, map[], {}, [(target, Major)])
  {
  }

  lemma SearchEnds(edges: set<Edge>, target: Id, impacted: map<Id, BumpLevel>, done: set<Id>)
    requires SearchState(edges, target, impacted, done, [])
    ensures forall n :: n in impacted <==> n != target && Reaches(edges, n, target)
    ensures forall n :: n in impacted ==> impacted[n] == ImpactLevel(edges, target, n)
  {
    forall n | n == target || n in impacted
      ensures Expanded(edges, target, impacted, n)
    {
      assert !Queued([], n);
    }
    forall n | n != target && Reaches(edges, n, target)
      ensures n in impacted
    {
      var w :| IsWalkFromTo(edges, w, n, target);
      ClosedSearchIsComplete(edges, target, impacted, w);
    }
  }

  /** The response as a map from component to level. */
  ghost function AsMap(impacted: seq<(Id, BumpLevel)>): map<Id, BumpLevel> {
    if impacted == [] then map[]
    else
      var last := impacted[|impacted| - 1];
      AsMap(impacted[..|impacted| - 1])[last.0 := last.1]
  }

  /** The server's response lists exactly the components other than the target that reach it. */
  lemma {:induction false} ImpactedIsReach(ids: seq<Id>, edges: set<Edge>, target: Id)
    ensures var m := AsMap(Impacted(ids, edges, target));
      && (forall n :: n in m <==> n in ids && n != target && Reaches(edges, n, target))
      && (forall n :: n in m ==> m[n] == ImpactLevel(edges, target, n))
    decreases |ids|
  {
    if ids != [] {
      var front, last := ids[..|ids| - 1], ids[|ids| - 1];
      ImpactedIsReach(front, edges, target);
      assert forall n :: n in ids <==> n in front || n == last;
      var rest := Impacted(front, edges, target);
      if last != target && Reaches(edges, last, target) {
        var entry := (last, ImpactLevel(edges, target, last));
        assert (rest + [entry])[..|rest|] == rest;
      }
    }
  }

  /** The components of a response, in order. */
  function Listed(entries: seq<(Id, BumpLevel)>): seq<Id> {
    if entries == [] then [] else Listed(entries[..|entries| - 1]) + [entries[|entries| - 1].0]
  }

  /** Listing the components in ascending order lists the response in ascending order, each component once. */
  lemma {:induction false} ImpactedIsAscending(ids: seq<Id>, edges: set<Edge>, target: Id)
    requires Ascending(ids)
    ensures Ascending(Listed(Impacted(ids, edges, target)))
    ensures forall x :: x in Listed(Impacted(ids, edges, target)) ==> x in ids
    decreases |ids|
  {
    hide Reaches, ImpactLevel, IdBefore;
    if ids != [] {
      var front, last := ids[..|ids| - 1], ids[|ids| - 1];
      ImpactedIsAscending(front, edges, target);
      var rest := Impacted(front, edges, target);
      if last != target && Reaches(edges, last, target) {
        var entry := (last, ImpactLevel(edges, target, last));
        assert (rest + [entry])[..|rest|] == rest;
        assert Listed(rest + [entry]) == Listed(rest) + [last];
        forall i | 0 <= i < |Listed(rest)|
          ensures IdBefore(Listed(rest)[i], last)
        {
          assert Listed(rest)[i] in front by { assert Listed(rest)[i] in Listed(rest); }
          var k :| 0 <= k < |front| && front[k] == Listed(rest)[i];
          assert IdBefore(ids[k], ids[|ids| - 1]);
        }
      }
    }
  }

  lemma ReachersAreEndpoints(edges: set<Edge>, target: Id)
    ensures forall n :: n != target && Reaches(edges, n, target) ==> n in Endpoints(edges)
  {
  }

  /** Server and client agree: the reverse search computes the forward projection's map. */
  method ClientMatchesServer(ids: seq<Id>, edges: seq<Edge>, target: Id)
    returns (server: seq<(Id, BumpLevel)>, client: map<Id, BumpLevel>)
    requires target in ids && Acyclic(EdgeSet(edges))
    requires forall n :: n in Endpoints(EdgeSet(edges)) ==> n in ids
    ensures AsMap(server) == client
    ensures forall n :: n in client <==> n != target && Reaches(EdgeSet(edges), n, target)
  {
    server := ProjectImpact(ids, edges, target);
    client := ImpactedBy(edges, target);
    ghost var es := EdgeSet(edges);
    ImpactedIsReach(ids, es, target);
    ReachersAreEndpoints(es, target);
    assert AsMap(server).Keys == client.Keys;
  }
}
