/** The condensed graph and the table order derived from it (graph.go, condenced_edge.go). */
module Condensed {
  import opened Digraph
  import opened FkGraph

  /** An edge between two components; in the reversed condensed graph its ends are exchanged. */
  datatype CondensedEdge = CondensedEdge(id: nat, from: nat, to: nat, originalEdge: Edge) {
    function Flip(): CondensedEdge { CondensedEdge(id, to, from, originalEdge) }
  }

  datatype Condensation = Condensation(
    number: seq<int>,
    count: nat,
    vertices: seq<seq<nat>>,
    componentGraphs: seq<map<nat, seq<Edge>>>,
    condensedGraph: seq<seq<CondensedEdge>>,
    reversedCondensedGraph: seq<seq<CondensedEdge>>)

  // ---------------------------------------------------------------- what condensing means

  /** The edges that stay inside component `c`, in their original order. */
  function Inner(edges: seq<Edge>, number: seq<int>, c: int): (r: seq<Edge>)
    requires forall e :: e in edges ==> e.to < |number|
    ensures forall e :: e in r <==> e in edges && number[e.to] == c
  {
    if edges == [] then []
    else
      var last := edges[|edges| - 1];
      assert forall e :: e in edges <==> e in edges[..|edges| - 1] || e == last;
      Inner(edges[..|edges| - 1], number, c) + (if number[last.to] == c then [last] else [])
  }

  ghost predicate EdgesInRange(edges: seq<Edge>, number: seq<int>) {
    forall e :: e in edges ==> e.from < |number| && e.to < |number| && number[e.from] >= 0 && number[e.to] >= 0
  }

  /** The edges between different components, numbered consecutively. */
  function Cross(edges: seq<Edge>, number: seq<int>): (r: seq<CondensedEdge>)
    requires EdgesInRange(edges, number)
  {
    if edges == [] then []
    else
      var rest := Cross(edges[..|edges| - 1], number);
      var last := edges[|edges| - 1];
      if number[last.from] == number[last.to] then rest
      else rest + [CondensedEdge(|rest|, number[last.from], number[last.to], last)]
  }

  function Leaving(cross: seq<CondensedEdge>, c: nat): seq<CondensedEdge> {
    if cross == [] then []
    else
      var last := cross[|cross| - 1];
      Leaving(cross[..|cross| - 1], c) + (if last.from == c then [last] else [])
  }

  function Entering(cross: seq<CondensedEdge>, c: nat): seq<CondensedEdge> {
    if cross == [] then []
    else
      var last := cross[|cross| - 1];
      Entering(cross[..|cross| - 1], c) + (if last.to == c then [last.Flip()] else [])
  }

  /** The vertices below `upTo`, listed by component. */
  ghost predicate GroupsPrefix(number: seq<int>, count: nat, vertices: seq<seq<nat>>, upTo: nat)
    requires upTo <= |number|
  {
    && |vertices| == count
    && (forall c :: 0 <= c < count ==> Distinct(vertices[c]))
    && (forall c: nat, v: nat :: c < count ==> (v in vertices[c] <==> v < upTo && number[v] == c))
  }

  ghost predicate GroupsVertices(number: seq<int>, count: nat, vertices: seq<seq<nat>>) {
    GroupsPrefix(number, count, vertices, |number|)
  }

  ghost predicate TargetsInRange(graph: seq<seq<Edge>>, number: seq<int>) {
    && |graph| == |number|
    && forall u, e :: 0 <= u < |graph| && e in graph[u] ==> e.to < |number|
  }

  /** The component graph maps each member to its edges inside component `c`. */
  ghost predicate IsComponentGraph(
    graph: seq<seq<Edge>>, number: seq<int>, c: int, members: seq<nat>, componentGraph: map<nat, seq<Edge>>)
    requires TargetsInRange(graph, number)
  {
    && componentGraph.Keys == (set v | v in members)
    && forall v :: v in members ==> v < |graph| && componentGraph[v] == Inner(graph[v], number, c)
  }

  /** What buildCondensedGraph establishes. */
  ghost predicate Condenses(graph: seq<seq<Edge>>, edges: seq<Edge>, c: Condensation) {
    && SccNumbering(Targets(graph), c.number, c.count)
    && GroupsVertices(c.number, c.count, c.vertices)
    && TargetsInRange(graph, c.number) && |c.componentGraphs| == c.count
    && (forall k :: 0 <= k < c.count ==> IsComponentGraph(graph, c.number, k, c.vertices[k], c.componentGraphs[k]))
    && EdgesInRange(edges, c.number)
    && |c.condensedGraph| == |c.reversedCondensedGraph| == c.count
    && (forall k :: 0 <= k < c.count ==>
                      && c.condensedGraph[k] == Leaving(Cross(edges, c.number), k)
                      && c.reversedCondensedGraph[k] == Entering(Cross(edges, c.number), k))
  }

  // ---------------------------------------------------------------- membership

  lemma {:induction false} CrossMembers(edges: seq<Edge>, number: seq<int>)
    requires EdgesInRange(edges, number)
    ensures forall ce :: ce in Cross(edges, number) ==>
                           && ce.originalEdge in edges && ce.from == number[ce.originalEdge.from]
                           && ce.to == number[ce.originalEdge.to] && ce.from != ce.to
    ensures forall e :: e in edges && number[e.from] != number[e.to] ==>
                          exists ce :: ce in Cross(edges, number) && ce.originalEdge == e
    ensures forall i, j :: 0 <= i < j < |Cross(edges, number)| ==>
              Cross(edges, number)[i].id < Cross(edges, number)[j].id
    ensures forall ce :: ce in Cross(edges, number) ==> ce.id < |Cross(edges, number)|
  {
    if edges != [] {
      var init, last := edges[..|edges| - 1], edges[|edges| - 1];
      assert edges == init + [last];
      CrossMembers(init, number);
      var rest, all := Cross(init, number), Cross(edges, number);
      if number[last.from] != number[last.to] {
        assert all[|rest|].originalEdge == last;
        forall i, j | 0 <= i < j < |all|
          ensures all[i].id < all[j].id
        {
          if j == |rest| {
            assert all[i] == rest[i] && rest[i] in rest;
          }
        }
      }
    }
  }

  lemma {:induction false} LeavingMembers(cross: seq<CondensedEdge>, c: nat)
    ensures forall ce :: ce in Leaving(cross, c) <==> ce in cross && ce.from == c
  {
    if cross != [] {
      var init, last := cross[..|cross| - 1], cross[|cross| - 1];
      assert cross == init + [last];
      LeavingMembers(init, c);
    }
  }

  lemma {:induction false} EnteringMembers(cross: seq<CondensedEdge>, c: nat)
    ensures forall ce :: ce in Entering(cross, c) <==> ce.Flip() in cross && ce.from == c
  {
    if cross != [] {
      var init, last := cross[..|cross| - 1], cross[|cross| - 1];
      assert cross == init + [last];
      EnteringMembers(init, c);
      assert forall ce: CondensedEdge :: ce.Flip() == last <==> ce == last.Flip();
    }
  }

  /** Some edge of the graph runs from component `a` to the different component `b`. */
  ghost predicate Linked(edges: seq<Edge>, number: seq<int>, a: int, b: int) {
    exists e :: e in edges && e.from < |number| && e.to < |number| &&
                number[e.from] == a && number[e.to] == b && a != b
  }

  lemma CrossClimbs(graph: seq<seq<Edge>>, edges: seq<Edge>, reversedSimple: Adjacency, c: Condensation)
    requires Loaded(graph, edges, reversedSimple) && Condenses(graph, edges, c)
    ensures forall ce :: ce in Cross(edges, c.number) ==>
                           && ce.originalEdge in edges && ce.from < ce.to < c.count
                           && ce.from == c.number[ce.originalEdge.from] && ce.to == c.number[ce.originalEdge.to]
  {
    CrossMembers(edges, c.number);
    forall ce | ce in Cross(edges, c.number)
      ensures ce.from < ce.to < c.count
    {
      EdgeIsArc(graph, edges, reversedSimple, ce.originalEdge);
    }
  }

  /** Every condensed edge climbs to a strictly larger component number, so the condensed graph is acyclic. */
  lemma CondensedEdgesClimb(graph: seq<seq<Edge>>, edges: seq<Edge>, reversedSimple: Adjacency, c: Condensation, k: nat)
    requires Loaded(graph, edges, reversedSimple) && Condenses(graph, edges, c) && k < c.count
    ensures forall ce :: ce in c.condensedGraph[k] ==>
                           && ce.from == k && k < ce.to < c.count && ce.originalEdge in edges
                           && k == c.number[ce.originalEdge.from] && ce.to == c.number[ce.originalEdge.to]
    ensures forall ce :: ce in c.reversedCondensedGraph[k] ==>
                           && ce.from == k && ce.to < k && ce.originalEdge in edges
                           && k == c.number[ce.originalEdge.to] && ce.to == c.number[ce.originalEdge.from]
  {
    hide SccNumbering, GroupsVertices, IsComponentGraph, Loaded, TargetsInRange;
    var cross := Cross(edges, c.number);
    CrossClimbs(graph, edges, reversedSimple, c);
    LeavingMembers(cross, k);
    EnteringMembers(cross, k);
    assert forall ce :: ce in c.condensedGraph[k] ==> ce in cross;
    assert forall ce :: ce in c.reversedCondensedGraph[k] ==> ce.Flip() in cross;
  }

  /** The condensed graph and its reversal hold an edge for exactly the linked pairs of components. */
  lemma CondensedEdgesAreLinks(graph: seq<seq<Edge>>, edges: seq<Edge>, reversedSimple: Adjacency, c: Condensation,
                               a: nat, b: nat)
    requires Loaded(graph, edges, reversedSimple) && Condenses(graph, edges, c) && a < c.count && b < c.count
    ensures Linked(edges, c.number, a, b) <==> exists ce :: ce in c.condensedGraph[a] && ce.to == b
    ensures Linked(edges, c.number, a, b) <==> exists ce :: ce in c.reversedCondensedGraph[b] && ce.to == a
  {
    hide SccNumbering, GroupsVertices, IsComponentGraph, Loaded, TargetsInRange;
    var cross := Cross(edges, c.number);
    CrossMembers(edges, c.number);
    LeavingMembers(cross, a);
    EnteringMembers(cross, b);
    if Linked(edges, c.number, a, b) {
      var e :| e in edges && c.number[e.from] == a && c.number[e.to] == b && a != b;
      var ce :| ce in cross && ce.originalEdge == e;
      assert ce in c.condensedGraph[a] && ce.to == b;
      assert ce.Flip().Flip() == ce;
      assert ce.Flip() in c.reversedCondensedGraph[b] && ce.Flip().to == a;
    }
    if ce :| ce in c.reversedCondensedGraph[b] && ce.to == a {
      assert ce.Flip() in cross && ce.Flip().originalEdge in edges;
    }
    if ce :| ce in c.condensedGraph[a] && ce.to == b {
      assert ce in cross && ce.originalEdge in edges;
    }
  }

  // ---------------------------------------------------------------- buildCondensedGraph

  method GroupByComponent(number: seq<int>, count: nat) returns (vertices: seq<seq<nat>>)
    requires forall v :: 0 <= v < |number| ==> 0 <= number[v] < count
    ensures GroupsVertices(number, count, vertices)
  {
    vertices := seq(count, _ => []);
    for v := 0 to |number|
      invariant GroupsPrefix(number, count, vertices, v)
    {
      vertices := vertices[number[v] := vertices[number[v]] + [v]];
    }
  }

  /** Edges of one vertex that stay inside its component. */
  method InnerEdges(edges: seq<Edge>, members: seq<nat>, number: seq<int>, c: nat) returns (inner: seq<Edge>)
    requires forall e :: e in edges ==> e.to < |number|
    requires forall v: nat :: v in members <==> v < |number| && number[v] == c
    ensures inner == Inner(edges, number, c)
  {
    inner := [];
    for k := 0 to |edges|
      invariant inner == Inner(edges[..k], number, c)
    {
      assert edges[..k + 1][..k] == edges[..k];
      assert edges[k] in edges;
      if edges[k].to in members {
        inner := inner + [edges[k]];
      }
    }
    assert edges[..|edges|] == edges;
  }

  ghost predicate InnerIds(graph: seq<seq<Edge>>, number: seq<int>, done: set<nat>, ids: set<nat>)
    requires |graph| == |number| && TargetsInRange(graph, number)
  {
    forall id: nat :: id in ids <==>
                        exists u, e :: u in done && u < |graph| && e in graph[u] && e.id == id &&
                          number[e.to] == number[u]
  }

  lemma InnerIdsStep(graph: seq<seq<Edge>>, number: seq<int>, done: set<nat>, ids: set<nat>, v: nat, inner: seq<Edge>)
    requires |graph| == |number| && TargetsInRange(graph, number) && InnerIds(graph, number, done, ids)
    requires v < |graph| && inner == Inner(graph[v], number, number[v])
    ensures InnerIds(graph, number, done + {v}, ids + set e | e in inner :: e.id)
  {
  }

  lemma ComponentGraphStep(graph: seq<seq<Edge>>, number: seq<int>, c: int, members: seq<nat>,
                           componentGraph: map<nat, seq<Edge>>, v: nat)
    requires TargetsInRange(graph, number) && IsComponentGraph(graph, number, c, members, componentGraph) && v < |graph|
    ensures IsComponentGraph(graph, number, c, members + [v], componentGraph[v := Inner(graph[v], number, c)])
  {
  }

  method CollectComponent(graph: seq<seq<Edge>>, number: seq<int>, c: nat, members: seq<nat>,
                          ghost done: set<nat>, ids: set<nat>)
    returns (componentGraph: map<nat, seq<Edge>>, allIds: set<nat>)
    requires |graph| == |number| && TargetsInRange(graph, number) && InnerIds(graph, number, done, ids)
    requires forall v: nat :: v in members <==> v < |number| && number[v] == c
    ensures IsComponentGraph(graph, number, c, members, componentGraph)
    ensures InnerIds(graph, number, done + (set v | v in members), allIds)
  {
    componentGraph, allIds := map[], ids;
    ghost var seen := {};
    assert done + seen == done;
    hide InnerIds;
    for k := 0 to |members|
      invariant seen == set v | v in members[..k]
      invariant IsComponentGraph(graph, number, c, members[..k], componentGraph)
      invariant InnerIds(graph, number, done + seen, allIds)
    {
      var v := members[k];
      assert v in members;
      var inner := InnerEdges(graph[v], members, number, c);
      InnerIdsStep(graph, number, done + seen, allIds, v, inner);
      assert done + (seen + {v}) == done + seen + {v};
      assert members[..k + 1] == members[..k] + [v];
      seen := seen + {v};
      ComponentGraphStep(graph, number, c, members[..k], componentGraph, v);
      componentGraph, allIds := componentGraph[v := inner], allIds + set e | e in inner :: e.id;
    }
    assert members[..|members|] == members;
  }

  method CollectComponents(graph: seq<seq<Edge>>, number: seq<int>, count: nat, vertices: seq<seq<nat>>)
    returns (componentGraphs: seq<map<nat, seq<Edge>>>, innerIds: set<nat>)
    requires |graph| == |number| && TargetsInRange(graph, number) && GroupsVertices(number, count, vertices)
    requires forall v :: 0 <= v < |number| ==> 0 <= number[v] < count
    ensures |componentGraphs| == count
    ensures forall k :: 0 <= k < count ==> IsComponentGraph(graph, number, k, vertices[k], componentGraphs[k])
    ensures InnerIds(graph, number, (set v | 0 <= v < |number| && number[v] >= 0), innerIds)
  {
    componentGraphs, innerIds := [], {};
    ghost var done: set<nat> := {};
    for idx := 0 to count
      invariant |componentGraphs| == idx
      invariant forall k :: 0 <= k < idx ==> IsComponentGraph(graph, number, k, vertices[k], componentGraphs[k])
      invariant InnerIds(graph, number, done, innerIds)
      invariant done == set v | 0 <= v < |number| && number[v] < idx
    {
      hide InnerIds, IsComponentGraph;
      var componentGraph;
      componentGraph, innerIds := CollectComponent(graph, number, idx, vertices[idx], done, innerIds);
      done := done + set v | v in vertices[idx];
      componentGraphs := componentGraphs + [componentGraph];
    }
    assert done == set v | 0 <= v < |number| && number[v] >= 0;
  }

  method BuildCondensedGraph(g: Graph) returns (c: Condensation)
    requires g.Valid()
    modifies g, g.visited
    ensures Condenses(g.graph, g.edges, c)
  {
    g.FindScc();
    var number, count := g.visited[..], g.sscCount;
    assert TargetsInRange(g.graph, number);
    var vertices := GroupByComponent(number, count);
    var componentGraphs, innerIds := CollectComponents(g.graph, number, count, vertices);
    InnerIdsAreInner(g.graph, g.edges, g.reversedSimpleGraph, number, innerIds);
    var condensed, reversed := CondenseEdges(g.edges, number, count, innerIds);
    c := Condensation(number, count, vertices, componentGraphs, condensed, reversed);
  }

  /** An edge is skipped because of its identifier exactly when both ends lie in one component. */
  lemma InnerIdsAreInner(graph: seq<seq<Edge>>, edges: seq<Edge>, reversedSimple: Adjacency, number: seq<int>,
                         ids: set<nat>)
    requires Loaded(graph, edges, reversedSimple) && |graph| == |number| && TargetsInRange(graph, number)
    requires InnerIds(graph, number, (set v | 0 <= v < |number| && number[v] >= 0), ids)
    requires forall v :: 0 <= v < |number| ==> number[v] >= 0
    ensures EdgesInRange(edges, number)
    ensures forall e :: e in edges ==> (e.id in ids <==> number[e.from] == number[e.to])
  {
    forall e | e in edges
      ensures e.from < |number| && e.to < |number|
      ensures e.id in ids <==> number[e.from] == number[e.to]
    {
      EdgeIsArc(graph, edges, reversedSimple, e);
      if e.id in ids {
        var u: nat, f :| u < |graph| && f in graph[u] && f.id == e.id && number[f.to] == number[u];
        var k :| 0 <= k < |graph[u]| && graph[u][k] == f;
        assert f in edges;
      } else {
        assert e in graph[e.from];
      }
    }
  }

  method CondenseEdges(edges: seq<Edge>, number: seq<int>, count: nat, innerIds: set<nat>)
    returns (condensed: seq<seq<CondensedEdge>>, reversed: seq<seq<CondensedEdge>>)
    requires EdgesInRange(edges, number)
    requires forall v :: 0 <= v < |number| ==> 0 <= number[v] < count
    requires forall e :: e in edges ==> (e.id in innerIds <==> number[e.from] == number[e.to])
    ensures |condensed| == |reversed| == count
    ensures forall k :: 0 <= k < count ==>
                          && condensed[k] == Leaving(Cross(edges, number), k)
                          && reversed[k] == Entering(Cross(edges, number), k)
  {
    condensed, reversed := seq(count, _ => []), seq(count, _ => []);
    var seqId := 0;
    for i := 0 to |edges|
      invariant EdgesInRange(edges[..i], number)
      invariant |condensed| == |reversed| == count && seqId == |Cross(edges[..i], number)|
      invariant forall k :: 0 <= k < count ==>
                              && condensed[k] == Leaving(Cross(edges[..i], number), k)
                              && reversed[k] == Entering(Cross(edges[..i], number), k)
    {
      var edge := edges[i];
      assert edge in edges && edges[..i + 1][..i] == edges[..i];
      if edge.id !in innerIds {
        var from, to := number[edge.from], number[edge.to];
        var ce := CondensedEdge(seqId, from, to, edge);
        ghost var all := Cross(edges[..i + 1], number);
        assert all == Cross(edges[..i], number) + [ce] && all[..|all| - 1] == Cross(edges[..i], number);
        condensed := condensed[from := condensed[from] + [ce]];
        reversed := reversed[to := reversed[to] + [CondensedEdge(seqId, to, from, edge)]];
        seqId := seqId + 1;
      }
    }
    assert edges[..|edges|] == edges;
  }

  // ---------------------------------------------------------------- components without edges

  lemma NumbersDecide(g: Adjacency, number: seq<int>, count: nat, u: nat, v: nat)
    requires SccNumbering(g, number, count) && u < |g| && v < |g| && number[u] == number[v]
    ensures Reach(g, u, v)
  {
  }

  /** Two tables of one component: the first has an edge that stays inside the component. */
  lemma SharedComponentHasEdge(graph: seq<seq<Edge>>, number: seq<int>, count: nat, a: nat, b: nat)
    requires SccNumbering(Targets(graph), number, count) && WellFormed(Targets(graph)) && TargetsInRange(graph, number)
    requires a < |graph| && b < |graph| && a != b && number[a] == number[b]
    ensures Inner(graph[a], number, number[a]) != []
  {
    hide Reach, SccNumbering, WellFormed;
    var g := Targets(graph);
    NumbersDecide(g, number, count, a, b);
    var s, t := BorderArc(g, a, b, {a});
    ReachArc(g, a, t);
    NumberClimbs(g, number, count, a, t);
    NumberClimbs(g, number, count, t, b);
    var j :| 0 <= j < |g[a]| && g[a][j] == t;
    assert graph[a][j] in graph[a];
    assert graph[a][j] in Inner(graph[a], number, number[a]);
  }

  /** A component graph without edges belongs to a single table that does not reference itself. */
  lemma EdgelessComponentIsOneTable(graph: seq<seq<Edge>>, edges: seq<Edge>, reversedSimple: Adjacency,
                                    c: Condensation, k: nat)
    requires Loaded(graph, edges, reversedSimple) && Condenses(graph, edges, c) && k < c.count
    requires forall v :: v in c.componentGraphs[k] ==> c.componentGraphs[k][v] == []
    ensures |c.vertices[k]| == 1 && c.vertices[k][0] < |graph|
    ensures forall e :: e in graph[c.vertices[k][0]] ==> c.number[e.to] != k
  {
    hide Loaded;
    assert IsComponentGraph(graph, c.number, k, c.vertices[k], c.componentGraphs[k]);
    assert k in c.number;
    var x: nat :| x < |c.number| && c.number[x] == k;
    assert x in c.vertices[k];
    var v := c.vertices[k][0];
    assert v in c.vertices[k];
    assert Inner(graph[v], c.number, k) == [];
    if |c.vertices[k]| > 1 {
      assert c.vertices[k][1] in c.vertices[k];
      LoadedIsWellFormed(graph, edges, reversedSimple);
      SharedComponentHasEdge(graph, c.number, c.count, v, c.vertices[k][1]);
    }
    forall e | e in graph[v]
      ensures c.number[e.to] != k
    {
      assert e !in Inner(graph[v], c.number, k);
    }
  }

  lemma NumberClimbs(g: Adjacency, number: seq<int>, count: nat, u: nat, v: nat)
    requires WellFormed(g) && SccNumbering(g, number, count) && u < |g| && Reach(g, u, v)
    ensures v < |g| && number[u] <= number[v]
  {
    var p: seq<nat> :| IsWalk(g, p) && p[0] == u && p[|p| - 1] == v;
    NeverFalls(g, number, p);
  }

  // ---------------------------------------------------------------- sortCondensedEdges

  ghost predicate EdgesFall(graph: seq<seq<CondensedEdge>>) {
    forall k, e :: 0 <= k < |graph| && e in graph[k] ==> e.to < k
  }

  /** Every vertex comes after the targets of its edges. */
  ghost predicate TargetsFirst(graph: seq<seq<CondensedEdge>>, stack: seq<nat>) {
    forall i, e :: 0 <= i < |stack| && stack[i] < |graph| && e in graph[stack[i]] ==> e.to in stack[..i]
  }

  /** Visited vertices that are not on the stack yet; they are being explored. */
  ghost predicate Open(visited: array<bool>, stack: seq<nat>, w: nat)
    reads visited
  {
    w < visited.Length && visited[w] && w !in stack
  }

  method CondensedSortDfs(graph: seq<seq<CondensedEdge>>, v: nat, visited: array<bool>, stack: seq<nat>)
    returns (result: seq<nat>)
    requires EdgesFall(graph) && visited.Length == |graph| && v < |graph| && !visited[v]
    requires Distinct(stack) && TargetsFirst(graph, stack)
    requires forall x :: x in stack ==> x < |graph| && visited[x]
    requires forall w :: Open(visited, stack, w) ==> v < w
    modifies visited
    ensures Distinct(result) && TargetsFirst(graph, result)
    ensures forall x :: x in result ==> x < |graph| && visited[x]
    ensures v in result && forall x :: x in stack ==> x in result
    ensures forall w :: 0 <= w < |graph| && old(visited[w]) ==> visited[w]
    ensures forall w :: Open(visited, result, w) <==> old(Open(visited, stack, w))
    decreases v
  {
    visited[v] := true;
    result := stack;
    for k := 0 to |graph[v]|
      invariant Distinct(result) && TargetsFirst(graph, result)
      invariant forall x :: x in result ==> x < |graph| && visited[x]
      invariant visited[v] && forall x :: x in stack ==> x in result
      invariant forall w :: 0 <= w < |graph| && old(visited[w]) ==> visited[w]
      invariant forall w :: Open(visited, result, w) <==> old(Open(visited, stack, w)) || w == v
      invariant forall j :: 0 <= j < k ==> graph[v][j].to in result
    {
      var to := graph[v][k].to;
      assert graph[v][k] in graph[v];
      if !visited[to] {
        result := CondensedSortDfs(graph, to, visited, result);
      } else {
        assert !Open(visited, result, to);
      }
    }
    assert Open(visited, result, v);
    PushKeepsOrder(graph, result, v);
    result := result + [v];
  }

  lemma PushKeepsOrder(graph: seq<seq<CondensedEdge>>, stack: seq<nat>, v: nat)
    requires TargetsFirst(graph, stack) && v < |graph|
    requires forall j :: 0 <= j < |graph[v]| ==> graph[v][j].to in stack
    ensures TargetsFirst(graph, stack + [v])
  {
    var s := stack + [v];
    forall i, e | 0 <= i < |s| && s[i] < |graph| && e in graph[s[i]]
      ensures e.to in s[..i]
    {
      assert s[..i] == stack[..i];
      if i == |stack| {
        assert stack[..i] == stack;
      }
    }
  }

  /** Lists every vertex once, targets before sources. */
  method SortCondensedEdges(graph: seq<seq<CondensedEdge>>) returns (stack: seq<nat>)
    requires EdgesFall(graph)
    ensures Distinct(stack) && TargetsFirst(graph, stack)
    ensures forall x: nat :: x in stack <==> x < |graph|
  {
    stack := [];
    var visited := new bool[|graph|](_ => false);
    for i := 0 to |graph|
      invariant Distinct(stack) && TargetsFirst(graph, stack)
      invariant forall x :: x in stack ==> x < |graph| && visited[x]
      invariant forall w :: !Open(visited, stack, w)
      invariant forall x :: 0 <= x < i ==> x in stack
    {
      if !visited[i] {
        stack := CondensedSortDfs(graph, i, visited, stack);
      } else {
        assert !Open(visited, stack, i);
      }
    }
  }
}
