/** Search for the edges that constrain a table (path.go:9-92, graph.go:220-253). */
module SubsetSearch {
  import opened Condensed
  import opened SubsetPath

  type CondensedGraph = seq<seq<CondensedEdge>>

  class Path {
    const rootVertex: nat
    /** Components with cycles; their tables are never joined into an existing scope. */
    const cyclic: set<nat>
    var vertexes: seq<nat>
    var scopeEdges: map<nat, seq<CondensedEdge>>
    var scopeGraph: map<nat, seq<ScopeEdge>>
    var vertexScopes: map<nat, nat>
    var edges: seq<CondensedEdge>
    var scopeIdSequence: nat

    ghost function View(): Scopes
      reads this
    {
      Scopes(rootVertex, scopeEdges, scopeGraph, vertexScopes, scopeIdSequence)
    }

    /** The scopes are well formed, were opened for a reason, and hold exactly the added edges. */
    ghost predicate Valid()
      reads this
    {
      View().WellScoped(cyclic) && View().Reasoned(cyclic) && Placed(edges, scopeEdges)
    }

    constructor (rootVertex: nat, cyclic: set<nat>)
      ensures Valid() && this.rootVertex == rootVertex && this.cyclic == cyclic
      ensures vertexes == [] && edges == [] && View() == Scopes(rootVertex, map[], map[], map[], 0)
    {
      this.rootVertex, this.cyclic := rootVertex, cyclic;
      vertexes, edges := [], [];
      scopeEdges, scopeGraph, vertexScopes, scopeIdSequence := map[], map[], map[], ROOT_SCOPE_ID;
    }

    method AddVertex(v: nat)
      requires Valid()
      modifies `vertexes
      ensures Valid() && vertexes == old(vertexes) + [v]
    {
      vertexes := vertexes + [v];
    }

    method CreateScopeIfNotExist(scopeId: nat)
      modifies `scopeEdges, `scopeGraph
      ensures View() == old(View()).WithScope(scopeId)
    {
      if scopeId !in scopeEdges {
        scopeEdges, scopeGraph := scopeEdges[scopeId := []], scopeGraph[scopeId := []];
      }
    }

    /** Opens a new scope below `parent` with `e` as its first edge. */
    method CreateScopeWithParent(parent: nat, e: CondensedEdge) returns (scopeId: nat)
      requires parent in scopeGraph && parent <= scopeIdSequence && scopeIdSequence + 1 !in scopeEdges
      modifies `scopeEdges, `scopeGraph, `scopeIdSequence
      ensures scopeId == scopeIdSequence == old(scopeIdSequence) + 1
      ensures View().Locate(e.to, scopeId) == old(View()).Forked(e, parent)
    {
      scopeIdSequence := scopeIdSequence + 1;
      scopeId := scopeIdSequence;
      scopeEdges, scopeGraph := scopeEdges[scopeId := []], scopeGraph[scopeId := []];
      scopeEdges := scopeEdges[scopeId := scopeEdges[scopeId] + [e]];
      scopeGraph := scopeGraph[parent := scopeGraph[parent] + [ScopeEdge(scopeId, e)]];
      assert [] + [e] == [e];
    }

    /** Puts the edge into the scope, or into a new scope below it. */
    method PlaceIn(target: nat, e: CondensedEdge) returns (placed: nat)
      requires target in scopeGraph && target in scopeEdges && target <= scopeIdSequence &&
               scopeIdSequence + 1 !in scopeEdges
      modifies `scopeEdges, `scopeGraph, `scopeIdSequence
      ensures placed == PlacedScope(old(View()), cyclic, e, target)
      ensures View().Locate(e.to, placed) == PlacedIn(old(View()), cyclic, e, target)
    {
      if e.to in cyclic || VertexIsInScope(scopeEdges[target], e) {
        placed := CreateScopeWithParent(target, e);
      } else {
        placed := target;
        scopeEdges := scopeEdges[target := scopeEdges[target] + [e]];
      }
    }

    method LocateVertex(v: nat, scopeId: nat)
      modifies `vertexScopes
      ensures View() == old(View()).Locate(v, scopeId)
    {
      if v !in vertexScopes {
        vertexScopes := vertexScopes[v := scopeId];
      }
    }

    /**
     * Returns the scope in which the edge was placed: the scope of its source, where it is appended, unless its
     * target is cyclic or an edge of that scope starts or ends there; then a new scope below, holding it alone.
     */
    method AddEdge(e: CondensedEdge, scopeId: nat) returns (placed: nat)
      requires Valid() && rootVertex < e.to && View().Anchored(e.from, scopeId)
      modifies this
      ensures Valid() && edges == old(edges) + [e]
      ensures vertexes == (if old(vertexes) == [] then [e.from] else old(vertexes)) + [e.to]
      ensures View() == PlacedEdge(old(View()), cyclic, e, scopeId)
      ensures GoesTo(old(View()), cyclic, e, scopeId, placed, View())
      ensures var target := if e.from in old(vertexScopes) then old(vertexScopes)[e.from] else scopeId;
              var before := if target in old(scopeEdges) then old(scopeEdges)[target] else [];
              if e.to !in cyclic && forall j :: 0 <= j < |before| ==> before[j].from != e.to && before[j].to != e.to
              then scopeIdSequence == old(scopeIdSequence) && scopeEdges == old(scopeEdges)[target := before + [e]]
              else scopeIdSequence == old(scopeIdSequence) + 1 && scopeEdges[scopeIdSequence] == [e]
      ensures e.to in vertexScopes && forall v :: v in old(vertexScopes) ==>
                v in vertexScopes && vertexScopes[v] == old(vertexScopes[v])
      ensures old(scopeIdSequence) <= scopeIdSequence && placed <= scopeIdSequence
      ensures placed in scopeEdges && e in scopeEdges[placed]
    {
      hide Scopes.WellScoped, Scopes.Reasoned, Placed, PlacedEdge, PlacedScope, Scopes.WithScope, Scopes.ScopeFor;
      hide GoesTo;
      ghost var sc := View();
      AddEdgeKeeps(sc, cyclic, edges, e, scopeId);
      PlacedMeans(sc, cyclic, e, scopeId);
      if vertexes == [] {
        AddVertex(e.from);
      }
      placed := PutEdge(e, scopeId);
      PlacedIsReasoned(sc, cyclic, e, scopeId, placed, View());
      GoesToMeans(sc, cyclic, e, scopeId, placed, View());
    }

    method PutEdge(e: CondensedEdge, scopeId: nat) returns (placed: nat)
      requires Valid() && rootVertex < e.to && View().Anchored(e.from, scopeId)
      modifies this
      ensures edges == old(edges) + [e] && vertexes == old(vertexes) + [e.to]
      ensures old(View().scopeGraph.Keys) == old(View().scopeEdges.Keys)
      ensures View() == PlacedEdge(old(View()), cyclic, e, scopeId)
      ensures var target := old(View()).ScopeFor(e.from, scopeId);
              placed == PlacedScope(old(View()).WithScope(target), cyclic, e, target)
    {
      hide Scopes.WellScoped, Scopes.Reasoned, Placed, VertexIsInScope, PlacedIn, PlacedScope, Scopes.WithScope;
      hide Scopes.Locate;
      AddEdgeKeeps(View(), cyclic, edges, e, scopeId);
      var target := if e.from in vertexScopes then vertexScopes[e.from] else scopeId;
      CreateScopeIfNotExist(target);
      placed := PlaceIn(target, e);
      LocateVertex(e.to, placed);
      edges := edges + [e];
      vertexes := vertexes + [e.to];
    }
  }

  ghost predicate InSomeScope(scopeEdges: map<nat, seq<CondensedEdge>>, e: CondensedEdge) {
    exists s :: s in scopeEdges && e in scopeEdges[s]
  }

  /** The scopes hold exactly these edges. */
  ghost predicate Placed(edges: seq<CondensedEdge>, scopeEdges: map<nat, seq<CondensedEdge>>) {
    forall e :: e in edges <==> InSomeScope(scopeEdges, e)
  }

  /** An edge is joined into the target scope unless its table is known there or cyclic. */
  ghost predicate Forks(sc: Scopes, cyclic: set<nat>, e: CondensedEdge, target: nat) {
    e.to in cyclic || (target in sc.scopeEdges && VertexIsInScope(sc.scopeEdges[target], e))
  }

  ghost function PlacedIn(sc: Scopes, cyclic: set<nat>, e: CondensedEdge, target: nat): Scopes
    requires target in sc.scopeGraph && target in sc.scopeEdges
  {
    if Forks(sc, cyclic, e, target) then sc.Forked(e, target) else sc.Joined(e, target)
  }

  ghost function PlacedScope(sc: Scopes, cyclic: set<nat>, e: CondensedEdge, target: nat): nat {
    if Forks(sc, cyclic, e, target) then sc.last + 1 else target
  }

  /** The scopes after addEdge. */
  ghost function PlacedEdge(sc: Scopes, cyclic: set<nat>, e: CondensedEdge, scopeId: nat): Scopes
    requires sc.scopeGraph.Keys == sc.scopeEdges.Keys
  {
    var target := sc.ScopeFor(e.from, scopeId);
    PlacedIn(sc.WithScope(target), cyclic, e, target)
  }

  /**
   * The edge goes to the scope of its source and is appended there, unless its target is cyclic or an edge of that
   * scope starts or ends at it; then it opens a new scope, as a child of that one.
   */
  ghost predicate GoesTo(sc: Scopes, cyclic: set<nat>, e: CondensedEdge, scopeId: nat, placed: nat, after: Scopes) {
    var target := if e.from in sc.vertexScopes then sc.vertexScopes[e.from] else scopeId;
    var before := if target in sc.scopeEdges then sc.scopeEdges[target] else [];
    var children := if target in sc.scopeGraph then sc.scopeGraph[target] else [];
    && after.vertexScopes == (if e.to in sc.vertexScopes then sc.vertexScopes else sc.vertexScopes[e.to := placed])
    && if e.to in cyclic || Knows(before, e.to) then
         && placed == after.last == sc.last + 1
         && after.scopeEdges == sc.scopeEdges[target := before][placed := [e]]
         && after.scopeGraph == sc.scopeGraph[placed := []][target := children + [ScopeEdge(placed, e)]]
       else
         && placed == target && after.last == sc.last
         && after.scopeEdges == sc.scopeEdges[target := before + [e]]
         && after.scopeGraph == sc.scopeGraph[target := children]
  }

  lemma PlacedMeans(sc: Scopes, cyclic: set<nat>, e: CondensedEdge, scopeId: nat)
    requires sc.scopeGraph.Keys == sc.scopeEdges.Keys
    requires sc.last + 1 !in sc.scopeEdges && sc.last + 1 != sc.ScopeFor(e.from, scopeId)
    ensures var target := sc.ScopeFor(e.from, scopeId);
            var placed := PlacedScope(sc.WithScope(target), cyclic, e, target);
            GoesTo(sc, cyclic, e, scopeId, placed, PlacedEdge(sc, cyclic, e, scopeId))
  {
    var target := sc.ScopeFor(e.from, scopeId);
    var before := if target in sc.scopeEdges then sc.scopeEdges[target] else [];
    var children := if target in sc.scopeGraph then sc.scopeGraph[target] else [];
    var placed := PlacedScope(sc.WithScope(target), cyclic, e, target);
    var after := PlacedEdge(sc, cyclic, e, scopeId);
    assert VertexIsInScope(before, e) <==> Knows(before, e.to);
    assert sc.WithScope(target).scopeEdges == sc.scopeEdges[target := before];
    hide VertexIsInScope, Knows;
    if Forks(sc.WithScope(target), cyclic, e, target) {
      assert after.scopeEdges == sc.scopeEdges[target := before][placed := [e]];
      assert after.scopeGraph == sc.scopeGraph[placed := []][target := children + [ScopeEdge(placed, e)]];
    } else {
      assert after.scopeEdges == sc.scopeEdges[target := before + [e]];
      assert after.scopeGraph == sc.scopeGraph[target := children];
    }
  }

  lemma GoesToMeans(sc: Scopes, cyclic: set<nat>, e: CondensedEdge, scopeId: nat, placed: nat, after: Scopes)
    requires GoesTo(sc, cyclic, e, scopeId, placed, after)
    ensures var target := if e.from in sc.vertexScopes then sc.vertexScopes[e.from] else scopeId;
            var before := if target in sc.scopeEdges then sc.scopeEdges[target] else [];
            if e.to !in cyclic && forall j :: 0 <= j < |before| ==> before[j].from != e.to && before[j].to != e.to
            then after.last == sc.last && after.scopeEdges == sc.scopeEdges[target := before + [e]]
            else after.last == sc.last + 1 && after.last in after.scopeEdges && after.scopeEdges[after.last] == [e]
  {
  }

  lemma PlacedIsReasoned(sc: Scopes, cyclic: set<nat>, e: CondensedEdge, scopeId: nat, placed: nat, after: Scopes)
    requires sc.scopeGraph.Keys == sc.scopeEdges.Keys && sc.Reasoned(cyclic)
    requires sc.last + 1 !in sc.scopeEdges && GoesTo(sc, cyclic, e, scopeId, placed, after)
    ensures after.Reasoned(cyclic)
  {
    hide Knows;
    var target := if e.from in sc.vertexScopes then sc.vertexScopes[e.from] else scopeId;
    var before := if target in sc.scopeEdges then sc.scopeEdges[target] else [];
    KnowsMore(before, e, e.to);
    forall p, k | p in after.scopeGraph && 0 <= k < |after.scopeGraph[p]|
      ensures var v := after.scopeGraph[p][k].originalCondensedEdge.to;
              v in cyclic || (p in after.scopeEdges && Knows(after.scopeEdges[p], v))
    {
      var v := after.scopeGraph[p][k].originalCondensedEdge.to;
      if p in sc.scopeGraph && k < |sc.scopeGraph[p]| {
        assert after.scopeGraph[p][k] == sc.scopeGraph[p][k];
        KnowsMore(sc.scopeEdges[p], e, v);
      }
    }
  }

  lemma KnowsMore(edges: seq<CondensedEdge>, e: CondensedEdge, v: nat)
    ensures Knows(edges, v) ==> Knows(edges + [e], v)
    ensures Knows(edges, v) <==> exists j :: 0 <= j < |edges| && (edges[j].from == v || edges[j].to == v)
  {
    if j :| 0 <= j < |edges| && (edges[j].from == v || edges[j].to == v) {
      assert (edges + [e])[j] == edges[j];
    }
  }

  /** Adding an anchored edge keeps the scopes well formed and places exactly that edge. */
  lemma AddEdgeKeeps(sc: Scopes, cyclic: set<nat>, edges: seq<CondensedEdge>, e: CondensedEdge, scopeId: nat)
    requires sc.WellScoped(cyclic) && Placed(edges, sc.scopeEdges) && sc.root < e.to && sc.Anchored(e.from, scopeId)
    ensures sc.scopeGraph.Keys == sc.scopeEdges.Keys
    ensures sc.last + 1 !in sc.scopeEdges && sc.last + 1 != sc.ScopeFor(e.from, scopeId)
    ensures var target := sc.ScopeFor(e.from, scopeId);
            var ready := sc.WithScope(target);
            && target in ready.scopeGraph && target in ready.scopeEdges && target <= sc.last == ready.last
            && sc.last + 1 !in ready.scopeEdges
    ensures var after := PlacedEdge(sc, cyclic, e, scopeId);
            && after.WellScoped(cyclic) && Placed(edges + [e], after.scopeEdges)
            && e.to in after.vertexScopes && sc.last <= after.last
            && forall v :: v in sc.vertexScopes ==>
                 v in after.vertexScopes && after.vertexScopes[v] == sc.vertexScopes[v]
    ensures var target := sc.ScopeFor(e.from, scopeId);
            var after := PlacedEdge(sc, cyclic, e, scopeId);
            var placed := PlacedScope(sc.WithScope(target), cyclic, e, target);
            placed <= after.last && placed in after.scopeEdges && e in after.scopeEdges[placed]
  {
    hide Scopes.WellScoped, Placed, Available, VertexIsInScope;
    var target := sc.ScopeFor(e.from, scopeId);
    TargetIsReady(sc, cyclic, e.from, scopeId);
    ScopeNumbers(sc, cyclic);
    OpenRootKeeps(sc, cyclic, target);
    OpenRootPlaces(edges, sc.scopeEdges, target);
    var ready := sc.WithScope(target);
    ScopeNumbers(ready, cyclic);
    if Forks(ready, cyclic, e, target) {
      ForkKeeps(ready, cyclic, e, target);
      PlaceEdge(edges, ready.scopeEdges, ready.last + 1, [], e);
      assert [] + [e] == [e];
    } else {
      JoinKeeps(ready, cyclic, e, target);
      PlaceEdge(edges, ready.scopeEdges, target, ready.scopeEdges[target], e);
    }
  }

  lemma OpenRootPlaces(edges: seq<CondensedEdge>, scopeEdges: map<nat, seq<CondensedEdge>>, s: nat)
    requires Placed(edges, scopeEdges)
    ensures s !in scopeEdges ==> Placed(edges, scopeEdges[s := []])
  {
    if s !in scopeEdges {
      var after := scopeEdges[s := []];
      forall e
        ensures InSomeScope(after, e) <==> InSomeScope(scopeEdges, e)
      {
        if r :| r in scopeEdges && e in scopeEdges[r] {
          assert e in after[r];
        }
      }
    }
  }

  lemma PlaceEdge(edges: seq<CondensedEdge>, scopeEdges: map<nat, seq<CondensedEdge>>, s: nat,
                  current: seq<CondensedEdge>, e: CondensedEdge)
    requires Placed(edges, scopeEdges) && current == if s in scopeEdges then scopeEdges[s] else []
    ensures Placed(edges + [e], scopeEdges[s := current + [e]])
  {
    var after := scopeEdges[s := current + [e]];
    forall f
      ensures InSomeScope(after, f) <==> InSomeScope(scopeEdges, f) || f == e
    {
      if f == e {
        assert f in after[s];
      }
      if r :| r in scopeEdges && f in scopeEdges[r] {
        assert f in after[r];
      }
    }
    hide InSomeScope;
  }

  /**
   * The scope chosen for an edge out of an anchored vertex exists, or is the unopened root scope, and knows the
   * vertex.
   */
  lemma TargetIsReady(sc: Scopes, cyclic: set<nat>, v: nat, scopeId: nat)
    requires sc.WellScoped(cyclic) && sc.Anchored(v, scopeId)
    ensures var target := sc.ScopeFor(v, scopeId);
            && (target in sc.scopeEdges || (target == ROOT_SCOPE_ID && sc.last == 0))
            && target <= sc.last && sc.last + 1 !in sc.scopeEdges
            && Available(sc.root, target, sc.WithScope(target).scopeEdges[target], v)
  {
  }

  lemma ScopeNumbers(sc: Scopes, cyclic: set<nat>)
    requires sc.WellScoped(cyclic)
    ensures sc.scopeGraph.Keys == sc.scopeEdges.Keys && sc.Numbered() && sc.last + 1 !in sc.scopeEdges
    ensures forall s :: s in sc.scopeEdges ==> s <= sc.last
  {
  }

  // ---------------------------------------------------------------- constraining edges

  /** Edges leave their own list's vertex and climb. */
  ghost predicate Climbs(graph: CondensedGraph) {
    forall v, k :: 0 <= v < |graph| && 0 <= k < |graph[v]| ==> graph[v][k].from == v && v < graph[v][k].to < |graph|
  }

  /** The edge constrains the tables that reach it: it is polymorphic or enters a component with subset conditions. */
  predicate Constrains(conditioned: set<nat>, e: CondensedEdge) {
    e.to in conditioned || e.originalEdge.HasPolymorphicExpressions()
  }

  /** Some walk from `v` through one of its first `k` edges ends in a constraining edge. */
  ghost predicate HitsBefore(graph: CondensedGraph, conditioned: set<nat>, v: nat, k: nat)
    requires Climbs(graph) && v < |graph| && k <= |graph[v]|
    decreases |graph| - v, 0
  {
    exists j :: 0 <= j < k && (Constrains(conditioned, graph[v][j]) || Hits(graph, conditioned, graph[v][j].to))
  }

  ghost predicate Hits(graph: CondensedGraph, conditioned: set<nat>, v: nat)
    requires Climbs(graph) && v < |graph|
    decreases |graph| - v, 1
  {
    HitsBefore(graph, conditioned, v, |graph[v]|)
  }

  /** `e` lies on a walk from `v`, through one of its first `k` edges, that ends in a constraining edge. */
  ghost predicate OnHitBefore(graph: CondensedGraph, conditioned: set<nat>, v: nat, k: nat, e: CondensedEdge)
    requires Climbs(graph) && v < |graph| && k <= |graph[v]|
    decreases |graph| - v, 0
  {
    exists j :: 0 <= j < k && OnHitVia(graph, conditioned, v, j, e)
  }

  ghost predicate OnHitVia(graph: CondensedGraph, conditioned: set<nat>, v: nat, j: nat, e: CondensedEdge)
    requires Climbs(graph) && v < |graph| && j < |graph[v]|
    decreases |graph| - graph[v][j].to, 2
  {
    var f := graph[v][j];
    || (f == e && (Constrains(conditioned, f) || Hits(graph, conditioned, f.to)))
    || OnHit(graph, conditioned, f.to, e)
  }

  ghost predicate OnHit(graph: CondensedGraph, conditioned: set<nat>, v: nat, e: CondensedEdge)
    requires Climbs(graph) && v < |graph|
    decreases |graph| - v, 1
  {
    OnHitBefore(graph, conditioned, v, |graph[v]|, e)
  }

  // ---------------------------------------------------------------- subsetDfs

  /** The edges of the recursion stack that were not added yet: a chain that ends in `v`. */
  ghost predicate Pending(root: nat, from: seq<CondensedEdge>, v: nat) {
    && root <= v
    && (forall i :: 0 <= i < |from| ==> root < from[i].to)
    && (forall i :: 0 <= i < |from| - 1 ==> from[i].to == from[i + 1].from)
    && (from != [] ==> from[|from| - 1].to == v)
  }

  ghost function Start(from: seq<CondensedEdge>, v: nat): nat {
    if from == [] then v else from[0].from
  }

  /** Adds the pending edges in order, each in the scope returned for its predecessor. */
  method AddAll(path: Path, pending: seq<CondensedEdge>, v: nat, scopeId: nat) returns (current: nat)
    requires path.Valid() && Pending(path.rootVertex, pending, v) && pending != []
    requires path.View().Anchored(Start(pending, v), scopeId)
    modifies path
    ensures path.Valid() && path.edges == old(path.edges) + pending && path.vertexes != []
    ensures path.View().Anchored(v, current)
    ensures forall e :: e in pending ==> e.to in path.vertexScopes
    ensures forall u :: u in old(path.vertexScopes) ==> u in path.vertexScopes
    ensures old(path.scopeIdSequence) <= path.scopeIdSequence
  {
    hide Scopes.WellScoped, Placed;
    current := scopeId;
    for i := 0 to |pending|
      invariant path.Valid() && path.edges == old(path.edges) + pending[..i] && (i > 0 ==> path.vertexes != [])
      invariant path.View().Anchored(if i < |pending| then pending[i].from else v, current)
      invariant forall j :: 0 <= j < i ==> pending[j].to in path.vertexScopes
      invariant forall u :: u in old(path.vertexScopes) ==> u in path.vertexScopes
      invariant old(path.scopeIdSequence) <= path.scopeIdSequence
    {
      current := path.AddEdge(pending[i], current);
    }
  }

  method SubsetDfs(graph: CondensedGraph, conditioned: set<nat>, path: Path, v: nat,
                   fullFrom: seq<CondensedEdge>, from: seq<CondensedEdge>, scopeId: nat)
    returns (rest: seq<CondensedEdge>)
    requires Climbs(graph) && v < |graph| && path.Valid()
    requires Pending(path.rootVertex, from, v) && path.View().Anchored(Start(from, v), scopeId)
    modifies path
    ensures path.Valid()
    ensures forall e :: e in path.edges <==>
                        e in old(path.edges) || OnHit(graph, conditioned, v, e) ||
                          (Hits(graph, conditioned, v) && e in from)
    ensures rest == if Hits(graph, conditioned, v) then [] else from
    ensures Hits(graph, conditioned, v) ==> path.View().Anchored(v, scopeId) && forall e :: e in from ==>
              e.to in path.vertexScopes
    ensures path.vertexes == [] <==> old(path.vertexes) == [] && !Hits(graph, conditioned, v)
    ensures forall u :: u in old(path.vertexScopes) ==> u in path.vertexScopes
    ensures old(path.scopeIdSequence) <= path.scopeIdSequence
    decreases |graph| - v
  {
    hide Path.Valid, OnHitVia, HitsBefore, OnHitBefore, Hits, OnHit;
    HitsStart(graph, conditioned, v);
    rest := from;
    for k := 0 to |graph[v]|
      invariant path.Valid()
      invariant forall e :: e in path.edges <==>
                  e in old(path.edges) || OnHitBefore(graph, conditioned, v, k, e) ||
                  (HitsBefore(graph, conditioned, v, k) && e in from)
      invariant rest == if HitsBefore(graph, conditioned, v, k) then [] else from
      invariant HitsBefore(graph, conditioned, v, k) ==>
                  path.View().Anchored(v, scopeId) && forall e :: e in from ==> e.to in path.vertexScopes
      invariant path.vertexes == [] <==> old(path.vertexes) == [] && !HitsBefore(graph, conditioned, v, k)
      invariant forall u :: u in old(path.vertexScopes) ==> u in path.vertexScopes
      invariant old(path.scopeIdSequence) <= path.scopeIdSequence
    {
      var to := graph[v][k];
      var full := fullFrom + [to];
      var pending := rest + [to];
      var current := scopeId;
      if to.to in conditioned || full[|full| - 1].originalEdge.HasPolymorphicExpressions() {
        current := AddAll(path, pending, to.to, current);
        pending := [];
      }
      rest := SubsetDfs(graph, conditioned, path, to.to, full, pending, current);
      if |rest| > 0 {
        rest := rest[..|rest| - 1];
      }
      HitsStep(graph, conditioned, v, k);
    }
    HitsEnd(graph, conditioned, v);
  }

  lemma HitsStart(graph: CondensedGraph, conditioned: set<nat>, v: nat)
    requires Climbs(graph) && v < |graph|
    ensures !HitsBefore(graph, conditioned, v, 0) && forall e :: !OnHitBefore(graph, conditioned, v, 0, e)
  {
  }

  lemma HitsEnd(graph: CondensedGraph, conditioned: set<nat>, v: nat)
    requires Climbs(graph) && v < |graph|
    ensures Hits(graph, conditioned, v) == HitsBefore(graph, conditioned, v, |graph[v]|)
    ensures forall e :: OnHit(graph, conditioned, v, e) == OnHitBefore(graph, conditioned, v, |graph[v]|, e)
  {
  }

  /** What one more edge adds to the prefix statements. */
  lemma HitsStep(graph: CondensedGraph, conditioned: set<nat>, v: nat, k: nat)
    requires Climbs(graph) && v < |graph| && k < |graph[v]|
    ensures HitsBefore(graph, conditioned, v, k + 1) <==>
            HitsBefore(graph, conditioned, v, k) || Constrains(conditioned, graph[v][k]) ||
              Hits(graph, conditioned, graph[v][k].to)
    ensures forall e :: OnHitBefore(graph, conditioned, v, k + 1, e) <==>
                        OnHitBefore(graph, conditioned, v, k, e) || OnHit(graph, conditioned, graph[v][k].to, e) ||
                        (e == graph[v][k] && (Constrains(conditioned, e) || Hits(graph, conditioned, e.to)))
  {
    hide Hits, OnHit, Constrains;
    forall e
      ensures OnHitBefore(graph, conditioned, v, k + 1, e) <==>
              OnHitBefore(graph, conditioned, v, k, e) || OnHitVia(graph, conditioned, v, k, e)
      ensures OnHitVia(graph, conditioned, v, k, e) <==>
              OnHit(graph, conditioned, graph[v][k].to, e) ||
              (e == graph[v][k] && (Constrains(conditioned, e) || Hits(graph, conditioned, e.to)))
    {
    }
  }

  // ---------------------------------------------------------------- findSubsetVertexes

  /** A component is restricted when it carries conditions, is polymorphic inside, or reaches a constraining edge. */
  ghost predicate Restricted(graph: CondensedGraph, conditioned: set<nat>, polymorphic: set<nat>, v: nat)
    requires Climbs(graph) && v < |graph|
  {
    v in conditioned || v in polymorphic || Hits(graph, conditioned, v)
  }

  /**
   * Builds the path of every restricted component. `polymorphic` are the components with polymorphic
   * references inside, `cyclic` those with recorded cycles.
   */
  method FindSubsetVertexes(graph: CondensedGraph, conditioned: set<nat>, polymorphic: set<nat>, cyclic: set<nat>)
    returns (paths: map<nat, Path>)
    requires Climbs(graph)
    ensures forall v: nat :: v in paths <==> v < |graph| && Restricted(graph, conditioned, polymorphic, v)
    ensures forall v :: v in paths ==>
              fresh(paths[v]) && paths[v].Valid() && paths[v].rootVertex == v && paths[v].cyclic == cyclic
    ensures forall v, e :: v in paths && v < |graph| ==> (e in paths[v].edges <==> OnHit(graph, conditioned, v, e))
    ensures forall v: nat :: v in paths <==>
              v < |graph| &&
              (v in conditioned || v in polymorphic || exists w :: ConstrainingWalk(graph, conditioned, v, w))
    ensures forall v, e :: v in paths && v < |graph| ==>
              (e in paths[v].edges <==> exists w :: ConstrainingWalk(graph, conditioned, v, w) && e in w)
    ensures forall v :: v in paths ==> paths[v].View().Reasoned(cyclic)
  {
    hide OnHit, Hits, Path.Valid;
    paths := map[];
    for v := 0 to |graph|
      invariant forall u: nat :: u in paths <==> u < v && Restricted(graph, conditioned, polymorphic, u)
      invariant forall u :: u in paths ==>
                  fresh(paths[u]) && paths[u].Valid() && paths[u].rootVertex == u && paths[u].cyclic == cyclic
      invariant forall u, e :: u in paths ==> (e in paths[u].edges <==> OnHit(graph, conditioned, u, e))
    {
      var path := new Path(v, cyclic);
      if v in conditioned || v in polymorphic {
        path.AddVertex(v);
      }
      var rest := SubsetDfs(graph, conditioned, path, v, [], [], ROOT_SCOPE_ID);
      if |path.vertexes| > 0 {
        paths := paths[v := path];
      }
    }
    PathsAreReasoned(paths, cyclic);
    hide Restricted, ConstrainingWalk;
    forall v: nat | v < |graph|
      ensures Restricted(graph, conditioned, polymorphic, v) <==>
              v in conditioned || v in polymorphic || exists w :: ConstrainingWalk(graph, conditioned, v, w)
    {
      RestrictedIffWalk(graph, conditioned, polymorphic, v);
    }
    forall v, e | v in paths && v < |graph|
      ensures OnHit(graph, conditioned, v, e) <==> exists w :: ConstrainingWalk(graph, conditioned, v, w) && e in w
    {
      OnHitIffWalk(graph, conditioned, v, e);
    }
  }

  lemma PathsAreReasoned(paths: map<nat, Path>, cyclic: set<nat>)
    requires forall v :: v in paths ==> paths[v].Valid() && paths[v].cyclic == cyclic
    ensures forall v :: v in paths ==> paths[v].View().Reasoned(cyclic)
  {
  }

  lemma RestrictedIffWalk(graph: CondensedGraph, conditioned: set<nat>, polymorphic: set<nat>, v: nat)
    requires Climbs(graph) && v < |graph|
    ensures Restricted(graph, conditioned, polymorphic, v) <==>
            v in conditioned || v in polymorphic || exists w :: ConstrainingWalk(graph, conditioned, v, w)
  {
    hide Hits, ConstrainingWalk;
    HitsIffWalk(graph, conditioned, v);
  }

  // ---------------------------------------------------------------- walks

  /** A walk of condensed edges out of `v`. */
  ghost predicate EdgeWalk(graph: CondensedGraph, v: nat, w: seq<CondensedEdge>) {
    && (forall i :: 0 <= i < |w| ==> w[i].from < |graph| && w[i] in graph[w[i].from])
    && (forall i :: 0 <= i < |w| - 1 ==> w[i].to == w[i + 1].from)
    && (w != [] ==> w[0].from == v)
  }

  /** A walk out of `v` whose last edge is polymorphic or enters a conditioned component. */
  ghost predicate ConstrainingWalk(graph: CondensedGraph, conditioned: set<nat>, v: nat, w: seq<CondensedEdge>) {
    && EdgeWalk(graph, v, w) && w != []
    && (w[|w| - 1].to in conditioned || w[|w| - 1].originalEdge.polymorphicExprs != [])
  }

  lemma PrependEdge(graph: CondensedGraph, conditioned: set<nat>, v: nat, e: CondensedEdge, w: seq<CondensedEdge>)
    requires v < |graph| && e in graph[v] && e.from == v
    requires ConstrainingWalk(graph, conditioned, e.to, w)
    ensures ConstrainingWalk(graph, conditioned, v, [e] + w)
  {
    var x := [e] + w;
    forall i | 0 <= i < |x| - 1
      ensures x[i].to == x[i + 1].from
    {
      if i > 0 {
        assert w[i - 1].to == w[i - 1 + 1].from;
      }
    }
  }

  lemma DropFirst(graph: CondensedGraph, conditioned: set<nat>, v: nat, w: seq<CondensedEdge>)
    requires ConstrainingWalk(graph, conditioned, v, w) && |w| > 1
    ensures ConstrainingWalk(graph, conditioned, w[0].to, w[1..])
  {
    var x := w[1..];
    forall i | 0 <= i < |x| - 1
      ensures x[i].to == x[i + 1].from
    {
      assert w[i + 1].to == w[i + 1 + 1].from;
    }
  }

  /** A component is hit exactly when a walk out of it ends in a constraining edge. */
  lemma {:induction false} HitsIffWalk(graph: CondensedGraph, conditioned: set<nat>, v: nat)
    requires Climbs(graph) && v < |graph|
    ensures Hits(graph, conditioned, v) <==> exists w :: ConstrainingWalk(graph, conditioned, v, w)
    decreases |graph| - v
  {
    if Hits(graph, conditioned, v) {
      HitsEnd(graph, conditioned, v);
      var j :| 0 <= j < |graph[v]| &&
        (Constrains(conditioned, graph[v][j]) || Hits(graph, conditioned, graph[v][j].to));
      var e := graph[v][j];
      if Constrains(conditioned, e) {
        assert ConstrainingWalk(graph, conditioned, v, [e]);
      } else {
        HitsIffWalk(graph, conditioned, e.to);
        var w: seq<CondensedEdge> :| ConstrainingWalk(graph, conditioned, e.to, w);
        PrependEdge(graph, conditioned, v, e, w);
      }
    }
    if w: seq<CondensedEdge> :| ConstrainingWalk(graph, conditioned, v, w) {
      assert w[0] in graph[v];
      var j :| 0 <= j < |graph[v]| && graph[v][j] == w[0];
      if |w| > 1 {
        DropFirst(graph, conditioned, v, w);
        HitsIffWalk(graph, conditioned, w[0].to);
      }
      assert HitsBefore(graph, conditioned, v, |graph[v]|);
    }
  }

  /** The edges of a path are exactly the edges on walks from its root that end in a constraining edge. */
  lemma {:induction false} OnHitIffWalk(graph: CondensedGraph, conditioned: set<nat>, v: nat, e: CondensedEdge)
    requires Climbs(graph) && v < |graph|
    ensures OnHit(graph, conditioned, v, e) <==> exists w :: ConstrainingWalk(graph, conditioned, v, w) && e in w
    decreases |graph| - v
  {
    if OnHit(graph, conditioned, v, e) {
      HitsEnd(graph, conditioned, v);
      assert OnHitBefore(graph, conditioned, v, |graph[v]|, e);
      var j :| 0 <= j < |graph[v]| && OnHitVia(graph, conditioned, v, j, e);
      OnHitWalk(graph, conditioned, v, j, e);
    }
    if w: seq<CondensedEdge> :| ConstrainingWalk(graph, conditioned, v, w) && e in w {
      assert w[0] in graph[v];
      var j :| 0 <= j < |graph[v]| && graph[v][j] == w[0];
      if |w| > 1 {
        DropFirst(graph, conditioned, v, w);
        HitsIffWalk(graph, conditioned, w[0].to);
        OnHitIffWalk(graph, conditioned, w[0].to, e);
      }
      assert e == w[0] || e in w[1..];
      assert OnHitVia(graph, conditioned, v, j, e);
    }
  }

  lemma {:induction false} OnHitWalk(graph: CondensedGraph, conditioned: set<nat>, v: nat, j: nat, e: CondensedEdge)
    requires Climbs(graph) && v < |graph| && j < |graph[v]| && OnHitVia(graph, conditioned, v, j, e)
    ensures exists w :: ConstrainingWalk(graph, conditioned, v, w) && e in w
    decreases |graph| - v, 0
  {
    var f := graph[v][j];
    if f == e && Constrains(conditioned, f) {
      assert ConstrainingWalk(graph, conditioned, v, [e]) && e in [e];
    } else if f == e && Hits(graph, conditioned, f.to) {
      HitsIffWalk(graph, conditioned, f.to);
      var w: seq<CondensedEdge> :| ConstrainingWalk(graph, conditioned, f.to, w);
      PrependEdge(graph, conditioned, v, e, w);
      assert ([e] + w)[0] == e;
    } else {
      OnHitIffWalk(graph, conditioned, f.to, e);
      var w: seq<CondensedEdge> :| ConstrainingWalk(graph, conditioned, f.to, w) && e in w;
      PrependEdge(graph, conditioned, v, f, w);
      assert e in [f] + w;
    }
  }

  /** Referencing a restricted component restricts, unless the restriction is only polymorphism inside it. */
  lemma RestrictionSpreads(graph: CondensedGraph, conditioned: set<nat>, v: nat, k: nat)
    requires Climbs(graph) && v < |graph| && k < |graph[v]|
    requires Restricted(graph, conditioned, {}, graph[v][k].to)
    ensures Restricted(graph, conditioned, {}, v)
  {
    assert HitsBefore(graph, conditioned, v, |graph[v]|);
  }
}
