/** Query scopes of a subset path (path.go): where each joined edge goes. */
module SubsetPath {
  import opened Condensed

  const ROOT_SCOPE_ID: nat := 0

  datatype ScopeEdge = ScopeEdge(scopeId: nat, originalCondensedEdge: CondensedEdge)

  predicate VertexIsInScope(scopeEdges: seq<CondensedEdge>, e: CondensedEdge) {
    exists j :: 0 <= j < |scopeEdges| && (scopeEdges[j].from == e.to || scopeEdges[j].to == e.to)
  }

  // ---------------------------------------------------------------- one scope

  /** One of the edges joins the table of `v`. */
  ghost predicate Joins(edges: seq<CondensedEdge>, v: nat) {
    exists j :: 0 <= j < |edges| && edges[j].to == v
  }

  /** One of the edges starts or ends at `v`. */
  ghost predicate Knows(edges: seq<CondensedEdge>, v: nat) {
    exists j :: 0 <= j < |edges| && (edges[j].from == v || edges[j].to == v)
  }

  /** The table of `v` can be referenced in scope `s`: it was joined there, or it is the root table. */
  ghost predicate Available(root: nat, s: nat, edges: seq<CondensedEdge>, v: nat) {
    (s == ROOT_SCOPE_ID && v == root) || Joins(edges, v)
  }

  /**
   * Every later edge of the scope starts at a table available before it, no table is joined twice, the
   * root table is not joined again, and a cyclic component enters only as the opening edge of a scope.
   */
  ghost predicate GoodScope(root: nat, cyclic: set<nat>, s: nat, edges: seq<CondensedEdge>) {
    && (s != ROOT_SCOPE_ID ==> edges != [])
    && (forall i :: 0 <= i < |edges| && (s == ROOT_SCOPE_ID || i > 0) ==> Available(root, s, edges[..i], edges[i].from))
    && (forall i, j :: 0 <= i < j < |edges| ==> edges[i].to != edges[j].to)
    && (forall i :: 0 <= i < |edges| ==> root < edges[i].to)
    && (forall i :: 0 <= i < |edges| && edges[i].to in cyclic ==> s != ROOT_SCOPE_ID && i == 0)
  }

  /** Joining a table that the scope does not know yet keeps the scope good. */
  lemma JoinKeepsScope(root: nat, cyclic: set<nat>, s: nat, edges: seq<CondensedEdge>, e: CondensedEdge)
    requires GoodScope(root, cyclic, s, edges) && root < e.to && Available(root, s, edges, e.from)
    requires e.to !in cyclic && !VertexIsInScope(edges, e)
    ensures GoodScope(root, cyclic, s, edges + [e])
  {
    hide Available;
    var all := edges + [e];
    forall i | 0 <= i < |all| && (s == ROOT_SCOPE_ID || i > 0)
      ensures Available(root, s, all[..i], all[i].from)
    {
      if i == |edges| {
        assert all[..i] == edges;
      } else {
        assert all[..i] == edges[..i];
      }
    }
  }

  // ---------------------------------------------------------------- all scopes

  /** The scope tree of a path: edges per scope, child scopes per scope, and the scope that joins each vertex. */
  datatype Scopes = Scopes(
    root: nat,
    scopeEdges: map<nat, seq<CondensedEdge>>,
    scopeGraph: map<nat, seq<ScopeEdge>>,
    vertexScopes: map<nat, nat>,
    last: nat)
  {
    /** Scopes are numbered consecutively from the root scope. */
    ghost predicate Numbered() {
      && scopeGraph.Keys == scopeEdges.Keys
      && (scopeEdges == map[] ==> last == 0)
      && (scopeEdges != map[] ==> forall s: nat :: s in scopeEdges <==> s <= last)
    }

    /** A child scope is newer than its parent, starts with the edge that opened it, and that edge leaves the parent. */
    ghost predicate ChildOf(p: nat, child: ScopeEdge) {
      && p < child.scopeId && child.scopeId in scopeEdges && p in scopeEdges
      && scopeEdges[child.scopeId] != [] && scopeEdges[child.scopeId][0] == child.originalCondensedEdge
      && Available(root, p, scopeEdges[p], child.originalCondensedEdge.from)
    }

    ghost predicate HasChild(p: nat, s: nat) {
      p in scopeGraph && exists k :: 0 <= k < |scopeGraph[p]| && scopeGraph[p][k].scopeId == s
    }

    ghost predicate Children() {
      forall p, k :: p in scopeGraph && 0 <= k < |scopeGraph[p]| ==> ChildOf(p, scopeGraph[p][k])
    }

    /** Every scope but the root scope has a parent, and only one. */
    ghost predicate Parents() {
      && (forall s: nat :: s in scopeEdges && s != ROOT_SCOPE_ID ==> exists p :: HasChild(p, s))
      && (forall p, q, s: nat :: HasChild(p, s) && HasChild(q, s) ==> p == q)
      && (forall p, k, l :: p in scopeGraph && 0 <= k < l < |scopeGraph[p]| ==>
           scopeGraph[p][k].scopeId < scopeGraph[p][l].scopeId)
    }

    ghost predicate GoodScopes(cyclic: set<nat>) {
      forall s :: s in scopeEdges ==> GoodScope(root, cyclic, s, scopeEdges[s])
    }

    /** The recorded scope of a vertex joins its table. */
    ghost predicate Located() {
      forall v :: v in vertexScopes ==>
          root < v && vertexScopes[v] in scopeEdges && Joins(scopeEdges[vertexScopes[v]], v)
    }

    /** A scope was opened only for a cyclic component, or for a table that its parent knows. */
    ghost predicate Reasoned(cyclic: set<nat>) {
      forall p, k :: p in scopeGraph && 0 <= k < |scopeGraph[p]| ==>
        var v := scopeGraph[p][k].originalCondensedEdge.to;
        v in cyclic || (p in scopeEdges && Knows(scopeEdges[p], v))
    }

    /** The scope graph is a tree rooted at scope 0 whose joins are well scoped. */
    ghost predicate WellScoped(cyclic: set<nat>) {
      Numbered() && Children() && Parents() && GoodScopes(cyclic) && Located()
    }

    /** Edges out of `v` know where to go: `v` has been joined, or it is the root and the root scope is named. */
    ghost predicate Anchored(v: nat, scopeId: nat) {
      scopeId <= last && (v in vertexScopes || (v == root && scopeId == ROOT_SCOPE_ID))
    }

    /** The scope that addEdge chooses for an edge out of `v`. */
    function ScopeFor(v: nat, scopeId: nat): nat {
      if v in vertexScopes then vertexScopes[v] else scopeId
    }

    function WithScope(s: nat): Scopes {
      if s in scopeEdges then this else this.(scopeEdges := scopeEdges[s := []], scopeGraph := scopeGraph[s := []])
    }

    function Locate(v: nat, s: nat): Scopes {
      if v in vertexScopes then this else this.(vertexScopes := vertexScopes[v := s])
    }

    function Joined(e: CondensedEdge, s: nat): Scopes
      requires s in scopeEdges
    {
      this.(scopeEdges := scopeEdges[s := scopeEdges[s] + [e]]).Locate(e.to, s)
    }

    function Forked(e: CondensedEdge, parent: nat): Scopes
      requires parent in scopeGraph
    {
      var id := last + 1;
      this.(scopeEdges := scopeEdges[id := [e]],
            scopeGraph := scopeGraph[id := []][parent := scopeGraph[parent] + [ScopeEdge(id, e)]],
            last := id).Locate(e.to, id)
    }
  }

  lemma OpenRootKeeps(sc: Scopes, cyclic: set<nat>, s: nat)
    requires sc.WellScoped(cyclic) && (s in sc.scopeEdges || (s == ROOT_SCOPE_ID && sc.last == 0))
    ensures sc.WithScope(s).WellScoped(cyclic) && s in sc.WithScope(s).scopeEdges
  {
    hide Joins, Available;
  }

  lemma AppendJoins(edges: seq<CondensedEdge>, e: CondensedEdge)
    ensures Joins(edges + [e], e.to)
    ensures forall v :: Joins(edges, v) ==> Joins(edges + [e], v)
  {
    assert (edges + [e])[|edges|] == e;
    forall v | Joins(edges, v)
      ensures Joins(edges + [e], v)
    {
      var j :| 0 <= j < |edges| && edges[j].to == v;
      assert (edges + [e])[j].to == v;
    }
  }

  lemma JoinKeeps(sc: Scopes, cyclic: set<nat>, e: CondensedEdge, s: nat)
    requires sc.WellScoped(cyclic) && s in sc.scopeEdges && sc.root < e.to
    requires Available(sc.root, s, sc.scopeEdges[s], e.from)
    requires e.to !in cyclic && !VertexIsInScope(sc.scopeEdges[s], e)
    ensures sc.Joined(e, s).WellScoped(cyclic)
    ensures e.to in sc.Joined(e, s).vertexScopes
  {
    hide Joins, GoodScope, Available, Scopes.Children, Scopes.Parents, Scopes.Located, VertexIsInScope;
    JoinKeepsScope(sc.root, cyclic, s, sc.scopeEdges[s], e);
    JoinKeepsLocated(sc, e, s);
    JoinKeepsChildren(sc, e, s);
    SameGraphSameParents(sc, sc.Joined(e, s));
  }

  lemma JoinKeepsLocated(sc: Scopes, e: CondensedEdge, s: nat)
    requires sc.Located() && s in sc.scopeEdges && sc.root < e.to
    ensures sc.Joined(e, s).Located()
  {
    AppendJoins(sc.scopeEdges[s], e);
    hide Joins;
  }

  lemma JoinKeepsChildren(sc: Scopes, e: CondensedEdge, s: nat)
    requires sc.Children() && s in sc.scopeEdges
    ensures sc.Joined(e, s).Children()
  {
    AppendJoins(sc.scopeEdges[s], e);
    hide Joins;
    var t := sc.Joined(e, s);
    forall p, k | p in t.scopeGraph && 0 <= k < |t.scopeGraph[p]|
      ensures t.ChildOf(p, t.scopeGraph[p][k])
    {
      assert sc.ChildOf(p, sc.scopeGraph[p][k]);
    }
  }

  lemma SameGraphSameParents(sc: Scopes, t: Scopes)
    requires sc.Parents() && t.scopeGraph == sc.scopeGraph && t.scopeEdges.Keys == sc.scopeEdges.Keys
    ensures t.Parents()
  {
    assert forall p, s: nat :: t.HasChild(p, s) <==> sc.HasChild(p, s);
  }

  /** Opening a scope below one that knows the source table keeps the tree. */
  lemma ForkKeeps(sc: Scopes, cyclic: set<nat>, e: CondensedEdge, parent: nat)
    requires sc.WellScoped(cyclic) && parent in sc.scopeEdges && sc.root < e.to
    requires Available(sc.root, parent, sc.scopeEdges[parent], e.from)
    ensures sc.Forked(e, parent).WellScoped(cyclic)
    ensures e.to in sc.Forked(e, parent).vertexScopes
  {
    hide Joins, GoodScope, Available, Scopes.Children, Scopes.Parents, Scopes.Located;
    ForkKeepsLocated(sc, e, parent);
    ForkKeepsChildren(sc, e, parent);
    ForkKeepsParents(sc, e, parent);
    OpeningEdgeIsGood(sc.root, cyclic, sc.last + 1, e);
  }

  lemma OpeningEdgeIsGood(root: nat, cyclic: set<nat>, s: nat, e: CondensedEdge)
    requires s != ROOT_SCOPE_ID && root < e.to
    ensures GoodScope(root, cyclic, s, [e])
  {
  }

  lemma ForkKeepsLocated(sc: Scopes, e: CondensedEdge, parent: nat)
    requires sc.Numbered() && sc.Located() && parent in sc.scopeEdges && sc.root < e.to
    ensures sc.Forked(e, parent).Located()
  {
    assert [e][0].to == e.to;
    assert Joins([e], e.to);
    hide Joins;
  }

  lemma ForkKeepsChildren(sc: Scopes, e: CondensedEdge, parent: nat)
    requires sc.Numbered() && sc.Children() && parent in sc.scopeEdges
    requires Available(sc.root, parent, sc.scopeEdges[parent], e.from)
    ensures sc.Forked(e, parent).Children()
  {
    hide Available;
    var t := sc.Forked(e, parent);
    var id := sc.last + 1;
    forall p, k | p in t.scopeGraph && 0 <= k < |t.scopeGraph[p]|
      ensures t.ChildOf(p, t.scopeGraph[p][k])
    {
      if p == parent && k == |sc.scopeGraph[parent]| {
        assert t.scopeGraph[p][k] == ScopeEdge(id, e);
      } else {
        assert sc.ChildOf(p, sc.scopeGraph[p][k]);
      }
    }
  }

  lemma ForkKeepsParents(sc: Scopes, e: CondensedEdge, parent: nat)
    requires sc.Numbered() && sc.Children() && sc.Parents() && parent in sc.scopeEdges
    ensures sc.Forked(e, parent).Parents()
  {
    hide Scopes.HasChild, Scopes.ChildOf, Scopes.Children;
    ForkedChildren(sc, e, parent);
    FreshHasNoParent(sc, sc.last + 1);
    ChildIdsAreOld(sc);
    ForkKeepsChildOrder(sc, e, parent);
    var t := sc.Forked(e, parent);
    hide Scopes.Forked;
    forall s: nat | s in t.scopeEdges && s != ROOT_SCOPE_ID
      ensures exists p :: t.HasChild(p, s)
    {
      if s == sc.last + 1 {
        assert t.HasChild(parent, s);
      } else {
        var p :| sc.HasChild(p, s);
        assert t.HasChild(p, s);
      }
    }
  }

  lemma ForkKeepsChildOrder(sc: Scopes, e: CondensedEdge, parent: nat)
    requires sc.Numbered() && parent in sc.scopeGraph
    requires forall p, k :: p in sc.scopeGraph && 0 <= k < |sc.scopeGraph[p]| ==> sc.scopeGraph[p][k].scopeId <= sc.last
    requires forall p, k, l :: p in sc.scopeGraph && 0 <= k < l < |sc.scopeGraph[p]| ==>
                                 sc.scopeGraph[p][k].scopeId < sc.scopeGraph[p][l].scopeId
    ensures sc.Forked(e, parent).scopeEdges.Keys == sc.scopeEdges.Keys + {sc.last + 1}
    ensures var t := sc.Forked(e, parent);
            forall p, k, l :: p in t.scopeGraph && 0 <= k < l < |t.scopeGraph[p]| ==>
                                t.scopeGraph[p][k].scopeId < t.scopeGraph[p][l].scopeId
  {
    var t := sc.Forked(e, parent);
    assert t.scopeGraph[parent] == sc.scopeGraph[parent] + [ScopeEdge(sc.last + 1, e)];
    assert forall p :: p in t.scopeGraph && p != parent && p != sc.last + 1 ==> t.scopeGraph[p] == sc.scopeGraph[p];
  }

  lemma ChildIdsAreOld(sc: Scopes)
    requires sc.Numbered() && sc.Children()
    ensures forall p, k :: p in sc.scopeGraph && 0 <= k < |sc.scopeGraph[p]| ==> sc.scopeGraph[p][k].scopeId <= sc.last
  {
    assert forall p, k :: p in sc.scopeGraph && 0 <= k < |sc.scopeGraph[p]| ==> sc.ChildOf(p, sc.scopeGraph[p][k]);
  }

  lemma ForkedChildren(sc: Scopes, e: CondensedEdge, parent: nat)
    requires sc.Numbered() && parent in sc.scopeEdges
    ensures forall p, s: nat :: sc.Forked(e, parent).HasChild(p, s) <==>
              sc.HasChild(p, s) || (p == parent && s == sc.last + 1)
  {
    var t := sc.Forked(e, parent);
    var id := sc.last + 1;
    assert t.scopeGraph[parent] == sc.scopeGraph[parent] + [ScopeEdge(id, e)];
    forall p, s: nat
      ensures t.HasChild(p, s) <==> sc.HasChild(p, s) || (p == parent && s == id)
    {
      if p == parent && s == id {
        assert t.scopeGraph[parent][|sc.scopeGraph[parent]|].scopeId == id;
      }
      if p in sc.scopeGraph {
        if k :| 0 <= k < |sc.scopeGraph[p]| && sc.scopeGraph[p][k].scopeId == s {
          assert t.scopeGraph[p][k].scopeId == s;
        }
      }
    }
  }

  lemma FreshHasNoParent(sc: Scopes, id: nat)
    requires sc.Children() && id !in sc.scopeEdges
    ensures forall p :: !sc.HasChild(p, id)
  {
    assert forall p, k :: p in sc.scopeGraph && 0 <= k < |sc.scopeGraph[p]| ==> sc.ChildOf(p, sc.scopeGraph[p][k]);
  }
}
