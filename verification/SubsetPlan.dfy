/**
 * From the foreign-key graph to the dumped rows: components, search for restricted components and
 * materialisation put together, for graphs whose components are single tables (graph.go:220-234,302-365,
 * materialize.go:29-112).
 */
module SubsetPlan {
  import opened Digraph
  import opened FkGraph
  import opened Condensed
  import opened TableOrder
  import opened SubsetSearch
  import opened Keys
  import M = Materializer

  /** No table references itself, directly or through others; keys have matching lists that cache keys tell apart. */
  ghost predicate Plain(graph: seq<seq<Edge>>, c: Condensation) {
    && (forall k, v :: 0 <= k < |c.componentGraphs| && v in c.componentGraphs[k] ==> c.componentGraphs[k][v] == [])
    && (forall u, e :: 0 <= u < |graph| && e in graph[u] ==> |e.fromKeys| == |e.toKeys|)
    && (forall u, w, e, f ::
          0 <= u < |graph| && 0 <= w < |graph| && e in graph[u] && f in graph[w] && e.to == f.to ==>
            Pieces(e.toKeys) == Pieces(f.toKeys) ==> e.toKeys == f.toKeys)
  }

  function Naturals(number: seq<int>): (r: seq<nat>)
    requires forall i :: 0 <= i < |number| ==> number[i] >= 0
    ensures |r| == |number| && forall i :: 0 <= i < |number| ==> r[i] == number[i]
  {
    seq(|number|, i requires 0 <= i < |number| => number[i])
  }

  /** Every edge leads to another component with a larger number. */
  lemma EdgesLeave(graph: seq<seq<Edge>>, edges: seq<Edge>, reversedSimple: Adjacency, c: Condensation, u: nat, e: Edge)
    requires Loaded(graph, edges, reversedSimple) && Condenses(graph, edges, c) && Plain(graph, c)
    requires u < |graph| && e in graph[u]
    ensures e.from == u && e.to < |graph| == |c.number| && 0 <= c.number[u] < c.number[e.to] < c.count && e in edges
  {
    hide EdgesInRange, Mutual, Transposed;
    var k := c.number[u];
    assert IsComponentGraph(graph, c.number, k, c.vertices[k], c.componentGraphs[k]);
    assert u in c.vertices[k];
    assert c.componentGraphs[k][u] == Inner(graph[u], c.number, k) == [];
    EdgeIsArc(graph, edges, reversedSimple, e);
  }

  /** The component numbers make the subset problem acyclic. */
  lemma PlanIsAcyclic(graph: seq<seq<Edge>>, edges: seq<Edge>, reversedSimple: Adjacency, c: Condensation, s: M.Source)
    requires Loaded(graph, edges, reversedSimple) && Condenses(graph, edges, c) && Plain(graph, c)
    requires s.graph == graph && |s.tables| == |graph| == |s.rows| && UniqueOids(s.tables) && s.count == c.count
    requires |s.comp| == |c.number| && forall i :: 0 <= i < |s.comp| ==> s.comp[i] == c.number[i]
    ensures s.Acyclic()
  {
    NumbersInRange(graph, edges, c);
    forall u, e | 0 <= u < |graph| && e in graph[u]
      ensures e.from == u && e.to < |graph| && s.comp[u] < s.comp[e.to] < s.count
    {
      EdgesLeave(graph, edges, reversedSimple, c, u, e);
    }
    hide Loaded, Condenses;
  }

  lemma NumbersInRange(graph: seq<seq<Edge>>, edges: seq<Edge>, c: Condensation)
    requires Condenses(graph, edges, c)
    ensures |c.number| == |graph| && forall i :: 0 <= i < |c.number| ==> 0 <= c.number[i] < c.count
  {
  }

  lemma CondensedClimbs(graph: seq<seq<Edge>>, edges: seq<Edge>, reversedSimple: Adjacency, c: Condensation)
    requires Loaded(graph, edges, reversedSimple) && Condenses(graph, edges, c)
    ensures |c.condensedGraph| == c.count && Climbs(c.condensedGraph)
  {
    hide Loaded, SccNumbering, GroupsVertices, IsComponentGraph;
    forall v, k | 0 <= v < |c.condensedGraph| && 0 <= k < |c.condensedGraph[v]|
      ensures c.condensedGraph[v][k].from == v && v < c.condensedGraph[v][k].to < |c.condensedGraph|
    {
      CondensedEdgesClimb(graph, edges, reversedSimple, c, v);
      assert c.condensedGraph[v][k] in c.condensedGraph[v];
    }
  }

  /** Restricted components are closed under being referenced. */
  lemma PlanIsClosed(graph: seq<seq<Edge>>, edges: seq<Edge>, reversedSimple: Adjacency, c: Condensation, s: M.Source,
                     conditioned: set<nat>)
    requires Loaded(graph, edges, reversedSimple) && Condenses(graph, edges, c) && Plain(graph, c) && s.Acyclic()
    requires s.graph == graph && |s.comp| == |c.number| && forall i :: 0 <= i < |s.comp| ==> s.comp[i] == c.number[i]
    requires ConditionedExactly(s.tables, c.number, conditioned)
    requires |c.condensedGraph| == c.count && Climbs(c.condensedGraph)
    requires forall k: nat :: k in s.paths <==>
               k < |c.condensedGraph| && Restricted(c.condensedGraph, conditioned, {}, k)
    ensures M.PathsClosed(s)
  {
    hide Loaded, Condenses, Restricted, Plain;
    NumbersInRange(graph, edges, c);
    forall v: nat | v < |s.tables| && s.tables[v].subsetConds != []
      ensures s.IsRestricted(v)
    {
      ConditionedIsRestricted(c, conditioned, c.number[v]);
    }
    forall v: nat, e: Edge | v < |s.tables| && e in s.graph[v] && s.IsRestricted(e.to)
      ensures s.IsRestricted(v)
    {
      EdgesLeave(graph, edges, reversedSimple, c, v, e);
      ReferenceSpreads(graph, edges, reversedSimple, c, conditioned, e);
    }
  }

  lemma ConditionedIsRestricted(c: Condensation, conditioned: set<nat>, k: nat)
    requires Climbs(c.condensedGraph) && k < |c.condensedGraph| && k in conditioned
    ensures Restricted(c.condensedGraph, conditioned, {}, k)
  {
  }

  lemma ReferenceSpreads(graph: seq<seq<Edge>>, edges: seq<Edge>, reversedSimple: Adjacency, c: Condensation,
                         conditioned: set<nat>, e: Edge)
    requires Loaded(graph, edges, reversedSimple) && Condenses(graph, edges, c) && e in edges
    requires |c.condensedGraph| == c.count && Climbs(c.condensedGraph)
    requires e.from < |c.number| && e.to < |c.number| && 0 <= c.number[e.from] < c.number[e.to] < c.count
    requires Restricted(c.condensedGraph, conditioned, {}, c.number[e.to])
    ensures Restricted(c.condensedGraph, conditioned, {}, c.number[e.from])
  {
    hide Loaded, Condenses, Restricted, Climbs;
    var a, b := c.number[e.from], c.number[e.to];
    CondensedEdgesAreLinks(graph, edges, reversedSimple, c, a, b);
    assert Linked(edges, c.number, a, b);
    var ce :| ce in c.condensedGraph[a] && ce.to == b;
    var j :| 0 <= j < |c.condensedGraph[a]| && c.condensedGraph[a][j] == ce;
    RestrictionSpreads(c.condensedGraph, conditioned, a, j);
  }

  /** The rows a table's query returns; a table without a query is dumped whole. */
  ghost function Dumped(s: M.Source, queries: map<nat, seq<M.Condition>>, v: nat): set<M.Row>
    requires v < |s.rows|
  {
    set r | r in s.rows[v] && (v in queries ==> s.Where(queries[v], r))
  }

  /** Every complete reference from a dumped row leads to a dumped row, provided its target existed. */
  ghost predicate Intact(s: M.Source, queries: map<nat, seq<M.Condition>>) {
    forall v, e, row, target ::
      0 <= v < |s.graph| == |s.rows| && e in s.graph[v] && e.to < |s.rows| && row in Dumped(s, queries, v) &&
      target in s.rows[e.to] && M.Refers(e, row, target) && M.UniqueKey(s.rows[e.to], e.toKeys) ==>
        target in Dumped(s, queries, e.to)
  }

  // ---------------------------------------------------------------- which rows are dumped

  /** A chain of references out of `v`. */
  ghost predicate References(graph: seq<seq<Edge>>, v: nat, w: seq<Edge>) {
    && v < |graph| && (w != [] ==> w[0].from == v)
    && (forall i :: 0 <= i < |w| ==> w[i].from < |graph| && w[i] in graph[w[i].from] && w[i].to < |graph|)
    && (forall i :: 0 <= i < |w| - 1 ==> w[i].to == w[i + 1].from)
  }

  /** A chain of references, possibly empty, leads to a table with conditions or ends in a polymorphic reference. */
  ghost predicate ReachesCondition(tables: seq<Table>, graph: seq<seq<Edge>>, v: nat)
    requires |tables| == |graph|
  {
    exists w: seq<Edge> ::
      References(graph, v, w) &&
      if w == [] then tables[v].subsetConds != []
      else tables[w[|w| - 1].to].subsetConds != [] || w[|w| - 1].polymorphicExprs != []
  }

  /** Exactly the components of tables with conditions. */
  ghost predicate ConditionedExactly(tables: seq<Table>, number: seq<int>, conditioned: set<nat>) {
    && |tables| == |number|
    && forall k: nat :: k in conditioned <==>
                          exists v :: 0 <= v < |tables| && number[v] == k && tables[v].subsetConds != []
  }

  /** No two tables share a component. */
  lemma NumbersDiffer(graph: seq<seq<Edge>>, edges: seq<Edge>, reversedSimple: Adjacency, c: Condensation, u: nat,
                      v: nat)
    requires Loaded(graph, edges, reversedSimple) && Condenses(graph, edges, c) && Plain(graph, c)
    requires u < |graph| == |c.number| && v < |graph| && c.number[u] == c.number[v] >= 0 && c.number[u] < c.count
    ensures u == v
  {
    hide Loaded;
    var k := c.number[u];
    EdgelessComponentIsOneTable(graph, edges, reversedSimple, c, k);
    assert u in c.vertices[k] && v in c.vertices[k];
  }

  lemma ConditionedIff(graph: seq<seq<Edge>>, edges: seq<Edge>, reversedSimple: Adjacency, c: Condensation,
                       tables: seq<Table>, conditioned: set<nat>, v: nat)
    requires Loaded(graph, edges, reversedSimple) && Condenses(graph, edges, c) && Plain(graph, c)
    requires |tables| == |graph| && ConditionedExactly(tables, c.number, conditioned) && v < |graph|
    ensures 0 <= c.number[v] < c.count && (c.number[v] in conditioned <==> tables[v].subsetConds != [])
  {
    hide Loaded, Condenses, Plain;
    NumbersInRange(graph, edges, c);
    if c.number[v] in conditioned {
      var u :| 0 <= u < |tables| && c.number[u] == c.number[v] && tables[u].subsetConds != [];
      NumbersDiffer(graph, edges, reversedSimple, c, u, v);
    }
  }

  /** Each condensed edge out of a table's component is a reference of that table. */
  lemma CondensedIsReference(graph: seq<seq<Edge>>, edges: seq<Edge>, reversedSimple: Adjacency, c: Condensation,
                             v: nat, ce: CondensedEdge)
    requires Loaded(graph, edges, reversedSimple) && Condenses(graph, edges, c) && Plain(graph, c) && v < |graph|
    requires 0 <= c.number[v] < c.count && ce in c.condensedGraph[c.number[v]]
    ensures var e := ce.originalEdge; e in graph[v] && e.from == v && e.to < |graph| && ce.to == c.number[e.to]
  {
    hide Condenses, Plain;
    var e := ce.originalEdge;
    NumbersInRange(graph, edges, c);
    CondensedEdgesClimb(graph, edges, reversedSimple, c, c.number[v]);
    EdgeIsArc(graph, edges, reversedSimple, e);
    NumbersDiffer(graph, edges, reversedSimple, c, e.from, v);
  }

  /** Each reference is a condensed edge out of the table's component. */
  lemma ReferenceIsCondensed(graph: seq<seq<Edge>>, edges: seq<Edge>, reversedSimple: Adjacency, c: Condensation,
                             v: nat, e: Edge) returns (j: nat)
    requires Loaded(graph, edges, reversedSimple) && Condenses(graph, edges, c) && Plain(graph, c) && v < |graph|
    requires e in graph[v] && 0 <= c.number[v] < c.count
    ensures j < |c.condensedGraph[c.number[v]]|
    ensures var ce := c.condensedGraph[c.number[v]][j];
            ce.originalEdge == e && e.to < |graph| && ce.to == c.number[e.to]
  {
    hide Loaded, SccNumbering, GroupsVertices, IsComponentGraph;
    EdgesLeave(graph, edges, reversedSimple, c, v, e);
    hide Plain;
    var cross := Cross(edges, c.number);
    CrossMembers(edges, c.number);
    LeavingMembers(cross, c.number[v]);
    var ce :| ce in cross && ce.originalEdge == e;
    assert ce in c.condensedGraph[c.number[v]];
    j :| 0 <= j < |c.condensedGraph[c.number[v]]| && c.condensedGraph[c.number[v]][j] == ce;
  }

  lemma PrependReference(tables: seq<Table>, graph: seq<seq<Edge>>, v: nat, e: Edge)
    requires |tables| == |graph| && v < |graph| && e in graph[v] && e.from == v && e.to < |graph|
    requires ReachesCondition(tables, graph, e.to)
    ensures ReachesCondition(tables, graph, v)
  {
    var w: seq<Edge> :| References(graph, e.to, w) &&
      if w == [] then tables[e.to].subsetConds != []
      else tables[w[|w| - 1].to].subsetConds != [] || w[|w| - 1].polymorphicExprs != [];
    hide References;
    var x := [e] + w;
    PrependChain(graph, v, e, w);
    assert x[|x| - 1] == if w == [] then e else w[|w| - 1];
  }

  lemma PrependChain(graph: seq<seq<Edge>>, v: nat, e: Edge, w: seq<Edge>)
    requires v < |graph| && e in graph[v] && e.from == v && e.to < |graph| && References(graph, e.to, w)
    ensures References(graph, v, [e] + w)
    ensures w != [] ==> w[|w| - 1].to < |graph|
  {
    var x := [e] + w;
    forall i | 0 <= i < |x| - 1
      ensures x[i].to == x[i + 1].from
    {
      assert i > 0 ==> w[i - 1].to == w[i - 1 + 1].from;
    }
  }

  lemma PolymorphicReaches(tables: seq<Table>, graph: seq<seq<Edge>>, v: nat, e: Edge)
    requires |tables| == |graph| && v < |graph| && e in graph[v] && e.from == v && e.to < |graph|
    requires e.polymorphicExprs != []
    ensures ReachesCondition(tables, graph, v)
  {
    assert References(graph, v, [e]);
  }

  /** A table without conditions reaches one only through its references. */
  lemma FirstReference(tables: seq<Table>, graph: seq<seq<Edge>>, v: nat) returns (e: Edge)
    requires |tables| == |graph| && v < |graph| && ReachesCondition(tables, graph, v) && tables[v].subsetConds == []
    ensures e in graph[v] && e.from == v && e.to < |graph|
    ensures e.polymorphicExprs != [] || ReachesCondition(tables, graph, e.to)
  {
    var w: seq<Edge> :| References(graph, v, w) &&
      if w == [] then tables[v].subsetConds != []
      else tables[w[|w| - 1].to].subsetConds != [] || w[|w| - 1].polymorphicExprs != [];
    e := w[0];
    var rest := w[1..];
    forall i | 0 <= i < |rest| - 1
      ensures rest[i].to == rest[i + 1].from
    {
      assert w[i + 1].to == w[i + 1 + 1].from;
    }
    assert |w| > 1 ==> w[0].to == w[0 + 1].from;
    assert References(graph, e.to, rest);
    assert rest != [] ==> rest[|rest| - 1] == w[|w| - 1];
  }

  /** A table's component is restricted exactly when the table reaches a condition. */
  lemma {:induction false} RestrictedIff(graph: seq<seq<Edge>>, edges: seq<Edge>, reversedSimple: Adjacency,
                                         c: Condensation, tables: seq<Table>, conditioned: set<nat>, v: nat)
    requires Loaded(graph, edges, reversedSimple) && Condenses(graph, edges, c) && Plain(graph, c)
    requires |c.condensedGraph| == c.count && Climbs(c.condensedGraph)
    requires |tables| == |graph| && ConditionedExactly(tables, c.number, conditioned) && v < |graph|
    ensures 0 <= c.number[v] < c.count
    ensures Restricted(c.condensedGraph, conditioned, {}, c.number[v]) <==> ReachesCondition(tables, graph, v)
    decreases c.count - c.number[v]
  {
    hide Loaded, Condenses, Plain, Climbs, ConditionedExactly, ReachesCondition, OnHit, Constrains;
    NumbersInRange(graph, edges, c);
    ConditionedIff(graph, edges, reversedSimple, c, tables, conditioned, v);
    var k := c.number[v];
    if tables[v].subsetConds != [] {
      HasConditions(tables, graph, v);
    } else {
      if Restricted(c.condensedGraph, conditioned, {}, k) {
        var j := HittingEdge(c, conditioned, k);
        RestrictedReaches(graph, edges, reversedSimple, c, tables, conditioned, v, j);
        var e := c.condensedGraph[k][j].originalEdge;
        EdgesLeave(graph, edges, reversedSimple, c, v, e);
        RestrictedIff(graph, edges, reversedSimple, c, tables, conditioned, e.to);
        if e.polymorphicExprs != [] {
          PolymorphicReaches(tables, graph, v, e);
        } else {
          PrependReference(tables, graph, v, e);
        }
      }
      if ReachesCondition(tables, graph, v) {
        var e := FirstReference(tables, graph, v);
        EdgesLeave(graph, edges, reversedSimple, c, v, e);
        RestrictedIff(graph, edges, reversedSimple, c, tables, conditioned, e.to);
        var j := ReferenceIsCondensed(graph, edges, reversedSimple, c, v, e);
        ReachesRestricted(c, conditioned, k, j);
      }
    }
  }

  /** A component that is hit has an edge that constrains or leads to one that is hit. */
  lemma HittingEdge(c: Condensation, conditioned: set<nat>, k: nat) returns (j: nat)
    requires Climbs(c.condensedGraph) && k < |c.condensedGraph| && k !in conditioned
    requires Restricted(c.condensedGraph, conditioned, {}, k)
    ensures j < |c.condensedGraph[k]|
    ensures var ce := c.condensedGraph[k][j];
            ce.to < |c.condensedGraph| && (Constrains(conditioned, ce) || Hits(c.condensedGraph, conditioned, ce.to))
  {
    HitsEnd(c.condensedGraph, conditioned, k);
    j :| 0 <= j < |c.condensedGraph[k]| &&
      (Constrains(conditioned, c.condensedGraph[k][j]) ||
       Hits(c.condensedGraph, conditioned, c.condensedGraph[k][j].to));
  }

  lemma HasConditions(tables: seq<Table>, graph: seq<seq<Edge>>, v: nat)
    requires |tables| == |graph| && v < |graph| && tables[v].subsetConds != []
    ensures ReachesCondition(tables, graph, v)
  {
    assert References(graph, v, []);
  }

  lemma RestrictedReaches(graph: seq<seq<Edge>>, edges: seq<Edge>, reversedSimple: Adjacency, c: Condensation,
                          tables: seq<Table>, conditioned: set<nat>, v: nat, j: nat)
    requires Loaded(graph, edges, reversedSimple) && Condenses(graph, edges, c) && Plain(graph, c) && v < |graph|
    requires |c.condensedGraph| == c.count && Climbs(c.condensedGraph)
    requires 0 <= c.number[v] < c.count && j < |c.condensedGraph[c.number[v]]|
    requires var ce := c.condensedGraph[c.number[v]][j];
             ce.to < c.count && (Constrains(conditioned, ce) || Hits(c.condensedGraph, conditioned, ce.to))
    ensures var e := c.condensedGraph[c.number[v]][j].originalEdge;
            && e in graph[v] && e.from == v && e.to < |graph| == |c.number| && 0 <= c.number[e.to] < c.count
            && (e.polymorphicExprs != [] || Restricted(c.condensedGraph, conditioned, {}, c.number[e.to]))
  {
    hide Loaded, Condenses, Plain, Climbs, Hits;
    NumbersInRange(graph, edges, c);
    CondensedIsReference(graph, edges, reversedSimple, c, v, c.condensedGraph[c.number[v]][j]);
  }

  lemma ReachesRestricted(c: Condensation, conditioned: set<nat>, k: nat, j: nat)
    requires Climbs(c.condensedGraph) && k < |c.condensedGraph| && j < |c.condensedGraph[k]|
    requires var ce := c.condensedGraph[k][j];
             ce.originalEdge.polymorphicExprs != [] || Restricted(c.condensedGraph, conditioned, {}, ce.to)
    ensures Restricted(c.condensedGraph, conditioned, {}, k)
  {
    assert HitsBefore(c.condensedGraph, conditioned, k, |c.condensedGraph[k]|) by {
      assert Constrains(conditioned, c.condensedGraph[k][j]) ||
             Hits(c.condensedGraph, conditioned, c.condensedGraph[k][j].to);
    }
  }

  /** The rows a plan dumps, from the rows of the source and the rows dumped of the referenced tables. */
  lemma DumpMeans(s: M.Source, queries: map<nat, seq<M.Condition>>, v: nat, row: M.Row)
    requires s.Acyclic() && v < |s.rows| && row in s.rows[v]
    requires forall u: nat :: u < |s.rows| ==> Dumped(s, queries, u) == s.Kept(u)
    ensures row in Dumped(s, queries, v) <==>
            && (forall text :: text in s.tables[v].subsetConds ==> s.eval(text, row).True?)
            && forall e :: e in s.graph[v] && e.to < |s.rows| && s.comp[e.to] in s.paths ==>
                 || (e.isNullable && exists col :: col in e.fromKeys && (col !in row || row[col] == M.Null))
                 || exists t :: t in Dumped(s, queries, e.to) && SameKey(e, row, t)
  {
    hide Dumped, M.ReferenceHolds;
    forall e | e in s.graph[v]
      ensures e.to < |s.rows| && |e.fromKeys| == |e.toKeys|
      ensures M.ReferenceHolds(e, row, s.Kept(e.to)) <==>
              || (e.isNullable && exists col :: col in e.fromKeys && (col !in row || row[col] == M.Null))
              || exists t :: t in Dumped(s, queries, e.to) && SameKey(e, row, t)
    {
      M.ReferenceMeans(e, row, s.Kept(e.to));
    }
  }

  /**
   * A source row is dumped exactly when it meets the conditions of its table and each of its references to a table
   * that reaches a condition is nullable with a null column, or has its key in a dumped row.
   */
  ghost predicate DumpsExactly(s: M.Source, queries: map<nat, seq<M.Condition>>)
    requires |s.tables| == |s.graph| == |s.rows|
  {
    forall v: nat, row :: v < |s.rows| && row in s.rows[v] ==>
      (row in Dumped(s, queries, v) <==>
       && (forall text :: text in s.tables[v].subsetConds ==> s.eval(text, row).True?)
       && forall e :: e in s.graph[v] && e.to < |s.rows| && ReachesCondition(s.tables, s.graph, e.to) ==>
            || (e.isNullable && exists col :: col in e.fromKeys && (col !in row || row[col] == M.Null))
            || exists t :: t in Dumped(s, queries, e.to) && SameKey(e, row, t))
  }

  /** Both rows have the same text in each pair of key columns. */
  ghost predicate SameKey(e: Edge, row: M.Row, t: M.Row) {
    |e.fromKeys| == |e.toKeys| &&
    forall i :: 0 <= i < |e.fromKeys| ==>
      e.fromKeys[i] in row && row[e.fromKeys[i]].Text? &&
      e.toKeys[i] in t && t[e.toKeys[i]] == row[e.fromKeys[i]]
  }

  /** The plan: search, then materialise; what the queries dump is intact and as large as the conditions allow. */
  method PlanSubset(tables: seq<Table>, graph: seq<seq<Edge>>, ghost edges: seq<Edge>, ghost reversedSimple: Adjacency,
                    c: Condensation, rows: seq<set<M.Row>>, eval: (string, M.Row) -> M.Truth, inlineValuesLimit: nat)
    returns (queries: map<nat, seq<M.Condition>>, s: M.Source)
    requires Loaded(graph, edges, reversedSimple) && Condenses(graph, edges, c) && Plain(graph, c)
    requires |tables| == |graph| == |rows| && UniqueOids(tables)
    ensures s.tables == tables && s.graph == graph && s.rows == rows && s.eval == eval && s.Acyclic()
    ensures Intact(s, queries)
    ensures DumpsExactly(s, queries)
    ensures forall v: nat :: v < |rows| ==> Dumped(s, queries, v) == s.Kept(v)
    ensures forall family: seq<set<M.Row>>, v: nat :: |family| == |rows| && M.Admissible(s, family) && v < |rows| ==>
                                                         family[v] <= Dumped(s, queries, v)
  {
    hide Loaded, Condenses, Plain, M.Source.Acyclic, Climbs, Restricted, Intact;
    NumbersInRange(graph, edges, c);
    CondensedClimbs(graph, edges, reversedSimple, c);
    var conditioned: set<nat> := {};
    for v := 0 to |tables|
      invariant forall k: nat :: k in conditioned <==>
                  exists u :: 0 <= u < v && c.number[u] == k && tables[u].subsetConds != []
    {
      if |tables[v].subsetConds| > 0 {
        conditioned := conditioned + {c.number[v]};
      }
    }
    var paths := FindSubsetVertexes(c.condensedGraph, conditioned, {}, {});
    s := M.Source(tables, graph, Naturals(c.number), c.count, paths.Keys, rows, eval);
    PlanIsAcyclic(graph, edges, reversedSimple, c, s);
    PlanIsClosed(graph, edges, reversedSimple, c, s, conditioned);
    queries := M.MaterializeSubsetQueries(s, inlineValuesLimit);
    DumpIsKept(s, queries);
    DumpIsIntact(s, queries);
    DumpIsLargest(s, queries);
    PathsReach(graph, edges, reversedSimple, c, s, conditioned);
    EveryDumpMeans(s, queries);
  }

  lemma EveryDumpMeans(s: M.Source, queries: map<nat, seq<M.Condition>>)
    requires s.Acyclic() && forall u: nat :: u < |s.rows| ==> Dumped(s, queries, u) == s.Kept(u)
    requires forall v: nat :: v < |s.graph| ==> (s.comp[v] in s.paths <==> ReachesCondition(s.tables, s.graph, v))
    ensures DumpsExactly(s, queries)
  {
    hide Dumped, ReachesCondition, SameKey;
    forall v: nat, row | v < |s.rows| && row in s.rows[v]
      ensures row in Dumped(s, queries, v) <==>
              && (forall text :: text in s.tables[v].subsetConds ==> s.eval(text, row).True?)
              && forall e :: e in s.graph[v] && e.to < |s.rows| && ReachesCondition(s.tables, s.graph, e.to) ==>
                   || (e.isNullable && exists col :: col in e.fromKeys && (col !in row || row[col] == M.Null))
                   || exists t :: t in Dumped(s, queries, e.to) && SameKey(e, row, t)
    {
      DumpMeans(s, queries, v, row);
    }
  }

  lemma PathsReach(graph: seq<seq<Edge>>, edges: seq<Edge>, reversedSimple: Adjacency, c: Condensation, s: M.Source,
                   conditioned: set<nat>)
    requires Loaded(graph, edges, reversedSimple) && Condenses(graph, edges, c) && Plain(graph, c)
    requires |c.condensedGraph| == c.count && Climbs(c.condensedGraph)
    requires |s.tables| == |graph| && ConditionedExactly(s.tables, c.number, conditioned)
    requires |s.comp| == |c.number| && forall i :: 0 <= i < |s.comp| ==> s.comp[i] == c.number[i]
    requires forall k: nat :: k in s.paths <==>
               k < |c.condensedGraph| && Restricted(c.condensedGraph, conditioned, {}, k)
    ensures |s.comp| == |graph|
    ensures forall v: nat :: v < |graph| ==> (s.comp[v] in s.paths <==> ReachesCondition(s.tables, graph, v))
  {
    hide Loaded, Condenses, Plain, Climbs, ConditionedExactly, ReachesCondition, Restricted;
    NumbersInRange(graph, edges, c);
    forall v: nat | v < |graph|
      ensures s.comp[v] in s.paths <==> ReachesCondition(s.tables, graph, v)
    {
      RestrictedIff(graph, edges, reversedSimple, c, s.tables, conditioned, v);
    }
  }

  lemma DumpIsLargest(s: M.Source, queries: map<nat, seq<M.Condition>>)
    requires s.Acyclic() && forall v: nat :: v < |s.rows| ==> Dumped(s, queries, v) == s.Kept(v)
    ensures forall family: seq<set<M.Row>>, v: nat ::
              |family| == |s.rows| && M.Admissible(s, family) && v < |s.rows| ==> family[v] <= Dumped(s, queries, v)
  {
    hide Dumped;
    forall family: seq<set<M.Row>>, v: nat | |family| == |s.rows| && M.Admissible(s, family) && v < |s.rows|
      ensures family[v] <= Dumped(s, queries, v)
    {
      M.AdmissibleIsKept(s, family, v);
    }
  }

  lemma DumpIsKept(s: M.Source, queries: map<nat, seq<M.Condition>>)
    requires s.Acyclic() && M.PathsClosed(s)
    requires forall v: nat :: v in queries <==> v < |s.tables| && s.comp[v] in s.paths
    requires forall v :: v in queries && v < |s.tables| ==>
               s.Kept(v) == set r | r in s.rows[v] && s.Where(queries[v], r)
    ensures forall v: nat :: v < |s.rows| ==> Dumped(s, queries, v) == s.Kept(v)
  {
    forall v: nat | v < |s.rows|
      ensures Dumped(s, queries, v) == s.Kept(v)
    {
      if v !in queries {
        M.UnrestrictedKeptWhole(s, v);
      }
    }
  }

  lemma DumpIsIntact(s: M.Source, queries: map<nat, seq<M.Condition>>)
    requires s.Acyclic() && M.PathsClosed(s)
    requires forall v: nat :: v < |s.rows| ==> Dumped(s, queries, v) == s.Kept(v)
    ensures Intact(s, queries)
  {
    hide Dumped;
    forall v: nat, e: Edge, row: M.Row, target: M.Row |
      v < |s.graph| && e in s.graph[v] && e.to < |s.rows| && row in Dumped(s, queries, v) &&
      target in s.rows[e.to] && M.Refers(e, row, target) && M.UniqueKey(s.rows[e.to], e.toKeys)
      ensures target in Dumped(s, queries, e.to)
    {
      M.SubsetIsIntact(s, v, e, row, target);
    }
  }
}
