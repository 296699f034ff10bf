/** The foreign-key graph and its strongly connected components (graph.go). */
module FkGraph {
  import opened Digraph

  const SCC_VERTEX_IS_VISITED := 1
  const SCC_VERTEX_IS_NOT_VISITED := -1

  datatype Table = Table(
    oid: nat, schema: string, name: string, primaryKey: seq<string>, subsetConds: seq<string>)

  /** A foreign key or a virtual reference, as read from the catalogue or from the configuration. */
  datatype Reference = Reference(
    schema: string, name: string, isNullable: bool,
    fromKeys: seq<string>, toKeys: seq<string>, polymorphicExprs: seq<string>)

  /** An edge from the referencing table `from` to the referenced table `to` (indices into the tables). */
  datatype Edge = Edge(
    id: nat, from: nat, to: nat, isNullable: bool,
    fromKeys: seq<string>, toKeys: seq<string>, polymorphicExprs: seq<string>)
  {
    predicate HasPolymorphicExpressions() { polymorphicExprs != [] }
  }

  function Targets(graph: seq<seq<Edge>>): (adj: Adjacency)
    ensures |adj| == |graph|
    ensures forall u :: 0 <= u < |graph| ==> |adj[u]| == |graph[u]|
    ensures forall u, k :: 0 <= u < |graph| && 0 <= k < |graph[u]| ==> adj[u][k] == graph[u][k].to
  {
    seq(|graph|, u requires 0 <= u < |graph| =>
      seq(|graph[u]|, k requires 0 <= k < |graph[u]| => graph[u][k].to))
  }

  /** Index of the first table with that schema and name, or -1. */
  function FindTable(tables: seq<Table>, schema: string, name: string): (idx: int)
    ensures -1 <= idx < |tables|
    ensures idx >= 0 ==> tables[idx].schema == schema && tables[idx].name == name
    ensures forall j :: 0 <= j < (if idx < 0 then |tables| else idx) ==>
                          !(tables[j].schema == schema && tables[j].name == name)
  {
    FindTableFrom(tables, schema, name, 0)
  }

  function FindTableFrom(tables: seq<Table>, schema: string, name: string, start: nat): (idx: int)
    requires start <= |tables|
    ensures idx == -1 || start <= idx < |tables|
    ensures idx >= 0 ==> tables[idx].schema == schema && tables[idx].name == name
    ensures forall j :: start <= j < (if idx < 0 then |tables| else idx) ==>
                          !(tables[j].schema == schema && tables[j].name == name)
    decreases |tables| - start
  {
    if start == |tables| then -1
    else if tables[start].schema == schema && tables[start].name == name then start
    else FindTableFrom(tables, schema, name, start + 1)
  }

  /** What NewGraph guarantees about the lists it builds. */
  ghost predicate Loaded(graph: seq<seq<Edge>>, edges: seq<Edge>, reversedSimple: Adjacency) {
    && (forall u, k :: 0 <= u < |graph| && 0 <= k < |graph[u]| ==>
                         graph[u][k].from == u && graph[u][k].to < |graph| && graph[u][k] in edges)
    && (forall u, j, k :: 0 <= u < |graph| && 0 <= j < k < |graph[u]| ==> graph[u][j].id < graph[u][k].id)
    && (forall i :: 0 <= i < |edges| ==>
                      edges[i].id == i && edges[i].from < |graph| && edges[i] in graph[edges[i].from])
    && WellFormed(reversedSimple)
    && Transposed(Targets(graph), reversedSimple)
  }

  lemma LoadedIsWellFormed(graph: seq<seq<Edge>>, edges: seq<Edge>, reversedSimple: Adjacency)
    requires Loaded(graph, edges, reversedSimple)
    ensures WellFormed(Targets(graph))
  {
  }

  /** An edge of the graph is an arc of its adjacency lists. */
  lemma EdgeIsArc(graph: seq<seq<Edge>>, edges: seq<Edge>, reversedSimple: Adjacency, e: Edge)
    requires Loaded(graph, edges, reversedSimple) && e in edges
    ensures HasArc(Targets(graph), e.from, e.to) && e.from < |graph| && e.to < |graph|
  {
    var k :| 0 <= k < |graph[e.from]| && graph[e.from][k] == e;
    assert Targets(graph)[e.from][k] == e.to;
  }

  /** The references to tables of the dump, in order. */
  function Resolvable(tables: seq<Table>, refs: seq<Reference>): seq<Reference> {
    if refs == [] then []
    else
      var last := refs[|refs| - 1];
      Resolvable(tables, refs[..|refs| - 1]) + (if FindTable(tables, last.schema, last.name) >= 0 then [last] else [])
  }

  /** A reference counts exactly when some table has its schema and name. */
  lemma {:induction false} ResolvableIs(tables: seq<Table>, refs: seq<Reference>)
    ensures forall r :: multiset(Resolvable(tables, refs))[r] ==
                        if exists t :: t in tables && t.schema == r.schema && t.name == r.name then multiset(refs)[r]
                        else 0
  {
    if refs != [] {
      var init, last := refs[..|refs| - 1], refs[|refs| - 1];
      assert refs == init + [last];
      ResolvableIs(tables, init);
      var idx := FindTable(tables, last.schema, last.name);
      assert idx >= 0 ==> tables[idx] in tables;
      assert idx >= 0 <==> exists t :: t in tables && t.schema == last.schema && t.name == last.name;
    }
  }

  /** The edge stands for the reference of table `u`. */
  predicate Describes(tables: seq<Table>, u: nat, ref: Reference, e: Edge) {
    && e.from == u && e.to == FindTable(tables, ref.schema, ref.name)
    && e.isNullable == ref.isNullable && e.fromKeys == ref.fromKeys && e.toKeys == ref.toKeys
    && e.polymorphicExprs == ref.polymorphicExprs
  }

  /** One edge for each resolvable reference, in their order, and no others. */
  ghost predicate OneEdgeEach(tables: seq<Table>, refs: seq<Reference>, u: nat, es: seq<Edge>) {
    var found := Resolvable(tables, refs);
    |es| == |found| && forall i :: 0 <= i < |es| ==> Describes(tables, u, found[i], es[i])
  }

  /** The edges of all tables, table by table. */
  function Flat(graph: seq<seq<Edge>>): seq<Edge> {
    if graph == [] then [] else Flat(graph[..|graph| - 1]) + graph[|graph| - 1]
  }

  /** Each edge joins the tables its reference names and has that reference's keys, nullability and expressions. */
  ghost predicate EdgesMatch(tables: seq<Table>, references: seq<seq<Reference>>, graph: seq<seq<Edge>>) {
    && |tables| == |references| == |graph|
    && forall u, i :: 0 <= u < |tables| && 0 <= i < |graph[u]| ==>
         |graph[u]| == |Resolvable(tables, references[u])| &&
         var e, ref := graph[u][i], Resolvable(tables, references[u])[i];
         && e.from == u && e.to < |tables|
         && tables[e.to].schema == ref.schema && tables[e.to].name == ref.name
         && e.isNullable == ref.isNullable && e.fromKeys == ref.fromKeys && e.toKeys == ref.toKeys
         && e.polymorphicExprs == ref.polymorphicExprs
  }

  lemma EdgesDescribe(tables: seq<Table>, references: seq<seq<Reference>>, graph: seq<seq<Edge>>)
    requires |tables| == |references| == |graph|
    requires forall u :: 0 <= u < |tables| ==> OneEdgeEach(tables, references[u], u, graph[u])
    requires forall u, i :: 0 <= u < |graph| && 0 <= i < |graph[u]| ==> graph[u][i].to < |graph|
    ensures EdgesMatch(tables, references, graph)
  {
    hide Resolvable;
    forall u, i | 0 <= u < |tables| && 0 <= i < |graph[u]|
      ensures |graph[u]| == |Resolvable(tables, references[u])|
      ensures Describes(tables, u, Resolvable(tables, references[u])[i], graph[u][i])
    {
      assert OneEdgeEach(tables, references[u], u, graph[u]);
    }
  }

  lemma NextReference(tables: seq<Table>, refs: seq<Reference>, k: nat, u: nat, es: seq<Edge>, e: Edge)
    requires k < |refs| && OneEdgeEach(tables, refs[..k], u, es)
    ensures FindTable(tables, refs[k].schema, refs[k].name) < 0 ==> OneEdgeEach(tables, refs[..k + 1], u, es)
    ensures FindTable(tables, refs[k].schema, refs[k].name) >= 0 && Describes(tables, u, refs[k], e) ==>
              OneEdgeEach(tables, refs[..k + 1], u, es + [e])
  {
    hide Describes;
    assert refs[..k + 1][..k] == refs[..k];
  }

  lemma NextTableFlat(graph: seq<seq<Edge>>, k: nat)
    requires k < |graph|
    ensures Flat(graph[..k + 1]) == Flat(graph[..k]) + graph[k]
  {
    assert graph[..k + 1][..k] == graph[..k];
  }

  /** The three lists NewGraph fills while it walks over the tables. */
  datatype Lists = Lists(graph: seq<seq<Edge>>, edges: seq<Edge>, reversedSimple: Adjacency) {
    ghost predicate Sound() { Loaded(graph, edges, reversedSimple) && |reversedSimple| == |graph| }

    function Append(e: Edge): Lists
      requires e.from < |graph| && e.to < |reversedSimple|
    {
      Lists(graph[e.from := graph[e.from] + [e]], edges + [e],
            reversedSimple[e.to := reversedSimple[e.to] + [e.from]])
    }

    lemma AppendKeepsSound(e: Edge)
      requires Sound() && e.id == |edges| && e.from < |graph| && e.to < |graph|
      ensures Append(e).Sound()
    {
      AppendKeepsTransposed(e);
      AppendKeepsLists(e);
      hide Transposed;
      var l := Append(e);
      assert forall u, j, k :: 0 <= u < |l.graph| && 0 <= j < k < |l.graph[u]| ==> l.graph[u][j].id < l.graph[u][k].id;
    }

    lemma AppendKeepsLists(e: Edge)
      requires Sound() && e.id == |edges| && e.from < |graph| && e.to < |graph|
      ensures var l := Append(e);
              && (forall i :: 0 <= i < |l.edges| ==> l.edges[i] in l.graph[l.edges[i].from])
              && (forall u, k :: 0 <= u < |l.graph| && 0 <= k < |l.graph[u]| ==>
                    l.graph[u][k].from == u && l.graph[u][k].to < |l.graph| && l.graph[u][k] in l.edges)
    {
      hide Transposed, WellFormed;
      var l := Append(e);
      forall i | 0 <= i < |l.edges|
        ensures l.edges[i] in l.graph[l.edges[i].from]
      {
        if i == |edges| {
          assert l.graph[e.from][|graph[e.from]|] == e;
        } else {
          assert edges[i] in graph[edges[i].from];
        }
      }
      forall u, k | 0 <= u < |l.graph| && 0 <= k < |l.graph[u]|
        ensures l.graph[u][k].from == u && l.graph[u][k].to < |l.graph| && l.graph[u][k] in l.edges
      {
        if u == e.from && k == |graph[u]| {
          assert l.edges[|edges|] == e;
        } else {
          assert l.graph[u][k] == graph[u][k] && graph[u][k] in edges;
        }
      }
    }

    lemma AppendKeepsTransposed(e: Edge)
      requires Sound() && e.from < |graph| && e.to < |graph|
      ensures WellFormed(Append(e).reversedSimple)
      ensures Transposed(Targets(Append(e).graph), Append(e).reversedSimple)
    {
      var l := Append(e);
      var adj, adj' := Targets(graph), Targets(l.graph);
      assert adj'[e.from] == adj[e.from] + [e.to];
      assert forall u :: 0 <= u < |graph| && u != e.from ==> adj'[u] == adj[u];
      forall u: nat, v: nat
        ensures HasArc(adj', u, v) <==> HasArc(l.reversedSimple, v, u)
      {
        assert HasArc(adj', u, v) <==> HasArc(adj, u, v) || (u == e.from && v == e.to);
        assert HasArc(l.reversedSimple, v, u) <==> HasArc(reversedSimple, v, u) || (u == e.from && v == e.to);
      }
    }
  }

  lemma TargetsInside(l: Lists)
    requires l.Sound()
    ensures forall u, i :: 0 <= u < |l.graph| && 0 <= i < |l.graph[u]| ==> l.graph[u][i].to < |l.graph|
  {
  }

  lemma NothingLoaded(n: nat)
    ensures var l := Lists(seq(n, _ => []), [], seq(n, _ => [])); l.Sound() && l.edges == Flat(l.graph[..0])
  {
  }

  lemma NoReferences(tables: seq<Table>, u: nat, refs: seq<Reference>)
    ensures OneEdgeEach(tables, refs[..0], u, [])
  {
  }

  // ---------------------------------------------------------------- the finishing order

  ghost predicate Distinct(s: seq<nat>) {
    forall i, j :: 0 <= i < j < |s| ==> s[i] != s[j]
  }

  /**
   * Whenever an arc leaves the vertices finished up to position `i`, its target is still on the
   * recursion stack at that moment and therefore reaches the vertex that finishes at `i`.
   */
  ghost predicate PostOrdered(g: Adjacency, order: seq<nat>) {
    forall i, k, z: nat :: 0 <= k <= i < |order| && HasArc(g, order[k], z) ==>
                             z in order[..i + 1] || Reach(g, z, order[i])
  }

  /**
   * If `u` reaches `order[i]`, then some vertex strongly connected to `u` finishes at `i` or later:
   * the latest vertex of a component finishes after everything the component reaches.
   */
  lemma {:induction false} LateWitness(g: Adjacency, order: seq<nat>, m: nat, i: nat) returns (j: nat)
    requires Distinct(order) && PostOrdered(g, order)
    requires forall x, y: nat :: x in order && HasArc(g, x, y) ==> y in order
    requires m < |order| && i < |order|
    requires Reach(g, order[m], order[i])
    ensures i <= j < |order| && Mutual(g, order[m], order[j])
    decreases i - m
  {
    var u := order[m];
    if m >= i {
      j := m;
      ReachRefl(g, u);
    } else {
      var inside := set j | 0 <= j <= m :: order[j];
      var a, b := BorderArc(g, u, order[i], inside);
      var k :| 0 <= k <= m && order[k] == a;
      assert b in order[..m + 1] ==> b in inside;
      assert Reach(g, b, u);
      assert order[k] in order;
      var t :| 0 <= t < |order| && order[t] == b;
      ReachArc(g, a, b);
      ReachTrans(g, u, a, b);
      j := LateWitness(g, order, t, i);
      MutualTrans(g, u, b, order[j]);
    }
  }

  // ---------------------------------------------------------------- component numbers

  /**
   * The numbering is exactly the partition into strongly connected components, uses every number
   * below `count`, and never falls along an arc.
   */
  ghost predicate SccNumbering(g: Adjacency, number: seq<int>, count: nat) {
    && |number| == |g|
    && (forall u :: 0 <= u < |g| ==> 0 <= number[u] < count)
    && (forall c :: 0 <= c < count ==> c in number)
    && (forall u, v :: 0 <= u < |g| && 0 <= v < |g| ==> (number[u] == number[v] <==> Mutual(g, u, v)))
    && (forall u: nat, v: nat :: HasArc(g, u, v) ==> v < |g| && number[u] <= number[v])
  }

  /** The same facts while only some vertices carry a number: numbered vertices are closed under predecessors. */
  ghost predicate PartialNumbering(g: Adjacency, number: seq<int>, count: nat) {
    && |number| == |g|
    && (forall u :: 0 <= u < |g| ==> -1 <= number[u] < count)
    && (forall c :: 0 <= c < count ==> c in number)
    && (forall u, v :: 0 <= u < |g| && 0 <= v < |g| && number[u] >= 0 ==>
                         (number[u] == number[v] <==> Mutual(g, u, v)))
    && (forall u: nat, v: nat :: HasArc(g, u, v) ==> v < |g| && (number[v] >= 0 ==> 0 <= number[u] <= number[v]))
  }

  /** Vertices painted with the new number by one run of markComponentDfs from `root`. */
  ghost predicate Painted(g: Adjacency, before: seq<int>, after: seq<int>, root: nat, component: nat) {
    && |before| == |after| == |g| && root < |g|
    && after[root] == component
    && (forall u :: 0 <= u < |g| ==> after[u] == before[u] || (before[u] == -1 && after[u] == component))
    && (forall u :: 0 <= u < |g| && after[u] != before[u] ==> Reach(g, u, root))
    && (forall u: nat, v: nat :: HasArc(g, u, v) && v < |g| && after[v] != before[v] ==> after[u] != -1)
  }

  /** A numbered vertex pulls in everything that reaches it. */
  lemma PredecessorsNumbered(g: Adjacency, number: seq<int>, count: nat, u: nat, v: nat)
    requires PartialNumbering(g, number, count)
    requires u < |g| && v < |g| && Reach(g, u, v) && number[v] >= 0
    ensures 0 <= number[u]
  {
    if number[u] == -1 {
      var inside := set x | 0 <= x < |g| && number[x] == -1;
      var a, b := BorderArc(g, u, v, inside);
      assert false;
    }
  }

  /** Within one run, everything that reaches the root ends up numbered. */
  lemma {:induction false} PaintReaches(g: Adjacency, before: seq<int>, after: seq<int>, root: nat, component: nat,
                                        count: nat, u: nat)
    requires PartialNumbering(g, before, count) && Painted(g, before, after, root, component)
    requires u < |g| && Reach(g, u, root)
    ensures after[u] != -1
  {
    if after[u] == -1 {
      var inside := set x | 0 <= x < |g| && after[x] == -1;
      var a, b := BorderArc(g, u, root, inside);
      assert false;
    }
  }

  /** What the first pass leaves behind: all vertices, each once, in a sound finishing order. */
  ghost predicate FinishOrder(g: Adjacency, order: seq<nat>) {
    && WellFormed(g) && Distinct(order) && PostOrdered(g, order)
    && forall x: nat :: x < |g| <==> x in order
  }

  lemma FinishOrderInRange(g: Adjacency, order: seq<nat>)
    requires FinishOrder(g, order)
    ensures forall j :: 0 <= j < |order| ==> order[j] < |g|
  {
    forall j | 0 <= j < |order|
      ensures order[j] < |g|
    {
      assert order[j] in order;
    }
  }

  lemma NothingNumbered(g: Adjacency, number: seq<int>)
    requires WellFormed(g) && |number| == |g| && forall u :: 0 <= u < |g| ==> number[u] == -1
    ensures PartialNumbering(g, number, 0)
  {
  }

  /** The vertices from position `start` of the finishing order on carry a number. */
  ghost predicate NumberedFrom(order: seq<nat>, number: seq<int>, start: nat) {
    && (forall j :: 0 <= j < |order| ==> order[j] < |number|)
    && forall j :: start <= j < |order| ==> number[order[j]] != -1
  }

  lemma PaintedKeepsNumbers(g: Adjacency, order: seq<nat>, before: seq<int>, after: seq<int>, i: nat, component: nat)
    requires i < |order| && NumberedFrom(order, before, i + 1)
    requires Painted(g, before, after, order[i], component)
    ensures NumberedFrom(order, after, i)
  {
  }

  lemma AllNumbered(g: Adjacency, order: seq<nat>, number: seq<int>, count: nat)
    requires FinishOrder(g, order) && PartialNumbering(g, number, count)
    requires NumberedFrom(order, number, 0)
    ensures SccNumbering(g, number, count)
  {
    forall u: nat | u < |g|
      ensures 0 <= number[u]
    {
      assert u in order;
    }
  }

  /** One run of the second pass numbers precisely the component of its root. */
  lemma PaintedIsComponent(g: Adjacency, order: seq<nat>, before: seq<int>, after: seq<int>, i: nat, count: nat)
    requires FinishOrder(g, order)
    requires i < |order| && order[i] < |g| && PartialNumbering(g, before, count)
    requires forall j :: 0 <= j < |order| ==> order[j] < |g|
    requires NumberedFrom(order, before, i + 1)
    requires before[order[i]] == -1 && Painted(g, before, after, order[i], count)
    ensures PartialNumbering(g, after, count + 1)
  {
    var root := order[i];
    forall u: nat | u < |g| && after[u] != before[u]
      ensures Mutual(g, u, root)
    {
      assert u in order;
      var m :| 0 <= m < |order| && order[m] == u;
      var j := LateWitness(g, order, m, i);
      if j > i {
        PredecessorsNumbered(g, before, count, u, order[j]);
        assert false;
      }
    }
    forall u | 0 <= u < |g| && Mutual(g, u, root)
      ensures after[u] == count
    {
      PaintReaches(g, before, after, root, count, count, u);
      assert before[u] == -1;
    }
    forall u, v | 0 <= u < |g| && 0 <= v < |g| && after[u] >= 0
      ensures after[u] == after[v] <==> Mutual(g, u, v)
    {
      if after[u] == count {
        ReachRefl(g, root);
        assert Mutual(g, u, root);
        if after[v] == count {
          MutualTrans(g, u, root, v);
        }
        if Mutual(g, u, v) {
          MutualTrans(g, v, u, root);
        }
      } else {
        assert after[u] == before[u];
        if after[v] == count {
          assert Mutual(g, v, root);
          if Mutual(g, u, v) {
            MutualTrans(g, u, v, root);
          }
        }
      }
    }
    forall c | 0 <= c < count + 1
      ensures c in after
    {
      if c == count {
        assert after[root] == count;
      } else {
        assert c in before;
        var x :| 0 <= x < |before| && before[x] == c;
        assert after[x] == c;
      }
    }
    forall u: nat, v: nat | HasArc(g, u, v)
      ensures v < |g| && (after[v] >= 0 ==> 0 <= after[u] <= after[v])
    {
      assert v < |g|;
      if after[v] != before[v] {
        assert after[u] != -1;
      }
    }
  }

  class Graph {
    const tables: seq<Table>
    const graph: seq<seq<Edge>>
    const reversedSimpleGraph: Adjacency
    const edges: seq<Edge>
    const visited: array<int>
    var order: seq<nat>
    var sscCount: nat

    ghost function Adj(): Adjacency { Targets(graph) }

    ghost predicate Valid() {
      && |tables| == |graph| == visited.Length
      && Loaded(graph, edges, reversedSimpleGraph)
    }

    /**
     * One edge for every reference to a table of the dump, with the keys, nullability and expressions of that
     * reference; ids number the edges in the order of the tables. Other references are skipped.
     */
    constructor (tables: seq<Table>, references: seq<seq<Reference>>)
      requires |references| == |tables|
      ensures Valid() && fresh(visited) && this.tables == tables
      ensures forall u :: 0 <= u < |tables| ==> OneEdgeEach(tables, references[u], u, graph[u])
      ensures edges == Flat(graph)
      ensures EdgesMatch(tables, references, graph)
    {
      hide OneEdgeEach, Flat, Loaded, EdgesMatch;
      var l := Lists(seq(|tables|, _ => []), [], seq(|tables|, _ => []));
      NothingLoaded(|tables|);
      for idx := 0 to |tables|
        invariant |l.graph| == |tables| && l.Sound() && l.edges == Flat(l.graph[..idx])
        invariant forall u :: 0 <= u < idx ==> OneEdgeEach(tables, references[u], u, l.graph[u])
        invariant forall u :: idx <= u < |tables| ==> l.graph[u] == []
      {
        ghost var before := l;
        l := LoadReferences(tables, references, idx, l);
        NextTableFlat(l.graph, idx);
        assert l.graph[..idx] == before.graph[..idx];
      }
      assert l.graph[..|tables|] == l.graph;
      TargetsInside(l);
      EdgesDescribe(tables, references, l.graph);
      this.tables := tables;
      graph, edges, reversedSimpleGraph := l.graph, l.edges, l.reversedSimple;
      visited := new int[|tables|];
      order := [];
      sscCount := 0;
    }

    static method LoadReferences(tables: seq<Table>, references: seq<seq<Reference>>, idx: nat, lists: Lists)
      returns (l: Lists)
      requires |references| == |tables| == |lists.graph| && idx < |tables|
      requires lists.Sound() && lists.graph[idx] == []
      ensures |l.graph| == |tables| && l.Sound() && OneEdgeEach(tables, references[idx], idx, l.graph[idx])
      ensures l.edges == lists.edges + l.graph[idx]
      ensures forall u :: 0 <= u < |tables| && u != idx ==> l.graph[u] == lists.graph[u]
    {
      hide Loaded, OneEdgeEach;
      l := lists;
      var refs := references[idx];
      NoReferences(tables, idx, refs);
      for k := 0 to |refs|
        invariant |l.graph| == |tables| && l.Sound() && OneEdgeEach(tables, refs[..k], idx, l.graph[idx])
        invariant l.edges == lists.edges + l.graph[idx]
        invariant forall u :: 0 <= u < |tables| && u != idx ==> l.graph[u] == lists.graph[u]
      {
        var ref := refs[k];
        var target := FindTable(tables, ref.schema, ref.name);
        if target != -1 {
          var e := Edge(|l.edges|, idx, target, ref.isNullable, ref.fromKeys, ref.toKeys, ref.polymorphicExprs);
          l.AppendKeepsSound(e);
          NextReference(tables, refs, k, idx, l.graph[idx], e);
          l := l.Append(e);
        } else {
          ghost var none := Edge(0, 0, 0, false, [], [], []);
          NextReference(tables, refs, k, idx, l.graph[idx], none);
        }
      }
      assert refs[..|refs|] == refs;
    }

    ghost function White(): set<nat>
      reads visited
    {
      set i | 0 <= i < visited.Length && visited[i] == SCC_VERTEX_IS_NOT_VISITED
    }

    ghost predicate Gray(w: nat)
      reads this, visited
    {
      w < visited.Length && visited[w] == SCC_VERTEX_IS_VISITED && w !in order
    }

    /** State of the first pass: finished vertices are visited, as is everything they refer to. */
    ghost predicate FirstPass()
      reads this, visited
    {
      && Valid()
      && (forall i :: 0 <= i < visited.Length ==>
           visited[i] == SCC_VERTEX_IS_VISITED || visited[i] == SCC_VERTEX_IS_NOT_VISITED)
      && Distinct(order)
      && (forall x :: x in order ==> x < visited.Length && visited[x] == SCC_VERTEX_IS_VISITED)
      && (forall x: nat, z: nat :: x in order && HasArc(Adj(), x, z) ==>
           z < visited.Length && visited[z] == SCC_VERTEX_IS_VISITED)
      && PostOrdered(Adj(), order)
    }

    method EraseVisited()
      modifies visited
      ensures forall i :: 0 <= i < visited.Length ==> visited[i] == SCC_VERTEX_IS_NOT_VISITED
    {
      for idx := 0 to visited.Length
        invariant forall i :: 0 <= i < idx ==> visited[i] == SCC_VERTEX_IS_NOT_VISITED
      {
        visited[idx] := SCC_VERTEX_IS_NOT_VISITED;
      }
    }

    /** Appending the vertex that every stacked vertex reaches keeps the order well formed. */
    lemma FinishKeepsPostOrder(v: nat)
      requires Valid() && v < visited.Length && PostOrdered(Adj(), order)
      requires forall x: nat, z: nat :: x in order + [v] && HasArc(Adj(), x, z) ==>
                 z in order + [v] || Reach(Adj(), z, v)
      ensures PostOrdered(Adj(), order + [v])
    {
      var o := order + [v];
      forall i, k, z: nat | 0 <= k <= i < |o| && HasArc(Adj(), o[k], z)
        ensures z in o[..i + 1] || Reach(Adj(), z, o[i])
      {
        if i < |order| {
          assert o[..i + 1] == order[..i + 1] && o[k] == order[k];
        } else {
          assert o[..i + 1] == o && o[k] in o;
        }
      }
    }

    method TopologicalSortDfs(v: nat)
      requires FirstPass() && v < visited.Length && visited[v] == SCC_VERTEX_IS_NOT_VISITED
      requires forall w :: Gray(w) ==> Reach(Adj(), w, v)
      modifies visited, `order
      ensures FirstPass() && v in order && forall x :: x in old(order) ==> x in order
      ensures forall w :: 0 <= w < visited.Length && old(visited[w]) == SCC_VERTEX_IS_VISITED ==>
                visited[w] == SCC_VERTEX_IS_VISITED
      ensures forall w :: Gray(w) <==> old(Gray(w))
      decreases White()
    {
      hide PostOrdered, Reach;
      var g := Targets(graph);
      visited[v] := SCC_VERTEX_IS_VISITED;
      ReachRefl(g, v);
      assert v in old(White()) && v !in White();
      for k := 0 to |graph[v]|
        invariant FirstPass() && forall x :: x in old(order) ==> x in order
        invariant visited[v] == SCC_VERTEX_IS_VISITED
        invariant forall w :: 0 <= w < visited.Length && old(visited[w]) == SCC_VERTEX_IS_VISITED ==>
                    visited[w] == SCC_VERTEX_IS_VISITED
        invariant forall w :: Gray(w) <==> old(Gray(w)) || w == v
        invariant forall w :: Gray(w) ==> Reach(g, w, v)
        invariant forall j :: 0 <= j < k ==> visited[graph[v][j].to] == SCC_VERTEX_IS_VISITED
        invariant White() <= old(White()) - {v}
      {
        var to := graph[v][k].to;
        if visited[to] == SCC_VERTEX_IS_NOT_VISITED {
          assert g[v][k] == to;
          ReachArc(g, v, to);
          forall w | Gray(w)
            ensures Reach(g, w, to)
          {
            ReachTrans(g, w, v, to);
          }
          TopologicalSortDfs(to);
        }
      }
      assert Gray(v);
      forall x: nat, z: nat | x in order + [v] && HasArc(g, x, z)
        ensures z < visited.Length && visited[z] == SCC_VERTEX_IS_VISITED
        ensures z in order + [v] || Reach(g, z, v)
      {
        if x == v {
          var j :| 0 <= j < |g[v]| && g[v][j] == z;
          assert graph[v][j].to == z;
        }
        assert z !in order ==> Gray(z);
      }
      FinishKeepsPostOrder(v);
      order := order + [v];
    }

    method MarkComponentDfs(v: nat, component: nat)
      requires Valid() && v < visited.Length && visited[v] == SCC_VERTEX_IS_NOT_VISITED
      modifies visited
      ensures Painted(Adj(), old(visited[..]), visited[..], v, component)
      decreases White()
    {
      hide Reach;
      var g := Targets(graph);
      ghost var before := visited[..];
      visited[v] := component;
      ReachRefl(g, v);
      assert v in old(White()) && v !in White();
      for k := 0 to |reversedSimpleGraph[v]|
        invariant visited[v] == component
        invariant forall u :: 0 <= u < visited.Length ==>
                                visited[u] == before[u] ||
                                  (before[u] == SCC_VERTEX_IS_NOT_VISITED && visited[u] == component)
        invariant forall u :: 0 <= u < visited.Length && visited[u] != before[u] ==> Reach(g, u, v)
        invariant forall u: nat, w: nat ::
                    HasArc(g, u, w) && w < visited.Length && w != v && visited[w] != before[w] ==>
                      visited[u] != SCC_VERTEX_IS_NOT_VISITED
        invariant forall j :: 0 <= j < k ==> visited[reversedSimpleGraph[v][j]] != SCC_VERTEX_IS_NOT_VISITED
        invariant White() <= old(White()) - {v}
      {
        var to := reversedSimpleGraph[v][k];
        if visited[to] == SCC_VERTEX_IS_NOT_VISITED {
          ghost var mid := visited[..];
          MarkComponentDfs(to, component);
          assert Painted(g, mid, visited[..], to, component);
          assert HasArc(reversedSimpleGraph, v, to);
          ReachArc(g, to, v);
          forall u | 0 <= u < visited.Length && visited[u] != before[u]
            ensures Reach(g, u, v)
          {
            if visited[u] != mid[u] {
              ReachTrans(g, u, to, v);
            }
          }
          forall u: nat, w: nat | HasArc(g, u, w) && w < visited.Length && w != v && visited[w] != before[w]
            ensures visited[u] != SCC_VERTEX_IS_NOT_VISITED
          {
            assert mid[w] != before[w] || visited[..][w] != mid[w];
            assert visited[u] == visited[..][u];
          }
        }
      }
      forall u: nat | HasArc(g, u, v)
        ensures visited[u] != SCC_VERTEX_IS_NOT_VISITED
      {
        assert HasArc(reversedSimpleGraph, v, u);
      }
    }

    /** First pass: every vertex is finished exactly once. */
    method FinishAll()
      requires Valid()
      modifies visited, this
      ensures FinishOrder(Adj(), order)
    {
      order := [];
      EraseVisited();
      for v := 0 to |graph|
        invariant FirstPass()
        invariant forall w :: !Gray(w)
        invariant forall w :: 0 <= w < v ==> w in order
      {
        if visited[v] == SCC_VERTEX_IS_NOT_VISITED {
          TopologicalSortDfs(v);
        } else {
          assert !Gray(v);
        }
      }
    }

    /** Second pass over the reversed order; returns the number of components. */
    method NumberAll(ghost finish: seq<nat>) returns (count: nat)
      requires Valid() && FinishOrder(Adj(), finish) && order == Reversed(finish)
      modifies visited
      ensures SccNumbering(Adj(), visited[..], count)
    {
      hide PartialNumbering, SccNumbering;
      ghost var g := Adj();
      FinishOrderInRange(g, finish);
      EraseVisited();
      count := 0;
      NothingNumbered(g, visited[..]);
      for p := 0 to |order|
        invariant PartialNumbering(g, visited[..], count) && NumberedFrom(finish, visited[..], |finish| - p)
      {
        var v := order[p];
        ghost var i := |finish| - 1 - p;
        if visited[v] == SCC_VERTEX_IS_NOT_VISITED {
          ghost var before := visited[..];
          MarkComponentDfs(v, count);
          PaintedIsComponent(g, finish, before, visited[..], i, count);
          PaintedKeepsNumbers(g, finish, before, visited[..], i, count);
          count := count + 1;
        }
      }
      AllNumbered(g, finish, visited[..], count);
    }

    /** Kosaraju's two passes; the resulting numbers are left in `visited`. */
    method FindScc()
      requires Valid()
      modifies visited, this
      ensures SccNumbering(Adj(), visited[..], sscCount)
    {
      FinishAll();
      ghost var finish := order;
      order := Reversed(order);
      sscCount := NumberAll(finish);
    }
  }

  function Reversed<T>(s: seq<T>): (r: seq<T>)
    ensures |r| == |s|
    ensures forall k :: 0 <= k < |s| ==> r[k] == s[|s| - 1 - k]
  {
    seq(|s|, k requires 0 <= k < |s| => s[|s| - 1 - k])
  }
}
