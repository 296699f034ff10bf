/** Table order and dependency map handed to the dump (graph.go:804-834, dump.go:386-416). */
module TableOrder {
  import opened Digraph
  import opened FkGraph
  import opened Condensed

  // ---------------------------------------------------------------- orders

  ghost predicate UniqueOids(tables: seq<Table>) {
    forall i, j :: 0 <= i < j < |tables| ==> tables[i].oid != tables[j].oid
  }

  /** `a` stands somewhere before `b`. */
  ghost predicate Before(s: seq<nat>, a: nat, b: nat) {
    exists i, j :: 0 <= i < j < |s| && s[i] == a && s[j] == b
  }

  function OidsOf(tables: seq<Table>, vs: seq<nat>): (r: seq<nat>)
    requires InRange(vs, |tables|)
    ensures |r| == |vs| && forall i :: 0 <= i < |vs| ==> r[i] == tables[vs[i]].oid
  {
    seq<nat>(|vs|, i requires 0 <= i < |vs| => tables[vs[i]].oid)
  }

  predicate InRange(vs: seq<nat>, n: nat) {
    forall i :: 0 <= i < |vs| ==> vs[i] < n
  }

  /** The vertices come component by component, the components in the order of `stack`. */
  ghost predicate FollowsStack(number: seq<int>, stack: seq<nat>, vs: seq<nat>) {
    && InRange(vs, |number|) && Distinct(vs)
    && (forall v: nat :: v in vs <==> v < |number| && number[v] >= 0 && (number[v] as nat) in stack)
    && forall i, j, p, q | 0 <= i < |vs| && 0 <= j < |vs| && 0 <= p < q < |stack| ::
         number[vs[i]] == stack[p] && number[vs[j]] == stack[q] ==> i < j
  }

  /** What the derived order promises: every table once, and whole components after the components they refer to. */
  ghost predicate SortedTables(tables: seq<Table>, edges: seq<Edge>, number: seq<int>, sorted: seq<nat>) {
    && |number| == |tables|
    && Distinct(sorted)
    && (forall oid :: oid in sorted <==> exists v :: 0 <= v < |tables| && tables[v].oid == oid)
    && forall t, w :: 0 <= t < |tables| && 0 <= w < |tables| && Linked(edges, number, number[t], number[w]) ==>
                        Before(sorted, tables[w].oid, tables[t].oid)
  }

  /** The members of one component in the unspecified order of a Go map iteration. */
  method IterateTables(members: seq<nat>) returns (order: seq<nat>)
    requires Distinct(members)
    ensures Distinct(order) && forall v :: v in order <==> v in members
  {
    order := [];
    var rest := set v | v in members;
    while rest != {}
      invariant Distinct(order) && forall v :: v in members <==> v in order || v in rest
      invariant forall v :: v in order ==> v !in rest
      decreases rest
    {
      var v :| v in rest;
      order, rest := order + [v], rest - {v};
    }
  }

  lemma AppendComponent(number: seq<int>, stack: seq<nat>, vs: seq<nat>, c: nat, more: seq<nat>)
    requires FollowsStack(number, stack, vs) && c !in stack && Distinct(more)
    requires forall v: nat :: v in more <==> v < |number| && number[v] == c
    ensures FollowsStack(number, stack + [c], vs + more)
  {
    var s, w := stack + [c], vs + more;
    assert forall i :: 0 <= i < |more| ==> more[i] in more;
    forall i, j | 0 <= i < j < |w|
      ensures w[i] != w[j]
    {
      if i < |vs| <= j {
        assert vs[i] in vs && more[j - |vs|] in more;
      }
    }
    forall v: nat
      ensures v in w <==> v < |number| && number[v] >= 0 && (number[v] as nat) in s
    {
    }
    forall i, j, p, q | 0 <= i < |w| && 0 <= j < |w| && 0 <= p < q < |s| &&
                        number[w[i]] == s[p] && number[w[j]] == s[q]
      ensures i < j
    {
      assert s[p] == stack[p] && s[p] in stack;
      if i >= |vs| {
        assert false;
      }
      if q == |stack| && j < |vs| {
        assert false;
      }
    }
  }

  method SortedTableOids(tables: seq<Table>, ghost graph: seq<seq<Edge>>, ghost edges: seq<Edge>,
                         ghost reversedSimple: Adjacency, c: Condensation)
    returns (sorted: seq<nat>)
    requires |tables| == |graph| && UniqueOids(tables)
    requires Loaded(graph, edges, reversedSimple) && Condenses(graph, edges, c)
    ensures SortedTables(tables, edges, c.number, sorted)
  {
    forall k, ce | 0 <= k < c.count && ce in c.reversedCondensedGraph[k]
      ensures ce.to < k
    {
      CondensedEdgesClimb(graph, edges, reversedSimple, c, k);
    }
    var stack := SortCondensedEdges(c.reversedCondensedGraph);
    var oids: seq<nat> := [];
    ghost var vs: seq<nat> := [];
    for i := 0 to |stack|
      invariant FollowsStack(c.number, stack[..i], vs) && oids == OidsOf(tables, vs)
    {
      var k := stack[i];
      assert k in stack;
      var members := IterateTables(c.vertices[k]);
      AppendComponent(c.number, stack[..i], vs, k, members);
      assert stack[..i + 1] == stack[..i] + [k];
      vs := vs + members;
      assert InRange(members, |tables|) by {
        assert forall j :: 0 <= j < |members| ==> members[j] in members;
      }
      oids := oids + OidsOf(tables, members);
    }
    assert stack[..|stack|] == stack;
    OrderIsTopological(tables, graph, edges, reversedSimple, c, stack, vs);
    sorted := Reversed(oids);
  }

  /** Listing every vertex once lists every oid once. */
  lemma OidsOnce(tables: seq<Table>, vs: seq<nat>)
    requires UniqueOids(tables) && Distinct(vs) && InRange(vs, |tables|)
    requires forall v: nat :: v < |tables| ==> v in vs
    ensures Distinct(Reversed(OidsOf(tables, vs)))
    ensures forall oid :: oid in Reversed(OidsOf(tables, vs)) <==> exists v :: 0 <= v < |tables| && tables[v].oid == oid
  {
    var sorted := Reversed(OidsOf(tables, vs));
    forall v: nat | v < |tables|
      ensures tables[v].oid in sorted
    {
      assert v in vs;
      var i :| 0 <= i < |vs| && vs[i] == v;
      assert sorted[|vs| - 1 - i] == tables[v].oid;
    }
  }

  lemma OrderIsTopological(tables: seq<Table>, graph: seq<seq<Edge>>, edges: seq<Edge>, reversedSimple: Adjacency,
                           c: Condensation, stack: seq<nat>, vs: seq<nat>)
    requires |tables| == |graph| && UniqueOids(tables)
    requires Loaded(graph, edges, reversedSimple) && Condenses(graph, edges, c)
    requires Distinct(stack) && TargetsFirst(c.reversedCondensedGraph, stack)
    requires forall x: nat :: x in stack <==> x < c.count
    requires FollowsStack(c.number, stack, vs)
    ensures SortedTables(tables, edges, c.number, Reversed(OidsOf(tables, vs)))
  {
    var sorted := Reversed(OidsOf(tables, vs));
    forall v: nat | v < |tables|
      ensures v in vs
    {
      assert 0 <= c.number[v] < c.count;
    }
    OidsOnce(tables, vs);
    CondensationShape(graph, edges, c);
    hide Condenses, Loaded, UniqueOids, FollowsStack, Before, Linked;
    forall t: nat, w: nat | t < |tables| && w < |tables| && Linked(edges, c.number, c.number[t], c.number[w])
      ensures Before(sorted, tables[w].oid, tables[t].oid)
    {
      LinkOrdersStack(graph, edges, reversedSimple, c, stack, c.number[t], c.number[w]);
      var i := PositionOf(vs, t);
      var j := PositionOf(vs, w);
      StackOrdersPositions(c.number, stack, vs, i, j);
      ReversalOrdersOids(tables, vs, i, j);
    }
  }

  lemma StackOrdersPositions(number: seq<int>, stack: seq<nat>, vs: seq<nat>, i: nat, j: nat)
    requires FollowsStack(number, stack, vs) && i < |vs| && j < |vs|
    requires exists p, q :: 0 <= p < q < |stack| && stack[p] == number[vs[i]] && stack[q] == number[vs[j]]
    ensures i < j
  {
  }

  lemma PositionOf(vs: seq<nat>, v: nat) returns (i: nat)
    requires v in vs
    ensures i < |vs| && vs[i] == v
  {
    i :| 0 <= i < |vs| && vs[i] == v;
  }

  lemma ReversalOrdersOids(tables: seq<Table>, vs: seq<nat>, i: nat, j: nat)
    requires InRange(vs, |tables|) && i < j < |vs|
    ensures Before(Reversed(OidsOf(tables, vs)), tables[vs[j]].oid, tables[vs[i]].oid)
  {
    var sorted := Reversed(OidsOf(tables, vs));
    assert sorted[|vs| - 1 - j] == tables[vs[j]].oid && sorted[|vs| - 1 - i] == tables[vs[i]].oid;
  }

  lemma LinkOrdersStack(graph: seq<seq<Edge>>, edges: seq<Edge>, reversedSimple: Adjacency, c: Condensation,
                        stack: seq<nat>, a: nat, b: nat)
    requires Loaded(graph, edges, reversedSimple) && Condenses(graph, edges, c)
    requires Distinct(stack) && TargetsFirst(c.reversedCondensedGraph, stack)
    requires forall x: nat :: x in stack <==> x < c.count
    requires a < c.count && b < c.count && Linked(edges, c.number, a, b)
    ensures exists p, q :: 0 <= p < q < |stack| && stack[p] == a && stack[q] == b
  {
    CondensedEdgesAreLinks(graph, edges, reversedSimple, c, a, b);
    var ce :| ce in c.reversedCondensedGraph[b] && ce.to == a;
    assert b in stack;
    var q :| 0 <= q < |stack| && stack[q] == b;
    assert a in stack[..q];
  }

  // ---------------------------------------------------------------- dependencies

  type Dependencies = map<nat, seq<nat>>

  /** The dependency map lists, for every table, exactly the tables of the directly referenced components. */
  ghost predicate ExactDependencies(tables: seq<Table>, edges: seq<Edge>, number: seq<int>, deps: Dependencies) {
    && |number| == |tables|
    && (forall oid :: oid in deps <==> exists v :: 0 <= v < |tables| && tables[v].oid == oid)
    && forall t: nat, oid :: t < |tables| && tables[t].oid in deps ==>
         (oid in deps[tables[t].oid] <==>
          exists w :: 0 <= w < |tables| && tables[w].oid == oid && Linked(edges, number, number[t], number[w]))
  }

  /**
   * State after the first `j` condensed edges into component `idx`: the keys are the tables of the
   * components up to `idx`, and every recorded dependency is one of the edges seen so far.
   */
  ghost predicate ExactSoFar(tables: seq<Table>, edges: seq<Edge>, c: Condensation, deps: Dependencies, idx: int,
                             j: int)
    requires |c.number| == |tables| &&
             (0 <= idx < |c.reversedCondensedGraph| && 0 <= j <= |c.reversedCondensedGraph[idx]|)
  {
    && HasKeysBelow(tables, c.number, deps, idx + 1)
    && forall t: nat, oid :: t < |tables| && tables[t].oid in deps ==>
         (oid in deps[tables[t].oid] <==>
          exists w: nat :: w < |tables| && tables[w].oid == oid && SeenLink(edges, c, idx, j, c.number[t], c.number[w]))
  }

  ghost predicate HasKeysBelow(tables: seq<Table>, number: seq<int>, deps: Dependencies, upTo: int)
    requires |number| == |tables|
  {
    forall oid :: oid in deps <==> exists v: nat :: v < |tables| && tables[v].oid == oid && number[v] < upTo
  }

  ghost predicate SeenLink(edges: seq<Edge>, c: Condensation, idx: int, j: int, a: int, b: int)
    requires 0 <= idx < |c.reversedCondensedGraph| && 0 <= j <= |c.reversedCondensedGraph[idx]|
  {
    || (b < idx && Linked(edges, c.number, a, b))
    || (b == idx && exists i :: 0 <= i < j && c.reversedCondensedGraph[idx][i].to == a)
  }

  method ResetDependencies(tables: seq<Table>, members: seq<nat>, deps: Dependencies) returns (result: Dependencies)
    requires InRange(members, |tables|)
    ensures forall oid :: oid in result <==>
              oid in deps || exists v :: v in members && v < |tables| && tables[v].oid == oid
    ensures forall v :: v in members && v < |tables| ==> result[tables[v].oid] == []
    ensures forall oid :: oid in deps && (forall v :: v in members && v < |tables| ==> tables[v].oid != oid) ==>
                            result[oid] == deps[oid]
  {
    result := deps;
    for k := 0 to |members|
      invariant forall oid :: oid in result <==> oid in deps || exists i :: 0 <= i < k && tables[members[i]].oid == oid
      invariant forall i :: 0 <= i < k ==> result[tables[members[i]].oid] == []
      invariant forall oid :: oid in deps && (forall i :: 0 <= i < k ==> tables[members[i]].oid != oid) ==>
                                result[oid] == deps[oid]
    {
      result := result[tables[members[k]].oid := []];
    }
  }

  /** Every table of `srcs` gains the tables of `dsts`; nothing else changes. */
  ghost predicate Appended(tables: seq<Table>, srcs: seq<nat>, dsts: seq<nat>, before: Dependencies,
                           after: Dependencies)
    requires InRange(srcs, |tables|) && InRange(dsts, |tables|)
  {
    && after.Keys == before.Keys
    && forall oid, d :: oid in before ==>
                          (d in after[oid] <==>
                           d in before[oid] || (d in OidsOf(tables, dsts) && oid in OidsOf(tables, srcs)))
  }

  method AppendDependencies(tables: seq<Table>, srcs: seq<nat>, dsts: seq<nat>, deps: Dependencies)
    returns (result: Dependencies)
    requires InRange(srcs, |tables|) && InRange(dsts, |tables|)
    requires forall i :: 0 <= i < |srcs| ==> tables[srcs[i]].oid in deps
    ensures Appended(tables, srcs, dsts, deps, result)
  {
    result := deps;
    for i := 0 to |srcs|
      invariant Appended(tables, srcs[..i], dsts, deps, result)
    {
      var src := tables[srcs[i]].oid;
      ghost var before := result;
      assert OidsOf(tables, srcs[..i + 1]) == OidsOf(tables, srcs[..i]) + [src];
      for j := 0 to |dsts|
        invariant result.Keys == deps.Keys
        invariant forall oid :: oid in deps && oid != src ==> result[oid] == before[oid]
        invariant result[src] == before[src] + OidsOf(tables, dsts[..j])
      {
        assert OidsOf(tables, dsts[..j + 1]) == OidsOf(tables, dsts[..j]) + [tables[dsts[j]].oid];
        result := result[src := result[src] + [tables[dsts[j]].oid]];
      }
      assert dsts[..|dsts|] == dsts;
    }
    assert srcs[..|srcs|] == srcs;
  }

  /** After all components below `upTo`: exactly the links into those components are recorded. */
  ghost predicate ExactBelow(tables: seq<Table>, edges: seq<Edge>, number: seq<int>, deps: Dependencies, upTo: int)
    requires |number| == |tables|
  {
    && HasKeysBelow(tables, number, deps, upTo)
    && forall t: nat, oid :: t < |tables| && tables[t].oid in deps ==>
         (oid in deps[tables[t].oid] <==>
          exists w: nat :: w < |tables| && tables[w].oid == oid && number[w] < upTo &&
            Linked(edges, number, number[t], number[w]))
  }

  lemma CondensationShape(graph: seq<seq<Edge>>, edges: seq<Edge>, c: Condensation)
    requires Condenses(graph, edges, c)
    ensures |c.number| == |graph| && |c.vertices| == |c.reversedCondensedGraph| == c.count
    ensures forall v :: 0 <= v < |c.number| ==> 0 <= c.number[v] < c.count
    ensures forall k :: 0 <= k < c.count ==> Distinct(c.vertices[k]) && InRange(c.vertices[k], |graph|)
    ensures forall k: nat, v: nat :: k < c.count ==> (v in c.vertices[k] <==> v < |graph| && c.number[v] == k)
  {
    forall k, i | 0 <= k < c.count && 0 <= i < |c.vertices[k]|
      ensures c.vertices[k][i] < |graph|
    {
      assert c.vertices[k][i] in c.vertices[k];
    }
  }

  /** A link always climbs, because the component numbers are topological. */
  lemma LinksClimb(graph: seq<seq<Edge>>, edges: seq<Edge>, reversedSimple: Adjacency, c: Condensation, a: int, b: int)
    requires Loaded(graph, edges, reversedSimple) && Condenses(graph, edges, c) && Linked(edges, c.number, a, b)
    ensures a < b
  {
    var e :| e in edges && e.from < |c.number| && e.to < |c.number| && c.number[e.from] == a && c.number[e.to] == b &&
      a != b;
    EdgeIsArc(graph, edges, reversedSimple, e);
  }

  /** Resetting the tables of component `idx` erases nothing: no earlier edge wrote to them. */
  lemma ResetKeepsExact(tables: seq<Table>, graph: seq<seq<Edge>>, edges: seq<Edge>, reversedSimple: Adjacency,
                        c: Condensation, before: Dependencies, after: Dependencies, members: seq<nat>, idx: nat)
    requires |tables| == |graph| == |c.number| && UniqueOids(tables)
    requires Loaded(graph, edges, reversedSimple) && Condenses(graph, edges, c) && idx < |c.reversedCondensedGraph|
    requires forall v: nat :: v in members <==> v < |tables| && c.number[v] == idx
    requires ExactBelow(tables, edges, c.number, before, idx)
    requires forall oid :: oid in after <==>
               oid in before || exists v :: v in members && v < |tables| && tables[v].oid == oid
    requires forall v :: v in members && v < |tables| ==> after[tables[v].oid] == []
    requires forall oid :: oid in before && (forall v :: v in members && v < |tables| ==> tables[v].oid != oid) ==>
                             after[oid] == before[oid]
    ensures ExactSoFar(tables, edges, c, after, idx, 0)
  {
    hide Condenses, Loaded, Linked;
    forall t: nat, oid | t < |tables| && tables[t].oid in after
      ensures oid in after[tables[t].oid] <==>
              exists w: nat :: w < |tables| && tables[w].oid == oid &&
                SeenLink(edges, c, idx, 0, c.number[t], c.number[w])
    {
      if c.number[t] == idx {
        assert t in members;
        if w: nat :| w < |tables| && tables[w].oid == oid && SeenLink(edges, c, idx, 0, c.number[t], c.number[w]) {
          LinksClimb(graph, edges, reversedSimple, c, idx, c.number[w]);
        }
      } else {
        assert forall v :: v in members && v < |tables| ==> v != t && tables[v].oid != tables[t].oid;
        assert tables[t].oid in before;
      }
    }
  }

  lemma SourcesHaveKeys(tables: seq<Table>, c: Condensation, deps: Dependencies, upTo: int, srcs: seq<nat>)
    requires |c.number| == |tables| && HasKeysBelow(tables, c.number, deps, upTo)
    requires forall i :: 0 <= i < |srcs| ==> srcs[i] < |tables| && c.number[srcs[i]] < upTo
    ensures forall i :: 0 <= i < |srcs| ==> tables[srcs[i]].oid in deps
  {
  }

  lemma AppendKeepsOne(tables: seq<Table>, edges: seq<Edge>, c: Condensation, before: Dependencies, after: Dependencies,
                         srcs: seq<nat>, dsts: seq<nat>, idx: nat, j: nat, t: nat, oid: nat)
    requires |c.number| == |tables| && UniqueOids(tables) && InRange(srcs, |tables|) && InRange(dsts, |tables|)
    requires idx < |c.reversedCondensedGraph| && j < |c.reversedCondensedGraph[idx]|
    requires forall v: nat :: v in srcs <==> v < |tables| && c.number[v] == c.reversedCondensedGraph[idx][j].to
    requires forall v: nat :: v in dsts <==> v < |tables| && c.number[v] == idx
    requires ExactSoFar(tables, edges, c, before, idx, j)
    requires Appended(tables, srcs, dsts, before, after)
    requires t < |tables| && tables[t].oid in after
    ensures oid in after[tables[t].oid] <==>
            exists w: nat :: w < |tables| && tables[w].oid == oid &&
              SeenLink(edges, c, idx, j + 1, c.number[t], c.number[w])
  {
    hide Linked, HasKeysBelow;
    OidMembers(tables, srcs, t);
    if oid in OidsOf(tables, dsts) {
      var i :| 0 <= i < |dsts| && tables[dsts[i]].oid == oid;
      assert dsts[i] in dsts;
      if t in srcs {
        assert SeenLink(edges, c, idx, j + 1, c.number[t], c.number[dsts[i]]);
      }
    }
    if w: nat :| w < |tables| && tables[w].oid == oid && SeenLink(edges, c, idx, j + 1, c.number[t], c.number[w]) {
      OidMembers(tables, dsts, w);
      if !SeenLink(edges, c, idx, j, c.number[t], c.number[w]) {
        assert w in dsts && t in srcs;
      }
    }
    if w: nat :| w < |tables| && tables[w].oid == oid && SeenLink(edges, c, idx, j, c.number[t], c.number[w]) {
      assert SeenLink(edges, c, idx, j + 1, c.number[t], c.number[w]);
    }
  }

  lemma AppendKeepsExact(tables: seq<Table>, edges: seq<Edge>, c: Condensation, before: Dependencies,
                         after: Dependencies,
                         srcs: seq<nat>, dsts: seq<nat>, idx: nat, j: nat)
    requires |c.number| == |tables| && UniqueOids(tables) && InRange(srcs, |tables|) && InRange(dsts, |tables|)
    requires idx < |c.reversedCondensedGraph| && j < |c.reversedCondensedGraph[idx]|
    requires forall v: nat :: v in srcs <==> v < |tables| && c.number[v] == c.reversedCondensedGraph[idx][j].to
    requires forall v: nat :: v in dsts <==> v < |tables| && c.number[v] == idx
    requires ExactSoFar(tables, edges, c, before, idx, j)
    requires Appended(tables, srcs, dsts, before, after)
    ensures ExactSoFar(tables, edges, c, after, idx, j + 1)
  {
    hide SeenLink, UniqueOids;
    forall t: nat, oid: nat | t < |tables| && tables[t].oid in after
      ensures oid in after[tables[t].oid] <==>
              exists w: nat :: w < |tables| && tables[w].oid == oid &&
                SeenLink(edges, c, idx, j + 1, c.number[t], c.number[w])
    {
      AppendKeepsOne(tables, edges, c, before, after, srcs, dsts, idx, j, t, oid);
    }
  }

  lemma OidMembers(tables: seq<Table>, vs: seq<nat>, t: nat)
    requires UniqueOids(tables) && InRange(vs, |tables|) && t < |tables|
    ensures tables[t].oid in OidsOf(tables, vs) <==> t in vs
  {
    if t in vs {
      var i :| 0 <= i < |vs| && vs[i] == t;
      assert OidsOf(tables, vs)[i] == tables[t].oid;
    }
  }

  lemma AllSeenIsExact(tables: seq<Table>, graph: seq<seq<Edge>>, edges: seq<Edge>, reversedSimple: Adjacency,
                       c: Condensation, deps: Dependencies, idx: nat)
    requires |tables| == |graph| == |c.number| && Loaded(graph, edges, reversedSimple) && Condenses(graph, edges, c)
    requires idx < |c.reversedCondensedGraph|
    requires ExactSoFar(tables, edges, c, deps, idx, |c.reversedCondensedGraph[idx]|)
    ensures ExactBelow(tables, edges, c.number, deps, idx + 1)
  {
    CondensationShape(graph, edges, c);
    forall t: nat, w: nat | t < |tables| && w < |tables|
      ensures SeenLink(edges, c, idx, |c.reversedCondensedGraph[idx]|, c.number[t], c.number[w]) <==>
              c.number[w] < idx + 1 && Linked(edges, c.number, c.number[t], c.number[w])
    {
      CondensedEdgesAreLinks(graph, edges, reversedSimple, c, c.number[t], idx);
    }
  }

  method DependenciesGraph(tables: seq<Table>, ghost graph: seq<seq<Edge>>, ghost edges: seq<Edge>,
                           ghost reversedSimple: Adjacency, c: Condensation)
    returns (deps: Dependencies)
    requires |tables| == |graph| && UniqueOids(tables)
    requires Loaded(graph, edges, reversedSimple) && Condenses(graph, edges, c)
    ensures ExactDependencies(tables, edges, c.number, deps)
  {
    hide Loaded, Condenses, Linked, SeenLink;
    deps := map[];
    CondensationShape(graph, edges, c);
    for idx := 0 to |c.reversedCondensedGraph|
      invariant ExactBelow(tables, edges, c.number, deps, idx)
    {
      hide ExactBelow, UniqueOids;
      var members := IterateTables(c.vertices[idx]);
      InRangeMembers(members, |tables|);
      ghost var before := deps;
      deps := ResetDependencies(tables, members, deps);
      ResetKeepsExact(tables, graph, edges, reversedSimple, c, before, deps, members, idx);
      CondensedEdgesClimb(graph, edges, reversedSimple, c, idx);
      for j := 0 to |c.reversedCondensedGraph[idx]|
        invariant ExactSoFar(tables, edges, c, deps, idx, j)
      {
        var e := c.reversedCondensedGraph[idx][j];
        assert e in c.reversedCondensedGraph[idx];
        var srcs := IterateTables(c.vertices[e.to]);
        var dsts := IterateTables(c.vertices[e.from]);
        InRangeMembers(srcs, |tables|);
        InRangeMembers(dsts, |tables|);
        SourcesHaveKeys(tables, c, deps, idx + 1, srcs);
        ghost var mid := deps;
        deps := AppendDependencies(tables, srcs, dsts, deps);
        AppendKeepsExact(tables, edges, c, mid, deps, srcs, dsts, idx, j);
      }
      AllSeenIsExact(tables, graph, edges, reversedSimple, c, deps, idx);
    }
  }

  lemma InRangeMembers(vs: seq<nat>, n: nat)
    requires forall v :: v in vs ==> v < n
    ensures InRange(vs, n)
  {
    assert forall i :: 0 <= i < |vs| ==> vs[i] in vs;
  }
}
