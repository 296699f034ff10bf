/** What the recorded cycles say about a whole component (component.go:68-75,123-172,194-232). */
module ComponentCycles {
  import opened Digraph
  import opened FkGraph
  import opened Condensed
  import opened Cycles
  import opened SearchTree
  import opened AllCycles
  import opened CycleSearch
  import opened Wrappers

  // ---------------------------------------------------------------- component graphs

  /** The component graphs that the condensation builds meet what the cycle search asks for. */
  lemma ComponentGraphIsCoherent(graph: seq<seq<Edge>>, edges: seq<Edge>, reversedSimple: Adjacency, c: Condensation,
                                 k: nat)
    requires Loaded(graph, edges, reversedSimple) && Condenses(graph, edges, c) && k < c.count
    ensures Coherent(c.componentGraphs[k])
  {
    hide Loaded, Condenses, Coherent;
    SameCount(graph, edges, c);
    var cg := c.componentGraphs[k];
    forall v: nat, e: Edge | v in cg && e in cg[v]
      ensures e.from == v && e.to in cg && e in edges
    {
      ComponentEdge(graph, edges, reversedSimple, c, k, v, e);
    }
    IdsDiffer(graph, edges, reversedSimple);
    CoherentIs(cg, edges);
  }

  lemma SameCount(graph: seq<seq<Edge>>, edges: seq<Edge>, c: Condensation)
    requires Condenses(graph, edges, c)
    ensures |c.componentGraphs| == c.count
  {
  }

  lemma ComponentEdge(graph: seq<seq<Edge>>, edges: seq<Edge>, reversedSimple: Adjacency, c: Condensation, k: nat,
                      v: nat, e: Edge)
    requires Loaded(graph, edges, reversedSimple) && Condenses(graph, edges, c) && k < c.count == |c.componentGraphs|
    requires v in c.componentGraphs[k] && e in c.componentGraphs[k][v]
    ensures e.from == v && e.to in c.componentGraphs[k] && e in edges
  {
    hide SccNumbering, EdgesInRange, Loaded;
    assert IsComponentGraph(graph, c.number, k, c.vertices[k], c.componentGraphs[k]);
    assert v in c.vertices[k] && e in Inner(graph[v], c.number, k);
    assert e.to in c.vertices[k];
    ListedEdge(graph, edges, reversedSimple, v, e);
  }

  lemma CoherentIs(cg: ComponentGraph, edges: seq<Edge>)
    requires forall v: nat, e: Edge :: v in cg && e in cg[v] ==> e.from == v && e.to in cg && e in edges
    requires forall e, f :: e in edges && f in edges && e.id == f.id ==> e == f
    ensures Coherent(cg)
  {
  }

  lemma ListedEdge(graph: seq<seq<Edge>>, edges: seq<Edge>, reversedSimple: Adjacency, v: nat, e: Edge)
    requires Loaded(graph, edges, reversedSimple) && v < |graph| && e in graph[v]
    ensures e.from == v && e in edges
  {
  }

  lemma IdsDiffer(graph: seq<seq<Edge>>, edges: seq<Edge>, reversedSimple: Adjacency)
    requires Loaded(graph, edges, reversedSimple)
    ensures forall e, f :: e in edges && f in edges && e.id == f.id ==> e == f
  {
    hide Transposed;
  }

  /** `cg` holds the edges that stay inside component `k`. */
  ghost predicate Covers(graph: seq<seq<Edge>>, number: seq<int>, k: int, cg: ComponentGraph) {
    && |number| == |graph|
    && (forall u, e :: 0 <= u < |graph| && e in graph[u] && number[u] == k && e.to < |number| && number[e.to] == k ==>
         e in Out(cg, u))
    && (forall u, e :: 0 <= u < |graph| && e in graph[u] ==> e.from == u)
  }

  lemma ComponentGraphCovers(graph: seq<seq<Edge>>, edges: seq<Edge>, reversedSimple: Adjacency, c: Condensation,
                             k: nat)
    requires Loaded(graph, edges, reversedSimple) && Condenses(graph, edges, c) && k < c.count
    ensures Covers(graph, c.number, k, c.componentGraphs[k])
  {
    hide SccNumbering, Transposed;
    assert IsComponentGraph(graph, c.number, k, c.vertices[k], c.componentGraphs[k]);
  }

  /** A walk between two tables of a component never leaves it, so component edges form a chain along it. */
  lemma {:induction false} ChainAlongWalk(graph: seq<seq<Edge>>, number: seq<int>, count: nat, k: int,
                                          cg: ComponentGraph, p: seq<nat>)
    returns (chain: seq<Edge>)
    requires WellFormed(Targets(graph)) && SccNumbering(Targets(graph), number, count) && Covers(graph, number, k, cg)
    requires IsWalk(Targets(graph), p) && p[0] < |graph| && p[|p| - 1] < |graph| &&
             number[p[0]] == k == number[p[|p| - 1]]
    ensures IsChain(cg, chain) && |chain| == |p| - 1
    ensures chain != [] ==> chain[0].from == p[0] && Last(chain).to == p[|p| - 1]
  {
    hide SccNumbering, WellFormed;
    if |p| == 1 {
      chain := [];
    } else {
      var e := FirstStep(graph, number, count, k, cg, p);
      var rest := ChainAlongWalk(graph, number, count, k, cg, p[1..]);
      chain := [e] + rest;
    }
  }

  lemma FirstStep(graph: seq<seq<Edge>>, number: seq<int>, count: nat, k: int, cg: ComponentGraph, p: seq<nat>)
      returns (e: Edge)
    requires WellFormed(Targets(graph)) && SccNumbering(Targets(graph), number, count) && Covers(graph, number, k, cg)
    requires IsWalk(Targets(graph), p) && p[0] < |graph| && p[|p| - 1] < |graph| &&
             number[p[0]] == k == number[p[|p| - 1]]
    requires |p| > 1
    ensures e in Out(cg, p[0]) && e.from == p[0] && e.to == p[1] < |graph| && number[p[1]] == k &&
            IsWalk(Targets(graph), p[1..])
  {
    hide Mutual;
    var g := Targets(graph);
    assert HasArc(g, p[0], p[1]);
    TailOfWalk(g, p);
    NeverFalls(g, number, p[1..]);
    var j :| 0 <= j < |g[p[0]]| && g[p[0]][j] == p[1];
    e := graph[p[0]][j];
  }

  /** One component by itself: its tables, its edges and the numbering it comes from. */
  ghost predicate IsComponent(graph: seq<seq<Edge>>, number: seq<int>, count: nat, k: nat, members: seq<nat>,
                              cg: ComponentGraph) {
    && WellFormed(Targets(graph)) && SccNumbering(Targets(graph), number, count)
    && Covers(graph, number, k, cg) && Coherent(cg)
    && members != [] && Distinct(members) && cg.Keys == Members(members)
    && (forall v: nat :: v in members <==> v < |graph| && number[v] == k)
    && (forall v, e :: v in cg && e in cg[v] ==> v < |graph| && e in graph[v])
  }

  lemma ComponentsAre(graph: seq<seq<Edge>>, edges: seq<Edge>, reversedSimple: Adjacency, c: Condensation, k: nat)
    requires Loaded(graph, edges, reversedSimple) && Condenses(graph, edges, c) && k < c.count
    ensures k < |c.vertices| && k < |c.componentGraphs|
    ensures IsComponent(graph, c.number, c.count, k, c.vertices[k], c.componentGraphs[k])
  {
    hide Loaded, Condenses, Coherent, Covers, WellFormed;
    LoadedIsWellFormed(graph, edges, reversedSimple);
    ComponentMembers(graph, edges, c, k);
    ComponentEdges(graph, edges, c, k);
    ComponentGraphCovers(graph, edges, reversedSimple, c, k);
    ComponentGraphIsCoherent(graph, edges, reversedSimple, c, k);
  }

  lemma ComponentMembers(graph: seq<seq<Edge>>, edges: seq<Edge>, c: Condensation, k: nat)
    requires Condenses(graph, edges, c) && k < c.count
    ensures k < |c.vertices| && k < |c.componentGraphs| && |c.number| == |graph| &&
            SccNumbering(Targets(graph), c.number, c.count)
    ensures c.vertices[k] != [] && Distinct(c.vertices[k])
    ensures forall v: nat :: v in c.vertices[k] <==> v < |graph| && c.number[v] == k
  {
    hide Mutual, IsComponentGraph, EdgesInRange;
    assert k in c.number;
    var x: nat :| x < |c.number| && c.number[x] == k;
    assert x in c.vertices[k];
  }

  lemma ComponentEdges(graph: seq<seq<Edge>>, edges: seq<Edge>, c: Condensation, k: nat)
    requires Condenses(graph, edges, c) && k < c.count
    ensures k < |c.vertices| && k < |c.componentGraphs| && c.componentGraphs[k].Keys == Members(c.vertices[k])
    ensures forall v, e :: v in c.componentGraphs[k] && e in c.componentGraphs[k][v] ==> v < |graph| && e in graph[v]
  {
    hide SccNumbering, EdgesInRange;
    assert IsComponentGraph(graph, c.number, k, c.vertices[k], c.componentGraphs[k]);
  }

  lemma EdgeClosesChain(graph: seq<seq<Edge>>, number: seq<int>, count: nat, k: nat, members: seq<nat>,
                        cg: ComponentGraph, e: Edge)
    requires IsComponent(graph, number, count, k, members, cg) && e in Out(cg, e.from)
    ensures HasClosedChain(cg)
  {
    hide SccNumbering, Reach, WellFormed, Covers, IsChain;
    EndsAreMembers(members, cg, e);
    NumbersDecide(Targets(graph), number, count, e.to, e.from);
    var p := WalkOf(Targets(graph), e.to, e.from);
    SameLengths(graph, number, k, cg);
    var chain := ChainAlongWalk(graph, number, count, k, cg, p);
    CloseWith(cg, e, chain);
  }

  lemma SameLengths(graph: seq<seq<Edge>>, number: seq<int>, k: int, cg: ComponentGraph)
    requires Covers(graph, number, k, cg)
    ensures |number| == |graph|
  {
  }

  lemma EndsAreMembers(members: seq<nat>, cg: ComponentGraph, e: Edge)
    requires Coherent(cg) && cg.Keys == Members(members) && e in Out(cg, e.from)
    ensures e.from in members && e.to in members
  {
    assert e.to in cg.Keys && e.from in cg.Keys;
  }

  lemma CloseWith(cg: ComponentGraph, e: Edge, chain: seq<Edge>)
    requires e in Out(cg, e.from) && IsChain(cg, chain)
    requires if chain == [] then e.to == e.from else chain[0].from == e.to && Last(chain).to == e.from
    ensures HasClosedChain(cg)
  {
    assert Closed(cg, [e] + chain);
  }

  lemma WalkOf(g: Adjacency, u: nat, v: nat) returns (p: seq<nat>)
    requires Reach(g, u, v)
    ensures IsWalk(g, p) && p[0] == u && p[|p| - 1] == v
  {
    p :| IsWalk(g, p) && p[0] == u && p[|p| - 1] == v;
  }

  ghost predicate HasEdge(cg: ComponentGraph) {
    exists v :: v in cg && cg[v] != []
  }

  /** The component is a single table that does not reference itself. */
  ghost predicate IsPlainTable(graph: seq<seq<Edge>>, members: seq<nat>) {
    |members| == 1 && members[0] < |graph| && forall e :: e in graph[members[0]] ==> e.to != members[0]
  }

  /** A component has a cycle to record exactly when it has an edge. */
  lemma CyclesIffEdges(graph: seq<seq<Edge>>, number: seq<int>, count: nat, k: nat, members: seq<nat>,
                       cg: ComponentGraph)
    requires IsComponent(graph, number, count, k, members, cg)
    ensures HasClosedChain(cg) <==> HasEdge(cg)
  {
    if HasClosedChain(cg) {
      var chain: seq<Edge> :| Closed(cg, chain);
      assert chain[0] in Out(cg, chain[0].from);
      assert cg[chain[0].from] != [];
    }
    if HasEdge(cg) {
      var v :| v in cg && cg[v] != [];
      var e := cg[v][0];
      assert e in cg[v] && e.from == v;
      EdgeClosesChain(graph, number, count, k, members, cg, e);
    }
  }

  /** It has none exactly when it is a single table that does not reference itself. */
  lemma EdgelessIffPlainTable(graph: seq<seq<Edge>>, edges: seq<Edge>, reversedSimple: Adjacency, c: Condensation,
                              k: nat)
    requires Loaded(graph, edges, reversedSimple) && Condenses(graph, edges, c) && k < c.count
    ensures k < |c.vertices| && k < |c.componentGraphs|
    ensures !HasEdge(c.componentGraphs[k]) <==> IsPlainTable(graph, c.vertices[k])
  {
    hide Loaded, Condenses, Covers, SccNumbering, WellFormed;
    ComponentsAre(graph, edges, reversedSimple, c, k);
    var members, cg := c.vertices[k], c.componentGraphs[k];
    if !HasEdge(cg) {
      EdgelessComponentIsOneTable(graph, edges, reversedSimple, c, k);
      assert members[0] in members;
    } else if IsPlainTable(graph, members) {
      PlainTableHasNoEdge(graph, c.number, c.count, k, members, cg);
    }
  }

  lemma PlainTableHasNoEdge(graph: seq<seq<Edge>>, number: seq<int>, count: nat, k: nat, members: seq<nat>,
                            cg: ComponentGraph)
    requires IsComponent(graph, number, count, k, members, cg) && HasEdge(cg)
    ensures !IsPlainTable(graph, members)
  {
    hide Covers, SccNumbering, WellFormed;
    var v :| v in cg && cg[v] != [];
    var e := cg[v][0];
    assert e in cg[v];
    EndsAreMembers(members, cg, e);
    if |members| == 1 {
      assert e.to == members[0] == e.from && e in graph[members[0]];
    }
  }

  /** `None` stands for the panic on a component with cycles. */
  method GetOneTable(component: Component, tables: set<nat>) returns (r: Option<nat>)
    ensures r.Some? <==> component.cycles == [] && tables != {}
    ensures r.Some? ==> r.value in tables
  {
    if component.cycles == [] && tables != {} {
      var t: nat :| t in tables;
      return Some(t);
    }
    return None;
  }

  /** Over a condensed graph the answer is the one table there is, and the panic means a cycle was recorded. */
  method OneTableOf(graph: seq<seq<Edge>>, edges: seq<Edge>, reversedSimple: Adjacency, c: Condensation, k: nat)
    returns (r: Option<nat>)
    requires Loaded(graph, edges, reversedSimple) && Condenses(graph, edges, c) && k < c.count
    ensures k < |c.vertices| && k < |c.componentGraphs|
    ensures r.Some? ==> c.vertices[k] == [r.value] && IsPlainTable(graph, c.vertices[k])
    ensures r.None? <==> HasEdge(c.componentGraphs[k])
  {
    hide Loaded, Condenses, Coherent, HasClosedChain, HasEdge, Covers, MeetsEveryChain, Component.Sound, Grouped;
    hide IsPlainTable, StronglyConnected, AllRecorded, OneSimpleChain;
    ComponentsAre(graph, edges, reversedSimple, c, k);
    CyclesIffEdges(graph, c.number, c.count, k, c.vertices[k], c.componentGraphs[k]);
    EdgelessIffPlainTable(graph, edges, reversedSimple, c, k);
    var component := new Component(c.componentGraphs[k]);
    var tables := set v | v in c.vertices[k];
    assert c.vertices[k][0] in tables;
    r := GetOneTable(component, tables);
    if r.Some? {
      OnlyMember(graph, c.vertices[k], r.value);
    }
  }

  lemma OnlyMember(graph: seq<seq<Edge>>, members: seq<nat>, v: nat)
    requires IsPlainTable(graph, members) && v in members
    ensures members == [v]
  {
  }

  // ---------------------------------------------------------------- when every cycle is recorded

  lemma ComponentIsConnected(graph: seq<seq<Edge>>, number: seq<int>, count: nat, k: nat, members: seq<nat>,
                             cg: ComponentGraph)
    requires IsComponent(graph, number, count, k, members, cg)
    ensures StronglyConnected(cg)
  {
    hide SccNumbering, Reach, WellFormed, Covers, IsChain, Coherent;
    forall u, v | u in cg && v in cg
      ensures Connected(cg, u, v)
    {
      assert u in Members(members) && v in Members(members);
      assert u in members && v in members;
      NumbersDecide(Targets(graph), number, count, u, v);
      var p := WalkOf(Targets(graph), u, v);
      SameLengths(graph, number, k, cg);
      var chain := ChainAlongWalk(graph, number, count, k, cg, p);
      assert Leads(cg, chain, u, v);
    }
  }

  /**
   * The search records every cycle of a component exactly when each of its tables is reached from the least
   * one by one simple chain of references only.
   */
  lemma AllCyclesIff(graph: seq<seq<Edge>>, number: seq<int>, count: nat, k: nat, members: seq<nat>,
                     component: Component)
    requires IsComponent(graph, number, count, k, members, component.componentGraph) && component.Sound()
    ensures AllRecorded(component.componentGraph, component.cycles) <==> OneSimpleChain(component.componentGraph)
  {
    hide SccNumbering, WellFormed, Covers, Coherent, Searched, Recorded, GroupsAgree, ClosersDiffer, StronglyConnected;
    hide AllRecorded, OneSimpleChain;
    ComponentIsConnected(graph, number, count, k, members, component.componentGraph);
    AllRecordedIff(component.componentGraph, component.trunk, component.cycles, component.cyclesIdents);
  }

  /** With all cycles recorded, every table lies on a recorded one. */
  lemma AllRecordedCoversTables(cg: ComponentGraph, cycles: seq<seq<Edge>>, idents: set<string>, v: nat)
    requires Coherent(cg) && StronglyConnected(cg) && HasClosedChain(cg) && v in cg
    requires Recorded(cg, cycles, idents) && AllRecorded(cg, cycles)
    ensures OnRecorded(cycles, v)
  {
    hide Coherent, CycleId, StronglyConnected, Known;
    var c := CycleThrough(cg, v);
    assert Known(cycles, c);
    var i := SameEdges(cycles, c);
    assert Genuine(cg, cycles[i]);
    SameIdsSameFroms(cg, cycles[i], c, v);
  }

  lemma SameEdges(cycles: seq<seq<Edge>>, c: seq<Edge>) returns (i: nat)
    requires Known(cycles, c)
    ensures i < |cycles| && multiset(Ids(cycles[i])) == multiset(Ids(c))
  {
    i :| 0 <= i < |cycles| && multiset(Ids(cycles[i])) == multiset(Ids(c));
  }

  lemma SameIdsSameFroms(cg: ComponentGraph, d: seq<Edge>, c: seq<Edge>, v: nat)
    requires Coherent(cg) && IsChain(cg, c) && IsChain(cg, d) && multiset(Ids(d)) == multiset(Ids(c)) && v in Froms(c)
    ensures v in Froms(d)
  {
    hide Coherent;
    var i :| 0 <= i < |c| && c[i].from == v;
    assert Ids(c)[i] == c[i].id;
    assert c[i].id in multiset(Ids(d));
    var j :| 0 <= j < |d| && Ids(d)[j] == c[i].id;
    SameIdSameEdge(cg, d[j], c[i]);
  }

  /** Strong connectivity closes a cycle through every table. */
  lemma CycleThrough(cg: ComponentGraph, v: nat) returns (c: seq<Edge>)
    requires Coherent(cg) && StronglyConnected(cg) && HasClosedChain(cg) && v in cg
    ensures Genuine(cg, c) && v in Froms(c)
  {
    hide Genuine;
    var e := EdgeOut(cg, v);
    assert Connected(cg, e.to, v);
    var p: seq<Edge> :| Leads(cg, p, e.to, v);
    var q := Shorten(cg, p, e.to, v);
    CloseSimple(cg, e, q);
    c := [e] + q;
    assert c[0].from == v;
  }

  lemma EdgeOut(cg: ComponentGraph, v: nat) returns (e: Edge)
    requires Coherent(cg) && StronglyConnected(cg) && HasClosedChain(cg) && v in cg
    ensures e in Out(cg, v) && e.from == v && e.to in cg
  {
    var chain: seq<Edge> :| Closed(cg, chain);
    assert chain[0] in Out(cg, chain[0].from);
    if chain[0].from == v {
      e := chain[0];
    } else {
      assert Connected(cg, v, chain[0].from);
      var p: seq<Edge> :| Leads(cg, p, v, chain[0].from);
      e := p[0];
    }
  }

  // ---------------------------------------------------------------- a component with a missed cycle

  /** Tables 0, 1 and 2 with references 0 to 1, 0 to 2, 1 to 0 and 2 to 1. */
  function DiamondEdge(id: nat): Edge
    requires id < 4
  {
    match id
    case 0 => Edge(0, 0, 1, false, [], [], [])
    case 1 => Edge(1, 0, 2, false, [], [], [])
    case 2 => Edge(2, 1, 0, false, [], [], [])
    case _ => Edge(3, 2, 1, false, [], [], [])
  }

  function Diamond(): ComponentGraph {
    map[0 := [DiamondEdge(0), DiamondEdge(1)], 1 := [DiamondEdge(2)], 2 := [DiamondEdge(3)]]
  }

  /** The search accepts the component, and it is one. */
  lemma DiamondIsComponent()
    ensures Coherent(Diamond()) && StronglyConnected(Diamond()) && HasClosedChain(Diamond()) && IsLeast(Diamond(), 0)
  {
    DiamondIsCoherent();
    hide Coherent, Diamond, Connected, DiamondEdge;
    var cg := Diamond();
    forall id: nat | id < 4
      ensures Connected(cg, DiamondEdge(id).from, DiamondEdge(id).to)
    {
      DiamondHas(id);
      EdgeConnects(cg, DiamondEdge(id));
    }
    DiamondEnds();
    ConnectedTrans(cg, 2, 1, 0);
    SelfConnected(cg, 0);
    forall u, v | u in cg && v in cg
      ensures Connected(cg, u, v)
    {
      ConnectedTrans(cg, u, 0, v);
    }
    DiamondHas(0);
    DiamondHas(2);
    assert Closed(cg, [DiamondEdge(0), DiamondEdge(2)]);
  }

  lemma DiamondIsCoherent()
    ensures Coherent(Diamond())
  {
    forall v: nat, e: Edge | v in Diamond() && e in Diamond()[v]
      ensures e.from == v && e.to in Diamond() && e.id < 4 && e == DiamondEdge(e.id)
    {
      DiamondListed(v, e);
    }
    hide Diamond, DiamondEdge;
  }

  lemma DiamondListed(v: nat, e: Edge)
    requires v in Diamond() && e in Diamond()[v]
    ensures e.from == v && e.to in Diamond() && e.id < 4 && e == DiamondEdge(e.id)
  {
  }

  lemma DiamondHas(id: nat)
    requires id < 4
    ensures DiamondEdge(id) in Out(Diamond(), DiamondEdge(id).from)
  {
    var cg := Diamond();
    assert cg[0][0] == DiamondEdge(0) && cg[0][1] == DiamondEdge(1) && cg[1][0] == DiamondEdge(2) &&
           cg[2][0] == DiamondEdge(3);
  }

  lemma DiamondEnds()
    ensures Diamond().Keys == {0, 1, 2}
    ensures DiamondEdge(0).from == 0 == DiamondEdge(1).from && DiamondEdge(0).to == 1 == DiamondEdge(3).to
    ensures DiamondEdge(2).from == 1 && DiamondEdge(2).to == 0 && DiamondEdge(1).to == 2 == DiamondEdge(3).from
  {
  }

  lemma EdgeConnects(cg: ComponentGraph, e: Edge)
    requires e in Out(cg, e.from)
    ensures Connected(cg, e.from, e.to)
  {
    assert Leads(cg, [e], e.from, e.to);
  }

  lemma SelfConnected(cg: ComponentGraph, u: nat)
    ensures Connected(cg, u, u)
  {
    assert Leads(cg, [], u, u);
  }

  lemma ConnectedTrans(cg: ComponentGraph, u: nat, v: nat, w: nat)
    requires Connected(cg, u, v) && Connected(cg, v, w)
    ensures Connected(cg, u, w)
  {
    var p: seq<Edge> :| Leads(cg, p, u, v);
    var q: seq<Edge> :| Leads(cg, q, v, w);
    assert Leads(cg, p + q, u, w);
  }

  lemma DiamondEdgesAre(e: Edge)
    requires e in Out(Diamond(), e.from)
    ensures exists k: nat :: k < 4 && e == DiamondEdge(k)
  {
    var k: nat :=
      if e == DiamondEdge(0) then 0 else if e == DiamondEdge(1) then 1 else if e == DiamondEdge(2) then 2 else 3;
    assert k < 4 && e == DiamondEdge(k);
  }

  /** The tree of the search: table 1 is entered from table 0, before table 2. */
  lemma DiamondTree(trunk: Trunks, cycles: seq<seq<Edge>>)
    requires Searched(Diamond(), trunk, cycles)
    ensures trunk.Keys == {0, 1, 2} && trunk[0] == [] && trunk[1] == [DiamondEdge(0)] && trunk[2] == [DiamondEdge(1)]
  {
    hide Diamond, DiamondEdge, AllBack, IsBack, Closes, StronglyConnected, OrderedAt;
    DiamondIsComponent();
    DiamondEnds();
    TrunkIsSimple(Diamond(), trunk, cycles, 0, 0);
    LoopIsEmpty(Diamond(), trunk[0], 0);
    TrunkIsSimple(Diamond(), trunk, cycles, 0, 1);
    TrunkIsSimple(Diamond(), trunk, cycles, 0, 2);
    DiamondTrunks(trunk);
  }

  lemma DiamondTrunks(trunk: Trunks)
    requires Tree(Diamond(), trunk) && trunk.Keys == {0, 1, 2} && trunk[0] == [] && trunk[1] != [] && trunk[2] != []
    ensures trunk[1] == [DiamondEdge(0)] && trunk[2] == [DiamondEdge(1)]
  {
    hide Tree, Diamond;
    LastEdgeInto(trunk, 2);
    LastEdgeInto(trunk, 1);
    assert trunk[2] == [DiamondEdge(1)];
    NotBelow(trunk);
  }

  lemma NotBelow(trunk: Trunks)
    requires Tree(Diamond(), trunk) && 1 in trunk && 2 in trunk && trunk[2] == [DiamondEdge(1)]
    ensures !(trunk[2] <= trunk[1])
  {
    hide TrunkAt, Diamond;
    DiamondHas(0);
    assert OrderedAt(Diamond(), trunk, 2);
  }

  /** A trunk is the trunk of the table its last edge leaves, and that edge. */
  lemma LastEdgeInto(trunk: Trunks, v: nat)
    requires Tree(Diamond(), trunk) && v in trunk && trunk[v] != []
    ensures var e := Last(trunk[v]); e.to == v && e.from in trunk && trunk[v] == trunk[e.from] + [e]
    ensures exists k: nat :: k < 4 && Last(trunk[v]) == DiamondEdge(k)
  {
    hide OrderedAt, Diamond, DiamondEdge;
    var p := trunk[v];
    assert TrunkAt(Diamond(), trunk, v);
    assert p == p[..|p| - 1] + [Last(p)];
    DiamondEdgesAre(Last(p));
  }

  /** The only recorded cycle runs over tables 0 and 1. */
  lemma DiamondCycles(trunk: Trunks, cycles: seq<seq<Edge>>, idents: set<string>)
    requires Searched(Diamond(), trunk, cycles) && Recorded(Diamond(), cycles, idents)
    ensures cycles == [[DiamondEdge(0), DiamondEdge(2)]]
  {
    hide CycleId, Tree, OneTree, Diamond, Genuine, Coherent, IsChain;
    DiamondEnds();
    DiamondTree(trunk, cycles);
    assert |cycles| > 1 ==> CycleId(cycles[0]) != CycleId(cycles[1]);
    forall i | 0 <= i < |cycles|
      ensures cycles[i] == [DiamondEdge(0), DiamondEdge(2)]
    {
      assert IsBackCycle(trunk, cycles[i]);
      assert Genuine(Diamond(), cycles[i]);
      LastIsDiamondEdge(cycles[i]);
      OnlyBackEdge(trunk, Last(cycles[i]));
    }
    assert IsBack(trunk, DiamondEdge(2)) by { assert trunk[1][0].from == 0; }
    assert DiamondEdge(2) in Out(Diamond(), 1) by { DiamondHas(2); }
  }

  lemma LastIsDiamondEdge(c: seq<Edge>)
    requires Genuine(Diamond(), c)
    ensures c != [] && exists k: nat :: k < 4 && Last(c) == DiamondEdge(k)
  {
    hide Diamond, DiamondEdge;
    assert c[|c| - 1] in Out(Diamond(), c[|c| - 1].from);
    DiamondEdgesAre(Last(c));
  }

  lemma OnlyBackEdge(trunk: Trunks, e: Edge)
    requires trunk.Keys == {0, 1, 2} && trunk[0] == [] && trunk[1] == [DiamondEdge(0)] && trunk[2] == [DiamondEdge(1)]
    requires IsBack(trunk, e) && exists k: nat :: k < 4 && e == DiamondEdge(k)
    ensures e == DiamondEdge(2) && BackCycle(trunk, e) == [DiamondEdge(0), DiamondEdge(2)]
  {
    var k: nat :| k < 4 && e == DiamondEdge(k);
    assert Froms(trunk[0]) == {} && Froms(trunk[1]) == {0} && Froms(trunk[2]) == {0} by {
      assert trunk[1][0].from == 0 && trunk[2][0].from == 0;
    }
  }

  /** The cycle over all three tables is missed, and table 2 lies on no recorded one. */
  lemma SomeCycleIsMissed(trunk: Trunks, cycles: seq<seq<Edge>>, idents: set<string>)
    requires Searched(Diamond(), trunk, cycles) && Recorded(Diamond(), cycles, idents)
    ensures !AllRecorded(Diamond(), cycles) && !OneSimpleChain(Diamond())
    ensures !OnRecorded(cycles, 2)
  {
    hide Searched, Recorded, StronglyConnected, Coherent, AllRecorded, OneSimpleChain, DiamondEdge;
    DiamondIsComponent();
    DiamondCycles(trunk, cycles, idents);
    AllRecordedIff(Diamond(), trunk, cycles, idents);
    TwoLeavesNoEdge();
    if AllRecorded(Diamond(), cycles) {
      AllRecordedCoversTables(Diamond(), cycles, idents, 2);
      assert false;
    }
  }

  lemma TwoLeavesNoEdge()
    ensures 2 in Diamond() && 2 !in Froms([DiamondEdge(0), DiamondEdge(2)])
  {
  }
}
