/** The search for the cycles of a component (component.go:30-42,174-232,254-260). */
module CycleSearch {
  import opened FkGraph
  import opened Keys
  import opened Cycles
  import opened SearchOrder
  import opened SearchTree
  import opened AllCycles

  // ---------------------------------------------------------------- finished tables

  /** The edge closes a recorded cycle, or leads to a table among `finished` that is not on the trunk. */
  ghost predicate EdgeDone(trunk: Trunks, finished: seq<nat>, cycles: seq<seq<Edge>>, e: Edge) {
    Closes(cycles, e) || (e.to in finished && !IsBack(trunk, e))
  }

  /** Tables in the order in which the search left them, with all edges done by then. */
  ghost predicate Ranked(cg: ComponentGraph, trunk: Trunks, finished: seq<nat>, cycles: seq<seq<Edge>>) {
    && Distinct(finished)
    && forall i, e :: 0 <= i < |finished| && e in Out(cg, finished[i]) ==> EdgeDone(trunk, finished[..i], cycles, e)
  }

  lemma RankedGrows(cg: ComponentGraph, trunk: Trunks, finished: seq<nat>, cycles: seq<seq<Edge>>, v: nat)
    requires Ranked(cg, trunk, finished, cycles) && v !in finished
    requires forall e :: e in Out(cg, v) ==> EdgeDone(trunk, finished, cycles, e)
    ensures Ranked(cg, trunk, finished + [v], cycles)
  {
    hide EdgeDone;
    var grown := finished + [v];
    forall i, e | 0 <= i < |grown| && e in Out(cg, grown[i])
      ensures EdgeDone(trunk, grown[..i], cycles, e)
    {
      assert grown[..i] == finished[..i];
      assert finished[..|finished|] == finished;
    }
  }

  lemma ClosesStays(before: seq<seq<Edge>>, cycles: seq<seq<Edge>>, e: Edge)
    requires Closes(before, e) && before <= cycles
    ensures Closes(cycles, e)
  {
    var i :| 0 <= i < |before| && before[i] != [] && Last(before[i]) == e;
    assert cycles[i] == before[i];
  }

  lemma EdgeStaysDone(trunk1: Trunks, trunk: Trunks, finished1: seq<nat>, finished: seq<nat>,
                  cycles1: seq<seq<Edge>>, cycles: seq<seq<Edge>>, e: Edge)
    requires EdgeDone(trunk1, finished1, cycles1, e) && e.from in trunk1 && Extends(trunk1, trunk) && cycles1 <= cycles
    requires forall x :: x in finished1 ==> x in finished
    ensures EdgeDone(trunk, finished, cycles, e)
  {
    if Closes(cycles1, e) {
      ClosesStays(cycles1, cycles, e);
    }
  }

  lemma RankedStays(cg: ComponentGraph, trunk1: Trunks, trunk: Trunks, finished: seq<nat>,
                    cycles1: seq<seq<Edge>>, cycles: seq<seq<Edge>>)
    requires Ranked(cg, trunk1, finished, cycles1) && Coherent(cg) && Extends(trunk1, trunk) && cycles1 <= cycles
    requires forall v :: v in finished ==> v in trunk1
    ensures Ranked(cg, trunk, finished, cycles)
  {
    hide EdgeDone, Extends;
    forall i, e | 0 <= i < |finished| && e in Out(cg, finished[i])
      ensures EdgeDone(trunk, finished[..i], cycles, e)
    {
      EdgeStaysDone(trunk1, trunk, finished[..i], finished[..i], cycles1, cycles, e);
    }
  }

  // ---------------------------------------------------------------- what a finished search says

  ghost function IndexOf(s: seq<nat>, v: nat): (i: nat)
    requires v in s
    ensures i < |s| && s[i] == v
  {
    if s[0] == v then 0 else 1 + IndexOf(s[1..], v)
  }

  /** Along a chain of edges that close nothing the finishing position falls. */
  lemma {:induction false} ChainFalls(cg: ComponentGraph, trunk: Trunks, finished: seq<nat>, cycles: seq<seq<Edge>>,
                                      c: seq<Edge>, k: nat)
    requires Ranked(cg, trunk, finished, cycles) && IsChain(cg, c) && k < |c| && c[0].from in finished
    requires forall i :: 0 <= i < |c| ==> !Closes(cycles, c[i])
    ensures c[k].to in finished && IndexOf(finished, c[k].to) < IndexOf(finished, c[0].from)
  {
    hide Closes, IsBack;
    if k > 0 {
      ChainFalls(cg, trunk, finished, cycles, c, k - 1);
      assert c[k - 1].to == c[k].from;
    }
    var i := IndexOf(finished, c[k].from);
    assert c[k] in Out(cg, finished[i]) && EdgeDone(trunk, finished[..i], cycles, c[k]);
    var j :| 0 <= j < i && finished[..i][j] == c[k].to;
    assert finished[j] == c[k].to == finished[IndexOf(finished, c[k].to)];
  }

  /** No closed chain avoids the edges of the recorded cycles. */
  ghost predicate MeetsEveryChain(cg: ComponentGraph, cycles: seq<seq<Edge>>) {
    forall c: seq<Edge> :: Closed(cg, c) ==> exists i :: 0 <= i < |c| && Used(cycles, c[i])
  }

  lemma RankedMeetsEveryChain(cg: ComponentGraph, trunk: Trunks, finished: seq<nat>, cycles: seq<seq<Edge>>)
    requires Ranked(cg, trunk, finished, cycles) && cg.Keys <= Members(finished)
    ensures MeetsEveryChain(cg, cycles)
  {
    hide Ranked, Used, Closed;
    forall c: seq<Edge> | Closed(cg, c)
      ensures exists i :: 0 <= i < |c| && Used(cycles, c[i])
    {
      var i := ChainMeets(cg, trunk, finished, cycles, c);
    }
  }

  lemma ChainMeets(cg: ComponentGraph, trunk: Trunks, finished: seq<nat>, cycles: seq<seq<Edge>>, c: seq<Edge>)
    returns (i: nat)
    requires Ranked(cg, trunk, finished, cycles) && cg.Keys <= Members(finished) && Closed(cg, c)
    ensures i < |c| && Used(cycles, c[i])
  {
    hide Ranked, Closes, Used;
    assert c[0] in Out(cg, c[0].from);
    if forall i :: 0 <= i < |c| ==> !Closes(cycles, c[i]) {
      ChainFalls(cg, trunk, finished, cycles, c, |c| - 1);
      assert false;
    }
    i :| 0 <= i < |c| && Closes(cycles, c[i]);
    ClosesUses(cycles, c[i]);
  }

  lemma ClosesUses(cycles: seq<seq<Edge>>, e: Edge)
    requires Closes(cycles, e)
    ensures Used(cycles, e)
  {
    var i :| 0 <= i < |cycles| && cycles[i] != [] && Last(cycles[i]) == e;
    assert cycles[i][|cycles[i]| - 1] == e;
  }

  /** Some cycle is recorded exactly when there is one. */
  lemma CyclesDecide(cg: ComponentGraph, cycles: seq<seq<Edge>>, idents: set<string>)
    requires Recorded(cg, cycles, idents) && MeetsEveryChain(cg, cycles)
    ensures cycles != [] <==> HasClosedChain(cg)
  {
    hide CycleId;
    if cycles != [] {
      assert Genuine(cg, cycles[0]);
    }
    if HasClosedChain(cg) {
      var c: seq<Edge> :| Closed(cg, c);
      var i :| 0 <= i < |c| && Used(cycles, c[i]);
    }
  }

  /** A finished search found every back edge. */
  lemma RankedIsSearched(cg: ComponentGraph, trunk: Trunks, finished: seq<nat>, cycles: seq<seq<Edge>>)
    requires Ranked(cg, trunk, finished, cycles) && cg.Keys <= Members(finished)
    requires Tree(cg, trunk) && trunk.Keys == cg.Keys && OneTree(cg, trunk) && AllBack(trunk, cycles)
    requires TablesOf(trunk) == SearchOf(cg)
    ensures Searched(cg, trunk, cycles)
  {
    hide TablesOf, SearchOf, Tree, OneTree, AllBack, Closes, IsBack;
    forall v, e | v in cg && e in cg[v] && IsBack(trunk, e)
      ensures Closes(cycles, e)
    {
      var i :| 0 <= i < |finished| && finished[i] == v;
      assert EdgeDone(trunk, finished[..i], cycles, e);
    }
  }

  // ---------------------------------------------------------------- deterministic order

  ghost predicate SortedByTarget(edges: seq<Edge>) {
    forall i, j :: 0 <= i < j < |edges| ==> edges[i].to <= edges[j].to
  }

  method SortEdges(edges: seq<Edge>) returns (r: seq<Edge>)
    ensures multiset(r) == multiset(edges) && SortedByTarget(r)
  {
    r := [];
    for k := 0 to |edges|
      invariant multiset(r) == multiset(edges[..k]) && SortedByTarget(r)
    {
      hide SortedByTarget;
      var e, i := edges[k], |r|;
      while i > 0 && r[i - 1].to > e.to
        invariant 0 <= i <= |r|
        invariant forall j :: i <= j < |r| ==> e.to < r[j].to
      {
        i := i - 1;
      }
      InsertEdge(r, i, e);
      r := r[..i] + [e] + r[i..];
      assert edges[..k + 1] == edges[..k] + [e];
    }
    assert edges[..|edges|] == edges;
  }

  lemma InsertEdge(r: seq<Edge>, i: nat, e: Edge)
    requires i <= |r| && SortedByTarget(r) && (i > 0 ==> r[i - 1].to <= e.to)
    requires forall j :: i <= j < |r| ==> e.to < r[j].to
    ensures SortedByTarget(r[..i] + [e] + r[i..]) && multiset(r[..i] + [e] + r[i..]) == multiset(r) + multiset{e}
  {
    InsertKeepsOrder(r, i, e);
    InsertKeepsAll(r, i, e);
  }

  lemma InsertKeepsAll(r: seq<Edge>, i: nat, e: Edge)
    requires i <= |r|
    ensures multiset(r[..i] + [e] + r[i..]) == multiset(r) + multiset{e}
  {
    assert r == r[..i] + r[i..];
  }

  lemma InsertKeepsOrder(r: seq<Edge>, i: nat, e: Edge)
    requires i <= |r| && SortedByTarget(r) && (i > 0 ==> r[i - 1].to <= e.to)
    requires forall j :: i <= j < |r| ==> e.to < r[j].to
    ensures SortedByTarget(r[..i] + [e] + r[i..])
  {
    var t := r[..i] + [e] + r[i..];
    forall j, k | 0 <= j < k < |t|
      ensures t[j].to <= t[k].to
    {
      assert t[j] == if j < i then r[j] else if j == i then e else r[j - 1];
      assert t[k] == if k < i then r[k] else if k == i then e else r[k - 1];
    }
  }

  method SortVertices(keys: set<nat>) returns (r: seq<nat>)
    ensures Members(r) == keys && forall i, j :: 0 <= i < j < |r| ==> r[i] < r[j]
  {
    r := [];
    var rest := keys;
    while rest != {}
      invariant rest <= keys && Members(r) == keys - rest
      invariant forall i, j :: 0 <= i < j < |r| ==> r[i] < r[j]
      invariant forall v, w :: v in r && w in rest ==> v < w
      decreases rest
    {
      var least: nat :| least in rest;
      var others := rest - {least};
      while others != {}
        invariant least in rest && others <= rest
        invariant forall w :: w in rest && w !in others ==> least <= w
        decreases others
      {
        var w: nat :| w in others;
        if w < least {
          least := w;
        }
        others := others - {w};
      }
      assert Members(r + [least]) == Members(r) + {least};
      forall i | 0 <= i < |r|
        ensures r[i] < least
      {
        assert r[i] in r;
      }
      r := r + [least];
      rest := rest - {least};
    }
  }

  // ---------------------------------------------------------------- the state of the search

  /** Where the search stands: the tables on the stack are those the path leaves. */
  ghost predicate OnPath(cg: ComponentGraph, trunk: Trunks, path: seq<Edge>, v: nat, recStack: set<nat>) {
    && IsChain(cg, path) && DistinctFroms(path) && (path != [] ==> Last(path).to == v)
    && recStack == Froms(path) && v in cg
    && (forall i :: 0 <= i < |path| ==> path[i].from in trunk && trunk[path[i].from] == path[..i])
    && (path != [] ==> forall e :: e in Out(cg, Last(path).from) && e.to < v ==> e.to in trunk)
  }

  ghost predicate Accounted(visited: set<nat>, recStack: set<nat>, finished: seq<nat>) {
    visited == Members(finished) + recStack && Members(finished) !! recStack
  }

  ghost predicate Searching(cg: ComponentGraph, trunk: Trunks, cycles: seq<seq<Edge>>, visited: set<nat>,
                            recStack: set<nat>, finished: seq<nat>) {
    && Tree(cg, trunk) && trunk.Keys == visited && visited <= cg.Keys && AllBack(trunk, cycles)
    && Accounted(visited, recStack, finished) && Ranked(cg, trunk, finished, cycles)
  }

  /** The first `k` edges are done and their tables visited. */
  ghost predicate Settled(edges: seq<Edge>, k: nat, trunk: Trunks, finished: seq<nat>, cycles: seq<seq<Edge>>)
    requires k <= |edges|
  {
    forall j :: 0 <= j < k ==> edges[j].to in trunk && EdgeDone(trunk, finished, cycles, edges[j])
  }

  class Component {
    const componentGraph: ComponentGraph
    var cycles: seq<seq<Edge>>
    var cyclesIdents: set<string>
    var groupedCycles: map<string, seq<nat>>
    /** The paths on which the search entered the tables. */
    ghost var trunk: Trunks

    ghost predicate Sound()
      reads this
    {
      && Recorded(componentGraph, cycles, cyclesIdents) && ClosersDiffer(cycles) && GroupsAgree(cycles)
      && Searched(componentGraph, trunk, cycles)
    }

    constructor (componentGraph: ComponentGraph)
      requires Coherent(componentGraph)
      ensures this.componentGraph == componentGraph && Sound() && Grouped(cycles, groupedCycles)
      ensures RecordsExactly(componentGraph, cycles)
      ensures MeetsEveryChain(componentGraph, cycles) && (cycles != [] <==> HasClosedChain(componentGraph))
      ensures StronglyConnected(componentGraph) ==>
                (AllRecorded(componentGraph, cycles) <==> OneSimpleChain(componentGraph))
    {
      hide Coherent, Recorded, MeetsEveryChain, Searched, GroupsAgree, ClosersDiffer, Grouped, StronglyConnected;
      hide AllRecorded, OneSimpleChain, HasClosedChain, RecordsExactly;
      this.componentGraph := componentGraph;
      cycles, cyclesIdents, groupedCycles := [], {}, map[];
      trunk := map[];
      new;
      FindCycles();
      GroupCycles();
    }

    method GroupCycles()
      modifies this`groupedCycles
      ensures Grouped(cycles, groupedCycles)
    {
      hide CycleGroupId;
      groupedCycles := map[];
      for k := 0 to |cycles|
        invariant Grouped(cycles[..k], groupedCycles)
      {
        var id := CycleGroupId(cycles[k]);
        GroupOne(cycles[..k], groupedCycles, cycles[k]);
        assert cycles[..k + 1] == cycles[..k] + [cycles[k]];
        groupedCycles := groupedCycles[id := (if id in groupedCycles then groupedCycles[id] else []) + [k]];
      }
      assert cycles[..|cycles|] == cycles;
    }

    method FindCycles()
      requires Coherent(componentGraph) && cycles == [] && cyclesIdents == {} && trunk == map[]
      modifies this`cycles, this`cyclesIdents, this`trunk
      ensures Sound() && RecordsExactly(componentGraph, cycles)
      ensures MeetsEveryChain(componentGraph, cycles) && (cycles != [] <==> HasClosedChain(componentGraph))
      ensures StronglyConnected(componentGraph) ==>
                (AllRecorded(componentGraph, cycles) <==> OneSimpleChain(componentGraph))
    {
      hide Coherent, Recorded, Searching, MeetsEveryChain, OneTree, OnPath, Searched, GroupsAgree, ClosersDiffer;
      hide StronglyConnected, AllRecorded, OneSimpleChain, HasClosedChain, RecordsExactly;
      hide SearchOf, TablesOf, FollowTargets, EnterTable;
      var vertices := SortVertices(componentGraph.Keys);
      var visited: set<nat> := {};
      ghost var finished: seq<nat> := [];
      NothingSearched(componentGraph);
      SearchStarts(componentGraph, vertices);
      for k := 0 to |vertices|
        invariant FollowTargets(componentGraph, [], Members(vertices[k..]), TablesOf(trunk)) == SearchOf(componentGraph)
        invariant Recorded(componentGraph, cycles, cyclesIdents) && OneTree(componentGraph, trunk)
        invariant Searching(componentGraph, trunk, cycles, visited, {}, finished)
        invariant forall j :: 0 <= j < k ==> vertices[j] in visited
      {
        assert vertices[k] in Members(vertices);
        StartNext(componentGraph, vertices, k, TablesOf(trunk));
        TablesMatch(componentGraph, trunk, cycles, visited, {}, finished);
        if vertices[k] !in visited {
          ghost var trunk1, cycles1, visited1, finished1 := trunk, cycles, visited, finished;
          RootOnPath(componentGraph, trunk, vertices[k]);
          var recStack: set<nat> := {};
          visited, recStack, finished := FindAllCyclesDfs(vertices[k], visited, recStack, [], finished);
          VisitedIsClosed(componentGraph, trunk1, cycles1, visited1, finished1);
          assert k > 0 ==> vertices[0] in visited1;
          FirstIsLeast(componentGraph, vertices);
          OneTreeGrows(componentGraph, trunk1, trunk, vertices[k], vertices[0]);
        }
      }
      AllVisited(componentGraph, trunk, cycles, visited, finished, vertices);
      SearchEnds(componentGraph, vertices, TablesOf(trunk));
      RankedIsSearched(componentGraph, trunk, finished, cycles);
      RankedMeetsEveryChain(componentGraph, trunk, finished, cycles);
      CyclesDecide(componentGraph, cycles, cyclesIdents);
      ClosersAreDifferent(componentGraph, trunk, cycles, cyclesIdents);
      RecordedGroupsAgree(componentGraph, trunk, cycles, cyclesIdents);
      SearchRecordsExactly(componentGraph, trunk, cycles, cyclesIdents);
      if StronglyConnected(componentGraph) {
        AllRecordedIff(componentGraph, trunk, cycles, cyclesIdents);
      }
    }

    method FindAllCyclesDfs(v: nat, visited0: set<nat>, recStack0: set<nat>, path0: seq<Edge>,
                            ghost finished0: seq<nat>)
      returns (visited: set<nat>, recStack: set<nat>, ghost finished: seq<nat>)
      requires Coherent(componentGraph) && Recorded(componentGraph, cycles, cyclesIdents)
      requires Searching(componentGraph, trunk, cycles, visited0, recStack0, finished0)
      requires OnPath(componentGraph, trunk, path0, v, recStack0) && v !in visited0
      modifies this`cycles, this`cyclesIdents, this`trunk
      ensures Recorded(componentGraph, cycles, cyclesIdents) && old(cycles) <= cycles
      ensures Searching(componentGraph, trunk, cycles, visited, recStack, finished)
      ensures visited0 + {v} <= visited <= componentGraph.Keys && recStack == recStack0
      ensures Extends(old(trunk), trunk) && v in trunk && trunk[v] == path0
      ensures forall x :: x in trunk && x !in old(trunk) && x != v ==> trunk[x] != []
      ensures Entered(componentGraph, v, path0, old(trunk), trunk)
      decreases componentGraph.Keys - visited0
    {
      hide Coherent, Recorded, Searching, OnPath, Settled, EdgeDone, Extends, OnEntry;
      hide Entered, OnTrack, SortedByTarget;
      visited, recStack, finished := visited0 + {v}, recStack0 + {v}, finished0;
      var path := path0;
      trunk := trunk[v := path0];
      Enter(componentGraph, old(trunk), cycles, visited0, recStack0, finished0, path0, v);
      var edges := SortEdges(Out(componentGraph, v));
      EdgesAt(componentGraph, v, edges);
      NothingSettled(edges, trunk, finished, cycles);
      TrackStarts(componentGraph, old(trunk), path0, v, edges);
      for k := 0 to |edges|
        invariant path == path0 && recStack == recStack0 + {v} && visited0 + {v} <= visited
        invariant Recorded(componentGraph, cycles, cyclesIdents) && old(cycles) <= cycles
        invariant Searching(componentGraph, trunk, cycles, visited, recStack, finished)
        invariant OnEntry(componentGraph, old(trunk), trunk, path0, v, recStack0)
        invariant Settled(edges, k, trunk, finished, cycles)
        invariant OnTrack(componentGraph, v, path0, edges, k, old(trunk), trunk)
      {
        ghost var trunk1, visited1, finished1, cycles1 := trunk, visited, finished, cycles;
        var to := edges[k];
        path := path + [to];
        ExtendPath(componentGraph, old(trunk), trunk, cycles, visited, finished, path0, v, recStack0, edges, k);
        TablesMatch(componentGraph, trunk, cycles, visited, recStack, finished);
        if to.to !in visited {
          assert componentGraph.Keys - visited < componentGraph.Keys - visited0 by {
            assert v in componentGraph.Keys - visited0 && v !in componentGraph.Keys - visited;
          }
          visited, recStack, finished := FindAllCyclesDfs(to.to, visited, recStack, path, finished);
          TrackCall(componentGraph, v, path0, edges, k, old(trunk), trunk1, trunk);
          AfterCall(componentGraph, old(trunk), trunk1, trunk, cycles1, cycles, visited1, visited, recStack0,
                    finished1, finished, path0, v, edges, k);
        } else if to.to in recStack {
          TrackPass(componentGraph, v, path0, edges, k, old(trunk), trunk);
          RecordCycle(path, v, visited, recStack, finished);
          AfterBack(componentGraph, trunk, cycles1, cycles, visited, recStack, finished, edges, k);
        } else {
          TrackPass(componentGraph, v, path0, edges, k, old(trunk), trunk);
          AfterSkip(componentGraph, old(trunk), trunk, cycles, visited, finished, path0, v, recStack0, edges, k);
        }
        path := path[..|path| - 1];
      }
      Leave(componentGraph, old(trunk), trunk, cycles, visited, finished, path0, v, recStack0, edges);
      TrackEnds(componentGraph, v, path0, edges, old(trunk), trunk);
      recStack := recStack - {v};
      finished := finished + [v];
    }

    /** Records the piece of the path from the table the last edge leads back to. */
    method RecordCycle(path: seq<Edge>, ghost v: nat, ghost visited: set<nat>, ghost recStack: set<nat>,
                       ghost finished: seq<nat>)
      requires Coherent(componentGraph) && Recorded(componentGraph, cycles, cyclesIdents)
      requires Searching(componentGraph, trunk, cycles, visited, recStack, finished)
      requires path != [] && IsChain(componentGraph, path) && DistinctFroms(path) && Last(path).to in Froms(path)
      requires Last(path).from == v && v in trunk && trunk[v] == path[..|path| - 1]
      modifies this`cycles, this`cyclesIdents
      ensures Recorded(componentGraph, cycles, cyclesIdents) && old(cycles) <= cycles
      ensures Searching(componentGraph, trunk, cycles, visited, recStack, finished)
      ensures IsBack(trunk, Last(path)) && BackCycle(trunk, Last(path)) in cycles
    {
      hide CycleId, Recorded, Searching, Coherent, Froms, IsChain, DistinctFroms, BackCycle, IsBack;
      var cycle, idx := CloseCycle(path);
      PathIsBackCycle(componentGraph, trunk, cycles, visited, recStack, finished, path, v, idx);
      ghost var suffix := path[idx..];
      ReversalKeepsCycleId(suffix);
      var cycleId := CycleId(cycle);
      if cycleId !in cyclesIdents {
        var res := Reversed(cycle);
        assert res == suffix;
        RecordOne(componentGraph, trunk, cycles, cyclesIdents, visited, recStack, finished, res);
        cycles := cycles + [res];
        cyclesIdents := cyclesIdents + {cycleId};
        assert cycles[|cycles| - 1] == res;
      } else {
        KnownIsRecorded(componentGraph, trunk, cycles, cyclesIdents, visited, recStack, finished, suffix);
      }
    }
  }

  /** The part of the path from the table it came back to, in reverse. */
  method CloseCycle(path: seq<Edge>) returns (cycle: seq<Edge>, ghost start: nat)
    requires path != [] && Last(path).to in Froms(path)
    ensures start < |path| && cycle == Reversed(path[start..]) && path[start].from == Last(path).to
  {
    hide Froms;
    cycle := [];
    var idx := |path| - 1;
    assert path[..idx + 1] == path;
    while true
      invariant 0 <= idx < |path| && cycle == Reversed(path[idx + 1..])
      invariant Last(path).to in Froms(path[..idx + 1])
      decreases idx
    {
      cycle := cycle + [path[idx]];
      assert cycle == Reversed(path[idx..]) by {
        assert path[idx..] == [path[idx]] + path[idx + 1..];
      }
      if path[idx].from == Last(path).to {
        break;
      }
      FromsBefore(path, idx, Last(path).to);
      idx := idx - 1;
    }
    start := idx;
  }

  lemma FromsBefore(path: seq<Edge>, idx: nat, v: nat)
    requires idx < |path| && v in Froms(path[..idx + 1]) && path[idx].from != v
    ensures idx > 0 && v in Froms(path[..idx])
  {
    var i :| 0 <= i < |path[..idx + 1]| && path[..idx + 1][i].from == v;
    assert path[..idx][i].from == v;
  }

  // ---------------------------------------------------------------- recording

  /** The piece cut from the path is the cycle of its last edge in the tree, and genuine. */
  lemma PathIsBackCycle(cg: ComponentGraph, trunk: Trunks, cycles: seq<seq<Edge>>, visited: set<nat>,
                        recStack: set<nat>, finished: seq<nat>, path: seq<Edge>, v: nat, idx: nat)
    requires Searching(cg, trunk, cycles, visited, recStack, finished)
    requires path != [] && IsChain(cg, path) && DistinctFroms(path) && idx < |path| && path[idx].from == Last(path).to
    requires Last(path).from == v && v in trunk && trunk[v] == path[..|path| - 1]
    ensures Genuine(cg, path[idx..]) && IsBackCycle(trunk, path[idx..]) && Last(path[idx..]) == Last(path)
  {
    hide Searching;
    SuffixIsGenuine(cg, path, idx);
    SearchHasTree(cg, trunk, cycles, visited, recStack, finished);
    SuffixIsBackCycle(cg, trunk, path, v, idx);
  }

  lemma SearchHasTree(cg: ComponentGraph, trunk: Trunks, cycles: seq<seq<Edge>>, visited: set<nat>, recStack: set<nat>,
                      finished: seq<nat>)
    requires Searching(cg, trunk, cycles, visited, recStack, finished)
    ensures Tree(cg, trunk)
  {
  }

  lemma SuffixIsGenuine(cg: ComponentGraph, path: seq<Edge>, idx: nat)
    requires IsChain(cg, path) && DistinctFroms(path) && idx < |path| && path[idx].from == Last(path).to
    ensures Genuine(cg, path[idx..]) && Last(path[idx..]) == Last(path)
  {
    var c := path[idx..];
    assert forall i :: 0 <= i < |c| ==> c[i] == path[idx + i];
  }

  lemma SuffixIsBackCycle(cg: ComponentGraph, trunk: Trunks, path: seq<Edge>, v: nat, idx: nat)
    requires Tree(cg, trunk) && path != [] && idx < |path| && path[idx].from == Last(path).to
    requires Last(path).from == v && v in trunk && trunk[v] == path[..|path| - 1]
    ensures IsBackCycle(trunk, path[idx..])
  {
    hide Tree;
    var c, e, p := path[idx..], Last(path), trunk[v];
    assert path == p + [e] && c == p[idx..] + [e];
    TrunkPosition(cg, trunk, v, idx);
    FromsHold(p);
  }

  lemma RecordOne(cg: ComponentGraph, trunk: Trunks, cycles: seq<seq<Edge>>, idents: set<string>, visited: set<nat>,
                  recStack: set<nat>, finished: seq<nat>, c: seq<Edge>)
    requires Recorded(cg, cycles, idents) && Searching(cg, trunk, cycles, visited, recStack, finished) && Coherent(cg)
    requires Genuine(cg, c) && IsBackCycle(trunk, c) && CycleId(c) !in idents
    ensures Recorded(cg, cycles + [c], idents + {CycleId(c)}) && cycles <= cycles + [c]
    ensures Searching(cg, trunk, cycles + [c], visited, recStack, finished)
  {
    hide CycleId, Genuine, IsBackCycle, Coherent, Tree, Ranked;
    var grown := cycles + [c];
    forall id | id in idents + {CycleId(c)}
      ensures exists i :: 0 <= i < |grown| && CycleId(grown[i]) == id
    {
      if id in idents {
        var i :| 0 <= i < |cycles| && CycleId(cycles[i]) == id;
        assert grown[i] == cycles[i];
      } else {
        assert grown[|cycles|] == c;
      }
    }
    FinishedAreVisited(visited, recStack, finished);
    RankedStays(cg, trunk, trunk, finished, cycles, grown);
  }

  lemma FinishedAreVisited(visited: set<nat>, recStack: set<nat>, finished: seq<nat>)
    requires Accounted(visited, recStack, finished)
    ensures forall v :: v in finished ==> v in visited
  {
    forall v | v in finished
      ensures v in visited
    {
      assert v in Members(finished);
    }
  }

  /** A known cycle with the same edges is the same cycle, since only its last edge is not in the tree. */
  lemma KnownIsRecorded(cg: ComponentGraph, trunk: Trunks, cycles: seq<seq<Edge>>, idents: set<string>,
                        visited: set<nat>, recStack: set<nat>, finished: seq<nat>, c: seq<Edge>)
    requires Coherent(cg) && Recorded(cg, cycles, idents) && Searching(cg, trunk, cycles, visited, recStack, finished)
    requires Genuine(cg, c) && IsBackCycle(trunk, c) && CycleId(c) in idents
    ensures c in cycles
  {
    hide CycleId, Coherent, Tree, Ranked, Accounted, IsBack, BackCycle;
    var i :| 0 <= i < |cycles| && CycleId(cycles[i]) == CycleId(c);
    var d := cycles[i];
    assert Genuine(cg, d) && IsBackCycle(trunk, d);
    var k := SharedEdge(cg, d, c);
    if k < |d| - 1 {
      BackCycleAt(cg, trunk, d, k);
      TrunkEdgeIsTree(cg, trunk, Last(d).from, |trunk[Last(d).to]| + k);
    }
  }

  lemma SharedEdge(cg: ComponentGraph, d: seq<Edge>, c: seq<Edge>) returns (k: nat)
    requires Coherent(cg) && Genuine(cg, d) && Genuine(cg, c) && CycleId(d) == CycleId(c)
    ensures c != [] && k < |d| && d[k] == Last(c)
  {
    NumbersKeyIdentifies(Ids(d), Ids(c));
    hide Coherent, DistinctFroms;
    assert Ids(c)[|c| - 1] == Last(c).id;
    assert Last(c).id in multiset(Ids(d));
    k :| 0 <= k < |d| && Ids(d)[k] == Last(c).id;
    SameIdSameEdge(cg, d[k], Last(c));
  }

  // ---------------------------------------------------------------- steps of the search

  lemma NothingSearched(cg: ComponentGraph)
    ensures Recorded(cg, [], {}) && Searching(cg, map[], [], {}, {}, []) && OneTree(cg, map[])
  {
  }

  lemma SearchStarts(cg: ComponentGraph, vertices: seq<nat>)
    requires Members(vertices) == cg.Keys
    ensures FollowTargets(cg, [], Members(vertices[0..]), TablesOf(map[])) == SearchOf(cg)
  {
    assert vertices[0..] == vertices && TablesOf(map[]) == map[];
  }

  lemma SearchEnds(cg: ComponentGraph, vertices: seq<nat>, seen: Lineage)
    ensures FollowTargets(cg, [], Members(vertices[|vertices|..]), seen) == seen
  {
    assert Members(vertices[|vertices|..]) == {};
  }

  lemma TablesMatch(cg: ComponentGraph, trunk: Trunks, cycles: seq<seq<Edge>>, visited: set<nat>, recStack: set<nat>,
                    finished: seq<nat>)
    requires Searching(cg, trunk, cycles, visited, recStack, finished)
    ensures TablesOf(trunk).Keys == visited
  {
  }

  /** The tree grew as the search from `v` prescribes. */
  ghost predicate Entered(cg: ComponentGraph, v: nat, path: seq<Edge>, trunk0: Trunks, trunk: Trunks) {
    v in cg && v !in trunk0 && TablesOf(trunk) == EnterTable(cg, v, FromSeq(path), TablesOf(trunk0))
  }

  /** Following the edges from position `k` on completes that. */
  ghost predicate OnTrack(cg: ComponentGraph, v: nat, path: seq<Edge>, edges: seq<Edge>, k: nat, trunk0: Trunks,
                          trunk: Trunks)
    requires k <= |edges|
  {
    && v in cg && v !in trunk0
    && FollowTargets(cg, FromSeq(path) + [v], TargetsFrom(edges, k), TablesOf(trunk))
    == EnterTable(cg, v, FromSeq(path), TablesOf(trunk0))
  }

  lemma TrackStarts(cg: ComponentGraph, trunk: Trunks, path: seq<Edge>, v: nat, edges: seq<Edge>)
    requires v in cg && v !in trunk && multiset(edges) == multiset(Out(cg, v))
    ensures OnTrack(cg, v, path, edges, 0, trunk, trunk[v := path])
  {
    hide FollowTargets, EnterTable, TargetsFrom;
    SameElements(edges, Out(cg, v));
    TablesGrow(trunk, path, v);
    hide TablesOf, Out;
    FollowStarts(cg, v, FromSeq(path), edges, TablesOf(trunk));
  }

  lemma TablesGrow(trunk: Trunks, path: seq<Edge>, v: nat)
    requires v !in trunk
    ensures v !in TablesOf(trunk) && TablesOf(trunk[v := path]) == TablesOf(trunk)[v := FromSeq(path)]
  {
  }

  lemma SameElements(a: seq<Edge>, b: seq<Edge>)
    requires multiset(a) == multiset(b)
    ensures forall e :: e in a <==> e in b
  {
    assert forall e :: (e in a <==> e in multiset(a)) && (e in b <==> e in multiset(b));
  }

  lemma TrackPass(cg: ComponentGraph, v: nat, path: seq<Edge>, edges: seq<Edge>, k: nat, trunk0: Trunks, trunk: Trunks)
    requires k < |edges| && SortedByTarget(edges) && OnTrack(cg, v, path, edges, k, trunk0, trunk)
    requires edges[k].to in trunk
    ensures OnTrack(cg, v, path, edges, k + 1, trunk0, trunk)
  {
    hide FollowTargets, TargetsFrom;
    PassOver(cg, FromSeq(path) + [v], edges, k, TablesOf(trunk));
  }

  lemma TrackCall(cg: ComponentGraph, v: nat, path: seq<Edge>, edges: seq<Edge>, k: nat, trunk0: Trunks,
                  trunk1: Trunks, trunk: Trunks)
    requires k < |edges| && SortedByTarget(edges) && OnTrack(cg, v, path, edges, k, trunk0, trunk1)
    requires edges[k].from == v && Entered(cg, edges[k].to, path + [edges[k]], trunk1, trunk)
    ensures OnTrack(cg, v, path, edges, k + 1, trunk0, trunk)
  {
    hide FollowTargets, TargetsFrom, EnterTable;
    assert FromSeq(path + [edges[k]]) == FromSeq(path) + [v];
    EnterNext(cg, FromSeq(path) + [v], edges, k, TablesOf(trunk1));
  }

  lemma TrackEnds(cg: ComponentGraph, v: nat, path: seq<Edge>, edges: seq<Edge>, trunk0: Trunks, trunk: Trunks)
    requires OnTrack(cg, v, path, edges, |edges|, trunk0, trunk)
    ensures Entered(cg, v, path, trunk0, trunk)
  {
    hide FollowTargets, TargetsFrom;
    FollowEnds(cg, FromSeq(path) + [v], edges, TablesOf(trunk));
  }

  lemma RootOnPath(cg: ComponentGraph, trunk: Trunks, v: nat)
    requires v in cg
    ensures OnPath(cg, trunk, [], v, {})
  {
  }

  /** What stays true of the path on which a table was entered. */
  ghost predicate OnEntry(cg: ComponentGraph, trunk0: Trunks, trunk: Trunks, path: seq<Edge>, v: nat,
                          recStack: set<nat>) {
    && OnPath(cg, trunk, path, v, recStack) && v !in trunk0 && v !in recStack && v in trunk && trunk[v] == path
    && Extends(trunk0, trunk) && forall x :: x in trunk && x !in trunk0 && x != v ==> trunk[x] != []
  }

  /** No table visited before is below a table that is entered now. */
  lemma NothingBelow(cg: ComponentGraph, trunk: Trunks, path: seq<Edge>, v: nat, y: nat)
    requires Tree(cg, trunk) && y in trunk && v !in trunk && path != [] && Last(path).to == v
    ensures !(path <= trunk[y])
  {
    hide Tree;
    if |path| <= |trunk[y]| {
      TrunkReaches(cg, trunk, y, |path|);
    }
  }

  /** The tables that a trunk enters have trunks. */
  lemma TrunkReaches(cg: ComponentGraph, trunk: Trunks, y: nat, n: nat)
    requires Tree(cg, trunk) && y in trunk && 0 < n <= |trunk[y]|
    ensures trunk[y][n - 1].to in trunk
  {
    TrunkPosition(cg, trunk, y, n);
    assert TrunkAt(cg, trunk, y);
    if n < |trunk[y]| {
      assert trunk[y][n - 1].to == trunk[y][n].from;
    }
  }

  lemma Enter(cg: ComponentGraph, trunk: Trunks, cycles: seq<seq<Edge>>, visited: set<nat>, recStack: set<nat>,
              finished: seq<nat>, path: seq<Edge>, v: nat)
    requires Coherent(cg) && Searching(cg, trunk, cycles, visited, recStack, finished) &&
             OnPath(cg, trunk, path, v, recStack)
    requires v !in visited
    ensures Searching(cg, trunk[v := path], cycles, visited + {v}, recStack + {v}, finished)
    ensures OnEntry(cg, trunk, trunk[v := path], path, v, recStack) && v in cg && v !in trunk
  {
    hide Coherent, Ranked, Tree, AllBack, IsChain, DistinctFroms;
    var grown := trunk[v := path];
    EnterTree(cg, trunk, path, v, recStack);
    BackStays(cg, trunk, grown, cycles);
    FinishedAreVisited(visited, recStack, finished);
    StackIsVisited(visited, recStack, finished);
    RankedStays(cg, trunk, grown, finished, cycles, cycles);
  }

  lemma EnterTree(cg: ComponentGraph, trunk: Trunks, path: seq<Edge>, v: nat, recStack: set<nat>)
    requires Tree(cg, trunk) && OnPath(cg, trunk, path, v, recStack) && v !in trunk
    ensures Tree(cg, trunk[v := path])
  {
    hide TrunkAt, OrderedAt;
    var grown := trunk[v := path];
    forall w | w in grown
      ensures TrunkAt(cg, grown, w) && OrderedAt(cg, grown, w)
    {
      if w == v {
        EnteredAt(cg, trunk, path, v, recStack);
      } else {
        StaysAt(cg, trunk, grown, w);
      }
    }
  }

  lemma EnteredAt(cg: ComponentGraph, trunk: Trunks, path: seq<Edge>, v: nat, recStack: set<nat>)
    requires Tree(cg, trunk) && OnPath(cg, trunk, path, v, recStack) && v !in trunk
    ensures TrunkAt(cg, trunk[v := path], v) && OrderedAt(cg, trunk[v := path], v)
  {
    hide Tree;
    if path != [] {
      forall e | e in Out(cg, Last(path).from) && e.to < v
        ensures e.to in trunk && !(path <= trunk[e.to])
      {
        NothingBelow(cg, trunk, path, v, e.to);
      }
    }
  }

  /** Trunks of earlier tables are unaffected by new ones. */
  lemma StaysAt(cg: ComponentGraph, before: Trunks, trunk: Trunks, w: nat)
    requires Extends(before, trunk) && w in before && TrunkAt(cg, before, w) && OrderedAt(cg, before, w)
    ensures TrunkAt(cg, trunk, w) && OrderedAt(cg, trunk, w)
  {
  }

  /** Recorded cycles stay cycles of back edges while the tree grows. */
  lemma BackStays(cg: ComponentGraph, before: Trunks, trunk: Trunks, cycles: seq<seq<Edge>>)
    requires Tree(cg, before) && AllBack(before, cycles) && Extends(before, trunk)
    ensures AllBack(trunk, cycles)
  {
    hide Tree;
    forall i | 0 <= i < |cycles|
      ensures IsBackCycle(trunk, cycles[i])
    {
      assert IsBackCycle(before, cycles[i]);
      var e := Last(cycles[i]);
      var k := TrunkOfMember(cg, before, e.from, e.to);
    }
  }

  lemma EdgesAt(cg: ComponentGraph, v: nat, edges: seq<Edge>)
    requires Coherent(cg) && v in cg && multiset(edges) == multiset(Out(cg, v))
    ensures forall k :: 0 <= k < |edges| ==> edges[k] in Out(cg, v) && edges[k].from == v && edges[k].to in cg
    ensures forall e :: e in Out(cg, v) ==> e in edges
  {
    forall k | 0 <= k < |edges|
      ensures edges[k] in cg[v]
    {
      assert edges[k] in multiset(edges);
    }
    forall e | e in cg[v]
      ensures e in edges
    {
      assert e in multiset(edges);
    }
  }

  lemma NothingSettled(edges: seq<Edge>, trunk: Trunks, finished: seq<nat>, cycles: seq<seq<Edge>>)
    ensures Settled(edges, 0, trunk, finished, cycles)
  {
  }

  /** The path with the next edge is a path to the table of that edge. */
  lemma ExtendPath(cg: ComponentGraph, trunk0: Trunks, trunk: Trunks, cycles: seq<seq<Edge>>, visited: set<nat>,
                   finished: seq<nat>, path: seq<Edge>, v: nat, recStack: set<nat>, edges: seq<Edge>, k: nat)
    requires Searching(cg, trunk, cycles, visited, recStack + {v}, finished) &&
             OnEntry(cg, trunk0, trunk, path, v, recStack)
    requires k < |edges| && Settled(edges, k, trunk, finished, cycles) && SortedByTarget(edges)
    requires forall j :: 0 <= j < |edges| ==> edges[j] in Out(cg, v) && edges[j].from == v && edges[j].to in cg
    requires forall e :: e in Out(cg, v) ==> e in edges
    ensures OnPath(cg, trunk, path + [edges[k]], edges[k].to, recStack + {v})
    ensures IsChain(cg, path + [edges[k]]) && DistinctFroms(path + [edges[k]]) && Last(path + [edges[k]]) == edges[k]
    ensures Froms(path + [edges[k]]) == recStack + {v} && trunk.Keys == visited <= cg.Keys && v in trunk &&
            trunk[v] == path
  {
    hide Searching, EdgeDone, Extends, IsChain, DistinctFroms, Froms;
    var e := edges[k];
    PathGrows(cg, path, e);
    TrunkIsVisited(cg, trunk, cycles, visited, recStack + {v}, finished);
    PlacesStay(trunk, path, e);
    forall f | f in Out(cg, v) && f.to < e.to
      ensures f.to in trunk
    {
      var j :| 0 <= j < |edges| && edges[j] == f;
    }
  }

  lemma PathGrows(cg: ComponentGraph, path: seq<Edge>, e: Edge)
    requires IsChain(cg, path) && DistinctFroms(path) && (path != [] ==> Last(path).to == e.from)
    requires e in Out(cg, e.from) && e.from !in Froms(path)
    ensures IsChain(cg, path + [e]) && DistinctFroms(path + [e]) && Froms(path + [e]) == Froms(path) + {e.from}
  {
    FromsAppend(path, e);
    FromsHold(path);
    hide Froms;
    assert forall i :: 0 <= i < |path| ==> (path + [e])[i] == path[i];
  }

  lemma TrunkIsVisited(cg: ComponentGraph, trunk: Trunks, cycles: seq<seq<Edge>>, visited: set<nat>, recStack: set<nat>,
                       finished: seq<nat>)
    requires Searching(cg, trunk, cycles, visited, recStack, finished)
    ensures trunk.Keys == visited <= cg.Keys
  {
  }

  lemma PlacesStay(trunk: Trunks, path: seq<Edge>, e: Edge)
    requires forall i :: 0 <= i < |path| ==> path[i].from in trunk && trunk[path[i].from] == path[..i]
    requires e.from in trunk && trunk[e.from] == path
    ensures var p := path + [e]; forall i :: 0 <= i < |p| ==> p[i].from in trunk && trunk[p[i].from] == p[..i]
  {
    var p := path + [e];
    assert forall i :: 0 <= i < |path| ==> p[i] == path[i] && p[..i] == path[..i];
    assert p[..|path|] == path;
  }

  lemma NextSettled(cg: ComponentGraph, edges: seq<Edge>, k: nat, trunk1: Trunks, trunk: Trunks, finished1: seq<nat>,
                    finished: seq<nat>, cycles1: seq<seq<Edge>>, cycles: seq<seq<Edge>>, v: nat)
    requires k < |edges| && Settled(edges, k, trunk1, finished1, cycles1) && Extends(trunk1, trunk) && cycles1 <= cycles
    requires forall j :: 0 <= j < |edges| ==> edges[j].from == v
    requires v in trunk1 && forall x :: x in finished1 ==> x in finished
    requires edges[k].to in trunk && EdgeDone(trunk, finished, cycles, edges[k])
    ensures Settled(edges, k + 1, trunk, finished, cycles)
  {
    hide EdgeDone;
    forall j | 0 <= j < k
      ensures edges[j].to in trunk && EdgeDone(trunk, finished, cycles, edges[j])
    {
      EdgeStaysDone(trunk1, trunk, finished1, finished, cycles1, cycles, edges[j]);
    }
  }

  lemma FinishedUnlessOnStack(visited: set<nat>, recStack: set<nat>, finished: seq<nat>, w: nat)
    requires Accounted(visited, recStack, finished) && w in visited && w !in recStack
    ensures w in finished
  {
    assert w in Members(finished);
  }

  /** Finished tables stay finished while the stack is the same. */
  lemma FinishedGrows(visited1: set<nat>, visited: set<nat>, recStack: set<nat>, finished1: seq<nat>,
                      finished: seq<nat>)
    requires Accounted(visited1, recStack, finished1) && Accounted(visited, recStack, finished) && visited1 <= visited
    ensures forall x :: x in finished1 ==> x in finished
  {
    forall x | x in finished1
      ensures x in finished
    {
      assert x in Members(finished1);
      FinishedUnlessOnStack(visited, recStack, finished, x);
    }
  }

  /** An edge to a table that is not on the stack is no back edge. */
  lemma OffStackIsNoBack(cg: ComponentGraph, trunk0: Trunks, trunk: Trunks, path: seq<Edge>, v: nat, recStack: set<nat>,
                         e: Edge)
    requires OnEntry(cg, trunk0, trunk, path, v, recStack) && e.from == v && e.to !in recStack + {v}
    ensures !IsBack(trunk, e)
  {
    hide Extends, IsChain;
  }

  lemma AfterCall(cg: ComponentGraph, trunk0: Trunks, trunk1: Trunks, trunk: Trunks, cycles1: seq<seq<Edge>>,
                  cycles: seq<seq<Edge>>, visited1: set<nat>, visited: set<nat>, recStack: set<nat>,
                  finished1: seq<nat>,
                  finished: seq<nat>, path: seq<Edge>, v: nat, edges: seq<Edge>, k: nat)
    requires Searching(cg, trunk1, cycles1, visited1, recStack + {v}, finished1)
    requires Searching(cg, trunk, cycles, visited, recStack + {v}, finished) && visited1 <= visited && cycles1 <= cycles
    requires OnEntry(cg, trunk0, trunk1, path, v, recStack) && Extends(trunk1, trunk)
    requires k < |edges| && Settled(edges, k, trunk1, finished1, cycles1)
    requires forall j :: 0 <= j < |edges| ==> edges[j].from == v
    requires edges[k].to !in visited1 && edges[k].to in trunk && trunk[edges[k].to] == path + [edges[k]]
    requires forall x :: x in trunk && x !in trunk1 && x != edges[k].to ==> trunk[x] != []
    ensures OnEntry(cg, trunk0, trunk, path, v, recStack) && Settled(edges, k + 1, trunk, finished, cycles)
  {
    hide Tree, AllBack, Ranked, Accounted, IsBack, Settled;
    var e := edges[k];
    EntryStays(cg, trunk0, trunk1, trunk, path, v, recStack);
    StackIsVisited(visited1, recStack + {v}, finished1);
    FinishedUnlessOnStack(visited, recStack + {v}, finished, e.to);
    FinishedGrows(visited1, visited, recStack + {v}, finished1, finished);
    OffStackIsNoBack(cg, trunk0, trunk, path, v, recStack, e);
    NextSettled(cg, edges, k, trunk1, trunk, finished1, finished, cycles1, cycles, v);
  }

  lemma StackIsVisited(visited: set<nat>, recStack: set<nat>, finished: seq<nat>)
    requires Accounted(visited, recStack, finished)
    ensures recStack <= visited
  {
  }

  lemma EntryStays(cg: ComponentGraph, trunk0: Trunks, trunk1: Trunks, trunk: Trunks, path: seq<Edge>, v: nat,
                   recStack: set<nat>)
    requires OnEntry(cg, trunk0, trunk1, path, v, recStack) && Extends(trunk1, trunk)
    requires forall x :: x in trunk && x !in trunk1 ==> trunk[x] != []
    ensures OnEntry(cg, trunk0, trunk, path, v, recStack)
  {
    hide IsChain, DistinctFroms, Froms;
  }

  lemma AfterBack(cg: ComponentGraph, trunk: Trunks, cycles1: seq<seq<Edge>>, cycles: seq<seq<Edge>>, visited: set<nat>,
                  recStack: set<nat>, finished: seq<nat>, edges: seq<Edge>, k: nat)
    requires Searching(cg, trunk, cycles, visited, recStack, finished) && cycles1 <= cycles
    requires k < |edges| && Settled(edges, k, trunk, finished, cycles1) && edges[k].to in visited
    requires BackCycle(trunk, edges[k]) in cycles && IsBack(trunk, edges[k])
    requires forall j :: 0 <= j < |edges| ==> edges[j].from == edges[k].from
    ensures Settled(edges, k + 1, trunk, finished, cycles)
  {
    hide Tree, AllBack, Ranked, Accounted, IsBack, Settled;
    assert edges[k].from in trunk by { BackIsVisited(trunk, edges[k]); }
    var i :| 0 <= i < |cycles| && cycles[i] == BackCycle(trunk, edges[k]);
    assert Last(cycles[i]) == edges[k];
    NextSettled(cg, edges, k, trunk, trunk, finished, finished, cycles1, cycles, edges[k].from);
  }

  lemma BackIsVisited(trunk: Trunks, e: Edge)
    requires IsBack(trunk, e)
    ensures e.from in trunk
  {
  }

  lemma AfterSkip(cg: ComponentGraph, trunk0: Trunks, trunk: Trunks, cycles: seq<seq<Edge>>, visited: set<nat>,
                  finished: seq<nat>, path: seq<Edge>, v: nat, recStack: set<nat>, edges: seq<Edge>, k: nat)
    requires Searching(cg, trunk, cycles, visited, recStack + {v}, finished) &&
             OnEntry(cg, trunk0, trunk, path, v, recStack)
    requires k < |edges| && Settled(edges, k, trunk, finished, cycles)
    requires edges[k].to in visited && edges[k].to !in recStack + {v}
    requires forall j :: 0 <= j < |edges| ==> edges[j].from == v
    ensures Settled(edges, k + 1, trunk, finished, cycles)
  {
    hide Tree, AllBack, Ranked, Accounted, IsBack, Settled;
    FinishedUnlessOnStack(visited, recStack + {v}, finished, edges[k].to);
    OffStackIsNoBack(cg, trunk0, trunk, path, v, recStack, edges[k]);
    NextSettled(cg, edges, k, trunk, trunk, finished, finished, cycles, cycles, v);
  }

  lemma Leave(cg: ComponentGraph, trunk0: Trunks, trunk: Trunks, cycles: seq<seq<Edge>>, visited: set<nat>,
              finished: seq<nat>, path: seq<Edge>, v: nat, recStack: set<nat>, edges: seq<Edge>)
    requires Searching(cg, trunk, cycles, visited, recStack + {v}, finished) &&
             OnEntry(cg, trunk0, trunk, path, v, recStack)
    requires Settled(edges, |edges|, trunk, finished, cycles) && forall e :: e in Out(cg, v) ==> e in edges
    ensures recStack + {v} - {v} == recStack && Searching(cg, trunk, cycles, visited, recStack, finished + [v])
    ensures visited <= cg.Keys && v in trunk && trunk[v] == path && Extends(trunk0, trunk)
    ensures forall x :: x in trunk && x !in trunk0 && x != v ==> trunk[x] != []
  {
    hide Tree, AllBack, Ranked, EdgeDone, OnPath;
    assert Members(finished + [v]) == Members(finished) + {v};
    assert v !in Members(finished);
    forall e | e in Out(cg, v)
      ensures EdgeDone(trunk, finished, cycles, e)
    {
      var j :| 0 <= j < |edges| && edges[j] == e;
    }
    RankedGrows(cg, trunk, finished, cycles, v);
  }

  // ---------------------------------------------------------------- one tree after the other

  /** With an empty stack no edge leads out of the visited tables. */
  lemma VisitedIsClosed(cg: ComponentGraph, trunk: Trunks, cycles: seq<seq<Edge>>, visited: set<nat>,
                        finished: seq<nat>)
    requires Coherent(cg) && Searching(cg, trunk, cycles, visited, {}, finished)
    ensures NoWayOut(cg, visited) && trunk.Keys == visited
  {
    hide Tree, Closes, IsBack, AllBack, Coherent;
    FinishedAreVisited(visited, {}, finished);
    forall v, e | v in visited && e in Out(cg, v)
      ensures e.to in visited
    {
      FinishedUnlessOnStack(visited, {}, finished, v);
      var i :| 0 <= i < |finished| && finished[i] == v;
      assert EdgeDone(trunk, finished[..i], cycles, e);
      if Closes(cycles, e) {
        ClosingIsVisited(cg, trunk, cycles, e);
      }
    }
  }

  lemma ClosingIsVisited(cg: ComponentGraph, trunk: Trunks, cycles: seq<seq<Edge>>, e: Edge)
    requires Tree(cg, trunk) && AllBack(trunk, cycles) && Closes(cycles, e)
    ensures e.to in trunk
  {
    hide Tree;
    var i :| 0 <= i < |cycles| && cycles[i] != [] && Last(cycles[i]) == e;
    assert IsBackCycle(trunk, cycles[i]);
    var k := TrunkOfMember(cg, trunk, e.from, e.to);
  }

  lemma FirstIsLeast(cg: ComponentGraph, vertices: seq<nat>)
    requires Members(vertices) == cg.Keys && forall i, j :: 0 <= i < j < |vertices| ==> vertices[i] < vertices[j]
    requires vertices != []
    ensures forall r :: IsLeast(cg, r) ==> r == vertices[0]
  {
    assert vertices[0] in Members(vertices);
    forall r | IsLeast(cg, r)
      ensures r == vertices[0]
    {
      assert r in Members(vertices);
      var i :| 0 <= i < |vertices| && vertices[i] == r;
    }
  }

  lemma OneTreeGrows(cg: ComponentGraph, before: Trunks, trunk: Trunks, v: nat, least: nat)
    requires OneTree(cg, before) && Extends(before, trunk) && NoWayOut(cg, before.Keys) && v !in before
    requires v == least || least in before
    requires forall r :: IsLeast(cg, r) ==> r == least
    requires forall x :: x in trunk && x !in before && x != v ==> trunk[x] != []
    ensures OneTree(cg, trunk)
  {
    hide NoWayOut, IsLeast;
    forall r, x | IsLeast(cg, r) && x in trunk && trunk[x] == []
      ensures x == r || Separated(cg, r, x)
    {
      if x in before {
        assert before[x] == [];
      }
    }
  }

  lemma AllVisited(cg: ComponentGraph, trunk: Trunks, cycles: seq<seq<Edge>>, visited: set<nat>, finished: seq<nat>,
                   vertices: seq<nat>)
    requires Searching(cg, trunk, cycles, visited, {}, finished) && Members(vertices) == cg.Keys
    requires forall j :: 0 <= j < |vertices| ==> vertices[j] in visited
    ensures cg.Keys <= Members(finished) && Tree(cg, trunk) && trunk.Keys == cg.Keys && AllBack(trunk, cycles)
    ensures Ranked(cg, trunk, finished, cycles)
  {
    hide Tree, Ranked, AllBack;
    forall v | v in cg
      ensures v in visited
    {
      assert v in Members(vertices);
    }
  }
}
