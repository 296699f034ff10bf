/** When the query of a table in a cyclic component selects from a name that is not defined (graph.go:375-384). */
module CteDangling {
  import opened FkGraph
  import opened Cycles
  import opened SearchOrder
  import opened DepthFirst
  import opened SearchTree
  import opened AllCycles
  import opened CycleSearch
  import opened ComponentCycles
  import opened CteNames
  import opened CteQuery

  /** When every cycle is recorded, every table of the component lies on a recorded one. */
  lemma OneChainCovers(w: World, v: nat)
    requires w.Ok() && AllRecorded(w.cg, w.cycles) && v in w.cg
    requires Coherent(w.cg) && HasClosedChain(w.cg) && StronglyConnected(w.cg)
    ensures w.OnCycle(v)
  {
    hide Coherent, HasClosedChain, StronglyConnected, AllRecorded, Froms, CycleGroupId, CycleId, Genuine;
    var idents := set c | c in w.cycles :: CycleId(c);
    AllRecordedCoversTables(w.cg, w.cycles, idents, v);
  }

  /**
   * The query for one table of a cyclic component. No name dangles exactly when some reference leads, in the search
   * order of the component, from the table or below it to the table or above it; in particular when every table is
   * reached from the least one by one simple chain.
   */
  method QueryForTable(cg: ComponentGraph, conditioned: set<nat>, target: nat) returns (queries: seq<Item>)
    requires Coherent(cg) && HasClosedChain(cg)
    ensures NoDangling(queries, Name.Ids(target)) <==> SpannedIn(cg, target)
    ensures StronglyConnected(cg) && OneSimpleChain(cg) && target in cg ==> NoDangling(queries, Name.Ids(target))
  {
    hide Coherent, HasClosedChain, StronglyConnected, OneSimpleChain, AllRecorded, RecordsExactly, MeetsEveryChain;
    hide SpannedIn, NoDangling, SelectsDown, NamesDiffer, World.Ok, World.RefsRight, World.OnCycle;
    ghost var w: World;
    queries, w := GenerateAndSetQueryForScc(cg, conditioned, target);
    if StronglyConnected(cg) && OneSimpleChain(cg) && target in cg {
      OneChainCovers(w, target);
    }
  }

  // ---------------------------------------------------------------- a table for which it does

  ghost function DiamondOrder(): Lineage {
    map[0 := [], 1 := [0], 2 := [0]]
  }

  predicate DiamondArc(v: nat, t: nat) {
    exists k: nat :: k < 4 && DiamondEdge(k).from == v && DiamondEdge(k).to == t
  }

  lemma DiamondTargets()
    ensures TargetSet(Diamond(), 0) == {1, 2} && TargetSet(Diamond(), 1) == {0} && TargetSet(Diamond(), 2) == {1}
  {
    DiamondEnds();
    forall v, t: nat | v in {0, 1, 2}
      ensures t in TargetSet(Diamond(), v) <==> DiamondArc(v, t)
    {
      DiamondTarget(v, t);
    }
  }

  lemma DiamondTarget(v: nat, t: nat)
    requires v in {0, 1, 2}
    ensures t in TargetSet(Diamond(), v) <==> DiamondArc(v, t)
  {
    hide Diamond, DiamondEdge;
    DiamondEnds();
    if e :| e in Out(Diamond(), v) && e.to == t {
      DiamondListed(v, e);
    }
    if k: nat :| k < 4 && DiamondEdge(k).from == v && DiamondEdge(k).to == t {
      DiamondHas(k);
    }
  }

  /** Tables 1 and 2 are both entered from table 0. */
  lemma DiamondSearch()
    ensures SearchOf(Diamond()) == DiamondOrder()
  {
    hide Diamond, Forest, OrderedFrom, InOrder, SearchOf, Coherent, StronglyConnected, DiamondOrder;
    DiamondIsComponent();
    DiamondForest(DiamondOrder());
    DiamondOrdered(DiamondOrder());
    OrderedIff(Diamond(), DiamondOrder());
  }

  lemma DiamondForest(l: Lineage)
    requires l == DiamondOrder()
    ensures l.Keys == Diamond().Keys && Forest(Diamond(), l)
  {
    hide Diamond, TargetSet;
    DiamondTargets();
    DiamondEnds();
  }

  lemma DiamondOrdered(l: Lineage)
    requires l == DiamondOrder()
    ensures forall u :: u in l ==> OrderedFrom(Diamond(), l, u) && InOrder(l, [], u)
  {
    hide Diamond, DiamondEdge, TargetSet, InOrder;
    DiamondTargets();
    DiamondInOrder(l);
  }

  lemma DiamondInOrder(l: Lineage)
    requires l == DiamondOrder()
    ensures InOrder(l, Full(l, 0), 1) && InOrder(l, Full(l, 0), 2)
    ensures InOrder(l, Full(l, 1), 0) && InOrder(l, Full(l, 2), 1)
    ensures InOrder(l, [], 0) && InOrder(l, [], 1) && InOrder(l, [], 2)
  {
    hide InOrder, Precedes, Continues;
    assert Full(l, 0) == [0] && Full(l, 1) == [0, 1] && Full(l, 2) == [0, 2];
    assert [0] + [1] == [0, 1] && [0] + [2] == [0, 2] && [] + [0] == [0];
    EndsBehind(l, [0], 1);
    EndsBehind(l, [0], 2);
    EndsBehind(l, [], 0);
    BranchInOrder(l, 1);
    BranchInOrder(l, 2);
    PrecedesExtended([0], [0], 1);
    MetBefore(l, [0, 1], 0);
    SmallerFirst();
    MetBefore(l, [0, 2], 1);
  }

  lemma SmallerFirst()
    ensures Precedes([0, 1], [0, 2])
  {
    assert [0, 1][1..] == [1] && [0, 2][1..] == [2];
  }

  lemma MetBefore(l: Lineage, p: seq<nat>, w: nat)
    requires w in l && Precedes(Full(l, w), p)
    ensures InOrder(l, p, w)
  {
  }

  lemma BranchInOrder(l: Lineage, w: nat)
    requires w in l && Full(l, w)[0] <= w
    ensures InOrder(l, [], w)
  {
    assert Continues(Full(l, w), []);
  }

  lemma DiamondMisses()
    ensures !SpannedIn(Diamond(), 2)
  {
    hide SearchOf, Diamond, DiamondEdge;
    DiamondSearch();
    DiamondEnds();
    forall e: Edge | e in Out(Diamond(), e.from) && OnLine(DiamondOrder(), e.from, 2)
      ensures !OnLine(DiamondOrder(), 2, e.to)
    {
      DiamondEdgesAre(e);
    }
  }

  /**
   * Tables 0, 1 and 2 with references 0 to 1, 0 to 2, 1 to 0 and 2 to 1: the search records the cycle over
   * 0 and 1 only, and the query for table 2 selects from a name that no query defines.
   */
  method DiamondDangles(conditioned: set<nat>) returns (queries: seq<Item>)
    ensures Coherent(Diamond()) && StronglyConnected(Diamond()) && 2 in Diamond()
    ensures !NoDangling(queries, Name.Ids(2))
  {
    hide Diamond, Coherent, HasClosedChain, StronglyConnected, NoDangling, SpannedIn;
    DiamondIsComponent();
    DiamondEnds();
    DiamondMisses();
    queries := QueryForTable(Diamond(), conditioned, 2);
  }
}
