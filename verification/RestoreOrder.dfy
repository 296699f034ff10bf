/** From the foreign-key graph to the load order: the whole chain put together. */
module RestoreOrder {
  import opened FkGraph
  import opened Condensed
  import opened TableOrder
  import opened DumpOrder
  import opened RestoreList
  import opened RestoreScheduler

  /** The restore works from the metadata of the dump, in order. */
  ghost predicate RestoresInOrder(c: Config, m: Metadata, data: seq<TocEntry>, all: seq<TocEntry>) {
    && c.options.inOrder && c.options.jobs > 0
    && c.deps == m.dependenciesGraph
    && data == DataSection(all)
    && c.entries == SortedToc(data, all, m.dumpIdsOrder)
  }

  ghost predicate AllPushable(c: Config, dumpId: nat) {
    forall i: nat :: i < |c.entries| && c.entries[i].dumpId == dumpId ==> c.Pushable(i)
  }

  /** Needed with one worker only: whatever a restored table refers to is itself part of the restore. */
  ghost predicate ReferencedTablesPushed(
    c: Config, tables: seq<Table>, edges: seq<Edge>, number: seq<int>, dumped: seq<DumpedTable>,
    data: seq<TocEntry>, all: seq<TocEntry>)
    requires |number| == |tables| && OwnEntries(tables, dumped)
  {
    && (forall e, t :: e in all && IsAcl(e) && 0 <= t < |tables| ==> e.dumpId != DumpIdOf(dumped, tables[t].oid))
    && forall t, w :: 0 <= t < |tables| && 0 <= w < |tables| && Linked(edges, number, number[t], number[w]) &&
                      DumpIdOf(dumped, tables[t].oid) in IdsOf(c.entries) ==>
                        && DumpIdOf(dumped, tables[w].oid) in IdsOf(data)
                        && AllPushable(c, DumpIdOf(dumped, tables[w].oid))
  }

  /** The restore list built from faithful metadata is topological for its tasks. */
  lemma SortedListIsTopological(
    c: Config, tables: seq<Table>, edges: seq<Edge>, number: seq<int>, dumped: seq<DumpedTable>, m: Metadata,
    data: seq<TocEntry>, all: seq<TocEntry>)
    requires FaithfulMetadata(tables, edges, number, dumped, m) && RestoresInOrder(c, m, data, all)
    requires ReferencedTablesPushed(c, tables, edges, number, dumped, data, all)
    ensures TopologicalTasks(c)
  {
    hide Linked, Before;
    SortedTocKeeps(data, all, m.dumpIdsOrder);
    forall i: nat, d | c.Pushable(i) && d in c.DepsOf(i)
      ensures EarlierTask(c, i, d)
    {
      var id := c.entries[i].dumpId;
      assert id in m.dumpIdsOrder;
      var t: nat :| t < |tables| && DumpIdOf(dumped, tables[t].oid) == id;
      assert FaithfulDependencies(tables, edges, number, dumped, m.dependenciesGraph, t);
      var w: nat :| w < |tables| && DumpIdOf(dumped, tables[w].oid) == d && Linked(edges, number, number[t], number[w]);
      assert IdsOf(c.entries)[i] == id;
      TableEntryIsData(c, m, data, all, i);
      assert Before(m.dumpIdsOrder, d, id);
      assert Before(IdsOf(c.entries), d, id);
      EarlierPosition(c, i, d);
    }
  }

  lemma EarlierPosition(c: Config, i: nat, d: nat)
    requires i < |c.entries| && Distinct(IdsOf(c.entries)) && Before(IdsOf(c.entries), d, c.entries[i].dumpId)
    requires forall j: nat :: j < |c.entries| && c.entries[j].dumpId == d ==> c.Pushable(j)
    ensures EarlierTask(c, i, d)
  {
    var ids := IdsOf(c.entries);
    var p, q :| 0 <= p < q < |ids| && ids[p] == d && ids[q] == c.entries[i].dumpId;
    assert ids[i] == c.entries[i].dumpId;
    assert q == i && c.entries[p].dumpId == d;
  }

  /** An entry that is no ACL came from the data section. */
  lemma TableEntryIsData(c: Config, m: Metadata, data: seq<TocEntry>, all: seq<TocEntry>, i: nat)
    requires c.entries == SortedToc(data, all, m.dumpIdsOrder) && i < |c.entries| && Distinct(m.dumpIdsOrder)
    requires forall e :: e in all && IsAcl(e) ==> e.dumpId != c.entries[i].dumpId
    ensures c.entries[i].dumpId in IdsOf(data)
  {
    var e := c.entries[i];
    assert e in c.entries;
    var picked := Picked(data, m.dumpIdsOrder);
    AppendUnseenKeeps(picked, data, false);
    AppendUnseenKeeps(AppendUnseen(picked, data, false), all, true);
    if e in picked {
      PickedKeepsOrder(data, m.dumpIdsOrder);
      EntryIdListed(picked, e);
    } else {
      EntryIdListed(data, e);
    }
  }

  /**
   * End to end: in every interleaving, the load of a table begins only after the loads of all tables
   * its component directly references in other components have completed.
   */
  lemma ReferencedTablesLoadFirst(
    c: Config, tables: seq<Table>, edges: seq<Edge>, number: seq<int>, dumped: seq<DumpedTable>, m: Metadata,
    data: seq<TocEntry>, all: seq<TocEntry>, states: seq<State>, steps: seq<Step>, k: nat, worker: nat, t: nat, w: nat)
    requires FaithfulMetadata(tables, edges, number, dumped, m) && RestoresInOrder(c, m, data, all)
    requires c.options.jobs == 1 ==> ReferencedTablesPushed(c, tables, edges, number, dumped, data, all)
    requires t < |tables| && w < |tables| && Linked(edges, number, number[t], number[w])
    requires IsRun(c, states, steps) && k < |steps| && steps[k] == Start(worker)
    requires worker < |states[k].workers| && states[k].workers[worker].Holding?
    requires states[k].workers[worker].task < |c.entries|
    requires c.entries[states[k].workers[worker].task].dumpId == DumpIdOf(dumped, tables[t].oid)
    ensures CompletedId(c, states[k], DumpIdOf(dumped, tables[w].oid))
  {
    if c.options.jobs == 1 {
      SortedListIsTopological(c, tables, edges, number, dumped, m, data, all);
    }
    RestoreIsSafe(c, states, steps, k, worker);
    hide IsRun, Linked, TopologicalTasks, CompletedId;
    var id := DumpIdOf(dumped, tables[t].oid);
    assert FaithfulDependencies(tables, edges, number, dumped, m.dependenciesGraph, t);
    assert DumpIdOf(dumped, tables[w].oid) in c.deps[id];
  }

  /**
   * The metadata starting from the catalogue: every step of the original is composed. There always is metadata,
   * and it is faithful exactly when no partition's entry stands before its root's own one.
   */
  method PlanRestore(g: Graph, dumped: seq<DumpedTable>, ghost rank: nat -> nat)
    returns (plan: Outcome<Metadata>, ghost c: Condensation)
    requires g.Valid() && UniqueOids(g.tables) && OwnEntries(g.tables, dumped)
    modifies g, g.visited
    ensures Condenses(g.graph, g.edges, c) && |c.number| == |g.tables| && plan.Returned?
    ensures PartitionsFollow(g.tables, dumped) ==> FaithfulMetadata(g.tables, g.edges, c.number, dumped, plan.value)
    ensures Nested(dumped, rank) && FaithfulMetadata(g.tables, g.edges, c.number, dumped, plan.value) ==>
              PartitionsFollow(g.tables, dumped)
  {
    var condensation := BuildCondensedGraph(g);
    c := condensation;
    var sorted := SortedTableOids(g.tables, g.graph, g.edges, g.reversedSimpleGraph, condensation);
    var deps := DependenciesGraph(g.tables, g.graph, g.edges, g.reversedSimpleGraph, condensation);
    plan := SetDumpDependenciesGraph(dumped, sorted, deps);
    MetadataIsFaithful(g.tables, g.edges, condensation.number, sorted, deps, dumped);
    if Nested(dumped, rank) {
      FaithfulIff(g.tables, g.edges, condensation.number, sorted, deps, dumped, rank);
    }
  }

  // ---------------------------------------------------------------- a partition before its root

  /** The entries to restore in that case: the partition and the referencing table, but not the root. */
  const PARTITION_DATA: seq<TocEntry> := [TocEntry(1, Data, TableData), TocEntry(3, Data, TableData)]

  /** The partition is loaded twice, and with several workers the restore waits for the root for ever. */
  lemma PartitionFirstBlocks(c: Config)
    requires RestoresInOrder(c, Metadata([1, 1, 3], map[1 := [], 3 := [2]]), PARTITION_DATA, PARTITION_DATA)
    requires c.Waits() && c.options.filtered == {}
    ensures c.entries == [PARTITION_DATA[0], PARTITION_DATA[0], PARTITION_DATA[1]]
    ensures !exists states: seq<State>, steps: seq<Step> :: Finishes(c, states, steps)
  {
    hide Finishes;
    PartitionTwice();
    assert 2 in c.DepsOf(2);
    assert !EarlierTask(c, 2, 2);
    WaitingEndsIff(c);
  }

  lemma PartitionTwice()
    ensures SortedToc(PARTITION_DATA, PARTITION_DATA, [1, 1, 3])
         == [PARTITION_DATA[0], PARTITION_DATA[0], PARTITION_DATA[1]]
  {
    var data := PARTITION_DATA;
    var e, f := data[0], data[1];
    assert IndexOfId(data, 1) == 0 && IndexOfId(data, 3) == 1 by {
      assert IdsOf(data)[0] == 1 && IdsOf(data)[1] == 3;
    }
    assert [1, 1, 3][..2] == [1, 1] && [1, 1][..1] == [1] && [1][..0] == [];
    assert Picked(data, [1]) == [e] && Picked(data, [1, 1]) == [e, e] && Picked(data, [1, 1, 3]) == [e, e, f];
    NothingToAppend([e, e, f], data);
  }

  lemma NothingToAppend(list: seq<TocEntry>, data: seq<TocEntry>)
    requires data == PARTITION_DATA
    ensures AppendUnseen(list, data, false) == list && AppendUnseen(list, data, true) == list
  {
    var e, f := data[0], data[1];
    assert data[..1] == [e] && [e][..0] == [];
    assert AppendUnseen(list, [e], false) == list && AppendUnseen(list, [e], true) == list;
  }
}
