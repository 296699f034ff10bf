/** The dump metadata that carries the table order and the dependencies to the restore (dump.go:384-416). */
module DumpOrder {
  import opened FkGraph
  import opened Condensed
  import opened TableOrder

  datatype Outcome<T> = Returned(value: T) | Panicked

  /** A dumped table; a partition names its root table in `rootPtOid`. */
  datatype DumpedTable = DumpedTable(oid: nat, rootPtOid: nat, dumpId: nat)

  datatype Metadata = Metadata(dumpIdsOrder: seq<nat>, dependenciesGraph: map<nat, seq<nat>>)

  /** Index of the first entry for the table itself or for one of its partitions. */
  function EntryFor(entries: seq<DumpedTable>, oid: nat): (idx: int)
    ensures -1 <= idx < |entries|
    ensures idx >= 0 ==> entries[idx].oid == oid || entries[idx].rootPtOid == oid
    ensures idx < 0 ==> forall e :: e in entries ==> e.oid != oid && e.rootPtOid != oid
  {
    if entries == [] then -1
    else
      var init, last := entries[..|entries| - 1], entries[|entries| - 1];
      var rest := EntryFor(init, oid);
      assert forall e :: e in entries <==> e in init || e == last;
      if rest >= 0 then rest
      else if last.oid == oid || last.rootPtOid == oid then |entries| - 1
      else -1
  }

  function EntryWithOid(entries: seq<DumpedTable>, oid: nat): (idx: int)
    ensures -1 <= idx < |entries|
    ensures idx >= 0 ==> entries[idx].oid == oid
    ensures idx < 0 ==> forall e :: e in entries ==> e.oid != oid
  {
    if entries == [] then -1
    else
      var init, last := entries[..|entries| - 1], entries[|entries| - 1];
      var rest := EntryWithOid(init, oid);
      assert forall e :: e in entries <==> e in init || e == last;
      if rest >= 0 then rest
      else if last.oid == oid then |entries| - 1
      else -1
  }

  function DependenciesOf(graph: Dependencies, oid: nat): seq<nat> {
    if oid in graph then graph[oid] else []
  }

  /** The dependencies of one table as dump ids; tables outside the order are ignored. */
  function DumpIds(entries: seq<DumpedTable>, sortedOids: seq<nat>, oids: seq<nat>): Outcome<seq<nat>> {
    if oids == [] then Returned([])
    else
      var last := oids[|oids| - 1];
      match DumpIds(entries, sortedOids, oids[..|oids| - 1])
      case Panicked => Panicked
      case Returned(ids) =>
        if last !in sortedOids then Returned(ids)
        else if EntryWithOid(entries, last) < 0 then Panicked
        else Returned(ids + [entries[EntryWithOid(entries, last)].dumpId])
  }

  /** The metadata after the tables `oids`, in order; a later table overwrites an earlier one with its dump id. */
  function MetadataFor(entries: seq<DumpedTable>, sortedOids: seq<nat>, graph: Dependencies,
                       oids: seq<nat>): Outcome<Metadata> {
    if oids == [] then Returned(Metadata([], map[]))
    else
      var oid := oids[|oids| - 1];
      match MetadataFor(entries, sortedOids, graph, oids[..|oids| - 1])
      case Panicked => Panicked
      case Returned(m) =>
        if EntryFor(entries, oid) < 0 then Panicked
        else
          var dumpId := entries[EntryFor(entries, oid)].dumpId;
          match DumpIds(entries, sortedOids, DependenciesOf(graph, oid))
          case Panicked => Panicked
          case Returned(ids) => Returned(Metadata(m.dumpIdsOrder + [dumpId], m.dependenciesGraph[dumpId := ids]))
  }

  method FindEntry(entries: seq<DumpedTable>, oid: nat, orPartition: bool) returns (idx: int)
    ensures idx == if orPartition then EntryFor(entries, oid) else EntryWithOid(entries, oid)
  {
    for i := 0 to |entries|
      invariant (if orPartition then EntryFor(entries[..i], oid) else EntryWithOid(entries[..i], oid)) == -1
    {
      assert entries[..i + 1][..i] == entries[..i];
      if entries[i].oid == oid || (orPartition && entries[i].rootPtOid == oid) {
        FirstMatchStays(entries, oid, i + 1);
        return i;
      }
    }
    assert entries[..|entries|] == entries;
    return -1;
  }

  lemma {:induction false} FirstMatchStays(entries: seq<DumpedTable>, oid: nat, k: nat)
    requires k <= |entries|
    ensures EntryFor(entries[..k], oid) >= 0 ==> EntryFor(entries, oid) == EntryFor(entries[..k], oid)
    ensures EntryWithOid(entries[..k], oid) >= 0 ==> EntryWithOid(entries, oid) == EntryWithOid(entries[..k], oid)
  {
    if k < |entries| {
      FirstMatchStays(entries[..|entries| - 1], oid, k);
      assert entries[..|entries| - 1][..k] == entries[..k];
    } else {
      assert entries[..k] == entries;
    }
  }

  lemma {:induction false} PanicStays(entries: seq<DumpedTable>, sortedOids: seq<nat>, oids: seq<nat>, k: nat)
    requires k <= |oids| && DumpIds(entries, sortedOids, oids[..k]).Panicked?
    ensures DumpIds(entries, sortedOids, oids).Panicked?
  {
    if k < |oids| {
      assert oids[..|oids| - 1][..k] == oids[..k];
      PanicStays(entries, sortedOids, oids[..|oids| - 1], k);
    } else {
      assert oids[..k] == oids;
    }
  }

  lemma {:induction false} MetadataPanicStays(
    entries: seq<DumpedTable>, sortedOids: seq<nat>, graph: Dependencies, oids: seq<nat>, k: nat)
    requires k <= |oids| && MetadataFor(entries, sortedOids, graph, oids[..k]).Panicked?
    ensures MetadataFor(entries, sortedOids, graph, oids).Panicked?
  {
    if k < |oids| {
      assert oids[..|oids| - 1][..k] == oids[..k];
      MetadataPanicStays(entries, sortedOids, graph, oids[..|oids| - 1], k);
    } else {
      assert oids[..k] == oids;
    }
  }

  method CollectDumpIds(entries: seq<DumpedTable>, sortedOids: seq<nat>, oids: seq<nat>)
      returns (result: Outcome<seq<nat>>)
    ensures result == DumpIds(entries, sortedOids, oids)
  {
    var ids: seq<nat> := [];
    for j := 0 to |oids|
      invariant DumpIds(entries, sortedOids, oids[..j]) == Returned(ids)
    {
      assert oids[..j + 1][..j] == oids[..j];
      if oids[j] in sortedOids {
        var depIdx := FindEntry(entries, oids[j], false);
        if depIdx == -1 {
          PanicStays(entries, sortedOids, oids, j + 1);
          return Panicked;
        }
        ids := ids + [entries[depIdx].dumpId];
      }
    }
    assert oids[..|oids|] == oids;
    return Returned(ids);
  }

  method SetDumpDependenciesGraph(entries: seq<DumpedTable>, sortedOids: seq<nat>, graph: Dependencies)
    returns (result: Outcome<Metadata>)
    ensures result == MetadataFor(entries, sortedOids, graph, sortedOids)
    ensures result.Panicked? <==> exists oid :: oid in sortedOids && Unresolved(entries, sortedOids, graph, oid)
  {
    hide DumpIds, EntryFor, EntryWithOid, Unresolved;
    MetadataPanicsIff(entries, sortedOids, graph, sortedOids);
    var order: seq<nat> := [];
    var dependencies: map<nat, seq<nat>> := map[];
    for i := 0 to |sortedOids|
      invariant MetadataFor(entries, sortedOids, graph, sortedOids[..i]) == Returned(Metadata(order, dependencies))
    {
      var oid := sortedOids[i];
      assert sortedOids[..i + 1][..i] == sortedOids[..i];
      var idx := FindEntry(entries, oid, true);
      if idx == -1 {
        MetadataPanicStays(entries, sortedOids, graph, sortedOids, i + 1);
        return Panicked;
      }
      var ids := CollectDumpIds(entries, sortedOids, DependenciesOf(graph, oid));
      if ids.Panicked? {
        MetadataPanicStays(entries, sortedOids, graph, sortedOids, i + 1);
        return Panicked;
      }
      order, dependencies := order + [entries[idx].dumpId], dependencies[entries[idx].dumpId := ids.value];
    }
    assert sortedOids[..|sortedOids|] == sortedOids;
    result := Returned(Metadata(order, dependencies));
  }

  // ---------------------------------------------------------------- when there is no metadata

  /** A dependency that is in the order but has no entry of its own. */
  ghost predicate UnresolvedDependency(entries: seq<DumpedTable>, sortedOids: seq<nat>, d: nat) {
    d in sortedOids && forall e :: e in entries ==> e.oid != d
  }

  /** No entry is for the table or for one of its partitions, or some dependency has no entry of its own. */
  ghost predicate Unresolved(entries: seq<DumpedTable>, sortedOids: seq<nat>, graph: Dependencies, oid: nat) {
    || (forall e :: e in entries ==> e.oid != oid && e.rootPtOid != oid)
    || exists d :: d in DependenciesOf(graph, oid) && UnresolvedDependency(entries, sortedOids, d)
  }

  lemma InitAndLast(s: seq<nat>)
    requires s != []
    ensures forall x :: x in s <==> x in s[..|s| - 1] || x == s[|s| - 1]
  {
    assert s == s[..|s| - 1] + [s[|s| - 1]];
  }

  lemma ResolvesIff(entries: seq<DumpedTable>, oid: nat)
    ensures EntryWithOid(entries, oid) < 0 <==> forall e :: e in entries ==> e.oid != oid
    ensures EntryFor(entries, oid) < 0 <==> forall e :: e in entries ==> e.oid != oid && e.rootPtOid != oid
  {
    var i, j := EntryWithOid(entries, oid), EntryFor(entries, oid);
    assert (i >= 0 ==> entries[i] in entries) && (j >= 0 ==> entries[j] in entries);
  }

  lemma {:induction false} DumpIdsPanicIff(entries: seq<DumpedTable>, sortedOids: seq<nat>, oids: seq<nat>)
    ensures DumpIds(entries, sortedOids, oids).Panicked? <==>
            exists d :: d in oids && UnresolvedDependency(entries, sortedOids, d)
  {
    hide EntryWithOid;
    if oids != [] {
      var init, last := oids[..|oids| - 1], oids[|oids| - 1];
      DumpIdsPanicIff(entries, sortedOids, init);
      ResolvesIff(entries, last);
      assert (last in sortedOids && EntryWithOid(entries, last) < 0) <==>
               UnresolvedDependency(entries, sortedOids, last);
      hide UnresolvedDependency;
      assert forall d :: d in oids <==> d in init || d == last by { InitAndLast(oids); }
    }
  }

  /** Planning panics exactly when some table of the order is unresolved. */
  lemma {:induction false} MetadataPanicsIff(entries: seq<DumpedTable>, sortedOids: seq<nat>, graph: Dependencies,
                                             oids: seq<nat>)
    ensures MetadataFor(entries, sortedOids, graph, oids).Panicked? <==>
            exists oid :: oid in oids && Unresolved(entries, sortedOids, graph, oid)
  {
    hide EntryFor, EntryWithOid, DumpIds, UnresolvedDependency;
    if oids != [] {
      var init, last := oids[..|oids| - 1], oids[|oids| - 1];
      MetadataPanicsIff(entries, sortedOids, graph, init);
      assert forall x :: x in oids <==> x in init || x == last by { InitAndLast(oids); }
      ResolvesIff(entries, last);
      DumpIdsPanicIff(entries, sortedOids, DependenciesOf(graph, last));
      var failed := DumpIds(entries, sortedOids, DependenciesOf(graph, last)).Panicked?;
      assert Unresolved(entries, sortedOids, graph, last) <==> EntryFor(entries, last) < 0 || failed;
      hide Unresolved;
      assert MetadataFor(entries, sortedOids, graph, oids).Panicked? <==>
             MetadataFor(entries, sortedOids, graph, init).Panicked? || EntryFor(entries, last) < 0 || failed;
    }
  }

  /** With an entry of its own for every table of the order there is metadata. */
  lemma OwnEntriesSuffice(entries: seq<DumpedTable>, sortedOids: seq<nat>, graph: Dependencies)
    requires forall oid :: oid in sortedOids ==> EntryWithOid(entries, oid) >= 0
    ensures MetadataFor(entries, sortedOids, graph, sortedOids).Returned?
  {
    hide MetadataFor, EntryFor, EntryWithOid;
    MetadataPanicsIff(entries, sortedOids, graph, sortedOids);
    forall oid | oid in sortedOids
      ensures !Unresolved(entries, sortedOids, graph, oid)
    {
      ResolvesIff(entries, oid);
      forall d | d in sortedOids
        ensures !UnresolvedDependency(entries, sortedOids, d)
      {
        ResolvesIff(entries, d);
      }
    }
  }

  // ---------------------------------------------------------------- what the metadata means

  /** Entries have their own dump ids, and every table has an entry of its own. */
  ghost predicate OwnEntries(tables: seq<Table>, entries: seq<DumpedTable>) {
    && (forall i, j :: 0 <= i < j < |entries| ==> entries[i].dumpId != entries[j].dumpId)
    && (forall t :: 0 <= t < |tables| ==> EntryWithOid(entries, tables[t].oid) >= 0)
  }

  /** No entry of a partition stands before the own entry of its root. */
  ghost predicate PartitionsFollow(tables: seq<Table>, entries: seq<DumpedTable>) {
    forall t, i :: 0 <= t < |tables| && 0 <= i < |entries| && entries[i].rootPtOid == tables[t].oid ==>
                     EntryWithOid(entries, tables[t].oid) <= i
  }

  /** Partitions lie below their roots; an entry that is no partition names the oid zero. */
  ghost predicate Nested(entries: seq<DumpedTable>, rank: nat -> nat) {
    forall e :: e in entries ==> rank(e.rootPtOid) < rank(e.oid)
  }

  /** The dump id of the own entry of a table. */
  function DumpIdOf(entries: seq<DumpedTable>, oid: nat): nat
    requires EntryWithOid(entries, oid) >= 0
  {
    entries[EntryWithOid(entries, oid)].dumpId
  }

  function DumpIdsOf(entries: seq<DumpedTable>, oids: seq<nat>): (r: seq<nat>)
    requires forall i :: 0 <= i < |oids| ==> EntryWithOid(entries, oids[i]) >= 0
    ensures |r| == |oids| && forall i :: 0 <= i < |oids| ==> r[i] == DumpIdOf(entries, oids[i])
  {
    seq<nat>(|oids|, i requires 0 <= i < |oids| => DumpIdOf(entries, oids[i]))
  }

  /** The restore order lists the dump ids of the tables, referenced components first. */
  ghost predicate FaithfulOrder(
    tables: seq<Table>, edges: seq<Edge>, number: seq<int>, entries: seq<DumpedTable>, order: seq<nat>)
    requires |number| == |tables| && OwnEntries(tables, entries)
  {
    && Distinct(order)
    && (forall id :: id in order <==> exists t :: 0 <= t < |tables| && DumpIdOf(entries, tables[t].oid) == id)
    && (forall t, w :: 0 <= t < |tables| && 0 <= w < |tables| && Linked(edges, number, number[t], number[w]) ==>
                         Before(order, DumpIdOf(entries, tables[w].oid), DumpIdOf(entries, tables[t].oid)))
  }

  /** The dependencies of table `t` are the dump ids of exactly the tables its component references. */
  ghost predicate FaithfulDependencies(
    tables: seq<Table>, edges: seq<Edge>, number: seq<int>, entries: seq<DumpedTable>,
    dependencies: map<nat, seq<nat>>, t: nat)
    requires |number| == |tables| && OwnEntries(tables, entries) && t < |tables|
  {
    var dumpId := DumpIdOf(entries, tables[t].oid);
    && dumpId in dependencies
    && forall id :: id in dependencies[dumpId] <==>
                    exists w :: 0 <= w < |tables| && DumpIdOf(entries, tables[w].oid) == id &&
                      Linked(edges, number, number[t], number[w])
  }

  /** The metadata of the restore, stated on the tables of the foreign-key graph. */
  ghost predicate FaithfulMetadata(
    tables: seq<Table>, edges: seq<Edge>, number: seq<int>, entries: seq<DumpedTable>, m: Metadata)
  {
    && |number| == |tables| && OwnEntries(tables, entries)
    && FaithfulOrder(tables, edges, number, entries, m.dumpIdsOrder)
    && (forall id :: id in m.dependenciesGraph <==> id in m.dumpIdsOrder)
    && (forall t: nat :: t < |tables| ==> FaithfulDependencies(tables, edges, number, entries, m.dependenciesGraph, t))
  }

  lemma DumpIdsDistinguish(tables: seq<Table>, entries: seq<DumpedTable>, t: nat, w: nat)
    requires OwnEntries(tables, entries) && t < |tables| && w < |tables|
    ensures DumpIdOf(entries, tables[t].oid) == DumpIdOf(entries, tables[w].oid) <==> tables[t].oid == tables[w].oid
  {
    hide EntryFor, EntryWithOid;
    var i, j := EntryWithOid(entries, tables[t].oid), EntryWithOid(entries, tables[w].oid);
    if i < j || j < i {
      assert entries[i].dumpId != entries[j].dumpId;
    }
  }

  lemma {:induction false} AllDumpIds(entries: seq<DumpedTable>, sortedOids: seq<nat>, oids: seq<nat>)
    requires forall i :: 0 <= i < |oids| ==>
               oids[i] in sortedOids && EntryWithOid(entries, oids[i]) >= 0
    ensures DumpIds(entries, sortedOids, oids) == Returned(DumpIdsOf(entries, oids))
  {
    if oids != [] {
      var init := oids[..|oids| - 1];
      AllDumpIds(entries, sortedOids, init);
      assert DumpIdsOf(entries, oids) == DumpIdsOf(entries, init) + [DumpIdOf(entries, oids[|oids| - 1])];
    }
  }

  /** Every table of the order and every dependency resolves to its own entry. */
  ghost predicate Dumpable(entries: seq<DumpedTable>, sortedOids: seq<nat>, graph: Dependencies) {
    && (forall i :: 0 <= i < |sortedOids| ==> Resolves(entries, sortedOids, sortedOids[i], graph))
    && forall i, j ::
         0 <= i < j < |sortedOids| ==>
           EntryWithOid(entries, sortedOids[i]) >= 0 && EntryWithOid(entries, sortedOids[j]) >= 0 ==>
             DumpIdOf(entries, sortedOids[i]) != DumpIdOf(entries, sortedOids[j])
  }

  ghost predicate Resolves(entries: seq<DumpedTable>, sortedOids: seq<nat>, oid: nat, graph: Dependencies) {
    && EntryFor(entries, oid) == EntryWithOid(entries, oid) >= 0
    && oid in graph
    && forall j :: 0 <= j < |graph[oid]| ==> graph[oid][j] in sortedOids && EntryWithOid(entries, graph[oid][j]) >= 0
  }

  /** The metadata renames the first `k` oids and their dependencies to dump ids, position by position. */
  ghost predicate Renamed(entries: seq<DumpedTable>, sortedOids: seq<nat>, graph: Dependencies, k: nat, m: Metadata)
    requires Dumpable(entries, sortedOids, graph) && k <= |sortedOids|
  {
    && m.dumpIdsOrder == DumpIdsOf(entries, sortedOids[..k])
    && (forall id :: id in m.dependenciesGraph <==> id in m.dumpIdsOrder)
    && forall i :: 0 <= i < k ==>
         && DumpIdOf(entries, sortedOids[i]) in m.dependenciesGraph
         && m.dependenciesGraph[DumpIdOf(entries, sortedOids[i])] == DumpIdsOf(entries, graph[sortedOids[i]])
  }

  lemma RenameStep(entries: seq<DumpedTable>, sortedOids: seq<nat>, graph: Dependencies, k: nat, m: Metadata)
    requires Dumpable(entries, sortedOids, graph) && k < |sortedOids| && Renamed(entries, sortedOids, graph, k, m)
    ensures var id := DumpIdOf(entries, sortedOids[k]);
            Renamed(entries, sortedOids, graph, k + 1,
                    Metadata(m.dumpIdsOrder + [id],
                             m.dependenciesGraph[id := DumpIdsOf(entries, graph[sortedOids[k]])]))
  {
    hide EntryWithOid, EntryFor, DumpIdsOf, DumpIdOf;
    assert sortedOids[..k + 1] == sortedOids[..k] + [sortedOids[k]];
    var last := [DumpIdOf(entries, sortedOids[k])];
    assert DumpIdsOf(entries, sortedOids[..k + 1]) == DumpIdsOf(entries, sortedOids[..k]) + last;
  }

  lemma {:induction false} MetadataRenames(entries: seq<DumpedTable>, sortedOids: seq<nat>, graph: Dependencies, k: nat)
    requires Dumpable(entries, sortedOids, graph) && k <= |sortedOids|
    ensures MetadataFor(entries, sortedOids, graph, sortedOids[..k]).Returned?
    ensures Renamed(entries, sortedOids, graph, k, MetadataFor(entries, sortedOids, graph, sortedOids[..k]).value)
  {
    if k > 0 {
      assert Resolves(entries, sortedOids, sortedOids[k - 1], graph);
      hide Renamed, DumpIdsOf, EntryFor, EntryWithOid, Dumpable, DumpIds;
      MetadataRenames(entries, sortedOids, graph, k - 1);
      assert sortedOids[..k][..k - 1] == sortedOids[..k - 1];
      AllDumpIds(entries, sortedOids, graph[sortedOids[k - 1]]);
      RenameStep(entries, sortedOids, graph, k - 1, MetadataFor(entries, sortedOids, graph, sortedOids[..k - 1]).value);
    }
  }

  /**
   * The chain from the graph to the metadata: there is always metadata, and when no partition comes before its
   * root, order and dependencies by dump id say exactly what the graph says.
   */
  lemma MetadataIsFaithful(tables: seq<Table>, edges: seq<Edge>, number: seq<int>, sortedOids: seq<nat>,
                           graph: Dependencies, entries: seq<DumpedTable>)
    requires SortedTables(tables, edges, number, sortedOids) && ExactDependencies(tables, edges, number, graph)
    requires OwnEntries(tables, entries)
    ensures var m := MetadataFor(entries, sortedOids, graph, sortedOids);
            m.Returned? &&
            (PartitionsFollow(tables, entries) ==> FaithfulMetadata(tables, edges, number, entries, m.value))
  {
    hide Linked, Before, MetadataFor, FaithfulOrder, FaithfulDependencies, Dumpable, ExactDependencies;
    hide PartitionsFollow;
    forall oid | oid in sortedOids
      ensures EntryWithOid(entries, oid) >= 0
    {
      var t :| 0 <= t < |tables| && tables[t].oid == oid;
    }
    hide SortedTables, OwnEntries;
    OwnEntriesSuffice(entries, sortedOids, graph);
    if PartitionsFollow(tables, entries) {
      SortedTablesAreDumpable(tables, edges, number, sortedOids, graph, entries);
      DumpableIsFaithful(tables, edges, number, sortedOids, graph, entries);
    }
  }

  /** The order names, table by table, the first entry of the table or of one of its partitions. */
  lemma {:induction false} OrderNames(entries: seq<DumpedTable>, sortedOids: seq<nat>, graph: Dependencies,
                                      oids: seq<nat>)
    requires MetadataFor(entries, sortedOids, graph, oids).Returned?
    ensures var order := MetadataFor(entries, sortedOids, graph, oids).value.dumpIdsOrder;
            |order| == |oids| && forall i :: 0 <= i < |oids| ==>
              EntryFor(entries, oids[i]) >= 0 && order[i] == entries[EntryFor(entries, oids[i])].dumpId
  {
    hide EntryFor, DumpIds;
    if oids != [] {
      OrderNames(entries, sortedOids, graph, oids[..|oids| - 1]);
    }
  }

  /** A table whose own dump id is in such an order comes before its partitions. */
  lemma {:induction false} OwnComesFirst(entries: seq<DumpedTable>, sortedOids: seq<nat>, order: seq<nat>,
                                         rank: nat -> nat, oid: nat)
    requires Nested(entries, rank) && oid in sortedOids && |order| == |sortedOids|
    requires forall i, j :: 0 <= i < j < |entries| ==> entries[i].dumpId != entries[j].dumpId
    requires forall x :: x in sortedOids ==> EntryWithOid(entries, x) >= 0 && DumpIdOf(entries, x) in order
    requires forall i :: 0 <= i < |sortedOids| ==>
               EntryFor(entries, sortedOids[i]) >= 0 && order[i] == entries[EntryFor(entries, sortedOids[i])].dumpId
    ensures EntryFor(entries, oid) == EntryWithOid(entries, oid)
    decreases rank(oid)
  {
    hide EntryFor, EntryWithOid;
    var own := EntryWithOid(entries, oid);
    var i :| 0 <= i < |order| && order[i] == DumpIdOf(entries, oid);
    var first, o := EntryFor(entries, sortedOids[i]), sortedOids[i];
    assert first == own;
    if o != oid {
      assert entries[own] in entries && entries[own].rootPtOid == o;
      assert o in sortedOids;
      OwnComesFirst(entries, sortedOids, order, rank, o);
    }
  }

  /** Exactly then the metadata is faithful. */
  lemma FaithfulIff(tables: seq<Table>, edges: seq<Edge>, number: seq<int>, sortedOids: seq<nat>,
                    graph: Dependencies, entries: seq<DumpedTable>, rank: nat -> nat)
    requires SortedTables(tables, edges, number, sortedOids) && ExactDependencies(tables, edges, number, graph)
    requires OwnEntries(tables, entries) && Nested(entries, rank)
    ensures var m := MetadataFor(entries, sortedOids, graph, sortedOids);
            m.Returned? &&
            (FaithfulMetadata(tables, edges, number, entries, m.value) <==> PartitionsFollow(tables, entries))
  {
    hide ExactDependencies, MetadataFor, Before, Linked, FaithfulDependencies, Nested;
    MetadataIsFaithful(tables, edges, number, sortedOids, graph, entries);
    var m := MetadataFor(entries, sortedOids, graph, sortedOids).value;
    OrderNames(entries, sortedOids, graph, sortedOids);
    if FaithfulMetadata(tables, edges, number, entries, m) {
      OwnIdsListed(tables, edges, number, sortedOids, entries, m.dumpIdsOrder);
      forall t, i | 0 <= t < |tables| && 0 <= i < |entries| && entries[i].rootPtOid == tables[t].oid
        ensures EntryWithOid(entries, tables[t].oid) <= i
      {
        OwnComesFirst(entries, sortedOids, m.dumpIdsOrder, rank, tables[t].oid);
        FirstIsFirst(entries, tables[t].oid, i);
      }
    }
  }

  lemma OwnIdsListed(tables: seq<Table>, edges: seq<Edge>, number: seq<int>, sortedOids: seq<nat>,
                     entries: seq<DumpedTable>, order: seq<nat>)
    requires SortedTables(tables, edges, number, sortedOids) && OwnEntries(tables, entries)
    requires FaithfulOrder(tables, edges, number, entries, order)
    ensures forall x :: x in sortedOids ==> EntryWithOid(entries, x) >= 0 && DumpIdOf(entries, x) in order
    ensures forall t :: 0 <= t < |tables| ==> tables[t].oid in sortedOids
  {
    hide Linked, Before, EntryWithOid;
    forall x | x in sortedOids
      ensures EntryWithOid(entries, x) >= 0 && DumpIdOf(entries, x) in order
    {
      var t :| 0 <= t < |tables| && tables[t].oid == x;
    }
  }

  /** The entry found for a table is the first one for it or for a partition. */
  lemma {:induction false} FirstIsFirst(entries: seq<DumpedTable>, oid: nat, i: nat)
    requires i < |entries| && (entries[i].oid == oid || entries[i].rootPtOid == oid)
    ensures 0 <= EntryFor(entries, oid) <= i
  {
    if i < |entries| - 1 {
      FirstIsFirst(entries[..|entries| - 1], oid, i);
    } else {
      assert entries[i] in entries;
    }
  }

  /** With the partitions behind their roots every table is found by its own entry. */
  lemma OwnIsFound(tables: seq<Table>, entries: seq<DumpedTable>, t: nat)
    requires OwnEntries(tables, entries) && PartitionsFollow(tables, entries) && t < |tables|
    ensures EntryFor(entries, tables[t].oid) == EntryWithOid(entries, tables[t].oid) >= 0
  {
    hide EntryFor, EntryWithOid;
    var oid := tables[t].oid;
    var own := EntryWithOid(entries, oid);
    FirstIsFirst(entries, oid, own);
    var first := EntryFor(entries, oid);
    if entries[first].oid == oid {
      OwnIsFirst(entries, oid, first);
    }
  }

  lemma {:induction false} OwnIsFirst(entries: seq<DumpedTable>, oid: nat, i: nat)
    requires i < |entries| && entries[i].oid == oid
    ensures 0 <= EntryWithOid(entries, oid) <= i
  {
    if i < |entries| - 1 {
      OwnIsFirst(entries[..|entries| - 1], oid, i);
    } else {
      assert entries[i] in entries;
    }
  }

  lemma DumpableIsFaithful(tables: seq<Table>, edges: seq<Edge>, number: seq<int>, sortedOids: seq<nat>,
                           graph: Dependencies, entries: seq<DumpedTable>)
    requires SortedTables(tables, edges, number, sortedOids) && ExactDependencies(tables, edges, number, graph)
    requires OwnEntries(tables, entries) && Dumpable(entries, sortedOids, graph)
    ensures MetadataFor(entries, sortedOids, graph, sortedOids).Returned?
    ensures FaithfulMetadata(tables, edges, number, entries, MetadataFor(entries, sortedOids, graph, sortedOids).value)
  {
    MetadataRenames(entries, sortedOids, graph, |sortedOids|);
    assert sortedOids[..|sortedOids|] == sortedOids;
    var m := MetadataFor(entries, sortedOids, graph, sortedOids).value;
    OrderIsFaithful(tables, edges, number, sortedOids, entries, m);
    hide Linked, Before, MetadataFor, FaithfulOrder, FaithfulDependencies, Dumpable, EntryFor, EntryWithOid;
    forall t: nat | t < |tables|
      ensures FaithfulDependencies(tables, edges, number, entries, m.dependenciesGraph, t)
    {
      DependenciesAreFaithful(tables, edges, number, sortedOids, graph, entries, m, t);
    }
  }

  lemma SortedTablesAreDumpable(tables: seq<Table>, edges: seq<Edge>, number: seq<int>, sortedOids: seq<nat>,
                                graph: Dependencies, entries: seq<DumpedTable>)
    requires SortedTables(tables, edges, number, sortedOids) && ExactDependencies(tables, edges, number, graph)
    requires OwnEntries(tables, entries) && PartitionsFollow(tables, entries)
    ensures Dumpable(entries, sortedOids, graph)
  {
    hide Linked, Before, EntryFor, EntryWithOid;
    forall i | 0 <= i < |sortedOids|
      ensures Resolves(entries, sortedOids, sortedOids[i], graph)
    {
      var oid := sortedOids[i];
      assert oid in sortedOids;
      var t :| 0 <= t < |tables| && tables[t].oid == oid;
      OwnIsFound(tables, entries, t);
      forall j | 0 <= j < |graph[oid]|
        ensures graph[oid][j] in sortedOids && EntryWithOid(entries, graph[oid][j]) >= 0
      {
        assert graph[oid][j] in graph[oid];
        var w :| 0 <= w < |tables| && tables[w].oid == graph[oid][j] && Linked(edges, number, number[t], number[w]);
      }
    }
    forall i, j | 0 <= i < j < |sortedOids|
      ensures DumpIdOf(entries, sortedOids[i]) != DumpIdOf(entries, sortedOids[j])
    {
      assert sortedOids[i] in sortedOids && sortedOids[j] in sortedOids;
      var t :| 0 <= t < |tables| && tables[t].oid == sortedOids[i];
      var w :| 0 <= w < |tables| && tables[w].oid == sortedOids[j];
      DumpIdsDistinguish(tables, entries, t, w);
    }
  }

  lemma OrderIsFaithful(tables: seq<Table>, edges: seq<Edge>, number: seq<int>, sortedOids: seq<nat>,
                        entries: seq<DumpedTable>, m: Metadata)
    requires SortedTables(tables, edges, number, sortedOids) && OwnEntries(tables, entries)
    requires forall i :: 0 <= i < |sortedOids| ==> EntryWithOid(entries, sortedOids[i]) >= 0
    requires m.dumpIdsOrder == DumpIdsOf(entries, sortedOids)
    ensures FaithfulOrder(tables, edges, number, entries, m.dumpIdsOrder)
  {
    hide Linked, EntryFor, EntryWithOid;
    forall i, j | 0 <= i < j < |sortedOids|
      ensures m.dumpIdsOrder[i] != m.dumpIdsOrder[j]
    {
      assert sortedOids[i] in sortedOids && sortedOids[j] in sortedOids;
      var t :| 0 <= t < |tables| && tables[t].oid == sortedOids[i];
      var w :| 0 <= w < |tables| && tables[w].oid == sortedOids[j];
      DumpIdsDistinguish(tables, entries, t, w);
    }
    forall id
      ensures id in m.dumpIdsOrder <==> exists t :: 0 <= t < |tables| && DumpIdOf(entries, tables[t].oid) == id
    {
      if id in m.dumpIdsOrder {
        var i :| 0 <= i < |m.dumpIdsOrder| && m.dumpIdsOrder[i] == id;
        assert sortedOids[i] in sortedOids;
      }
      if t :| 0 <= t < |tables| && DumpIdOf(entries, tables[t].oid) == id {
        assert tables[t].oid in sortedOids;
        var i :| 0 <= i < |sortedOids| && sortedOids[i] == tables[t].oid;
        assert m.dumpIdsOrder[i] == id;
      }
    }
    forall t, w | 0 <= t < |tables| && 0 <= w < |tables| && Linked(edges, number, number[t], number[w])
      ensures Before(m.dumpIdsOrder, DumpIdOf(entries, tables[w].oid), DumpIdOf(entries, tables[t].oid))
    {
      assert Before(sortedOids, tables[w].oid, tables[t].oid);
      var i, j :| 0 <= i < j < |sortedOids| && sortedOids[i] == tables[w].oid && sortedOids[j] == tables[t].oid;
      assert m.dumpIdsOrder[i] == DumpIdOf(entries, tables[w].oid) &&
             m.dumpIdsOrder[j] == DumpIdOf(entries, tables[t].oid);
    }
  }

  lemma DependenciesAreFaithful(tables: seq<Table>, edges: seq<Edge>, number: seq<int>, sortedOids: seq<nat>,
                                graph: Dependencies, entries: seq<DumpedTable>, m: Metadata, t: nat)
    requires SortedTables(tables, edges, number, sortedOids) && ExactDependencies(tables, edges, number, graph)
    requires OwnEntries(tables, entries) && t < |tables|
    requires Dumpable(entries, sortedOids, graph) && Renamed(entries, sortedOids, graph, |sortedOids|, m)
    ensures FaithfulDependencies(tables, edges, number, entries, m.dependenciesGraph, t)
  {
    hide Linked, Before;
    var oid := tables[t].oid;
    assert oid in sortedOids;
    var i :| 0 <= i < |sortedOids| && sortedOids[i] == oid;
    assert Resolves(entries, sortedOids, sortedOids[i], graph);
    var deps := graph[oid];
    assert m.dependenciesGraph[DumpIdOf(entries, oid)] == DumpIdsOf(entries, deps);
    RenamedDependencies(tables, edges, number, graph, entries, t);
  }

  lemma RenamedDependencies(tables: seq<Table>, edges: seq<Edge>, number: seq<int>, graph: Dependencies,
                            entries: seq<DumpedTable>, t: nat)
    requires ExactDependencies(tables, edges, number, graph) && OwnEntries(tables, entries) && t < |tables|
    requires tables[t].oid in graph
    requires forall j :: 0 <= j < |graph[tables[t].oid]| ==> EntryWithOid(entries, graph[tables[t].oid][j]) >= 0
    ensures forall id :: id in DumpIdsOf(entries, graph[tables[t].oid]) <==>
              exists w :: 0 <= w < |tables| && DumpIdOf(entries, tables[w].oid) == id &&
                Linked(edges, number, number[t], number[w])
  {
    hide Linked, EntryWithOid, EntryFor;
    var deps := graph[tables[t].oid];
    var ids := DumpIdsOf(entries, deps);
    forall id
      ensures id in ids <==>
              exists w :: 0 <= w < |tables| && DumpIdOf(entries, tables[w].oid) == id &&
                Linked(edges, number, number[t], number[w])
    {
      if id in ids {
        var j :| 0 <= j < |deps| && DumpIdOf(entries, deps[j]) == id;
        assert deps[j] in deps;
      }
      if w :|
        0 <= w < |tables| && DumpIdOf(entries, tables[w].oid) == id && Linked(edges, number, number[t], number[w]) {
        assert tables[w].oid in deps;
        var j :| 0 <= j < |deps| && deps[j] == tables[w].oid;
        assert ids[j] == id;
      }
    }
  }

  // ---------------------------------------------------------------- a partition before its root

  /** Partition 10 of root 5, a table 7 that references the root, and the root's own entry at the end. */
  const PARTITION_FIRST: seq<DumpedTable> := [DumpedTable(10, 5, 1), DumpedTable(7, 0, 3), DumpedTable(5, 0, 2)]

  /** The order names the partition for its root as well, and no table has the root's own dump id. */
  lemma PartitionFirst(tables: seq<Table>)
    requires |tables| == 3 && tables[0].oid == 5 && tables[1].oid == 10 && tables[2].oid == 7
    ensures OwnEntries(tables, PARTITION_FIRST) && Nested(PARTITION_FIRST, oid => if oid in {5, 7} then 1 else 2 * oid)
    ensures !PartitionsFollow(tables, PARTITION_FIRST)
    ensures MetadataFor(PARTITION_FIRST, [5, 10, 7], map[5 := [], 10 := [], 7 := [5]], [5, 10, 7])
         == Returned(Metadata([1, 1, 3], map[1 := [], 3 := [2]]))
  {
    FoundFirst();
    PartitionIsNamed();
    hide EntryFor, EntryWithOid, MetadataFor;
    assert PARTITION_FIRST[0].rootPtOid == tables[0].oid;
  }

  lemma PartitionIsNamed()
    ensures MetadataFor(PARTITION_FIRST, [5, 10, 7], map[5 := [], 10 := [], 7 := [5]], [5, 10, 7])
         == Returned(Metadata([1, 1, 3], map[1 := [], 3 := [2]]))
  {
    hide EntryFor, EntryWithOid, DumpIds, MetadataFor;
    var entries, oids := PARTITION_FIRST, [5, 10, 7];
    var graph: Dependencies := map[5 := [], 10 := [], 7 := [5]];
    FoundFirst();
    OneDependency(entries, oids, 5);
    NoMetadata(entries, oids, graph);
    var none, one, two: map<nat, seq<nat>> := map[], map[1 := []], map[1 := [], 3 := [2]];
    assert none[1 := []] == one && one[1 := []] == one && one[3 := [2]] == two;
    NextMetadata(entries, oids, graph, [], 5, Metadata([], none), []);
    assert [] + [5] == [5] && [] + [1] == [1];
    NextMetadata(entries, oids, graph, [5], 10, Metadata([1], one), []);
    assert [5] + [10] == [5, 10] && [1] + [1] == [1, 1];
    NextMetadata(entries, oids, graph, [5, 10], 7, Metadata([1, 1], one), [2]);
    assert [5, 10] + [7] == [5, 10, 7] && [1, 1] + [3] == [1, 1, 3];
  }

  lemma OneDependency(entries: seq<DumpedTable>, sortedOids: seq<nat>, d: nat)
    requires d in sortedOids && EntryWithOid(entries, d) >= 0
    ensures DumpIds(entries, sortedOids, []) == Returned([])
    ensures DumpIds(entries, sortedOids, [d]) == Returned([DumpIdOf(entries, d)])
  {
    assert [d][..0] == [];
    assert [] + [DumpIdOf(entries, d)] == [DumpIdOf(entries, d)];
  }

  lemma NoMetadata(entries: seq<DumpedTable>, sortedOids: seq<nat>, graph: Dependencies)
    ensures MetadataFor(entries, sortedOids, graph, []) == Returned(Metadata([], map[]))
  {
  }

  lemma NextMetadata(entries: seq<DumpedTable>, sortedOids: seq<nat>, graph: Dependencies, oids: seq<nat>, oid: nat,
                     m: Metadata, ids: seq<nat>)
    requires MetadataFor(entries, sortedOids, graph, oids) == Returned(m) && EntryFor(entries, oid) >= 0
    requires DumpIds(entries, sortedOids, DependenciesOf(graph, oid)) == Returned(ids)
    ensures var id := entries[EntryFor(entries, oid)].dumpId;
            MetadataFor(entries, sortedOids, graph, oids + [oid]) ==
              Returned(Metadata(m.dumpIdsOrder + [id], m.dependenciesGraph[id := ids]))
  {
    assert (oids + [oid])[..|oids|] == oids;
  }

  lemma FoundFirst()
    ensures EntryFor(PARTITION_FIRST, 5) == 0 == EntryFor(PARTITION_FIRST, 10) && EntryFor(PARTITION_FIRST, 7) == 1
    ensures EntryWithOid(PARTITION_FIRST, 5) == 2 && EntryWithOid(PARTITION_FIRST, 10) == 0
    ensures EntryWithOid(PARTITION_FIRST, 7) == 1
  {
    var entries := PARTITION_FIRST;
    hide EntryFor, EntryWithOid;
    FirstIsFirst(entries, 5, 0);
    FirstIsFirst(entries, 10, 0);
    FirstIsFirst(entries, 7, 1);
    OwnIsFirst(entries, 5, 2);
    OwnIsFirst(entries, 10, 0);
    OwnIsFirst(entries, 7, 1);
  }
}
