# Verification of Greenmask's subset, restore, transformation and COPY cores

This Dafny project models the parts of Greenmask whose correctness depends on facts that span several
functions, and proves those facts.

* **Foreign-key graph** (`FkGraph`, `Condensed`, `TableOrder`): Kosaraju's two passes, the condensed graph, and
  the table order and dependency map derived from them.
* **Dump metadata and restore** (`DumpOrder`, `RestoreList`, `RestoreScheduler`, `RestoreOrder`): order and
  dependencies by dump id, the restore list, and the scheduler as a step system with one pusher, workers, a
  bounded channel and the shared set of restored ids. The chain ends in one statement from graph to load order.
* **Subset planning** (`SubsetPath`, `SubsetSearch`, `Keys`, `Materializer`, `SubsetPlan`): the search for
  restricted components and their query scopes, and the materialised conditions over relations with
  three-valued SQL conditions. Rows are maps from column names to cells, queries are abstract syntax.
* **Cycles** (`Cycles`, `SearchOrder`, `DepthFirst`, `SearchTree`, `AllCycles`, `CycleSearch`, `ComponentCycles`,
  `CycleGroups`): the search for the cycles of a component, the order in which it enters the tables and what is
  special about that order, which cycles it records and when these are all, their identity, groups and order.
* **Queries of cyclic components** (`CteNames`, `CteCycles`, `CteGroups`, `CteQuery`, `CteDangling`): which named
  query selects from which, and when a name is missing.
* **Transformation windows** (`TransformWindows`, `TransformPipeline`): the greedy windows and the goroutines,
  one-slot channels and wait group that run them, as a step system in which results are written column by column.
* **COPY text** (`CopyText`, `CopyRow`): the escaping encoder, the unescaping decoder and the reusable row. The
  format is that of PostgreSQL's COPY, section "File Formats", subsection "Text Format".
* **Range reduction** (`Int64Limiter`): 64-bit wrap-around arithmetic written out.

`Digraph` holds reachability along walks. A class stands for each object whose methods change its fields; the
step systems stand for concurrent code. `None`, `Panicked`, `Panic` and `Broken` stand for panics, `Outside` for a
slice that ends behind its line.

Results that say where the code does not do what one might expect:

* The comment at component.go:194 says that all cycles are found. `AllCycles.AllRecordedIff` gives the exact
  condition: every table is reached from the least table of the component by a single simple chain of references.
  Without it some cycle is missed, for which `ComponentCycles.DiamondCycles` is an example with four references;
  every closed chain still shares an edge with a recorded cycle.
* The query of a cyclic component selects from an undefined name exactly when no reference of the component spans
  its table in the search order (`CteDangling.QueryForTable`), which `DepthFirst.OrderedIff` describes without
  running the search. `CteDangling.DiamondDangles` is a table of the same example for which it happens; under the
  condition above it never does.
* The byte after `\N` or `\.` inside data is dropped and control bytes without a letter escape are doubled
  (encoder.go:34-70). `CopyText.RoundTripIff` gives the exact condition under which data survives.
* A hexadecimal escape never asks for the UTF-8 check, since decoder.go:121 tests for a byte that is zero and has
  its high bit set. `CopyText.NonAsciiIff` says which texts are checked, and `CopyText.HexSkipsTheCheck` shows a
  byte that is refused in octal and accepted in hexadecimal.
* After a line with fewer columns than the row, encoding reads at the places of an earlier line. `CopyRow.DumpLine`
  and `CopyRow.DumpStream` say exactly when that leaves the line or spoils the output.
* When the entry of a partition stands before the own entry of its root, which the sorting by size allows
  (context.go:247-262), the dump order names the partition twice and not the root: `DumpOrder.PartitionFirst` is such
  a dump, `DumpOrder.FaithfulIff` the exact condition, and `RestoreOrder.PartitionFirstBlocks` the restore from it.
* Table-data entries that the dump order does not name are dropped from the restore list
  (`RestoreList.UnnamedIsDropped`), and no others (`RestoreList.NothingLostIff`).
* A restore with several workers waits for ever for a dependency that is not an earlier task of the list: one that
  is filtered out, has no entry or comes later (`RestoreScheduler.LateDependencyBlocks`). Nothing else blocks it
  (`RestoreScheduler.WaitingEndsIff`).
* A range of negative limits can produce zero, which lies above it (`Int64Limiter.InRangeIff`).
* Column names with commas can make two column lists share a cache key: exactly when cutting the names at commas
  gives the same pieces (`Keys.CacheKeyIdentifies`). Values memoised for one list are then wrong for the other unless
  both have the same complete tuples (`Materializer.SharedKeyRightIff`, `Materializer.SharedKeyIsWrong`).
  Materialisation is proved whenever different referenced lists of one table have different pieces.
* materialize.go:27-51 refuses polymorphic references only inside components; those between components are
  materialised like plain ones, and the model does the same.

## Model

| member | source | states |
|---|---|---|
| `FkGraph.Graph.constructor` | internal/db/postgres/subset/graph.go:75-183 | one edge for each reference to a table of the list, in order, joining the tables the reference names, with its keys, nullability and polymorphic expressions, and no others; the edge list is the lists of all tables in turn, edge ids are their positions, and the simple reversed graph is the transpose of the graph |
| `FkGraph.ResolvableIs` | internal/db/postgres/subset/graph.go:85-151 | a reference counts, as often as it is listed, exactly when some table has its schema and name |
| `FkGraph.Graph.TopologicalSortDfs` | internal/db/postgres/subset/graph.go:284-292 | the first pass finishes every vertex it meets and keeps the finishing order such that an arc leaving the finished part leads to a vertex that reaches the last finished one |
| `FkGraph.Graph.MarkComponentDfs` | internal/db/postgres/subset/graph.go:294-301 | one run of the second pass numbers its root and otherwise only unnumbered vertices that reach the root, and leaves no unnumbered vertex in front of a newly numbered one |
| `FkGraph.Graph.FindScc` | internal/db/postgres/subset/graph.go:256-276 | two tables get the same number exactly when each is reachable from the other; the numbers are 0 up to the component count, all are used, and they never fall along a reference |
| `FkGraph.LateWitness` | internal/db/postgres/subset/graph.go:256-292 | if u reaches order[i], some vertex strongly connected to u finishes at i or later: the fact that makes the second pass correct |
| `FkGraph.PaintedIsComponent` | internal/db/postgres/subset/graph.go:256-301 | painting from the latest unnumbered vertex gives precisely its strongly connected component, and keeps predecessors numbered |
| `FkGraph.PredecessorsNumbered` | internal/db/postgres/subset/graph.go:294-301 | every vertex that reaches a numbered one is numbered |
| `Condensed.BuildCondensedGraph` | internal/db/postgres/subset/graph.go:303-365 | components group the tables by number, component graphs hold exactly the inner edges, and the condensed graph and its reversal hold exactly the other edges, numbered consecutively and with exchanged ends |
| `Condensed.CollectComponent` | internal/db/postgres/subset/graph.go:311-335 | one component graph and the set of its edge ids |
| `Condensed.CondenseEdges` | internal/db/postgres/subset/graph.go:338-364 | the edges whose id is not inner become condensed edges in both directions |
| `Condensed.InnerIdsAreInner` | internal/db/postgres/subset/graph.go:319-348 | an edge is skipped by its id exactly when both of its tables lie in one component |
| `Condensed.CondensedEdgesClimb` | internal/db/postgres/subset/graph.go:256-365 | every condensed edge goes from a strictly smaller to a strictly larger component number, every reversed one back: the condensed graph is acyclic |
| `Condensed.CondensedEdgesAreLinks` | internal/db/postgres/subset/graph.go:338-364 | both condensed graphs have an edge for exactly the pairs of components with a reference between their tables |
| `Condensed.EdgelessComponentIsOneTable` | internal/db/postgres/subset/graph.go:311-335 | a component graph without edges belongs to a single table without self reference |
| `Condensed.CondensedSortDfs` | internal/db/postgres/subset/condenced_edge.go:36-44 | one run of the depth-first sort on an acyclic graph appends each newly met component after everything it leads to |
| `Condensed.SortCondensedEdges` | internal/db/postgres/subset/condenced_edge.go:24-33 | every component is visited exactly once and comes after all components its edges lead to |
| `TableOrder.SortedTableOids` | internal/db/postgres/subset/graph.go:804-815 | the sorted oids are a permutation of all tables in which every referenced table of another component comes before the tables that reference it |
| `TableOrder.OrderIsTopological` | internal/db/postgres/subset/graph.go:804-834 | a list that follows the component order becomes, once reversed, an order with referenced tables first |
| `TableOrder.DependenciesGraph` | internal/db/postgres/subset/graph.go:817-829 | the map holds for each table exactly the oids of the tables in components directly referenced from its own component |
| `TableOrder.ResetKeepsExact` | internal/db/postgres/subset/graph.go:817-820 | the resets inside the loop erase nothing that was entered before, because of the component numbering |
| `TableOrder.AppendKeepsExact` | internal/db/postgres/subset/graph.go:822-828 | the entries of one reversed edge extend the map by exactly that pair of components |
| `TableOrder.AllSeenIsExact` | internal/db/postgres/subset/graph.go:817-829 | once all edges of a component were seen, its tables have their exact dependencies |
| `DumpOrder.SetDumpDependenciesGraph` | internal/db/postgres/cmd/dump.go:386-416 | the metadata is the renaming of order and dependency map to dump ids, and it panics exactly when some table of the order has no entry for itself or a partition, or some dependency in the order has no entry of its own |
| `DumpOrder.MetadataPanicsIff` | internal/db/postgres/cmd/dump.go:386-416 | the panics of the loop over the order, characterised through the entries of tables and dependencies |
| `DumpOrder.MetadataIsFaithful` | internal/db/postgres/cmd/dump.go:386-416 | with an entry of its own for every table there is always metadata; when no partition comes before its root, order and dependencies by dump id say exactly what the graph says by oid |
| `DumpOrder.FaithfulIff` | internal/db/postgres/cmd/dump.go:386-416 | with partitions nested below their roots they do so exactly when no entry of a partition stands before the own entry of its root |
| `DumpOrder.OwnEntriesSuffice` | internal/db/postgres/cmd/dump.go:339-416 | every table of the graph gets its own entry, so neither panic is reached |
| `DumpOrder.PartitionFirst` | internal/db/postgres/cmd/dump.go:386-416 | with a partition before its root the order names the partition twice and the root never, while the dependencies name the root |
| `RestoreList.SortTocEntriesInTopoOrder` | internal/db/postgres/cmd/restore.go:674-739 | the panic happens exactly for an id of the order with neither an entry nor a known table, and otherwise the list is the specified one |
| `RestoreList.SortedTocKeeps` | internal/db/postgres/cmd/restore.go:674-739 | each dump id at most once, ids of the order in that order, every entry that is not table data and every access-control entry present |
| `RestoreList.PickedKeepsOrder` | internal/db/postgres/cmd/restore.go:678-704 | the entries picked by the order are exactly those of the order that exist, in that order |
| `RestoreList.NothingLostIff` | internal/db/postgres/cmd/restore.go:674-739 | no data entry is lost exactly when the order names every table-data entry; other table-data entries are dropped silently |
| `RestoreList.AccessRightsComeLast` | internal/db/postgres/cmd/restore.go:705-739 | the result is a stretch of entries from the data section followed by a stretch of access-control entries from outside of it |
| `RestoreList.DataSectionIs` | internal/db/postgres/cmd/restore.go:1007-1015 | the data section is exactly the entries of that section, as often and in the order they are listed |
| `RestoreList.UnnamedIsDropped` | internal/db/postgres/cmd/restore.go:674-739 | one table and an empty order: nothing is restored |
| `RestoreScheduler.StepKeeps` | internal/db/postgres/cmd/restore.go:741-888 | every step of pusher and workers keeps the invariant that each pushed task is in exactly one place, is started at most once and is marked restored only after completing; failing tasks, a failing pusher and cancellation from outside are steps |
| `RestoreScheduler.RestoreIsSafe` | internal/db/postgres/cmd/restore.go:741-888 | in every interleaving a task starts only when each of its dependencies has completed: by the dependency wait with several workers for any list, by first-in-first-out with one worker for a topological list |
| `RestoreScheduler.OneWorkerSafeIff` | internal/db/postgres/cmd/restore.go:755-888 | with one worker all runs are safe exactly when the list is topological for its tasks |
| `RestoreScheduler.NeverStuck` | internal/db/postgres/cmd/restore.go:741-888 | while nothing failed and nothing was cancelled, an unfinished reachable state always has an enabled step other than a failed poll |
| `RestoreScheduler.MeasureDrops` | internal/db/postgres/cmd/restore.go:755-888 | every step but a failed poll lowers a measure of the entries left, the channel and the workers |
| `RestoreScheduler.RunsAreBounded` | internal/db/postgres/cmd/restore.go:755-888 | a run has at most 8 * entries + jobs + 4 steps besides failed polls |
| `RestoreScheduler.WaitingEndsIff` | internal/db/postgres/cmd/restore.go:741-779 | with several workers a complete run exists exactly when every awaited dependency is itself an earlier task of the list |
| `RestoreScheduler.LateDependencyBlocks` | internal/db/postgres/cmd/restore.go:741-779 | two tables of which the first depends on the second: no run finishes |
| `RestoreScheduler.EveryTaskOnce` | internal/db/postgres/cmd/restore.go:755-888 | a finished run without failures has started and completed every task exactly once and nothing else: table data and sequences whose dump id is not filtered, blobs unless switched off, access rights unless switched off |
| `RestoreScheduler.ChannelBounded` | internal/db/postgres/cmd/restore.go:555-583 | the channel never holds more tasks than there are workers |
| `RestoreScheduler.OneWorkerNeverPolls` | internal/db/postgres/cmd/restore.go:773-778 | dependencies are awaited only in order and with several workers |
| `RestoreOrder.SortedListIsTopological` | internal/db/postgres/cmd/restore.go:674-739 | the restore list built from faithful metadata is topological for its tasks |
| `RestoreOrder.PlanRestore` | internal/db/postgres/subset/graph.go:256-834 | graph, numbering, condensation, order, dependency map and dump metadata composed: there always is a plan, and it is faithful exactly when no partition stands before its root |
| `RestoreOrder.ReferencedTablesLoadFirst` | internal/db/postgres/cmd/restore.go:741-888 | end to end: in every interleaving the load of a table starts only after the loads of all tables its component directly references in other components have completed |
| `RestoreOrder.PartitionFirstBlocks` | internal/db/postgres/cmd/restore.go:674-779 | from that metadata the partition is restored twice, and a restore with several workers never finishes |
| `SubsetPath.JoinKeeps` | internal/db/postgres/subset/path.go:64-92 | adding an edge to a scope that does not know its target keeps all scopes well formed joins |
| `SubsetPath.ForkKeeps` | internal/db/postgres/subset/path.go:102-128 | opening a scope below one in which the source is available keeps the tree: parent ids below child ids, each scope starting with the edge that opened it |
| `SubsetPath.OpenRootKeeps` | internal/db/postgres/subset/path.go:94-100 | creating the scope on first use keeps the tree rooted at 0 |
| `SubsetSearch.Path.AddEdge` | internal/db/postgres/subset/path.go:44-92 | the edge is appended to the scope of its source and no scope is opened when its target is not cyclic and no edge of that scope starts or ends there; otherwise one new scope below it holds the edge alone; everything stays well scoped and known tables keep their scopes |
| `SubsetSearch.PlacedIsReasoned` | internal/db/postgres/subset/path.go:64-92 | a scope other than the root scope is opened only by an edge into a cyclic component or into a table its parent scope knows |
| `SubsetSearch.Path.CreateScopeWithParent` | internal/db/postgres/subset/path.go:102-128 | a fresh scope with the edge as its first one, linked below the parent; the existing-scope panic is unreachable |
| `SubsetSearch.AddEdgeKeeps` | internal/db/postgres/subset/path.go:64-92 | placing an edge keeps every scope a well scoped join, so no table is joined twice in a scope |
| `SubsetSearch.SubsetDfs` | internal/db/postgres/subset/graph.go:236-254 | the search adds exactly the edges on walks that end in a constraining edge, hands back the pending edges otherwise, and keeps the path well scoped |
| `SubsetSearch.FindSubsetVertexes` | internal/db/postgres/subset/graph.go:220-234 | a component gets a path exactly when it is conditioned, internally polymorphic or a walk out of it ends in an edge that is polymorphic or enters a conditioned component; the path holds exactly the edges on such walks, well scoped, with scopes opened for a reason only |
| `SubsetSearch.HitsIffWalk` | internal/db/postgres/subset/graph.go:236-254 | the recursive notion of being hit is the existence of a walk that ends in an edge that is polymorphic or enters a conditioned component |
| `SubsetSearch.OnHitIffWalk` | internal/db/postgres/subset/graph.go:236-254 | an edge is in the path exactly when it lies on such a walk from the root |
| `SubsetSearch.RestrictionSpreads` | internal/db/postgres/subset/graph.go:220-254 | referencing a restricted component restricts |
| `Keys.NumbersKeyIdentifies` | internal/db/postgres/subset/component.go:234-252 | sorted decimal numbers joined with underscores are equal exactly for equal multisets of numbers |
| `Keys.ItoaInjective` | internal/db/postgres/subset/component.go:234-252 | decimal rendering is injective |
| `Keys.ItoaIsDecimal` | internal/db/postgres/subset/component.go:234-252 | the digits stand for the number, without a leading zero |
| `Keys.LexLeqMeans` | internal/db/postgres/subset/component.go:134-143 | texts are ordered by the first differing character, a beginning before what continues it |
| `Keys.JoinInjective` | internal/db/postgres/subset/component.go:234-252 | joining is injective on lists whose parts do not contain the separator |
| `Keys.SortedUnique` | internal/db/postgres/subset/component.go:234-252 | two sorted lists with the same elements are equal |
| `Keys.CacheKeyIdentifies` | internal/db/postgres/subset/materialize.go:263-270 | two cache keys are equal exactly when the tables are and the column names, cut at their commas, give the same pieces |
| `Keys.PlainPieces` | internal/db/postgres/subset/materialize.go:263-270 | names without commas are their own pieces, so for them the key identifies the list |
| `Keys.CacheKeyCollision` | internal/db/postgres/subset/materialize.go:263-270 | with a comma in a column name two column lists can share a key |
| `Materializer.InIsTrue` | internal/db/postgres/subset/materialize.go:143-190 | three-valued membership is true exactly for complete tuples that occur among the candidates |
| `Materializer.InlineListMeansReference` | internal/db/postgres/subset/materialize.go:143-165 | the inline list accepts exactly the rows whose reference is satisfied by a kept row |
| `Materializer.SubqueryMeansReference` | internal/db/postgres/subset/materialize.go:166-190 | the subquery form accepts the same rows although it may produce null keys |
| `Materializer.FormsDifferOnNulls` | internal/db/postgres/subset/materialize.go:143-190 | the two forms differ as three-valued conditions (false against unknown), so agreement holds for WHERE only |
| `Materializer.ReferenceMeans` | internal/db/postgres/subset/materialize.go:143-190 | a reference is satisfied when it is nullable with a null or missing column, or when some target has the same text in each pair of key columns |
| `Materializer.MaterializerState.CondsForVertex` | internal/db/postgres/subset/materialize.go:238-261 | the memoised conditions select exactly the kept rows, whatever was memoised before |
| `Materializer.MaterializerState.EdgeCond` | internal/db/postgres/subset/materialize.go:143-190 | the condition is true exactly on rows whose reference leads to a kept row, and lists the memoised values exactly when there are no more of them than the limit |
| `Materializer.MaterializerState.Values` | internal/db/postgres/subset/materialize.go:263-327 | the key values are those of the kept rows, for every referenced column list, and are memoised under the cache key; a memoised key runs no query, every key is derived at most once, what was memoised stays, and new cache keys belong to this component or later ones |
| `Materializer.SharedKeyRightIff` | internal/db/postgres/subset/materialize.go:263-270 | values memoised for one column list are right for another list of the same key exactly when both have the same complete tuples among the kept rows |
| `Materializer.SharedKeyIsWrong` | internal/db/postgres/subset/materialize.go:263-270 | a row and two column lists with one key for which they are not |
| `Materializer.MaterializeSubsetQueries` | internal/db/postgres/subset/materialize.go:67-112 | for every restricted table, in any order of tables, the query written back selects exactly the kept rows |
| `Materializer.UnrestrictedKeptWhole` | internal/db/postgres/subset/materialize.go:85-112 | an unrestricted table is dumped whole |
| `Materializer.SubsetIsIntact` | internal/db/postgres/subset/materialize.go:53-112 | the target of every complete reference of a kept row is kept, if it existed and its key is unique |
| `Materializer.AdmissibleIsKept` | internal/db/postgres/subset/materialize.go:53-112 | every family of rows that meets all conditions and restrictions lies inside the kept rows |
| `Materializer.KeptIsLargest` | internal/db/postgres/subset/materialize.go:53-112 | the kept rows are the largest such family |
| `SubsetPlan.PlanIsAcyclic` | internal/db/postgres/subset/graph.go:302-365 | when no table references itself directly or through others, component numbers rise along every reference, so the derivation recursion ends |
| `SubsetPlan.PlanIsClosed` | internal/db/postgres/subset/graph.go:220-254 | a table outside the paths has no conditions and references no restricted table |
| `SubsetPlan.PlanSubset` | internal/db/postgres/subset/materialize.go:53-112 | condensation, path search and materialisation composed: a source row is dumped exactly when it meets the conditions of its table and each of its references to a table that reaches a condition is nullable with a null column or has its key in a dumped row; the dumped rows are referentially intact and at least as many as any admissible family has |
| `SubsetPlan.DumpMeans` | internal/db/postgres/subset/materialize.go:143-261 | the same for one row, by the columns of the row and the rows dumped of the referenced tables |
| `SubsetPlan.RestrictedIff` | internal/db/postgres/subset/graph.go:220-254 | a component has a path exactly when a chain of references out of its table, possibly empty, leads to a table with conditions or ends in a polymorphic reference |
| `CycleSearch.Component.constructor` | internal/db/postgres/subset/component.go:30-42 | read off the component alone: one cycle is recorded for each reference that leads back in the search order, closed by it and over exactly the tables between; every closed chain is met, cycles exist exactly when there is a closed chain, they are grouped, and in a strongly connected component they are all cycles exactly when each table is reached from the least one by a single simple chain |
| `CycleSearch.Component.FindCycles` | internal/db/postgres/subset/component.go:174-192 | the tables on the path to each table are those of the search order, a function of the component; the recorded cycles are one for each reference that leads back along it, with exactly its tables, so only the choice among parallel references is open; cycles over the same tables differ in the closing edge only, and every closed chain shares an edge with one |
| `CycleSearch.Component.FindAllCyclesDfs` | internal/db/postgres/subset/component.go:194-232 | one search: it grows the tree below its table as the search order prescribes, restores the stack, and finishes every met table with each edge either closing a recorded cycle or leading to an earlier finished table off the trunk |
| `CycleSearch.Component.RecordCycle` | internal/db/postgres/subset/component.go:211-227 | the cycle cut from the path is the trunk from the table the edge leads back to, plus that edge, and is added unless one with the same edges is known |
| `DepthFirst.OrderedIff` | internal/db/postgres/subset/component.go:175-232 | the search order is the only forest over the tables whose paths run along references and in which every reference leads to a table met before its own or below it through a table no larger than the target, with smaller roots first |
| `DepthFirst.OrderedIsSearch` | internal/db/postgres/subset/component.go:175-232 | any such forest is the one the search finds, by induction along the search |
| `DepthFirst.FollowKeepsOrder` | internal/db/postgres/subset/component.go:194-232 | each stretch of the search adds tables behind its path only, with all their references in that order |
| `AllCycles.SearchRecordsExactly` | internal/db/postgres/subset/component.go:194-232 | one recorded cycle for each reference that leads back in the search order, closed by it and over exactly the tables between its ends |
| `AllCycles.SameCycles` | internal/db/postgres/subset/component.go:178-232 | two searches of one component, whatever they do with parallel references, record equally many cycles, with the same closing references over the same tables |
| `SearchTree.GroupMembersAgree` | internal/db/postgres/subset/component.go:194-242 | two recorded cycles over the same tables have the same top table and the same trunk: they are equal but for the closing edge |
| `SearchTree.RecordedGroupsAgree` | internal/db/postgres/subset/component.go:194-260 | so all cycles of one group are equal but for their last edges |
| `AllCycles.AllRecordedIff` | internal/db/postgres/subset/component.go:194-232 | every cycle of a strongly connected component is recorded, as a set of edges, exactly when no table is reached from the least one by two different simple chains |
| `AllCycles.GenuineIsKnown` | internal/db/postgres/subset/component.go:194-232 | with tree edges and back edges only, every cycle is the trunk of some back edge and that edge |
| `AllCycles.OddEdgeIsMissed` | internal/db/postgres/subset/component.go:194-232 | any other edge lies on a cycle, by strong connectivity, and on no recorded one |
| `AllCycles.OnRecordedIff` | internal/db/postgres/subset/component.go:194-232 | a table lies on a recorded cycle exactly when some reference leads from it, or from below it in the search order, to it or above it; the condition speaks of the component only |
| `CycleSearch.RankedMeetsEveryChain` | internal/db/postgres/subset/component.go:174-232 | no closed chain avoids the edges of the recorded cycles |
| `CycleSearch.CyclesDecide` | internal/db/postgres/subset/component.go:90-92 | hasCycle answers exactly whether the component graph has a closed chain |
| `Cycles.RecordedCyclesDiffer` | internal/db/postgres/subset/component.go:220-226 | no two recorded cycles consist of the same edges |
| `CycleSearch.Component.GroupCycles` | internal/db/postgres/subset/component.go:254-260 | every cycle is in the group of its id, groups are increasing and non-empty |
| `Cycles.SameGroupIff` | internal/db/postgres/subset/component.go:234-242 | two cycles share a group exactly when they visit the same tables |
| `Cycles.RotationKeeps` | internal/db/postgres/subset/graph.go:1302-1306 | rotations keep a cycle genuine and keep its cycle id, group id and tables |
| `Cycles.ShiftUntilVertexWillBeFirst` | internal/db/postgres/subset/graph.go:1399-1409 | the result is the rotation that starts at the table; the panic happens exactly when the table is not on the cycle |
| `ComponentCycles.CyclesIffEdges` | internal/db/postgres/subset/component.go:90-92 | a strongly connected component has a cycle to record exactly when its graph has an edge |
| `ComponentCycles.EdgelessIffPlainTable` | internal/db/postgres/subset/component.go:68-75 | it has no edge exactly when it is one table that does not reference itself |
| `ComponentCycles.OneTableOf` | internal/db/postgres/subset/component.go:68-75 | getOneTable returns the only table of the component, and panics exactly when the component has an edge |
| `ComponentCycles.AllCyclesIff` | internal/db/postgres/subset/component.go:175-232 | the same condition for the components of the graph, which are strongly connected |
| `ComponentCycles.AllRecordedCoversTables` | internal/db/postgres/subset/component.go:175-232 | when all cycles are recorded every table of a component with a cycle lies on a recorded one |
| `ComponentCycles.DiamondIsComponent` | internal/db/postgres/subset/component.go:30-42 | the graph with references 0 to 1, 0 to 2, 1 to 0 and 2 to 1 is one the search can be given: coherent and strongly connected |
| `ComponentCycles.DiamondCycles` | internal/db/postgres/subset/component.go:175-232 | on it the search records the cycle over 0 and 1 and nothing else |
| `ComponentCycles.SomeCycleIsMissed` | internal/db/postgres/subset/component.go:194-232 | so the comment that all cycles are found is wrong there, the condition of AllRecordedIff fails, and table 2 lies on no recorded cycle |
| `CycleGroups.GetSortedGroupIds` | internal/db/postgres/subset/component.go:134-172 | every group once, groups with own conditions first, each other group after one it shares a table with unless none of those left shares a table with an earlier one; the order does not depend on how the map lists its keys |
| `CycleGroups.SortGroups` | internal/db/postgres/subset/component.go:107-172 | the same for the groups of a component and the tables that carry conditions |
| `CycleGroups.ShareMeansCommonTable` | internal/db/postgres/subset/component.go:123-132 | sharing read off the entered tables is a common table of the cycles |
| `CycleGroups.OwnMeansConditioned` | internal/db/postgres/subset/component.go:113-121 | a group has conditions of its own exactly when one of its tables is conditioned |
| `CycleGroups.FirstCycleStandsForGroup` | internal/db/postgres/subset/component.go:107-111 | the first cycle of a group visits the same tables as every other one |
| `CteNames.Cte.AddItem` | internal/db/postgres/subset/cte.go:25-34 | a name is added once, with the query of its first addition |
| `CteCycles.GenerateRecursiveQueriesForCycle` | internal/db/postgres/subset/graph.go:579-606 | rows for every table of the cycle, in the overlap form as well when the group has other cycles |
| `CteCycles.OverlapRefs` | internal/db/postgres/subset/graph.go:1137-1165 | the overlap query selects from the rows of exactly the other cycles of the group, rotated to the same table; no shift panics |
| `CteCycles.GenerateFilteredQueries` | internal/db/postgres/subset/graph.go:608-627 | filtered rows for every table of the group, and united rows as well when it has several cycles; all cycles are rotated in step |
| `CteCycles.AlignedStarts` | internal/db/postgres/subset/graph.go:608-627 | cycles of one group rotated equally often start at the same table, so that uniting their rows is right |
| `CteCycles.UnitedRefs` | internal/db/postgres/subset/graph.go:1219-1229 | united rows select from exactly the rows of every cycle of the group at that table, in both forms |
| `CteCycles.GenerateQueriesForVertexesInCycle` | internal/db/postgres/subset/graph.go:571-577 | final keys for every table of the only group |
| `CteGroups.RestrictByEarlier` | internal/db/postgres/subset/graph.go:499-511 | the extra conditions name exactly the keys of earlier groups for shared tables |
| `CteGroups.GenerateQueriesForMultiGroupScc` | internal/db/postgres/subset/graph.go:488-553 | exactly the expected names are defined and every query selects from the right ones |
| `CteQuery.GenerateQueryForScc` | internal/db/postgres/subset/graph.go:458-480 | the same for one and for several groups |
| `CteNames.RightRefsAreFine` | internal/db/postgres/subset/graph.go:458-627 | the names a query selects from are expected ones and lie strictly lower in rank, apart from the query itself |
| `CteQuery.GenerateQuerySelect` | internal/db/postgres/subset/cte.go:40-82 | leaving out the final keys of other tables leaves nothing dangling exactly when the target lies on a recorded cycle |
| `CteQuery.GenerateAndSetQueryForScc` | internal/db/postgres/subset/graph.go:375-384 | for a cyclic component: names differ, every query selects from exactly the right names, selections lead down in rank, nothing dangles exactly when some reference spans the target in the search order, and the keys of the target draw on the rows of every recorded cycle through it |
| `CteQuery.DrawsOnCycle` | internal/db/postgres/subset/graph.go:482-627 | a chain of selections leads from the final keys of a table to the rows of every recorded cycle through it, started at each of its tables |
| `CteQuery.OverlapIsDrawn` | internal/db/postgres/subset/graph.go:595-605 | when a group has several cycles the chain reaches the overlap rows too, which select from the rows of each other cycle at the same table and, like all rows, from themselves |
| `CteQuery.RestrictedDirectly` | internal/db/postgres/subset/graph.go:499-511 | the rows of a cycle select from the keys of every earlier group for each table shared with it |
| `CteDangling.QueryForTable` | internal/db/postgres/subset/graph.go:375-384 | nothing dangles exactly when some reference leads from the table, or from below it in the search order of the component, to the table or above it; in particular when every table is reached from the least one by a single simple chain |
| `CteDangling.DiamondDangles` | internal/db/postgres/subset/graph.go:375-384 | on that graph the query for table 2 selects from a name no query defines |
| `CteDangling.DiamondSearch` | internal/db/postgres/subset/component.go:175-232 | on that graph both other tables are entered from table 0 |
| `CteDangling.DiamondMisses` | internal/db/postgres/subset/component.go:175-232 | and no reference spans table 2 |
| `CteDangling.OneChainCovers` | internal/db/postgres/subset/component.go:175-232 | when all cycles are recorded every table lies on one, so that no query dangles |
| `TransformWindows.TransformationWindow.TryAdd` | internal/db/postgres/dumpers/transformation_window.go:54-82 | a transformer without declared columns is accepted by an empty window only; another one exactly when no earlier member declares one of its columns or, declaring none, leaves it a column of the table; then window and affected columns grow by it |
| `TransformWindows.BuildWindows` | internal/db/postgres/dumpers/transformation_pipeline.go:60-71 | the greedy windows concatenate to the original list; inside a window every later member declares columns, none of them declared by an earlier member and none of the table behind one that declares nothing; each window starts with a transformer that did not fit into the one before |
| `TransformPipeline.TransformSync` | internal/db/postgres/dumpers/transformation_pipeline.go:130-146 | the sequential pipeline computes the fold of the transformers whose condition holds |
| `TransformPipeline.SyncMeans` | internal/db/postgres/dumpers/transformation_pipeline.go:130-146 | a transformer whose condition holds overlays its result on the record before it, any other leaves that record as it is |
| `TransformPipeline.StepKeeps` | internal/db/postgres/dumpers/transformation_window.go:84-141 | every step of the main goroutine and of the transformer goroutines, column by column, keeps the invariant |
| `TransformPipeline.DecidedKeeps` | internal/db/postgres/dumpers/transformation_window.go:115-139 | a condition evaluated on a partly written record decides as on the record at the start of the window |
| `TransformPipeline.WindowDone` | internal/db/postgres/dumpers/transformation_window.go:138-140 | when the wait group reaches zero the record is the sequential result of the window and all goroutines wait |
| `TransformPipeline.Barrier` | internal/db/postgres/dumpers/transformation_window.go:84-141 | a signalled or running transformer belongs to the current window, which started from the full sequential result of all earlier ones |
| `TransformPipeline.NoCounterOrChannelFault` | internal/db/postgres/dumpers/transformation_window.go:84-141 | the wait group never goes negative and no signal finds its one-slot channel full |
| `TransformPipeline.NeverStuck` | internal/db/postgres/dumpers/transformation_window.go:84-141 | until the record is finished some goroutine can move |
| `TransformPipeline.MeasureDrops` | internal/db/postgres/dumpers/transformation_window.go:84-141 | every step brings the record closer to its end |
| `TransformPipeline.AsyncEqualsSync` | internal/db/postgres/dumpers/transformation_pipeline.go:130-156 | every schedule ends, with the record the sequential pipeline computes |
| `TransformPipeline.WindowsAreSound` | internal/db/postgres/dumpers/transformation_pipeline.go:60-71 | windows built greedily from transformers that keep to their columns and do not read what another member writes meet what the equality needs |
| `TransformPipeline.GreedyWindowsPreserveMeaning` | internal/db/postgres/dumpers/transformation_pipeline.go:60-156 | end to end: greedy windows under any interleaving reproduce the sequential record |
| `CopyText.EncodeAttr` | internal/db/postgres/pgcopy/encoder.go:24-81 | NULL gives the marker, data its escaped form, including the passing over of the byte after a marker |
| `CopyText.WrittenAs` | internal/db/postgres/pgcopy/encoder.go:34-79 | wherever the encoder looks: a marker gives backslash, backslash and its second byte and the next byte is passed over; 8, 9, 10, 11, 12, 13 give backslash and b, t, n, v, f, r; other control bytes give the byte, a backslash and the byte; a backslash gives two; any other byte itself |
| `CopyText.MarkersMean` | internal/db/postgres/pgcopy/encoder.go:24-45 | NULL is written and read as backslash and N; no data is written starting with that or with backslash and a dot |
| `CopyText.DecodeAttr` | internal/db/postgres/pgcopy/decoder.go:60-153 | NULL, bytes or panic as specified, with byte arithmetic of the octal and hexadecimal escapes and the UTF-8 check as a parameter |
| `CopyText.EscapesMean` | internal/db/postgres/pgcopy/decoder.go:60-150 | behind any text with an even run of backslashes at its end, a backslash and b, t, n, v, f, r stands for 8, 9, 10, 11, 12, 13 and a backslash and any other byte but a digit below 8 or x for that byte |
| `CopyText.OctalMeans` | internal/db/postgres/pgcopy/decoder.go:84-109 | three octal digits stand for their value in one byte |
| `CopyText.ShortOctalMeans` | internal/db/postgres/pgcopy/decoder.go:84-109 | so do one or two when no further one follows |
| `CopyText.HexMeans` | internal/db/postgres/pgcopy/decoder.go:111-124 | two hexadecimal digits of either case stand for their value |
| `CopyText.ShortHexMeans` | internal/db/postgres/pgcopy/decoder.go:111-124 | one digit stands for its value, and none for a zero byte |
| `CopyText.UnescapedAcross` | internal/db/postgres/pgcopy/decoder.go:60-150 | such a text and one that does not start with a hexadecimal digit are decoded one after the other |
| `CopyText.EncodedIsOneField` | internal/db/postgres/pgcopy/encoder.go:47-76 | an encoded text has no raw tab, newline, carriage return or other byte with a letter escape |
| `CopyText.EncodedIsNoMarker` | internal/db/postgres/pgcopy/encoder.go:34-45 | data is never encoded as the NULL marker and never starts with it or with the end-of-data marker |
| `CopyText.CodecIsLossy` | internal/db/postgres/pgcopy/encoder.go:24-81 | decoding an encoded text never panics, whatever the UTF-8 check, and gives the lossy image: the byte after a marker gone, unlisted control bytes doubled |
| `CopyText.RoundTripIff` | internal/db/postgres/pgcopy/encoder.go:24-81 | decoding gives the data back exactly when it is faithful: a marker is followed by nothing or by the same unlisted control byte twice, and elsewhere there are no unlisted control bytes |
| `CopyText.OrdinaryTextSurvives` | internal/db/postgres/pgcopy/encoder.go:24-81 | in particular text without unlisted control bytes and without a marker before its last two bytes |
| `CopyText.MarkerEatsNextByte` | internal/db/postgres/pgcopy/encoder.go:34-70 | two concrete texts that do not survive |
| `CopyText.BrokenIff` | internal/db/postgres/pgcopy/decoder.go:68-79 | unescaping meets a lone backslash exactly when the text ends in an odd number of backslashes |
| `CopyText.NonAsciiIff` | internal/db/postgres/pgcopy/decoder.go:84-125 | the UTF-8 check is asked for exactly when the text has an octal escape, behind an even run of backslashes, whose byte is zero or at least 128; never because of a hexadecimal one |
| `CopyText.PanicIff` | internal/db/postgres/pgcopy/decoder.go:60-153 | decoding panics exactly for an odd run of backslashes at the end or for such an octal escape in bytes that fail the check |
| `CopyText.HexSkipsTheCheck` | internal/db/postgres/pgcopy/decoder.go:84-125 | the byte 255 written as an octal escape panics, written in hexadecimal it is returned although the check rejects it |
| `CopyRow.Row.constructor` | internal/db/postgres/pgcopy/row.go:57-93 | a fixed or growing row with nothing set |
| `CopyRow.Row.Decode` | internal/db/postgres/pgcopy/row.go:95-128 | positions of the new line in front of older ones, growing rows grow, and with too many columns the positions change while the line is not taken over |
| `CopyRow.Row.GetColumn` | internal/db/postgres/pgcopy/row.go:131-144 | a value set for this line, else the decoded column, else an error for a missing column; a column that ends behind the line is reported |
| `CopyRow.Row.SetColumn` | internal/db/postgres/pgcopy/row.go:155-161 | the value is set, or nothing changes for a missing column |
| `CopyRow.Row.Encode` | internal/db/postgres/pgcopy/row.go:165-187 | the columns joined with tabs, set ones encoded, and nothing left set, exactly when every column that was not set ends inside the line; otherwise it stops at the first one that does not |
| `CopyRow.PositionsSplit` | internal/db/postgres/pgcopy/row.go:95-126 | the recorded positions cut the line exactly at its tabs |
| `CopyRow.TabsSeparate` | internal/db/postgres/pgcopy/row.go:95-126 | byte 9 is what separates columns, in splitting and in joining |
| `CopyRow.JoinSplit` | internal/db/postgres/pgcopy/row.go:95-187 | joining the columns of a line gives it back |
| `CopyRow.SplitJoin` | internal/db/postgres/pgcopy/row.go:95-187 | splitting joined columns without tabs gives them back |
| `CopyRow.RenderKeepsColumns` | internal/db/postgres/pgcopy/row.go:95-187 | the output splits at the same columns: untouched ones byte for byte, set ones as the encoding of the value set last |
| `CopyRow.LastSetIs` | internal/db/postgres/pgcopy/row.go:155-161 | the set that counts is the last one for the column |
| `CopyRow.UntouchedLineIsCopied` | internal/db/postgres/pgcopy/row.go:165-187 | a line without sets is written as it was read |
| `CopyRow.RenderReadsBack` | internal/db/postgres/pgcopy/row.go:131-187 | a reader of the output sees each set column as the codec image of its value |
| `CopyRow.DumpLine` | internal/db/postgres/dumpers/transformation_pipeline.go:158-196 | one round of decode, sets and encode, for any line, any row and any sets: too many columns, reading behind the line exactly when a column that is neither in the line nor set ends there, or an output, which is the function Render of the line and its sets exactly when the line has as many columns as the row |
| `CopyRow.DumpStream` | internal/db/postgres/dumpers/transformation_pipeline.go:158-196 | over a stream through a fixed or growing row, every output depends on its own line and sets only exactly when the column counts never fall and, for a fixed row, are its size |
| `CopyRow.WrittenIff` | internal/db/postgres/pgcopy/row.go:95-187 | the cells of the row give the rendered line exactly when no place of an earlier line is left |
| `CopyRow.ShortLines` | internal/db/postgres/pgcopy/row.go:95-187 | after a line of two columns, a line of one byte is read behind its end, and a line of three bytes is written with its last byte once more as a second column |
| `Int64Limiter.NewInt64Limiter` | internal/generators/transformers/random_int64.go:20-30 | an error exactly for Min >= Max, and the distance is exact although the difference may overflow |
| `Int64Limiter.SumSurvives` | internal/generators/transformers/random_int64.go:32-33 | conversion and sum may wrap around, yet the sum is exact |
| `Int64Limiter.Limit` | internal/generators/transformers/random_int64.go:32-38 | unless Min is negative and the remainder zero, the result lies in [Min, Max) and differs from Min by v up to a multiple of Max - Min; otherwise it is 0; no division by zero |
| `Int64Limiter.InRangeIff` | internal/generators/transformers/random_int64.go:32-38 | the result is in [Min, Max] exactly unless Max is negative and the remainder is zero |
| `Int64Limiter.NegativeRangeCanGiveZero` | internal/generators/transformers/random_int64.go:32-38 | a concrete range of negative values that gives zero |
| `Int64Limiter.EveryValueComesUp` | internal/generators/transformers/random_int64.go:32-38 | every value from Min up to but not including Max comes up, except a negative Min |
| `Int64Limiter.EndsNeverComeUp` | internal/generators/transformers/random_int64.go:32-38 | a negative Min never comes up, nor does Max unless it is zero |

## Left out

- SQL text, quoting, `::text` casts and aliases; conditions are abstract and a WHERE clause is their conjunction.
- Row-level meaning of the recursive queries of cyclic components, and their materialisation (materialize.go:114-141, 192-236); only names and references are modelled, for a path whose root scope has no nested scopes.
- Collisions of generated query names after shortening to 63 bytes with a hash (graph.go:1344-1353); names are tuples of scope-independent parts.
- Nullability bookkeeping of paths (path.go:76-83, 116-124), the write-only `Path.graph`, and polymorphic semantics of references.
- buildCyclesGraph and the functions only it uses (component.go:262-323).
- Reading the catalogue, virtual references from the configuration, and expressions as keys.
- Which tables become entries, their sizes and their sorting (context.go:247-262, dump.go:336-374): the list of entries is an input in which every table of the graph has its own entry.
- Option matching in isNeedRestore (restore.go:585-610) is the set of dump ids it filters out; entries without a description, which it dereferences, are not modelled.
- RestoreOrder.ReferencedTablesLoadFirst: for one worker it assumes that no referenced table is filtered out, which `OneWorkerSafeIff` shows to be needed.
- Connections, transactions, scripts and the execution of a restore task beyond a start, a finish and a failure step.
- Errors and cancellation of transformer goroutines and the shutdown channel; a transformer reads the record when it starts and then writes its columns one at a time, and its private state is a function of what it reads.
- Dynamic parameters of transformers, templates and the choice between the sequential and the asynchronous pipeline.
- Materializer.SubsetIsIntact: assumes referenced column lists that cache keys tell apart, components of single tables without self references and unique referenced keys; other references are only restricted, not proved intact.
- CopyRow.Row.Encode: reports a slice that ends behind the line; whether the buffer has capacity there, and which bytes it then holds, is not modelled.
- Aliasing of the decode and encode buffers of a row: values read earlier are overwritten by later reads of the same column in the original.
- UTF-8 validity itself, which is a parameter of decoding.
- CycleSearch.Component.FindCycles: which of several parallel references enters a table is open, since the sort of equal targets is unspecified; the tables of every recorded cycle and its closing reference are fixed.
- Random generators behind the limiter, transformer inheritance, name databases, time zones and floating-point noise.
