/** The whole query of a cyclic component and the part kept for one table (cte.go:40-82, graph.go:375-384,458-480). */
module CteQuery {
  import opened FkGraph
  import opened Cycles
  import opened SearchTree
  import opened AllCycles
  import opened CycleSearch
  import opened CycleGroups
  import opened CteNames
  import opened CteCycles
  import opened CteGroups

  // ---------------------------------------------------------------- the whole query

  method GenerateQueryForScc(cq: Cte, component: Component, order: seq<string>)
    requires cq.Valid() && component.Sound() && Grouped(component.cycles, component.groupedCycles)
    requires cq.world.cycles == component.cycles && cq.world.order == order
    requires forall g :: g in order <==> g in component.groupedCycles
    modifies cq
    ensures cq.Valid() && cq.Complete()
  {
    hide World.Ok, Cte.Valid, Cte.Complete, CycleGroupId, CycleId, Froms, IsCycleGroup, GroupDone, ExtraRight;
    hide HasGroupRows, HasFiltered, Grouped, Component.Sound, HasIds;
    ghost var w := cq.world;
    ValidWorld(cq);
    if |order| == 1 {
      assert order[0] in order;
      var cs := GetCycleGroup(component, w, order[0]);
      GroupIsNotEmpty(w, order[0], cs);
      FirstOfGroup(w, order[0], cs);
      NothingExtra(w, order[0]);
      GenerateGroup(cq, order[0], cs, {});
      GroupIsDone(cq.addedNames, w, order[0], cs);
      ghost var before := cq.addedNames;
      GenerateQueriesForVertexesInCycle(cq, cs);
      DoneStays(before, cq.addedNames, w, order[0]);
      OneGroupDone(cq, w, cs);
    } else {
      GenerateQueriesForMultiGroupScc(cq, component, order);
    }
  }

  lemma NothingExtra(w: World, g: string)
    requires w.order == [g]
    ensures ExtraRight(w, g, {})
  {
  }

  lemma OneGroupDone(cq: Cte, w: World, cs: seq<seq<Edge>>)
    requires cq.world == w && w.Ok() && |w.order| == 1 && IsCycleGroup(w, w.order[0], cs)
    requires GroupDone(cq.addedNames, w, w.order[0]) && HasIds(cq.addedNames, Froms(cs[0]))
    ensures cq.Complete()
  {
    hide CycleId, Froms, CycleGroupId, IsCycleGroup;
    var g := w.order[0];
    forall n | w.Expected(n)
      ensures n in cq.addedNames
    {
      if n.Ids? {
        var c :| c in w.cycles && n.table in Froms(c);
        assert CycleGroupId(c) in w.order;
        assert w.On(g, n.table);
        OnIff(w, g, cs, n.table);
      } else if !n.GroupIds? {
        var c :| c in w.cycles && CycleGroupId(c) == n.group && n.main in Froms(c) &&
          (n.CycleRows? ==> CycleId(c) == n.cycle);
        assert CycleGroupId(c) in w.order;
        assert w.On(g, n.main);
      }
    }
  }

  /** Every name a query selects from is defined by a query of the list. */
  ghost predicate NoDangling(queries: seq<Item>, result: Name) {
    && (forall i :: 0 <= i < |queries| ==> forall r :: r in queries[i].refs ==> Defines(queries, r))
    && Defines(queries, result)
  }

  /** Apart from a query selecting from itself, selections lead down. */
  ghost predicate SelectsDown(w: World, queries: seq<Item>) {
    forall i :: 0 <= i < |queries| ==> forall r :: r in queries[i].refs ==>
        r == queries[i].name || w.Rank(r) < w.Rank(queries[i].name)
  }

  ghost predicate NamesDiffer(queries: seq<Item>) {
    forall i, j :: 0 <= i < j < |queries| ==> queries[i].name != queries[j].name
  }

  /** The final keys of the other tables of the component are left out. */
  function Selected(items: seq<Item>, tables: set<nat>, target: nat): (r: seq<Item>)
    ensures forall x :: x in r <==> x in items && !(x.name.Ids? && x.name.table in tables && x.name.table != target)
  {
    if items == [] then []
    else
      var last := items[|items| - 1];
      assert items == items[..|items| - 1] + [last];
      Selected(items[..|items| - 1], tables, target) +
      (if last.name.Ids? && last.name.table in tables && last.name.table != target then [] else [last])
  }

  lemma {:induction false} SelectedDiffer(items: seq<Item>, tables: set<nat>, target: nat)
    requires NamesDiffer(items)
    ensures NamesDiffer(Selected(items, tables, target))
  {
    if items != [] {
      var init, last := items[..|items| - 1], items[|items| - 1];
      SelectedDiffer(init, tables, target);
      forall x | x in Selected(init, tables, target)
        ensures x.name != last.name
      {
        assert x in init;
      }
    }
  }

  method GenerateQuerySelect(cq: Cte, tables: set<nat>, target: nat) returns (queries: seq<Item>)
    requires cq.Valid() && cq.Complete()
    ensures NamesDiffer(queries) && SelectsDown(cq.world, queries)
    ensures forall i :: 0 <= i < |queries| ==> cq.world.RefsRight(queries[i].name, queries[i].refs)
    ensures NoDangling(queries, Ids(target)) <==> cq.world.OnCycle(target)
    ensures forall v :: Defines(queries, Ids(v)) ==> v == target || v !in tables
    ensures forall n :: cq.world.Expected(n) && (n.Ids? ==> n.table == target) ==> Defines(queries, n)
  {
    hide World.Ok, World.Expected, World.RefsRight;
    queries := [];
    for k := 0 to |cq.items|
      invariant queries == Selected(cq.items[..k], tables, target)
    {
      assert cq.items[..k + 1][..k] == cq.items[..k];
      var item := cq.items[k];
      if !(item.name.Ids? && item.name.table in tables && item.name.table != target) {
        queries := queries + [item];
      }
    }
    assert cq.items[..|cq.items|] == cq.items;
    SelectedDiffer(cq.items, tables, target);
    SelectionIsClosed(cq, tables, target);
    forall n | cq.world.Expected(n) && (n.Ids? ==> n.table == target)
      ensures Defines(queries, n)
    {
      NameIsKept(cq, tables, target, n);
    }
    forall i | 0 <= i < |queries|
      ensures cq.world.RefsRight(queries[i].name, queries[i].refs)
    {
      assert queries[i] in cq.items;
    }
  }

  lemma SelectionIsClosed(cq: Cte, tables: set<nat>, target: nat)
    requires cq.Valid() && cq.Complete()
    ensures var queries := Selected(cq.items, tables, target);
            SelectsDown(cq.world, queries) && (NoDangling(queries, Ids(target)) <==> cq.world.OnCycle(target))
    ensures forall v :: Defines(Selected(cq.items, tables, target), Ids(v)) ==> v == target || v !in tables
  {
    hide World.Ok, World.Rank, World.RefsRight;
    var queries, w := Selected(cq.items, tables, target), cq.world;
    forall i, r | 0 <= i < |queries| && r in queries[i].refs
      ensures Defines(queries, r) && (r == queries[i].name || w.Rank(r) < w.Rank(queries[i].name))
    {
      assert queries[i] in queries;
      var k :| 0 <= k < |cq.items| && cq.items[k] == queries[i];
      RefIsKept(cq, tables, target, cq.items[k], r);
    }
    if w.OnCycle(target) {
      assert w.Expected(Ids(target));
      NameIsKept(cq, tables, target, Ids(target));
    }
    if Defines(queries, Ids(target)) {
      DefinedIsExpected(cq, queries, Ids(target));
    }
  }

  lemma DefinedIsExpected(cq: Cte, queries: seq<Item>, n: Name)
    requires cq.Valid() && Defines(queries, n) && forall x :: x in queries ==> x in cq.items
    ensures cq.world.Expected(n)
  {
    hide World.Ok, World.Expected, World.RefsRight;
    var i :| 0 <= i < |queries| && queries[i].name == n;
    assert queries[i] in queries;
    var k :| 0 <= k < |cq.items| && cq.items[k] == queries[i];
  }

  lemma NameIsKept(cq: Cte, tables: set<nat>, target: nat, n: Name)
    requires cq.Valid() && n in cq.addedNames && !(n.Ids? && n.table in tables && n.table != target)
    ensures Defines(Selected(cq.items, tables, target), n)
  {
    hide World.Ok, World.Expected, World.RefsRight;
    assert Defines(cq.items, n);
    var i :| 0 <= i < |cq.items| && cq.items[i].name == n;
    assert cq.items[i] in Selected(cq.items, tables, target);
  }

  /** No query but the final selection itself selects from the final keys of a table. */
  lemma RefIsKept(cq: Cte, tables: set<nat>, target: nat, item: Item, r: Name)
    requires cq.Valid() && cq.Complete() && item in cq.items && r in item.refs
    requires item in Selected(cq.items, tables, target)
    ensures Defines(Selected(cq.items, tables, target), r)
    ensures r == item.name || cq.world.Rank(r) < cq.world.Rank(item.name)
  {
    hide World.Ok, World.Expected, World.Rank, World.RefsRight;
    var k :| 0 <= k < |cq.items| && cq.items[k] == item;
    assert cq.world.RefsRight(cq.items[k].name, cq.items[k].refs);
    RightRefsAreFine(cq.world, item.name, item.refs);
    if r == item.name {
      NameIsKept(cq, tables, target, r);
    } else {
      NotTopRank(cq.world, r, item.name);
      NameIsKept(cq, tables, target, r);
    }
  }

  lemma NotTopRank(w: World, r: Name, n: Name)
    requires w.Rank(r) < w.Rank(n) && w.Ok() && w.Expected(n)
    ensures !r.Ids?
  {
    hide CycleGroupId, CycleId, Froms;
    if !n.Ids? {
      var c :| c in w.cycles && CycleGroupId(c) == n.group;
    }
  }

  /**
   * The query for one table of a cyclic component: nothing dangles exactly when some reference spans the table in
   * the search order of the component, and no two different queries select from each other.
   */
  method GenerateAndSetQueryForScc(cg: ComponentGraph, conditioned: set<nat>, target: nat)
    returns (queries: seq<Item>, ghost w: World)
    requires Coherent(cg) && HasClosedChain(cg)
    ensures w.Ok() && w.cg == cg && w.cycles != []
    ensures RecordsExactly(cg, w.cycles) && MeetsEveryChain(cg, w.cycles)
    ensures StronglyConnected(cg) ==> (AllRecorded(cg, w.cycles) <==> OneSimpleChain(cg))
    ensures NamesDiffer(queries) && SelectsDown(w, queries)
    ensures forall i :: 0 <= i < |queries| ==> w.RefsRight(queries[i].name, queries[i].refs)
    ensures w.OnCycle(target) <==> SpannedIn(cg, target)
    ensures NoDangling(queries, Ids(target)) <==> SpannedIn(cg, target)
    ensures forall c, x :: c in w.cycles && target in Froms(c) && x in Froms(c) ==>
              DrawsOn(queries, Ids(target), CycleRows(CycleGroupId(c), CycleId(c), x, false))
    ensures forall c, d, x :: c in w.cycles && d in w.cycles && target in Froms(c) && x in Froms(c) ==>
              CycleGroupId(d) == CycleGroupId(c) && CycleId(d) != CycleId(c) ==>
                OverlapDrawn(queries, Ids(target), c, d, x)
    ensures forall c, d, x, t :: c in w.cycles && d in w.cycles && x in Froms(c) && t in Froms(c) && t in Froms(d) ==>
              Position(w.order, CycleGroupId(d)) < Position(w.order, CycleGroupId(c)) ==>
                SelectsDirectly(queries, CycleRows(CycleGroupId(c), CycleId(c), x, false), GroupIds(CycleGroupId(d), t))
  {
    hide RecordsExactly, SpannedIn, Coherent, HasClosedChain, MeetsEveryChain, World.RefsRight, World.Ok, Cte.Valid;
    hide Cte.Complete, Component.Sound;
    hide Grouped, AllJustified, OwnFirst, World.OnCycle, Searched, Recorded, StronglyConnected, AllRecorded;
    hide OneSimpleChain;
    var component := new Component(cg);
    var order := SortGroups(component, conditioned);
    w := World(cg, component.cycles, order);
    OnCycleIff(component, w, target);
    OrderFits(component, order);
    var cq := new Cte(w);
    GenerateQueryForScc(cq, component, order);
    queries := GenerateQuerySelect(cq, cg.Keys, target);
    hide World.Expected, DrawsOn, SelectsDirectly, Froms, CycleGroupId, CycleId, Position, Selected, OverlapDrawn;
    forall c, d, x | c in w.cycles && d in w.cycles && target in Froms(c) && x in Froms(c)
      ensures CycleGroupId(d) == CycleGroupId(c) && CycleId(d) != CycleId(c) ==>
                OverlapDrawn(queries, Ids(target), c, d, x)
    {
      if CycleGroupId(d) == CycleGroupId(c) && CycleId(d) != CycleId(c) {
        OverlapIsDrawn(w, queries, target, c, d, x);
      }
    }
    forall c, x | c in w.cycles && target in Froms(c) && x in Froms(c)
      ensures DrawsOn(queries, Ids(target), CycleRows(CycleGroupId(c), CycleId(c), x, false))
    {
      DrawsOnCycle(w, queries, target, c, x);
    }
    forall c, d, x, t | c in w.cycles && d in w.cycles && x in Froms(c) && t in Froms(c) && t in Froms(d) &&
      Position(w.order, CycleGroupId(d)) < Position(w.order, CycleGroupId(c))
      ensures SelectsDirectly(queries, CycleRows(CycleGroupId(c), CycleId(c), x, false), GroupIds(CycleGroupId(d), t))
    {
      RestrictedDirectly(w, queries, target, c, d, x, t);
    }
  }

  // ---------------------------------------------------------------- which rows a query draws on

  /** A query of that name selects from the other one. */
  ghost predicate SelectsDirectly(queries: seq<Item>, n: Name, r: Name) {
    exists i :: 0 <= i < |queries| && queries[i].name == n && r in queries[i].refs
  }

  /** A chain of selections leads from the one name to the other. */
  ghost predicate DrawsOn(queries: seq<Item>, n: Name, r: Name) {
    exists p: seq<Name> :: |p| > 1 && p[0] == n && p[|p| - 1] == r &&
                           forall i :: 0 <= i < |p| - 1 ==> SelectsDirectly(queries, p[i], p[i + 1])
  }

  /** The overlap rows of `c` count for the keys as well, and they look into the rows of the other cycle `d`. */
  ghost predicate OverlapDrawn(queries: seq<Item>, ids: Name, c: seq<Edge>, d: seq<Edge>, x: nat) {
    var rows, overlap, others := CycleRows(CycleGroupId(c), CycleId(c), x, false),
                                 CycleRows(CycleGroupId(c), CycleId(c), x, true),
                                 CycleRows(CycleGroupId(d), CycleId(d), x, false);
    && DrawsOn(queries, ids, overlap) && SelectsDirectly(queries, overlap, others)
    && SelectsDirectly(queries, overlap, overlap) && SelectsDirectly(queries, rows, rows)
  }

  ghost predicate AllThere(w: World, queries: seq<Item>, target: nat) {
    && (forall i :: 0 <= i < |queries| ==> w.RefsRight(queries[i].name, queries[i].refs))
    && (forall n :: w.Expected(n) && (n.Ids? ==> n.table == target) ==> Defines(queries, n))
  }

  lemma SelectsRight(w: World, queries: seq<Item>, target: nat, n: Name, r: Name)
    requires AllThere(w, queries, target) && w.Expected(n) && (n.Ids? ==> n.table == target) && w.SelectsFrom(n, r)
    ensures SelectsDirectly(queries, n, r)
  {
    hide World.Expected, World.SelectsFrom;
    assert Defines(queries, n);
    var i :| 0 <= i < |queries| && queries[i].name == n;
    assert w.RefsRight(queries[i].name, queries[i].refs);
  }

  lemma DrawFirst(queries: seq<Item>, n: Name, r: Name)
    requires SelectsDirectly(queries, n, r)
    ensures DrawsOn(queries, n, r)
  {
    hide SelectsDirectly;
    var p := [n, r];
    assert |p| == 2 && p[0] == n && p[1] == r;
  }

  lemma DrawThrough(queries: seq<Item>, n: Name, m: Name, r: Name)
    requires SelectsDirectly(queries, n, m) && DrawsOn(queries, m, r)
    ensures DrawsOn(queries, n, r)
  {
    hide SelectsDirectly;
    var p: seq<Name> :| |p| > 1 && p[0] == m && p[|p| - 1] == r &&
                        forall i :: 0 <= i < |p| - 1 ==> SelectsDirectly(queries, p[i], p[i + 1]);
    var q := [n] + p;
    forall i | 0 <= i < |q| - 1
      ensures SelectsDirectly(queries, q[i], q[i + 1])
    {
      if i > 0 {
        assert q[i] == p[i - 1] && q[i + 1] == p[i - 1 + 1];
      }
    }
    assert q[|q| - 1] == r && q[0] == n;
  }

  /** The final keys of a table draw on whatever the filtered rows of its group draw on. */
  lemma FilteredDrawn(w: World, queries: seq<Item>, target: nat, g: string, x: nat, rows: Name)
    requires w.Ok() && AllThere(w, queries, target) && w.On(g, x) && w.On(g, target) && g in w.order
    requires w.OnCycle(target) && DrawsOn(queries, Filtered(g, x), rows)
    ensures DrawsOn(queries, Ids(target), rows)
  {
    hide AllThere, DrawsOn, SelectsDirectly, CycleGroupId, CycleId, Froms, Genuine, GroupsAgree, World.On;
    if |w.order| == 1 {
      SelectsRight(w, queries, target, Ids(target), Filtered(g, x));
      DrawThrough(queries, Ids(target), Filtered(g, x), rows);
    } else {
      SelectsRight(w, queries, target, GroupIds(g, target), Filtered(g, x));
      DrawThrough(queries, GroupIds(g, target), Filtered(g, x), rows);
      SelectsRight(w, queries, target, Ids(target), GroupIds(g, target));
      DrawThrough(queries, Ids(target), GroupIds(g, target), rows);
    }
  }

  lemma UnitedDrawn(w: World, queries: seq<Item>, target: nat, g: string, x: nat, rows: Name)
    requires w.Ok() && AllThere(w, queries, target) && w.Several(g) && w.On(g, x)
    requires SelectsDirectly(queries, United(g, x), rows)
    ensures DrawsOn(queries, Filtered(g, x), rows)
  {
    hide AllThere, DrawsOn, SelectsDirectly, World.On, World.Several;
    DrawFirst(queries, United(g, x), rows);
    SelectsRight(w, queries, target, Filtered(g, x), United(g, x));
    DrawThrough(queries, Filtered(g, x), United(g, x), rows);
  }

  /** The final keys of a table draw on the rows of every recorded cycle through it, started at each of its tables. */
  lemma DrawsOnCycle(w: World, queries: seq<Item>, target: nat, c: seq<Edge>, x: nat)
    requires w.Ok() && AllThere(w, queries, target) && c in w.cycles && target in Froms(c) && x in Froms(c)
    ensures DrawsOn(queries, Ids(target), CycleRows(CycleGroupId(c), CycleId(c), x, false))
  {
    hide AllThere, DrawsOn, SelectsDirectly, CycleGroupId, CycleId, Froms, Genuine, GroupsAgree;
    var g, rows := CycleGroupId(c), CycleRows(CycleGroupId(c), CycleId(c), x, false);
    assert g in w.order && w.On(g, x) && w.On(g, target) && w.OnCycle(target) && w.Cycle(g, CycleId(c), x);
    if w.Several(g) {
      SelectsRight(w, queries, target, United(g, x), rows);
      UnitedDrawn(w, queries, target, g, x, rows);
    } else {
      SelectsRight(w, queries, target, Filtered(g, x), rows);
      DrawFirst(queries, Filtered(g, x), rows);
    }
    FilteredDrawn(w, queries, target, g, x, rows);
  }

  lemma OverlapIsDrawn(w: World, queries: seq<Item>, target: nat, c: seq<Edge>, d: seq<Edge>, x: nat)
    requires w.Ok() && AllThere(w, queries, target) && c in w.cycles && d in w.cycles
    requires target in Froms(c) && x in Froms(c) && CycleGroupId(d) == CycleGroupId(c) && CycleId(d) != CycleId(c)
    ensures OverlapDrawn(queries, Ids(target), c, d, x)
  {
    hide AllThere, DrawsOn, SelectsDirectly, CycleGroupId, CycleId, Froms, Genuine, GroupsAgree;
    var g, id := CycleGroupId(c), CycleId(c);
    MemberOfGroup(w, c, d, x);
    assert w.Cycle(g, id, x) && w.Cycle(g, CycleId(d), x) && w.Several(g) && g in w.order;
    assert w.On(g, x) && w.On(g, target) && w.OnCycle(target);
    SelectsRight(w, queries, target, United(g, x), CycleRows(g, id, x, true));
    UnitedDrawn(w, queries, target, g, x, CycleRows(g, id, x, true));
    FilteredDrawn(w, queries, target, g, x, CycleRows(g, id, x, true));
    SelectsRight(w, queries, target, CycleRows(g, id, x, true), CycleRows(g, CycleId(d), x, false));
    SelectsRight(w, queries, target, CycleRows(g, id, x, true), CycleRows(g, id, x, true));
    SelectsRight(w, queries, target, CycleRows(g, id, x, false), CycleRows(g, id, x, false));
  }

  /** The rows of a cycle are restricted by the keys of every earlier group, for each table shared with it. */
  lemma RestrictedDirectly(w: World, queries: seq<Item>, target: nat, c: seq<Edge>, d: seq<Edge>, x: nat, t: nat)
    requires w.Ok() && AllThere(w, queries, target) && c in w.cycles && d in w.cycles
    requires x in Froms(c) && t in Froms(c) && t in Froms(d)
    requires Position(w.order, CycleGroupId(d)) < Position(w.order, CycleGroupId(c))
    ensures SelectsDirectly(queries, CycleRows(CycleGroupId(c), CycleId(c), x, false), GroupIds(CycleGroupId(d), t))
  {
    hide AllThere, SelectsDirectly, CycleGroupId, CycleId, Froms, Genuine, GroupsAgree, Position;
    var g, h := CycleGroupId(c), CycleGroupId(d);
    assert w.Cycle(g, CycleId(c), x) && w.On(g, t) && w.On(h, t);
    SelectsRight(w, queries, target, CycleRows(g, CycleId(c), x, false), GroupIds(h, t));
  }

  lemma OnCycleIff(component: Component, w: World, v: nat)
    requires component.Sound() && w.cycles == component.cycles
    ensures w.OnCycle(v) <==> SpannedIn(component.componentGraph, v)
  {
    hide Searched, Recorded, OnRecorded, SpannedIn;
    OnRecordedIff(component.componentGraph, component.trunk, component.cycles, component.cyclesIdents, v);
  }

  lemma OrderFits(component: Component, order: seq<string>)
    requires component.Sound() && Grouped(component.cycles, component.groupedCycles)
    requires multiset(order) == multiset(component.groupedCycles.Keys)
    ensures World(component.componentGraph, component.cycles, order).Ok()
    ensures forall g :: g in order <==> g in component.groupedCycles
  {
    hide CycleGroupId, CycleId, Genuine, SameButLast, Searched, ClosersDiffer;
    forall g
      ensures g in order <==> g in component.groupedCycles
    {
      assert g in order <==> g in multiset(order);
    }
    forall j, k | 0 <= j < k < |order|
      ensures order[j] != order[k]
    {
      TwiceCounts(order, j, k);
      assert multiset(order)[order[j]] <= 1;
    }
  }

  lemma TwiceCounts(order: seq<string>, j: nat, k: nat)
    requires j < k < |order|
    ensures order[j] == order[k] ==> multiset(order)[order[j]] >= 2
  {
    assert order == order[..j] + [order[j]] + order[j + 1..k] + [order[k]] + order[k + 1..];
  }
}
