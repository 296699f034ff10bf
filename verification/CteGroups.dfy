/** Components with several groups of cycles (graph.go:482-553). */
module CteGroups {
  import opened FkGraph
  import opened Cycles
  import opened CycleSearch
  import opened CteNames
  import opened CteCycles

  // ---------------------------------------------------------------- several groups

  /** `groups[t]` holds the processed groups that table `t` is on. */
  ghost predicate ByTable(w: World, groups: map<nat, seq<string>>, done: set<string>) {
    && (forall t: nat, g: string :: t in groups && g in groups[t] <==> g in done && w.On(g, t))
    && (forall t: nat :: t in groups ==> groups[t] != [])
  }

  /** The same while the tables of group `g` are being entered. */
  ghost predicate Entering(w: World, groups: map<nat, seq<string>>, done: set<string>, g: string, tables: seq<nat>,
                           n: nat)
    requires n <= |tables|
  {
    && (forall t: nat, h: string :: t in groups && h in groups[t] <==>
         (h in done && w.On(h, t)) || (h == g && t in tables[..n]))
    && (forall t: nat :: t in groups ==> groups[t] != [])
  }

  function Prefix(order: seq<string>, n: nat): set<string>
    requires n <= |order|
  {
    set k | 0 <= k < n :: order[k]
  }

  /** Keys of the earlier groups, for the tables shared with them. */
  method RestrictByEarlier(ghost w: World, order: seq<string>, pos: nat, cs: seq<seq<Edge>>,
                           groups0: map<nat, seq<string>>)
    returns (extra: set<Name>, groups: map<nat, seq<string>>)
    requires w.Ok() && w.order == order && |order| != 1 && pos < |order|
    requires IsCycleGroup(w, order[pos], cs) && ByTable(w, groups0, Prefix(order, pos))
    ensures ExtraRight(w, order[pos], extra) && ByTable(w, groups, Prefix(order, pos + 1))
  {
    hide IsCycleGroup, CycleGroupId, CycleId, Froms, World.Ok, ByTable, Entering, World.On;
    ghost var done := Prefix(order, pos);
    var g := order[pos];
    GroupIsNotEmpty(w, g, cs);
    DistinctOrder(w, pos);
    var tables := Tos(cs[0]);
    extra, groups := {}, groups0;
    EnteringStarts(w, groups, done, g, tables);
    for k := 0 to |tables|
      invariant Entering(w, groups, done, g, tables, k) && EarlierKeys(w, done, tables, k, {}, extra)
    {
      var t := tables[k];
      NoKeysYet(w, done, tables, k, extra);
      for p := 0 to pos
        invariant EarlierKeys(w, done, tables, k, Prefix(order, p), extra)
      {
        EnteredEarlier(w, groups, done, g, tables, k, t, order[p]);
        NextKey(w, done, tables, k, order, p, extra);
        if t in groups && order[p] in groups[t] {
          extra := extra + {GroupIds(order[p], t)};
        }
      }
      AllKeysOf(w, done, tables, k, extra);
      EnterOne(w, groups, done, g, tables, k);
      groups := groups[t := (if t in groups then groups[t] else []) + [g]];
    }
    EnteringEnds(w, order, pos, cs, groups);
    EarlierIsRight(w, pos, cs, extra);
  }

  /** Keys of the groups in `done` for the first `k` tables, and of those in `some` for the next one. */
  ghost predicate EarlierKeys(w: World, done: set<string>, tables: seq<nat>, k: nat, some: set<string>,
                              extra: set<Name>)
    requires k <= |tables|
  {
    forall r :: r in extra <==>
      r.GroupIds? && w.On(r.group, r.table) &&
      ((r.table in tables[..k] && r.group in done) || (k < |tables| && r.table == tables[k] && r.group in some))
  }

  lemma NoKeysYet(w: World, done: set<string>, tables: seq<nat>, k: nat, extra: set<Name>)
    requires k < |tables| && EarlierKeys(w, done, tables, k, {}, extra)
    ensures EarlierKeys(w, done, tables, k, Prefix(w.order, 0), extra)
  {
    hide World.On;
  }

  lemma NextKey(w: World, done: set<string>, tables: seq<nat>, k: nat, order: seq<string>, p: nat, extra: set<Name>)
    requires k < |tables| && p < |order| && EarlierKeys(w, done, tables, k, Prefix(order, p), extra)
    ensures w.On(order[p], tables[k]) ==>
              EarlierKeys(w, done, tables, k, Prefix(order, p + 1), extra + {GroupIds(order[p], tables[k])})
    ensures !w.On(order[p], tables[k]) ==> EarlierKeys(w, done, tables, k, Prefix(order, p + 1), extra)
  {
    hide World.On;
    assert Prefix(order, p + 1) == Prefix(order, p) + {order[p]};
  }

  lemma AllKeysOf(w: World, done: set<string>, tables: seq<nat>, k: nat, extra: set<Name>)
    requires k < |tables| && EarlierKeys(w, done, tables, k, done, extra)
    ensures EarlierKeys(w, done, tables, k + 1, {}, extra)
  {
    hide World.On;
    assert tables[..k + 1] == tables[..k] + [tables[k]];
  }

  lemma DistinctOrder(w: World, pos: nat)
    requires w.Ok() && pos < |w.order|
    ensures w.order[pos] !in Prefix(w.order, pos) && Prefix(w.order, pos + 1) == Prefix(w.order, pos) + {w.order[pos]}
    ensures forall p :: 0 <= p < pos ==> w.order[p] in Prefix(w.order, pos)
  {
  }

  lemma EnteringStarts(w: World, groups: map<nat, seq<string>>, done: set<string>, g: string, tables: seq<nat>)
    requires ByTable(w, groups, done)
    ensures Entering(w, groups, done, g, tables, 0)
  {
    hide World.On;
  }

  lemma EnteredEarlier(w: World, groups: map<nat, seq<string>>, done: set<string>, g: string, tables: seq<nat>, n: nat,
                       t: nat, h: string)
    requires n <= |tables| && Entering(w, groups, done, g, tables, n) && h in done && g !in done
    ensures t in groups && h in groups[t] <==> w.On(h, t)
  {
    hide World.On;
  }

  lemma EnterOne(w: World, groups: map<nat, seq<string>>, done: set<string>, g: string, tables: seq<nat>, k: nat)
    requires k < |tables| && Entering(w, groups, done, g, tables, k)
    ensures var t := tables[k];
            Entering(w, groups[t := (if t in groups then groups[t] else []) + [g]], done, g, tables, k + 1)
  {
    hide World.On;
    var t := tables[k];
    var after := groups[t := (if t in groups then groups[t] else []) + [g]];
    assert tables[..k + 1] == tables[..k] + [t];
    forall x: nat, h: string
      ensures x in after && h in after[x] <==> (x in groups && h in groups[x]) || (x == t && h == g)
    {
    }
  }

  lemma EarlierIsRight(w: World, pos: nat, cs: seq<seq<Edge>>, extra: set<Name>)
    requires w.Ok() && pos < |w.order| && cs != [] && IsCycleGroup(w, w.order[pos], cs)
    requires EarlierKeys(w, Prefix(w.order, pos), Tos(cs[0]), |Tos(cs[0])|, {}, extra)
    ensures ExtraRight(w, w.order[pos], extra)
  {
    hide World.On, CycleGroupId, CycleId, Froms, IsCycleGroup;
    var g, tables := w.order[pos], Tos(cs[0]);
    FirstOfGroup(w, g, cs);
    EntersAll(w.cg, cs[0]);
    PositionIs(w.order, pos);
    assert tables[..|tables|] == tables;
    forall r: Name | r.GroupIds?
      ensures r.group in Prefix(w.order, pos) <==> Position(w.order, r.group) < Position(w.order, g)
      ensures r.table in tables <==> w.On(g, r.table)
    {
      PrefixIff(w, pos, r.group);
      OnIff(w, g, cs, r.table);
    }
  }

  lemma PrefixIff(w: World, pos: nat, h: string)
    requires w.Ok() && pos < |w.order|
    ensures h in Prefix(w.order, pos) <==> Position(w.order, h) < pos
  {
    if h in Prefix(w.order, pos) {
      var p :| 0 <= p < pos && w.order[p] == h;
      PositionIs(w.order, p);
    }
  }

  lemma EnteringEnds(w: World, order: seq<string>, pos: nat, cs: seq<seq<Edge>>, groups: map<nat, seq<string>>)
    requires w.Ok() && w.order == order && pos < |order| && cs != [] && IsCycleGroup(w, order[pos], cs)
    requires Entering(w, groups, Prefix(order, pos), order[pos], Tos(cs[0]), |Tos(cs[0])|)
    ensures ByTable(w, groups, Prefix(order, pos + 1))
  {
    hide World.Ok, IsCycleGroup, CycleGroupId, CycleId, Froms, World.On;
    var g, tables := order[pos], Tos(cs[0]);
    FirstOfGroup(w, g, cs);
    DistinctOrder(w, pos);
    EntersAll(w.cg, cs[0]);
    assert tables[..|tables|] == tables;
    forall t: nat
      ensures t in tables <==> w.On(g, t)
    {
      OnIff(w, g, cs, t);
    }
  }

  /** What processing a group leaves behind. */
  ghost predicate GroupDone(added: set<Name>, w: World, g: string) {
    && (forall c :: c in w.cycles && CycleGroupId(c) == g ==>
         HasCycleRows(added, c, false) && (w.Several(g) ==> HasCycleRows(added, c, true)))
    && (forall v: nat :: w.On(g, v) ==> Filtered(g, v) in added && (w.Several(g) ==> United(g, v) in added))
  }

  ghost predicate HasGroupIds(added: set<Name>, w: World, g: string) {
    forall v: nat :: w.On(g, v) ==> GroupIds(g, v) in added
  }

  lemma GroupIsDone(added: set<Name>, w: World, g: string, cs: seq<seq<Edge>>)
    requires w.Ok() && IsCycleGroup(w, g, cs)
    requires HasGroupRows(added, cs, |cs|) && HasFiltered(added, g, |cs| > 1, Froms(cs[0]))
    ensures GroupDone(added, w, g)
  {
    hide World.Ok, CycleId, Froms, HasCycleRows, CycleGroupId;
    SeveralIff(w, g, cs);
    forall c | c in w.cycles && CycleGroupId(c) == g
      ensures HasCycleRows(added, c, false) && (w.Several(g) ==> HasCycleRows(added, c, true))
    {
      assert c in cs;
    }
    forall v: nat | w.On(g, v)
      ensures v in Froms(cs[0])
    {
      OnIff(w, g, cs, v);
    }
  }

  lemma DoneStays(before: set<Name>, added: set<Name>, w: World, g: string)
    requires before <= added
    ensures GroupDone(before, w, g) ==> GroupDone(added, w, g)
    ensures HasGroupIds(before, w, g) ==> HasGroupIds(added, w, g)
  {
    hide CycleGroupId, CycleId, World.On, World.Several, Froms;
  }

  method GetCycleGroup(component: Component, ghost w: World, g: string) returns (cs: seq<seq<Edge>>)
    requires component.Sound() && Grouped(component.cycles, component.groupedCycles) && g in component.groupedCycles
    requires w.cycles == component.cycles && w.Ok()
    ensures IsCycleGroup(w, g, cs)
  {
    hide World.Ok, CycleGroupId, CycleId, Component.Sound;
    var group := component.groupedCycles[g];
    assert IsGroup(component.cycles, g, group);
    cs := [];
    for k := 0 to |group|
      invariant |cs| == k && forall i :: 0 <= i < k ==>
                  group[i] < |component.cycles| && cs[i] == component.cycles[group[i]]
    {
      assert group[k] in group;
      cs := cs + [component.cycles[group[k]]];
    }
    GroupListed(w, g, group, cs);
  }

  lemma GroupListed(w: World, g: string, group: seq<nat>, cs: seq<seq<Edge>>)
    requires w.Ok() && IsGroup(w.cycles, g, group) && |cs| == |group|
    requires forall i :: 0 <= i < |group| ==> group[i] < |w.cycles| && cs[i] == w.cycles[group[i]]
    requires forall k: nat :: k < |w.cycles| && CycleGroupId(w.cycles[k]) == g ==> k in group
    ensures IsCycleGroup(w, g, cs)
  {
    hide CycleGroupId, CycleId;
    forall c
      ensures c in cs <==> c in w.cycles && CycleGroupId(c) == g
    {
      if c in cs {
        var i :| 0 <= i < |cs| && cs[i] == c;
        assert group[i] in group;
      }
      if c in w.cycles && CycleGroupId(c) == g {
        var k: nat :| k < |w.cycles| && w.cycles[k] == c;
        var i :| 0 <= i < |group| && group[i] == k;
        assert cs[i] == c;
      }
    }
  }

  method GenerateGroupKeys(cq: Cte, g: string, cs: seq<seq<Edge>>)
    requires cq.Valid() && IsCycleGroup(cq.world, g, cs) && |cq.world.order| != 1
    modifies cq
    ensures cq.Valid() && old(cq.addedNames) <= cq.addedNames && HasGroupIds(cq.addedNames, cq.world, g)
  {
    hide World.Ok, Cte.Valid, CycleGroupId, CycleId, Froms, IsCycleGroup, World.Expected, World.RefsRight, World.On;
    ghost var w := cq.world;
    ValidWorld(cq);
    FirstOfGroup(w, g, cs);
    GroupIsNotEmpty(w, g, cs);
    var tables := Tos(cs[0]);
    for k := 0 to |tables|
      invariant cq.Valid() && cq.world == w && old(cq.addedNames) <= cq.addedNames
      invariant forall i :: 0 <= i < k ==> GroupIds(g, tables[i]) in cq.addedNames
    {
      assert tables[k] in tables;
      KeysFine(w, g, cs, tables[k]);
      cq.AddItem(GroupIds(g, tables[k]), FilteredRefs(g, tables));
    }
    EntersAll(w.cg, cs[0]);
    forall v: nat | w.On(g, v)
      ensures GroupIds(g, v) in cq.addedNames
    {
      OnIff(w, g, cs, v);
    }
  }

  ghost predicate GroupsDone(added: set<Name>, w: World, done: set<string>) {
    forall g :: g in done ==> GroupDone(added, w, g) && HasGroupIds(added, w, g)
  }

  lemma GroupsStayDone(before: set<Name>, added: set<Name>, w: World, done: set<string>)
    requires GroupsDone(before, w, done) && before <= added
    ensures GroupsDone(added, w, done)
  {
    hide GroupDone, HasGroupIds;
    forall g | g in done
      ensures GroupDone(added, w, g) && HasGroupIds(added, w, g)
    {
      DoneStays(before, added, w, g);
    }
  }

  /** Groups in order, each restricted by the keys of the earlier groups; then the common keys of each table. */
  method GenerateQueriesForMultiGroupScc(cq: Cte, component: Component, order: seq<string>)
    requires cq.Valid() && component.Sound() && Grouped(component.cycles, component.groupedCycles)
    requires cq.world.cycles == component.cycles && cq.world.order == order && |order| != 1
    requires forall g :: g in order ==> g in component.groupedCycles
    modifies cq
    ensures cq.Valid() && cq.Complete()
  {
    hide World.Ok, Cte.Valid, Cte.Complete, CycleGroupId, CycleId, Froms, IsCycleGroup, ByTable, GroupsDone, GroupDone;
    hide HasGroupIds, ExtraRight;
    hide HasGroupRows, HasFiltered, Prefix, Grouped, Component.Sound;
    ghost var w := cq.world;
    ValidWorld(cq);
    var byTable: map<nat, seq<string>> := map[];
    NothingDone(cq.addedNames, w);
    for pos := 0 to |order|
      invariant cq.Valid() && cq.world == w && ByTable(w, byTable, Prefix(order, pos)) &&
                GroupsDone(cq.addedNames, w, Prefix(order, pos))
    {
      ghost var before := cq.addedNames;
      var g := order[pos];
      var cs := GetCycleGroup(component, w, g);
      var extra: set<Name>;
      extra, byTable := RestrictByEarlier(w, order, pos, cs, byTable);
      GenerateGroup(cq, g, cs, extra);
      GroupIsDone(cq.addedNames, w, g, cs);
      ghost var middle := cq.addedNames;
      GenerateGroupKeys(cq, g, cs);
      NextGroupDone(before, middle, cq.addedNames, w, pos);
    }
    GenerateCommonKeys(cq, w, order, byTable);
  }

  lemma NothingDone(added: set<Name>, w: World)
    ensures ByTable(w, map[], Prefix(w.order, 0)) && GroupsDone(added, w, Prefix(w.order, 0))
  {
  }

  lemma NextGroupDone(before: set<Name>, middle: set<Name>, added: set<Name>, w: World, pos: nat)
    requires w.Ok() && pos < |w.order| && before <= middle <= added && GroupsDone(before, w, Prefix(w.order, pos))
    requires GroupDone(middle, w, w.order[pos]) && HasGroupIds(added, w, w.order[pos])
    ensures GroupsDone(added, w, Prefix(w.order, pos + 1))
  {
    hide World.Ok, GroupDone, HasGroupIds, Prefix;
    DistinctOrder(w, pos);
    DoneStays(middle, added, w, w.order[pos]);
    GroupsStayDone(before, added, w, Prefix(w.order, pos));
  }

  method GenerateCommonKeys(cq: Cte, ghost w: World, ghost order: seq<string>, byTable: map<nat, seq<string>>)
    requires cq.Valid() && cq.world == w && w.order == order && |order| != 1
    requires ByTable(w, byTable, Prefix(order, |order|)) && GroupsDone(cq.addedNames, w, Prefix(order, |order|))
    modifies cq
    ensures cq.Valid() && cq.Complete()
  {
    hide World.Ok, Cte.Valid, Cte.Complete, ByTable, GroupsDone, Prefix, World.Expected, World.RefsRight;
    ValidWorld(cq);
    var tables := SortVertices(byTable.Keys);
    ghost var before := cq.addedNames;
    for k := 0 to |tables|
      invariant cq.Valid() && cq.world == w && before <= cq.addedNames
      invariant forall i :: 0 <= i < k ==> Ids(tables[i]) in cq.addedNames
    {
      var t := tables[k];
      assert t in Members(tables);
      CommonKeysFine(w, byTable, t);
      cq.AddItem(Ids(t), set g | g in byTable[t] :: GroupIds(g, t));
    }
    GroupsStayDone(before, cq.addedNames, w, Prefix(order, |order|));
    forall t | t in byTable
      ensures Ids(t) in cq.addedNames
    {
      assert t in Members(tables);
    }
    AllGroupsDone(cq, w, byTable);
  }

  lemma CommonKeysFine(w: World, byTable: map<nat, seq<string>>, t: nat)
    requires w.Ok() && |w.order| != 1 && ByTable(w, byTable, Prefix(w.order, |w.order|)) && t in byTable
    ensures w.Expected(Ids(t)) && w.RefsRight(Ids(t), set g | g in byTable[t] :: GroupIds(g, t))
  {
    hide World.Ok, CycleGroupId, CycleId, Froms;
    assert byTable[t][0] in byTable[t];
    forall g | g in byTable[t]
      ensures w.On(g, t) && g in w.order
    {
      assert t in byTable && g in byTable[t];
    }
    forall g | w.On(g, t)
      ensures g in byTable[t]
    {
      var c :| c in w.cycles && CycleGroupId(c) == g && t in Froms(c);
      InOrder(w, g);
    }
  }

  lemma AllGroupsDone(cq: Cte, w: World, byTable: map<nat, seq<string>>)
    requires cq.world == w && w.Ok()
    requires ByTable(w, byTable, Prefix(w.order, |w.order|)) && GroupsDone(cq.addedNames, w, Prefix(w.order, |w.order|))
    requires forall t :: t in byTable ==> Ids(t) in cq.addedNames
    ensures cq.Complete()
  {
    hide CycleId, Froms, CycleGroupId;
    forall n | w.Expected(n)
      ensures n in cq.addedNames
    {
      if n.Ids? {
        var c :| c in w.cycles && n.table in Froms(c);
        InOrder(w, CycleGroupId(c));
        assert w.On(CycleGroupId(c), n.table);
      } else {
        var v := if n.GroupIds? then n.table else n.main;
        var c :| c in w.cycles && CycleGroupId(c) == n.group && v in Froms(c) &&
          (n.CycleRows? ==> CycleId(c) == n.cycle);
        InOrder(w, n.group);
        assert w.On(n.group, v);
        assert GroupDone(cq.addedNames, w, n.group);
      }
    }
  }

  lemma InOrder(w: World, g: string)
    requires w.Ok() && exists c :: c in w.cycles && CycleGroupId(c) == g
    ensures g in Prefix(w.order, |w.order|)
  {
    hide CycleGroupId, CycleId;
    var c :| c in w.cycles && CycleGroupId(c) == g;
    var k :| 0 <= k < |w.order| && w.order[k] == g;
  }
}
