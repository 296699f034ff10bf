/**
 * The named queries generated for a cyclic component (cte.go, graph.go:458-627,1308-1376).
 * A query is reduced to its name and to the names it selects from; names are tuples, and the scope is the
 * root scope of a path without nested scopes.
 */
module CteNames {
  import opened FkGraph
  import opened Cycles
  import opened SearchTree
  import opened AllCycles

  datatype Name =
    | CycleRows(group: string, cycle: string, main: nat, overlap: bool)
    | United(group: string, main: nat)
    | Filtered(group: string, main: nat)
    | GroupIds(group: string, table: nat)
    | Ids(table: nat)

  datatype Item = Item(name: Name, refs: set<Name>)

  function QueryName(c: seq<Edge>, overlap: bool): Name
    requires c != []
  {
    CycleRows(CycleGroupId(c), CycleId(c), c[0].from, overlap)
  }

  // ---------------------------------------------------------------- which names there should be

  /** The recorded cycles of a component and the order in which their groups are processed. */
  datatype World = World(cg: ComponentGraph, cycles: seq<seq<Edge>>, order: seq<string>) {
    ghost predicate Ok() {
      && (forall c :: c in cycles ==> Genuine(cg, c) && CycleGroupId(c) in order)
      && (forall j, k :: 0 <= j < k < |cycles| ==> CycleId(cycles[j]) != CycleId(cycles[k]))
      && (forall j, k :: 0 <= j < k < |order| ==> order[j] != order[k])
      && GroupsAgree(cycles)
    }

    ghost predicate Cycle(g: string, id: string, v: nat) {
      exists c :: c in cycles && CycleGroupId(c) == g && CycleId(c) == id && v in Froms(c)
    }

    ghost predicate On(g: string, v: nat) {
      exists c :: c in cycles && CycleGroupId(c) == g && v in Froms(c)
    }

    /** More than one cycle belongs to the group. */
    ghost predicate Several(g: string) {
      exists c, d :: c in cycles && d in cycles && CycleGroupId(c) == g == CycleGroupId(d) && CycleId(c) != CycleId(d)
    }

    /** The table lies on a recorded cycle. */
    ghost predicate OnCycle(v: nat) {
      OnRecorded(cycles, v)
    }

    ghost predicate Expected(n: Name) {
      match n
      case CycleRows(g, id, v, overlap) => Cycle(g, id, v) && (overlap ==> Several(g))
      case United(g, v) => On(g, v) && Several(g)
      case Filtered(g, v) => On(g, v)
      case GroupIds(g, v) => On(g, v) && |order| != 1
      case Ids(v) => OnCycle(v)
    }

    /** References go down in rank: by group, and inside a group by the kind of query. */
    ghost function Rank(n: Name): nat {
      match n
      case CycleRows(g, _, _, overlap) => 5 * Position(order, g) + if overlap then 1 else 0
      case United(g, _) => 5 * Position(order, g) + 2
      case Filtered(g, _) => 5 * Position(order, g) + 3
      case GroupIds(g, _) => 5 * Position(order, g) + 4
      case Ids(_) => 5 * |order|
    }

    ghost predicate RefsFine(n: Name, refs: set<Name>) {
      forall r :: r in refs ==> r == n || (Expected(r) && Rank(r) < Rank(n))
    }

    /** `r` holds the keys of an earlier group for a table shared with group `g`. */
    ghost predicate Restricts(g: string, r: Name) {
      r.GroupIds? && Position(order, r.group) < Position(order, g) && On(r.group, r.table) && On(g, r.table)
    }

    /** What the query named `n` selects from. */
    ghost predicate SelectsFrom(n: Name, r: Name) {
      match n
      case CycleRows(g, id, v, overlap) =>
        r == n || Restricts(g, r) || (overlap && IsOverlap(g, id, v, r))
      case United(g, v) => r.CycleRows? && r.group == g && r.main == v && Cycle(g, r.cycle, v)
      case Filtered(g, v) =>
        if Several(g) then r == United(g, v)
        else r.CycleRows? && !r.overlap && r.group == g && r.main == v && Cycle(g, r.cycle, v)
      case GroupIds(g, _) => r.Filtered? && r.group == g && On(g, r.main)
      case Ids(v) =>
        if |order| == 1 then r.Filtered? && r.group == order[0] && On(r.group, r.main)
        else r.GroupIds? && r.table == v && On(r.group, v)
    }

    /** The rows of another cycle of the group, starting at the same table. */
    ghost predicate IsOverlap(g: string, id: string, v: nat, r: Name) {
      r.CycleRows? && !r.overlap && r.group == g && r.main == v && r.cycle != id && Cycle(g, r.cycle, v)
    }

    /** The references are exactly the right ones. */
    ghost predicate RefsRight(n: Name, refs: set<Name>) {
      forall r :: r in refs <==> SelectsFrom(n, r)
    }
  }

  ghost function Position(order: seq<string>, g: string): (k: nat)
    ensures if g in order then k < |order| && order[k] == g else k == |order|
  {
    if order == [] || order[0] == g then 0 else 1 + Position(order[1..], g)
  }

  lemma PositionIs(order: seq<string>, k: nat)
    requires k < |order| && forall i, j :: 0 <= i < j < |order| ==> order[i] != order[j]
    ensures Position(order, order[k]) == k
  {
  }

  /** The right references never dangle and lead down in rank. */
  lemma RightRefsAreFine(w: World, n: Name, refs: set<Name>)
    requires w.Ok() && w.Expected(n) && w.RefsRight(n, refs)
    ensures w.RefsFine(n, refs)
  {
    hide World.Ok, CycleGroupId, CycleId, Froms;
    forall r | r in refs
      ensures r == n || (w.Expected(r) && w.Rank(r) < w.Rank(n))
    {
      assert w.SelectsFrom(n, r);
      if !n.Ids? {
        GroupHasPosition(w, n.group, if n.GroupIds? then n.table else n.main);
      } else if |w.order| != 1 && r.GroupIds? {
        GroupHasPosition(w, r.group, n.table);
      }
    }
  }

  lemma GroupHasPosition(w: World, g: string, v: nat)
    requires w.Ok()
    ensures w.On(g, v) ==> Position(w.order, g) < |w.order|
    ensures forall id :: w.Cycle(g, id, v) ==> w.On(g, v)
  {
    hide CycleGroupId, CycleId, Froms;
  }

  // ---------------------------------------------------------------- the list of queries

  class Cte {
    ghost const world: World
    var items: seq<Item>
    var addedNames: set<Name>

    ghost predicate Valid()
      reads this
    {
      && world.Ok()
      && (forall i :: 0 <= i < |items| ==> items[i].name in addedNames)
      && (forall n :: n in addedNames ==> Defines(items, n))
      && (forall i, j :: 0 <= i < j < |items| ==> items[i].name != items[j].name)
      && (forall i :: 0 <= i < |items| ==>
           world.Expected(items[i].name) && world.RefsRight(items[i].name, items[i].refs))
    }

    ghost predicate Complete()
      reads this
    {
      forall n :: world.Expected(n) ==> n in addedNames
    }

    constructor (ghost world: World)
      requires world.Ok()
      ensures Valid() && this.world == world && addedNames == {}
    {
      this.world := world;
      items, addedNames := [], {};
    }

    method AddItem(name: Name, refs: set<Name>)
      requires Valid() && world.Expected(name) && world.RefsRight(name, refs)
      modifies this
      ensures Valid() && addedNames == old(addedNames) + {name}
      ensures items == if name in old(addedNames) then old(items) else old(items) + [Item(name, refs)]
    {
      hide World.Expected, World.RefsRight, World.Ok;
      if name in addedNames {
        return;
      }
      addedNames := addedNames + {name};
      items := items + [Item(name, refs)];
      assert items[|items| - 1].name == name;
      forall n | n in addedNames
        ensures Defines(items, n)
      {
        if n != name {
          assert Defines(old(items), n);
          var i :| 0 <= i < |old(items)| && old(items)[i].name == n;
          assert items[i].name == n;
        }
      }
    }
  }

  predicate Defines(items: seq<Item>, n: Name) {
    exists i :: 0 <= i < |items| && items[i].name == n
  }
}
