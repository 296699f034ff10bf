/**
 * The tree of a depth-first search over a component and what it says about the recorded cycles
 * (component.go:174-232). `trunk[v]` is the path on which the search entered table `v`.
 */
module SearchTree {
  import opened FkGraph
  import opened Cycles
  import opened SearchOrder

  type Trunks = map<nat, seq<Edge>>

  /** The tables that the trunks leave. */
  ghost function TablesOf(trunk: Trunks): (l: Lineage)
    ensures l.Keys == trunk.Keys && forall v :: v in trunk ==> l[v] == FromSeq(trunk[v])
  {
    map v | v in trunk :: FromSeq(trunk[v])
  }

  // ---------------------------------------------------------------- simple chains

  /** The edges of `p` lead from `u` to `v`. */
  ghost predicate Leads(cg: ComponentGraph, p: seq<Edge>, u: nat, v: nat) {
    IsChain(cg, p) && if p == [] then u == v else p[0].from == u && Last(p).to == v
  }

  /** They do so without visiting a table twice. */
  ghost predicate SimpleChain(cg: ComponentGraph, p: seq<Edge>, u: nat, v: nat) {
    Leads(cg, p, u, v) && DistinctFroms(p) && v !in Froms(p)
  }

  ghost predicate Connected(cg: ComponentGraph, u: nat, v: nat) {
    exists p: seq<Edge> :: Leads(cg, p, u, v)
  }

  ghost predicate StronglyConnected(cg: ComponentGraph) {
    forall u, v :: u in cg && v in cg ==> Connected(cg, u, v)
  }

  ghost predicate IsLeast(cg: ComponentGraph, r: nat) {
    r in cg && forall v :: v in cg ==> r <= v
  }

  /** No table is reached from the least one by two different simple chains. */
  ghost predicate OneSimpleChain(cg: ComponentGraph) {
    forall r, v, p, q :: IsLeast(cg, r) && SimpleChain(cg, p, r, v) && SimpleChain(cg, q, r, v) ==> p == q
  }

  /** Any chain can be cut short to a simple one. */
  lemma {:induction false} Shorten(cg: ComponentGraph, p: seq<Edge>, u: nat, v: nat) returns (q: seq<Edge>)
    requires Leads(cg, p, u, v)
    ensures SimpleChain(cg, q, u, v) && |q| <= |p|
    decreases |p|
  {
    if u == v {
      q := [];
    } else {
      var rest := Shorten(cg, p[1..], p[0].to, v);
      if k :| 0 <= k < |rest| && rest[k].from == u {
        q := rest[k..];
        SuffixIsSimple(cg, rest, p[0].to, v, k);
      } else {
        q := [p[0]] + rest;
        PrependSimple(cg, p[0], rest, v);
      }
    }
  }

  lemma SuffixIsSimple(cg: ComponentGraph, p: seq<Edge>, u: nat, v: nat, k: nat)
    requires SimpleChain(cg, p, u, v) && k < |p|
    ensures SimpleChain(cg, p[k..], p[k].from, v)
  {
    var s := p[k..];
    assert forall i :: 0 <= i < |s| ==> s[i] == p[k + i];
    forall i | 0 <= i < |s|
      ensures s[i].from in Froms(p)
    {
      assert p[k + i].from == s[i].from;
    }
  }

  lemma PrependSimple(cg: ComponentGraph, e: Edge, p: seq<Edge>, v: nat)
    requires SimpleChain(cg, p, e.to, v) && e in Out(cg, e.from) && e.from != v
    requires forall k :: 0 <= k < |p| ==> p[k].from != e.from
    ensures SimpleChain(cg, [e] + p, e.from, v)
  {
    var s := [e] + p;
    assert forall i :: 0 < i < |s| ==> s[i] == p[i - 1];
    if p != [] {
      assert Last(s) == Last(p);
    }
    forall i | 0 <= i < |s|
      ensures s[i].from != v
    {
      assert i > 0 ==> p[i - 1].from in Froms(p);
    }
  }

  // ---------------------------------------------------------------- the tree

  /** The trunk is a simple chain to `v`, and its beginnings are the trunks of the tables it leaves. */
  ghost predicate TrunkAt(cg: ComponentGraph, trunk: Trunks, v: nat)
    requires v in trunk
  {
    var p := trunk[v];
    && v in cg && IsChain(cg, p) && DistinctFroms(p) && v !in Froms(p) && (p != [] ==> Last(p).to == v)
    && forall i :: 0 <= i < |p| ==> p[i].from in trunk && trunk[p[i].from] == p[..i]
  }

  /** Edges to smaller tables were followed first, so those tables are not below `v`. */
  ghost predicate OrderedAt(cg: ComponentGraph, trunk: Trunks, v: nat)
    requires v in trunk
  {
    trunk[v] != [] ==>
      forall e :: e in Out(cg, Last(trunk[v]).from) && e.to < v ==> e.to in trunk && !(trunk[v] <= trunk[e.to])
  }

  ghost predicate Tree(cg: ComponentGraph, trunk: Trunks) {
    forall v :: v in trunk ==> TrunkAt(cg, trunk, v) && OrderedAt(cg, trunk, v)
  }

  /** The edge leads back to a table on the trunk of its own table. */
  ghost predicate IsBack(trunk: Trunks, e: Edge) {
    e.from in trunk && (e.to == e.from || e.to in Froms(trunk[e.from]))
  }

  ghost predicate IsTreeEdge(trunk: Trunks, e: Edge) {
    e.from in trunk && e.to in trunk && trunk[e.to] == trunk[e.from] + [e]
  }

  /** The piece of the trunk between the two tables of the edge, and the edge itself. */
  ghost function BackCycle(trunk: Trunks, e: Edge): (c: seq<Edge>)
    ensures c != [] && Last(c) == e
  {
    if e.from in trunk && e.to in trunk && |trunk[e.to]| <= |trunk[e.from]|
    then trunk[e.from][|trunk[e.to]|..] + [e]
    else [e]
  }

  ghost predicate Extends(before: Trunks, trunk: Trunks) {
    forall v :: v in before ==> v in trunk && trunk[v] == before[v]
  }

  /** The trunk of a table on another trunk is a beginning of that one. */
  lemma TrunkOfMember(cg: ComponentGraph, trunk: Trunks, v: nat, t: nat) returns (k: nat)
    requires Tree(cg, trunk) && v in trunk && (t == v || t in Froms(trunk[v]))
    ensures k <= |trunk[v]| && t in trunk && trunk[t] == trunk[v][..k]
    ensures k < |trunk[v]| ==> trunk[v][k].from == t
    ensures k == |trunk[v]| <==> t == v
  {
    assert TrunkAt(cg, trunk, v);
    if t == v {
      k := |trunk[v]|;
      assert trunk[v][..k] == trunk[v];
    } else {
      k :| 0 <= k < |trunk[v]| && trunk[v][k].from == t;
    }
  }

  /** Every edge of a trunk is an edge of the tree. */
  lemma TrunkEdgeIsTree(cg: ComponentGraph, trunk: Trunks, v: nat, i: nat)
    requires Tree(cg, trunk) && v in trunk && i < |trunk[v]|
    ensures IsTreeEdge(trunk, trunk[v][i]) && !IsBack(trunk, trunk[v][i])
  {
    hide OrderedAt;
    var p := trunk[v];
    var e := p[i];
    assert TrunkAt(cg, trunk, v);
    assert p[..i + 1] == p[..i] + [e];
    if i + 1 < |p| {
      assert p[i].to == p[i + 1].from;
    } else {
      assert p[..i + 1] == p;
    }
    if IsBack(trunk, e) {
      var k := TrunkOfMember(cg, trunk, e.from, e.to);
    }
  }

  // ---------------------------------------------------------------- recorded cycles

  /** Every recorded cycle is the cycle of a back edge. */
  ghost predicate AllBack(trunk: Trunks, cycles: seq<seq<Edge>>) {
    forall i :: 0 <= i < |cycles| ==> IsBackCycle(trunk, cycles[i])
  }

  ghost predicate IsBackCycle(trunk: Trunks, c: seq<Edge>) {
    c != [] && IsBack(trunk, Last(c)) && c == BackCycle(trunk, Last(c))
  }

  ghost predicate Closes(cycles: seq<seq<Edge>>, e: Edge) {
    exists i :: 0 <= i < |cycles| && cycles[i] != [] && Last(cycles[i]) == e
  }

  /** Tables that start a tree of their own cannot be reached from the least table. */
  ghost predicate OneTree(cg: ComponentGraph, trunk: Trunks) {
    forall r, v :: IsLeast(cg, r) && v in trunk && trunk[v] == [] ==> v == r || Separated(cg, r, v)
  }

  ghost predicate Separated(cg: ComponentGraph, u: nat, v: nat) {
    exists s: set<nat> :: u in s && v !in s && NoWayOut(cg, s)
  }

  ghost predicate NoWayOut(cg: ComponentGraph, s: set<nat>) {
    forall v, e :: v in s && e in Out(cg, v) ==> e.to in s
  }

  /**
   * The complete search: a tree over all tables, entered in the order of the search, whose back edges are exactly
   * the closing edges.
   */
  ghost predicate Searched(cg: ComponentGraph, trunk: Trunks, cycles: seq<seq<Edge>>) {
    && Tree(cg, trunk) && trunk.Keys == cg.Keys && OneTree(cg, trunk) && AllBack(trunk, cycles)
    && TablesOf(trunk) == SearchOf(cg)
    && forall v, e :: v in cg && e in cg[v] && IsBack(trunk, e) ==> Closes(cycles, e)
  }

  /** A recorded cycle, position by position. */
  lemma BackCycleAt(cg: ComponentGraph, trunk: Trunks, c: seq<Edge>, i: nat)
    requires Tree(cg, trunk) && IsBackCycle(trunk, c) && i < |c|
    ensures var e := Last(c);
            && e.to in trunk && e.from in trunk && |c| == |trunk[e.from]| - |trunk[e.to]| + 1
            && c[i].from in trunk && trunk[c[i].from] == trunk[e.from][..|trunk[e.to]| + i]
            && (i < |c| - 1 ==> c[i] == trunk[e.from][|trunk[e.to]| + i])
            && c[0].from == e.to && c[..|c| - 1] == trunk[e.from][|trunk[e.to]|..]
  {
    hide Tree;
    var e := Last(c);
    var k := TrunkOfMember(cg, trunk, e.from, e.to);
    var p := trunk[e.from];
    assert |trunk[e.to]| == k && c == p[k..] + [e];
    TrunkPosition(cg, trunk, e.from, k + i);
    TrunkPosition(cg, trunk, e.from, k);
    assert i < |c| - 1 ==> c[i] == p[k + i];
    assert k < |p| ==> c[0] == p[k];
  }

  /** The table at a position of a trunk, the end included. */
  lemma TrunkPosition(cg: ComponentGraph, trunk: Trunks, v: nat, k: nat)
    requires Tree(cg, trunk) && v in trunk && k <= |trunk[v]|
    ensures var t := if k < |trunk[v]| then trunk[v][k].from else v; t in trunk && trunk[t] == trunk[v][..k]
  {
    hide OrderedAt;
    assert TrunkAt(cg, trunk, v);
    assert trunk[v][..|trunk[v]|] == trunk[v];
  }

  /** No edge closes two recorded cycles. */
  lemma ClosersAreDifferent(cg: ComponentGraph, trunk: Trunks, cycles: seq<seq<Edge>>, idents: set<string>)
    requires AllBack(trunk, cycles) && Recorded(cg, cycles, idents)
    ensures ClosersDiffer(cycles)
  {
    hide CycleId, Genuine, BackCycle, IsBack;
    forall i, j | 0 <= i < j < |cycles| && cycles[i] != [] && cycles[j] != []
      ensures Last(cycles[i]) != Last(cycles[j])
    {
      assert IsBackCycle(trunk, cycles[i]) && IsBackCycle(trunk, cycles[j]);
      assert CycleId(cycles[i]) != CycleId(cycles[j]);
    }
  }

  // ---------------------------------------------------------------- cycles of one group

  /** Two cycles differ at most in the edge that closes them. */
  ghost predicate SameButLast(c: seq<Edge>, d: seq<Edge>) {
    c != [] && d != [] && c[..|c| - 1] == d[..|d| - 1]
  }

  lemma TopIsHighest(cg: ComponentGraph, trunk: Trunks, c: seq<Edge>, d: seq<Edge>)
    requires Tree(cg, trunk) && IsBackCycle(trunk, c) && IsBackCycle(trunk, d) && Froms(c) == Froms(d)
    ensures Last(c).to in trunk && Last(d).to in trunk && |trunk[Last(d).to]| >= |trunk[Last(c).to]|
    ensures |trunk[Last(d).to]| == |trunk[Last(c).to]| ==> Last(d).to == Last(c).to
    ensures Last(c).from in trunk && Last(d).from in trunk && |trunk[Last(d).from]| <= |trunk[Last(c).from]|
    ensures |trunk[Last(d).from]| == |trunk[Last(c).from]| ==> Last(d).from == Last(c).from
  {
    hide Tree, IsBackCycle;
    BackCycleAt(cg, trunk, d, 0) by { LastOfBackCycle(trunk, d); }
    LastOfBackCycle(trunk, c);
    LastOfBackCycle(trunk, d);
    assert d[0].from in Froms(d) && d[|d| - 1].from in Froms(d);
    var i :| 0 <= i < |c| && c[i].from == d[0].from;
    var j :| 0 <= j < |c| && c[j].from == Last(d).from;
    BackCycleAt(cg, trunk, c, i);
    BackCycleAt(cg, trunk, c, j);
  }

  lemma LastOfBackCycle(trunk: Trunks, c: seq<Edge>)
    requires IsBackCycle(trunk, c)
    ensures c != []
  {
  }

  /** Recorded cycles over the same tables have the same top and the same trunk. */
  lemma GroupMembersAgree(cg: ComponentGraph, trunk: Trunks, c: seq<Edge>, d: seq<Edge>)
    requires Tree(cg, trunk) && IsBackCycle(trunk, c) && IsBackCycle(trunk, d) && Froms(c) == Froms(d)
    ensures SameButLast(c, d)
  {
    hide Tree, IsBackCycle;
    LastOfBackCycle(trunk, c);
    LastOfBackCycle(trunk, d);
    TopIsHighest(cg, trunk, c, d);
    TopIsHighest(cg, trunk, d, c);
    BackCycleAt(cg, trunk, c, 0);
    BackCycleAt(cg, trunk, d, 0);
  }

  /** The recorded cycles of one group differ in their closing edges only. */
  ghost predicate GroupsAgree(cycles: seq<seq<Edge>>) {
    forall i, j :: 0 <= i < |cycles| && 0 <= j < |cycles| && CycleGroupId(cycles[i]) == CycleGroupId(cycles[j]) ==>
                     SameButLast(cycles[i], cycles[j])
  }

  lemma RecordedGroupsAgree(cg: ComponentGraph, trunk: Trunks, cycles: seq<seq<Edge>>, idents: set<string>)
    requires Searched(cg, trunk, cycles) && Recorded(cg, cycles, idents)
    ensures GroupsAgree(cycles)
  {
    hide CycleId, CycleGroupId, Genuine, BackCycle, IsBack, SameButLast, Tree, OneTree;
    forall i, j | 0 <= i < |cycles| && 0 <= j < |cycles| && CycleGroupId(cycles[i]) == CycleGroupId(cycles[j])
      ensures SameButLast(cycles[i], cycles[j])
    {
      assert IsBackCycle(trunk, cycles[i]) && IsBackCycle(trunk, cycles[j]);
      assert Genuine(cg, cycles[i]) && Genuine(cg, cycles[j]);
      SameGroupIff(cg, cycles[i], cycles[j]);
      GroupMembersAgree(cg, trunk, cycles[i], cycles[j]);
    }
  }
}
