/**
 * The order of the depth-first search over a component as a function of the component (component.go:174-232):
 * for each table the tables on the path on which it is entered. Parallel edges make no difference to it.
 */
module SearchOrder {
  import opened FkGraph
  import opened Cycles

  /** For each table met so far, the tables that the path to it leaves, in order. */
  type Lineage = map<nat, seq<nat>>

  ghost predicate Grows(before: Lineage, after: Lineage) {
    forall v :: v in before ==> v in after && after[v] == before[v]
  }

  ghost function Least(s: set<nat>): (v: nat)
    requires s != {}
    ensures v in s && forall w :: w in s ==> v <= w
  {
    LeastExists(s);
    var v: nat :| v in s && forall w :: w in s ==> v <= w;
    v
  }

  lemma LeastExists(s: set<nat>)
    requires s != {}
    ensures exists v: nat :: v in s && forall w :: w in s ==> v <= w
  {
    var x: nat :| x in s;
    var v := LeastBelow(s, x);
  }

  lemma {:induction false} LeastBelow(s: set<nat>, x: nat) returns (v: nat)
    requires x in s
    ensures v in s && forall w :: w in s ==> v <= w
    decreases x
  {
    if y: nat :| y in s && y < x {
      v := LeastBelow(s, y);
    } else {
      v := x;
    }
  }

  function TargetSet(cg: ComponentGraph, v: nat): set<nat> {
    set e | e in Out(cg, v) :: e.to
  }

  /** The search enters `v`, having left the tables of `path`. */
  ghost function EnterTable(cg: ComponentGraph, v: nat, path: seq<nat>, seen: Lineage): (r: Lineage)
    requires v in cg && v !in seen
    ensures Grows(seen, r) && v in r && r[v] == path
    decreases cg.Keys - seen.Keys, 0
  {
    assert cg.Keys - seen[v := path].Keys < cg.Keys - seen.Keys by {
      assert v in cg.Keys - seen.Keys && v !in cg.Keys - seen[v := path].Keys;
    }
    FollowTargets(cg, path + [v], TargetSet(cg, v), seen[v := path])
  }

  /** From the end of `path` it goes to the targets that are left, smallest first, and enters those not met before. */
  ghost function FollowTargets(cg: ComponentGraph, path: seq<nat>, left: set<nat>, seen: Lineage): (r: Lineage)
    ensures Grows(seen, r)
    decreases cg.Keys - seen.Keys, |left| + 1
  {
    if left == {} then seen
    else
      var t := Least(left);
      FollowTargets(cg, path, left - {t}, if t in seen || t !in cg then seen else EnterTable(cg, t, path, seen))
  }

  /** The whole search starts from every table, smallest first. */
  ghost function SearchOf(cg: ComponentGraph): Lineage {
    FollowTargets(cg, [], cg.Keys, map[])
  }

  /** The table is `u` itself or one the path to `u` leaves. */
  predicate OnLine(l: Lineage, u: nat, v: nat) {
    u in l && (v == u || v in l[u])
  }

  // ---------------------------------------------------------------- following edges in order

  /** The targets of the edges from position `k` on. */
  function TargetsFrom(edges: seq<Edge>, k: nat): set<nat>
    requires k <= |edges|
  {
    set j | k <= j < |edges| :: edges[j].to
  }

  lemma TargetsSorted(edges: seq<Edge>, k: nat)
    requires k < |edges| && forall i, j :: 0 <= i < j < |edges| ==> edges[i].to <= edges[j].to
    ensures edges[k].to in TargetsFrom(edges, k) && Least(TargetsFrom(edges, k)) == edges[k].to
    ensures TargetsFrom(edges, k) == TargetsFrom(edges, k + 1) + {edges[k].to}
  {
    assert edges[k].to in TargetsFrom(edges, k);
    forall x | x in TargetsFrom(edges, k)
      ensures edges[k].to <= x && (x == edges[k].to || x in TargetsFrom(edges, k + 1))
    {
      var j :| k <= j < |edges| && edges[j].to == x;
      assert j > k ==> edges[j].to in TargetsFrom(edges, k + 1);
    }
  }

  lemma LeastIs(s: set<nat>, v: nat)
    requires v in s && forall w :: w in s ==> v <= w
    ensures Least(s) == v
  {
  }

  /** A target that was met already is passed over. */
  lemma PassOver(cg: ComponentGraph, path: seq<nat>, edges: seq<Edge>, k: nat, seen: Lineage)
    requires k < |edges| && forall i, j :: 0 <= i < j < |edges| ==> edges[i].to <= edges[j].to
    requires edges[k].to in seen
    ensures FollowTargets(cg, path, TargetsFrom(edges, k), seen)
         == FollowTargets(cg, path, TargetsFrom(edges, k + 1), seen)
  {
    var t, left, rest := edges[k].to, TargetsFrom(edges, k), TargetsFrom(edges, k + 1);
    TargetsSorted(edges, k);
    if t in rest {
      assert left == rest;
    } else {
      assert left - {t} == rest;
    }
  }

  /** A new target is entered, and then passed over like the ones before it. */
  lemma EnterNext(cg: ComponentGraph, path: seq<nat>, edges: seq<Edge>, k: nat, seen: Lineage)
    requires k < |edges| && forall i, j :: 0 <= i < j < |edges| ==> edges[i].to <= edges[j].to
    requires edges[k].to !in seen && edges[k].to in cg
    ensures FollowTargets(cg, path, TargetsFrom(edges, k), seen)
         == FollowTargets(cg, path, TargetsFrom(edges, k + 1), EnterTable(cg, edges[k].to, path, seen))
  {
    var t, left, rest := edges[k].to, TargetsFrom(edges, k), TargetsFrom(edges, k + 1);
    TargetsSorted(edges, k);
    var after := EnterTable(cg, t, path, seen);
    assert FollowTargets(cg, path, left, seen) == FollowTargets(cg, path, left - {t}, after);
    if t in rest {
      LeastIs(rest, t);
      assert rest - {t} == left - {t};
    } else {
      assert left - {t} == rest;
    }
  }

  lemma FollowStarts(cg: ComponentGraph, v: nat, path: seq<nat>, edges: seq<Edge>, seen: Lineage)
    requires v in cg && v !in seen && forall e :: e in edges <==> e in Out(cg, v)
    ensures EnterTable(cg, v, path, seen) == FollowTargets(cg, path + [v], TargetsFrom(edges, 0), seen[v := path])
  {
    assert TargetsFrom(edges, 0) == TargetSet(cg, v);
  }

  lemma FollowEnds(cg: ComponentGraph, path: seq<nat>, edges: seq<Edge>, seen: Lineage)
    ensures FollowTargets(cg, path, TargetsFrom(edges, |edges|), seen) == seen
  {
  }

  /** One more table to start from. */
  lemma StartNext(cg: ComponentGraph, vertices: seq<nat>, k: nat, seen: Lineage)
    requires k < |vertices| && vertices[k] in cg && forall i, j :: 0 <= i < j < |vertices| ==> vertices[i] < vertices[j]
    ensures var v := vertices[k];
            var after := if v in seen then seen else EnterTable(cg, v, [], seen);
            FollowTargets(cg, [], Members(vertices[k..]), seen) ==
              FollowTargets(cg, [], Members(vertices[k + 1..]), after)
  {
    var v, left, rest := vertices[k], Members(vertices[k..]), Members(vertices[k + 1..]);
    assert vertices[k..] == [v] + vertices[k + 1..];
    forall w | w in rest
      ensures v < w
    {
      var j :| 0 <= j < |vertices| - k - 1 && vertices[k + 1..][j] == w;
    }
    assert left == rest + {v} && left - {v} == rest;
    LeastIs(left, v);
  }
}
