/**
 * Cycles of a component: their identity, grouping and rotations (component.go:234-260,
 * graph.go:1302-1306,1399-1409).
 */
module Cycles {
  import opened FkGraph
  import opened Keys
  import opened Wrappers

  type ComponentGraph = map<nat, seq<Edge>>

  function Out(cg: ComponentGraph, v: nat): seq<Edge> {
    if v in cg then cg[v] else []
  }

  /** Edges are listed at the table they come from, stay inside the component and have their own ids. */
  ghost predicate Coherent(cg: ComponentGraph) {
    && (forall v, e :: v in cg && e in cg[v] ==> e.from == v && e.to in cg)
    && (forall v, w, e, f :: v in cg && w in cg && e in cg[v] && f in cg[w] && e.id == f.id ==> e == f)
  }

  // ---------------------------------------------------------------- chains of edges

  ghost predicate IsChain(cg: ComponentGraph, p: seq<Edge>) {
    && (forall i :: 0 <= i < |p| ==> p[i] in Out(cg, p[i].from))
    && (forall i :: 0 <= i < |p| - 1 ==> p[i].to == p[i + 1].from)
  }

  ghost predicate DistinctFroms(p: seq<Edge>) {
    forall i, j :: 0 <= i < j < |p| ==> p[i].from != p[j].from
  }

  ghost function Froms(p: seq<Edge>): set<nat> {
    set i | 0 <= i < |p| :: p[i].from
  }

  lemma FromsHold(p: seq<Edge>)
    ensures forall i :: 0 <= i < |p| ==> p[i].from in Froms(p)
  {
  }

  lemma FromsAppend(p: seq<Edge>, e: Edge)
    ensures Froms(p + [e]) == Froms(p) + {e.from}
  {
    var q := p + [e];
    forall x | x in Froms(p) + {e.from}
      ensures x in Froms(q)
    {
      var i :| 0 <= i < |q| && (if i < |p| then p[i].from == x else e.from == x);
      assert q[i].from == x;
    }
  }

  function Last(p: seq<Edge>): Edge
    requires p != []
  {
    p[|p| - 1]
  }

  ghost predicate Closed(cg: ComponentGraph, c: seq<Edge>) {
    c != [] && IsChain(cg, c) && Last(c).to == c[0].from
  }

  /** A closed chain of component edges that visits each of its tables once. */
  ghost predicate Genuine(cg: ComponentGraph, c: seq<Edge>) {
    Closed(cg, c) && DistinctFroms(c)
  }

  ghost predicate HasClosedChain(cg: ComponentGraph) {
    exists c: seq<Edge> :: Closed(cg, c)
  }

  // ---------------------------------------------------------------- identity of cycles

  function Ids(c: seq<Edge>): (r: seq<nat>)
    ensures |r| == |c| && forall i :: 0 <= i < |c| ==> r[i] == c[i].id
  {
    seq(|c|, i requires 0 <= i < |c| => c[i].id)
  }

  function Tos(c: seq<Edge>): (r: seq<nat>)
    ensures |r| == |c| && forall i :: 0 <= i < |c| ==> r[i] == c[i].to
  {
    seq(|c|, i requires 0 <= i < |c| => c[i].to)
  }

  function CycleId(c: seq<Edge>): string {
    NumbersKey(Ids(c))
  }

  function CycleGroupId(c: seq<Edge>): string {
    NumbersKey(Tos(c))
  }

  lemma {:induction false} ReversalKeepsIds(c: seq<Edge>)
    ensures multiset(Ids(Reversed(c))) == multiset(Ids(c))
  {
    if c != [] {
      ReversalKeepsIds(c[1..]);
      assert Ids(c) == [c[0].id] + Ids(c[1..]);
      assert Ids(Reversed(c)) == Ids(Reversed(c[1..])) + [c[0].id];
    }
  }

  lemma ReversalKeepsCycleId(c: seq<Edge>)
    requires c != []
    ensures CycleId(Reversed(c)) == CycleId(c)
  {
    ReversalKeepsIds(c);
    NumbersKeyIdentifies(Ids(Reversed(c)), Ids(c));
  }

  /** The list of recorded cycles and the identities already taken. */
  ghost predicate Recorded(cg: ComponentGraph, cycles: seq<seq<Edge>>, idents: set<string>) {
    && (forall i :: 0 <= i < |cycles| ==> Genuine(cg, cycles[i]) && CycleId(cycles[i]) in idents)
    && (forall id :: id in idents ==> exists i :: 0 <= i < |cycles| && CycleId(cycles[i]) == id)
    && (forall i, j :: 0 <= i < j < |cycles| ==> CycleId(cycles[i]) != CycleId(cycles[j]))
  }

  /** No edge closes two recorded cycles. */
  ghost predicate ClosersDiffer(cycles: seq<seq<Edge>>) {
    forall i, j :: 0 <= i < j < |cycles| && cycles[i] != [] && cycles[j] != [] ==> Last(cycles[i]) != Last(cycles[j])
  }

  ghost function Members(s: seq<nat>): set<nat> {
    set v | v in s
  }

  /** The edge lies on a recorded cycle. */
  ghost predicate Used(cycles: seq<seq<Edge>>, e: Edge) {
    exists i :: 0 <= i < |cycles| && e in cycles[i]
  }

  lemma SameIdSameEdge(cg: ComponentGraph, e: Edge, f: Edge)
    requires Coherent(cg) && e in Out(cg, e.from) && f in Out(cg, f.from) && e.id == f.id
    ensures e == f
  {
  }

  // ---------------------------------------------------------------- recorded cycles differ

  /** No two recorded cycles consist of the same edges. */
  lemma RecordedCyclesDiffer(cg: ComponentGraph, cycles: seq<seq<Edge>>, idents: set<string>, i: nat, j: nat)
    requires Recorded(cg, cycles, idents) && i < j < |cycles|
    ensures multiset(Ids(cycles[i])) != multiset(Ids(cycles[j]))
  {
    assert Genuine(cg, cycles[i]) && Genuine(cg, cycles[j]);
    NumbersKeyIdentifies(Ids(cycles[i]), Ids(cycles[j]));
  }

  // ---------------------------------------------------------------- groups

  /** Each group lists, in order, the cycles with its id; every cycle is in its group. */
  ghost predicate Grouped(cycles: seq<seq<Edge>>, groups: map<string, seq<nat>>) {
    && (forall k: nat :: k < |cycles| ==> CycleGroupId(cycles[k]) in groups && k in groups[CycleGroupId(cycles[k])])
    && (forall id :: id in groups ==> IsGroup(cycles, id, groups[id]))
  }

  ghost predicate IsGroup(cycles: seq<seq<Edge>>, id: string, group: seq<nat>) {
    && group != []
    && (forall k :: k in group ==> k < |cycles| && CycleGroupId(cycles[k]) == id)
    && (forall a, b :: 0 <= a < b < |group| ==> group[a] < group[b])
  }

  lemma GroupOne(cycles: seq<seq<Edge>>, groups: map<string, seq<nat>>, c: seq<Edge>)
    requires Grouped(cycles, groups)
    ensures var id := CycleGroupId(c);
            Grouped(cycles + [c], groups[id := (if id in groups then groups[id] else []) + [|cycles|]])
  {
    hide CycleGroupId;
    var id, grown := CycleGroupId(c), cycles + [c];
    var before := if id in groups then groups[id] else [];
    var after := groups[id := before + [|cycles|]];
    assert forall k: nat :: k < |cycles| ==> grown[k] == cycles[k];
    forall g | g in after
      ensures IsGroup(grown, g, after[g])
    {
      if g in groups {
        assert IsGroup(cycles, g, groups[g]);
      }
      if g == id {
        forall a | 0 <= a < |before|
          ensures before[a] < |cycles|
        {
          assert before[a] in before;
        }
      }
    }
    forall k: nat | k < |grown|
      ensures CycleGroupId(grown[k]) in after && k in after[CycleGroupId(grown[k])]
    {
      if k < |cycles| {
        assert CycleGroupId(cycles[k]) in groups && k in groups[CycleGroupId(cycles[k])];
      } else {
        assert after[id][|before|] == k;
      }
    }
  }

  function FromSeq(c: seq<Edge>): (r: seq<nat>)
    ensures |r| == |c| && forall i :: 0 <= i < |c| ==> r[i] == c[i].from
  {
    seq(|c|, i requires 0 <= i < |c| => c[i].from)
  }

  lemma {:induction false} CountsOfDistinct(s: seq<nat>, x: nat)
    requires Distinct(s)
    ensures multiset(s)[x] == if x in s then 1 else 0
  {
    if s != [] {
      assert s == [s[0]] + s[1..];
      CountsOfDistinct(s[1..], x);
    }
  }

  /** A genuine cycle enters each of its tables exactly once. */
  lemma EntersEachOnce(cg: ComponentGraph, c: seq<Edge>, x: nat)
    requires Genuine(cg, c)
    ensures multiset(Tos(c))[x] == if x in Froms(c) then 1 else 0
  {
    var f := FromSeq(c);
    assert Tos(c) == f[1..] + [f[0]];
    assert f == [f[0]] + f[1..];
    CountsOfDistinct(f, x);
    if x in Froms(c) {
      var i :| 0 <= i < |c| && c[i].from == x;
      assert f[i] == x;
    }
  }

  /** Two cycles share a group exactly when they visit the same tables. */
  lemma SameGroupIff(cg: ComponentGraph, a: seq<Edge>, b: seq<Edge>)
    requires Genuine(cg, a) && Genuine(cg, b)
    ensures CycleGroupId(a) == CycleGroupId(b) <==> Froms(a) == Froms(b)
  {
    assert Tos(a) != [] && Tos(b) != [];
    hide Genuine, Froms;
    NumbersKeyIdentifies(Tos(a), Tos(b));
    forall x: nat
      ensures multiset(Tos(a))[x] == (if x in Froms(a) then 1 else 0) &&
              multiset(Tos(b))[x] == (if x in Froms(b) then 1 else 0)
    {
      EntersEachOnce(cg, a, x);
      EntersEachOnce(cg, b, x);
    }
    if multiset(Tos(a)) == multiset(Tos(b)) {
      forall x
        ensures x in Froms(a) <==> x in Froms(b)
      {
        assert multiset(Tos(a))[x] == multiset(Tos(b))[x];
      }
    }
  }

  // ---------------------------------------------------------------- rotations

  function ShiftCycle(c: seq<Edge>): seq<Edge>
    requires c != []
  {
    [c[|c| - 1]] + c[..|c| - 1]
  }

  function Rotation(c: seq<Edge>, k: nat): seq<Edge>
    requires k <= |c|
  {
    c[k..] + c[..k]
  }

  lemma ShiftIsRotation(c: seq<Edge>, k: nat)
    requires 0 < k <= |c|
    ensures ShiftCycle(Rotation(c, k)) == Rotation(c, k - 1)
  {
    if k == |c| {
      assert Rotation(c, k) == c;
    } else {
      var r := Rotation(c, k);
      assert r[|r| - 1] == c[k - 1];
      assert r[..|r| - 1] == c[k..] + c[..k - 1];
    }
  }

  /** Rotating keeps a cycle genuine and keeps both of its identifiers. */
  lemma RotationKeeps(cg: ComponentGraph, c: seq<Edge>, k: nat)
    requires Genuine(cg, c) && c != [] && k <= |c|
    ensures Genuine(cg, Rotation(c, k)) && Froms(Rotation(c, k)) == Froms(c)
    ensures CycleId(Rotation(c, k)) == CycleId(c) && CycleGroupId(Rotation(c, k)) == CycleGroupId(c)
  {
    hide Genuine, Rotation, Froms, CycleId, CycleGroupId;
    RotationStaysGenuine(cg, c, k);
    RotationKeepsFroms(c, k);
    RotationKeepsIds(c, k);
    SameGroupIff(cg, Rotation(c, k), c);
  }

  lemma RotationKeepsFroms(c: seq<Edge>, k: nat)
    requires k <= |c|
    ensures Froms(Rotation(c, k)) == Froms(c)
  {
    var r := Rotation(c, k);
    forall x
      ensures x in Froms(r) <==> x in Froms(c)
    {
      if x in Froms(c) {
        var i :| 0 <= i < |c| && c[i].from == x;
        assert r[if i >= k then i - k else |c| - k + i].from == x;
      }
    }
  }

  lemma RotationKeepsIds(c: seq<Edge>, k: nat)
    requires c != [] && k <= |c|
    ensures CycleId(Rotation(c, k)) == CycleId(c)
  {
    var ids := Ids(c);
    assert Ids(Rotation(c, k)) == ids[k..] + ids[..k];
    assert ids == ids[..k] + ids[k..];
    NumbersKeyIdentifies(Ids(Rotation(c, k)), ids);
  }

  lemma RotationStaysGenuine(cg: ComponentGraph, c: seq<Edge>, k: nat)
    requires Genuine(cg, c) && k <= |c|
    ensures Genuine(cg, Rotation(c, k))
  {
    RotationStaysClosed(cg, c, k);
    var r, n := Rotation(c, k), |c|;
    forall i, j | 0 <= i < j < n
      ensures r[i].from != r[j].from
    {
      assert r[i] == c[if i < n - k then i + k else i + k - n];
      assert r[j] == c[if j < n - k then j + k else j + k - n];
    }
  }

  lemma RotationStaysClosed(cg: ComponentGraph, c: seq<Edge>, k: nat)
    requires Closed(cg, c) && k <= |c|
    ensures Closed(cg, Rotation(c, k))
  {
    var r, n := Rotation(c, k), |c|;
    assert forall i :: 0 <= i < n ==> r[i] == c[if i < n - k then i + k else i + k - n];
    forall i | 0 <= i < n - 1
      ensures r[i].to == r[i + 1].from
    {
      if i + k != n - 1 {
        var j := if i < n - k then i + k else i + k - n;
        assert c[j].to == c[j + 1].from;
      }
    }
    if 0 < k < n {
      assert c[k - 1].to == c[k].from;
    }
  }

  /** Rotates a cycle to start at table `v`; `None` stands for the panic on a table that is not a member. */
  method ShiftUntilVertexWillBeFirst(v: nat, c: seq<Edge>) returns (r: Option<seq<Edge>>)
    requires c != []
    ensures r.None? <==> v !in Froms(c)
    ensures r.Some? ==> exists k: nat :: k < |c| && c[k].from == v && r.value == Rotation(c, k)
  {
    hide Rotation, Froms, ShiftCycle;
    var res := c;
    var shifts := 0;
    RotationStarts(c, |c|);
    assert forall k :: 0 <= k < |c| && c[k].from == v ==> v in Froms(c) by {
      MemberIsStart(c, v);
    }
    while res[0].from != v
      invariant shifts <= |c| == |res| && res == Rotation(c, |c| - shifts)
      invariant res[0] == c[if shifts == 0 then 0 else |c| - shifts]
      invariant (shifts > 0 ==> c[0].from != v) && forall k :: |c| - shifts < k < |c| ==> c[k].from != v
      decreases |c| - shifts
    {
      if shifts >= |res| {
        MemberIsStart(c, v);
        return None;
      }
      ShiftIsRotation(c, |c| - shifts);
      res := ShiftCycle(res);
      shifts := shifts + 1;
      RotationStarts(c, |c| - shifts);
    }
    return Some(res);
  }

  lemma RotationStarts(c: seq<Edge>, k: nat)
    requires c != [] && k <= |c|
    ensures |Rotation(c, k)| == |c| && Rotation(c, k)[0] == c[if k == |c| then 0 else k]
    ensures c == Rotation(c, |c|) == Rotation(c, 0)
  {
  }

  lemma MemberIsStart(c: seq<Edge>, v: nat)
    ensures v in Froms(c) <==> exists k :: 0 <= k < |c| && c[k].from == v
  {
  }
}
