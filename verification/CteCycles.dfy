/** The queries of one cycle and of one group of cycles (graph.go:555-627,1137-1300). */
module CteCycles {
  import opened FkGraph
  import opened Cycles
  import opened SearchTree
  import opened CycleGroups
  import opened CteNames

  // ---------------------------------------------------------------- one cycle

  ghost predicate RotationOf(r: seq<Edge>, c: seq<Edge>) {
    exists k: nat :: k <= |c| && r == Rotation(c, k)
  }

  /** All rotations of a cycle carry its identifiers and its tables. */
  lemma RotationNames(w: World, c: seq<Edge>, r: seq<Edge>)
    requires w.Ok() && c in w.cycles && RotationOf(r, c)
    ensures c != [] && r != [] && Genuine(w.cg, r) && Froms(r) == Froms(c) && r[0].from in Froms(c)
    ensures forall o :: QueryName(r, o) == CycleRows(CycleGroupId(c), CycleId(c), r[0].from, o)
  {
    hide Rotation, CycleId, CycleGroupId;
    var k: nat :| k <= |c| && r == Rotation(c, k);
    assert Genuine(w.cg, c);
    RotationKeeps(w.cg, c, k);
    RotationStarts(c, k);
  }

  lemma ShiftedIsRotation(c: seq<Edge>, r: seq<Edge>)
    requires c != [] && RotationOf(r, c)
    ensures r != [] && RotationOf(ShiftCycle(r), c)
  {
    var k: nat :| k <= |c| && r == Rotation(c, k);
    RotationStarts(c, |c|);
    var j := if k == 0 then |c| else k;
    assert r == Rotation(c, j);
    ShiftIsRotation(c, j);
    RotationStarts(c, j);
  }

  /** Names of the rows of a cycle: one for each of its tables, in one or both forms. */
  ghost predicate HasCycleRows(added: set<Name>, c: seq<Edge>, overlap: bool) {
    forall v :: v in Froms(c) ==> CycleRows(CycleGroupId(c), CycleId(c), v, overlap) in added
  }

  ghost predicate ExtraRight(w: World, g: string, extra: set<Name>) {
    forall r :: r in extra <==> w.Restricts(g, r)
  }

  ghost predicate OtherCycles(w: World, c: seq<Edge>, overlap: seq<seq<Edge>>) {
    forall o :: o in overlap <==> o in w.cycles && CycleGroupId(o) == CycleGroupId(c) && CycleId(o) != CycleId(c)
  }

  /** The rows of the other cycles, each rotated to start at the table where `c` starts. */
  method OverlapRefs(ghost w: World, ghost original: seq<Edge>, c: seq<Edge>, overlap: seq<seq<Edge>>)
      returns (refs: set<Name>)
    requires w.Ok() && original in w.cycles && RotationOf(c, original) && c != [] && OtherCycles(w, original, overlap)
    ensures forall r :: r in refs <==> w.IsOverlap(CycleGroupId(original), CycleId(original), c[0].from, r)
  {
    hide World.Ok, CycleGroupId, CycleId, Froms;
    RotationNames(w, original, c);
    refs := {};
    ghost var g, id, v := CycleGroupId(original), CycleId(original), c[0].from;
    for k := 0 to |overlap|
      invariant forall r :: r in refs ==> w.IsOverlap(g, id, v, r)
      invariant forall j :: 0 <= j < k ==> CycleRows(g, CycleId(overlap[j]), v, false) in refs
    {
      var o := overlap[k];
      assert o in overlap;
      MemberOfGroup(w, original, o, c[0].from);
      var shifted := ShiftUntilVertexWillBeFirst(c[0].from, o);
      assert RotationOf(shifted.value, o);
      RotationNames(w, o, shifted.value);
      assert shifted.value[0].from == v by {
        RotationBegins(c[0].from, o, shifted.value);
      }
      refs := refs + {QueryName(shifted.value, false)};
    }
    forall r | w.IsOverlap(g, id, v, r)
      ensures r in refs
    {
      var o :| o in w.cycles && CycleGroupId(o) == g && CycleId(o) == r.cycle && v in Froms(o);
      var j :| 0 <= j < |overlap| && overlap[j] == o;
      assert r == CycleRows(g, CycleId(overlap[j]), v, false);
    }
  }

  lemma RotationBegins(v: nat, o: seq<Edge>, r: seq<Edge>)
    requires o != [] && exists k: nat :: k < |o| && o[k].from == v && r == Rotation(o, k)
    ensures r != [] && r[0].from == v
  {
    var k: nat :| k < |o| && o[k].from == v && r == Rotation(o, k);
    RotationStarts(o, k);
  }

  lemma MemberOfGroup(w: World, c: seq<Edge>, o: seq<Edge>, v: nat)
    requires w.Ok() && c in w.cycles && o in w.cycles && CycleGroupId(o) == CycleGroupId(c)
    ensures o != [] && Froms(o) == Froms(c)
  {
    hide CycleGroupId;
    SameGroupIff(w.cg, o, c);
  }

  /** The row queries of every rotation of a cycle. */
  method GenerateRecursiveQueriesForCycle(cq: Cte, cycle: seq<Edge>, overlap: seq<seq<Edge>>, extra: set<Name>)
    requires cq.Valid() && cycle in cq.world.cycles && OtherCycles(cq.world, cycle, overlap)
    requires ExtraRight(cq.world, CycleGroupId(cycle), extra)
    modifies cq
    ensures cq.Valid() && old(cq.addedNames) <= cq.addedNames
    ensures HasCycleRows(cq.addedNames, cycle, false) && (overlap != [] ==> HasCycleRows(cq.addedNames, cycle, true))
  {
    hide World.Ok, Cte.Valid, CycleGroupId, CycleId, Froms, Rotation, RotationOf, ShiftCycle, OtherCycles, ExtraRight;
    hide RowsAdded, HasCycleRows, StartSet;
    ghost var w := cq.world;
    ValidWorld(cq);
    StartsAsRotation(cycle);
    RotationNames(w, cycle, cycle);
    StartSets(cycle, 0);
    var shifted := cycle;
    for idx := 0 to |cycle|
      invariant cq.Valid() && cq.world == w && old(cq.addedNames) <= cq.addedNames && RotationOf(shifted, cycle)
      invariant shifted == Rotation(cycle, |cycle| - idx) &&
                StartsDone(cq.addedNames, cycle, overlap != [], StartSet(cycle, idx))
    {
      ghost var before := cq.addedNames;
      RotationStarts(cycle, |cycle| - idx);
      GenerateRows(cq, cycle, shifted, overlap, extra);
      StartSets(cycle, idx);
      NextStartDone(before, cq.addedNames, cycle, overlap != [], StartSet(cycle, idx), shifted[0].from);
      ShiftedIsRotation(cycle, shifted);
      ShiftIsRotation(cycle, |cycle| - idx);
      shifted := ShiftCycle(shifted);
    }
    EveryTableStarts(cq.addedNames, cycle, overlap != []);
  }

  /** The row queries of one rotation. */
  method GenerateRows(cq: Cte, ghost cycle: seq<Edge>, shifted: seq<Edge>, overlap: seq<seq<Edge>>, extra: set<Name>)
    requires cq.Valid() && cycle in cq.world.cycles && OtherCycles(cq.world, cycle, overlap)
    requires ExtraRight(cq.world, CycleGroupId(cycle), extra) && RotationOf(shifted, cycle) && shifted != []
    modifies cq
    ensures cq.Valid() && old(cq.addedNames) <= cq.addedNames
    ensures RowsAdded(cq.addedNames, cycle, overlap != [], shifted[0].from)
  {
    hide World.Ok, Cte.Valid, CycleGroupId, CycleId, Froms, RotationOf, World.Expected, World.RefsRight, OtherCycles;
    hide ExtraRight;
    ghost var w := cq.world;
    ValidWorld(cq);
    RotationNames(w, cycle, shifted);
    var queryName := QueryName(shifted, false);
    RowsFine(w, cycle, shifted, {queryName} + extra, extra);
    cq.AddItem(queryName, {queryName} + extra);
    if |overlap| > 0 {
      var overlapName := QueryName(shifted, true);
      var refs := OverlapRefs(w, cycle, shifted, overlap);
      OverlapRowsFine(w, cycle, shifted, overlap, refs, extra);
      cq.AddItem(overlapName, {overlapName} + refs + extra);
    }
  }

  ghost predicate RowsAdded(added: set<Name>, c: seq<Edge>, both: bool, v: nat) {
    && CycleRows(CycleGroupId(c), CycleId(c), v, false) in added
    && (both ==> CycleRows(CycleGroupId(c), CycleId(c), v, true) in added)
  }

  /** The tables at which the first `idx` rotations start: the first, then from the last down to the second. */
  ghost function StartSet(c: seq<Edge>, idx: nat): set<nat> {
    set j | 0 <= j < |c| && (|c| - idx < j || (j == 0 && idx > 0)) :: c[j].from
  }

  lemma StartSets(c: seq<Edge>, idx: nat)
    requires idx < |c|
    ensures StartSet(c, idx + 1) == StartSet(c, idx) + {c[if idx == 0 then 0 else |c| - idx].from}
    ensures StartSet(c, 0) == {} && StartSet(c, |c|) == Froms(c)
  {
  }

  ghost predicate StartsDone(added: set<Name>, c: seq<Edge>, both: bool, starts: set<nat>) {
    forall v :: v in starts ==> RowsAdded(added, c, both, v)
  }

  lemma NextStartDone(before: set<Name>, added: set<Name>, c: seq<Edge>, both: bool, starts: set<nat>, v: nat)
    requires StartsDone(before, c, both, starts) && before <= added && RowsAdded(added, c, both, v)
    ensures StartsDone(added, c, both, starts + {v})
  {
    hide CycleGroupId, CycleId;
  }

  lemma ValidWorld(cq: Cte)
    requires cq.Valid()
    ensures cq.world.Ok()
  {
  }

  lemma StartsAsRotation(c: seq<Edge>)
    ensures RotationOf(c, c) && c == Rotation(c, |c|)
  {
    assert c == Rotation(c, |c|);
  }

  lemma RowsFine(w: World, c: seq<Edge>, r: seq<Edge>, refs: set<Name>, extra: set<Name>)
    requires w.Ok() && c in w.cycles && RotationOf(r, c) && r != [] && ExtraRight(w, CycleGroupId(c), extra)
    requires refs == {QueryName(r, false)} + extra
    ensures w.Expected(QueryName(r, false)) && w.RefsRight(QueryName(r, false), refs)
  {
    hide World.Ok, CycleGroupId, CycleId, Froms, RotationOf, World.Restricts;
    RotationNames(w, c, r);
  }

  lemma OverlapRowsFine(w: World, c: seq<Edge>, r: seq<Edge>, overlap: seq<seq<Edge>>, refs: set<Name>,
                        extra: set<Name>)
    requires w.Ok() && c in w.cycles && RotationOf(r, c) && r != [] && ExtraRight(w, CycleGroupId(c), extra)
    requires overlap != [] && OtherCycles(w, c, overlap)
    requires forall n :: n in refs <==> w.IsOverlap(CycleGroupId(c), CycleId(c), r[0].from, n)
    ensures w.Expected(QueryName(r, true)) && w.RefsRight(QueryName(r, true), {QueryName(r, true)} + refs + extra)
  {
    hide World.Ok, CycleGroupId, CycleId, Froms, RotationOf, World.Restricts, World.IsOverlap;
    RotationNames(w, c, r);
    assert overlap[0] in overlap;
    assert w.Several(CycleGroupId(c));
  }

  lemma EveryTableStarts(added: set<Name>, c: seq<Edge>, both: bool)
    requires StartsDone(added, c, both, Froms(c))
    ensures HasCycleRows(added, c, false) && (both ==> HasCycleRows(added, c, true))
  {
    hide CycleGroupId, CycleId, Froms;
    forall v | v in Froms(c)
      ensures RowsAdded(added, c, both, v)
    {
    }
  }

  // ---------------------------------------------------------------- one group

  /** All cycles of the group, each once. */
  ghost predicate IsCycleGroup(w: World, g: string, cs: seq<seq<Edge>>) {
    && cs != []
    && (forall c :: c in cs <==> c in w.cycles && CycleGroupId(c) == g)
    && (forall j, k :: 0 <= j < k < |cs| ==> CycleId(cs[j]) != CycleId(cs[k]))
  }

  lemma SeveralIff(w: World, g: string, cs: seq<seq<Edge>>)
    requires IsCycleGroup(w, g, cs)
    ensures w.Several(g) <==> |cs| > 1
  {
    hide CycleGroupId, CycleId;
    if |cs| > 1 {
      assert cs[0] in cs && cs[1] in cs;
    }
  }

  /** A table is on the group exactly when its first cycle visits it. */
  lemma OnIff(w: World, g: string, cs: seq<seq<Edge>>, v: nat)
    requires w.Ok() && IsCycleGroup(w, g, cs)
    ensures w.On(g, v) <==> v in Froms(cs[0])
  {
    hide CycleGroupId, Froms;
    assert cs[0] in cs;
    if c :| c in w.cycles && CycleGroupId(c) == g && v in Froms(c) {
      MemberOfGroup(w, cs[0], c, v);
    }
  }

  function Others(cs: seq<seq<Edge>>, i: nat): seq<seq<Edge>>
    requires i < |cs|
  {
    cs[..i] + cs[i + 1..]
  }

  lemma OthersAreOther(w: World, g: string, cs: seq<seq<Edge>>, i: nat)
    requires IsCycleGroup(w, g, cs) && i < |cs|
    ensures cs[i] in w.cycles && CycleGroupId(cs[i]) == g && OtherCycles(w, cs[i], Others(cs, i))
    ensures Others(cs, i) != [] <==> |cs| > 1
  {
    hide CycleGroupId, CycleId;
    assert cs[i] in cs;
    forall o
      ensures o in Others(cs, i) <==> o in cs && CycleId(o) != CycleId(cs[i])
    {
      if o in Others(cs, i) {
        var k :| 0 <= k < |Others(cs, i)| && Others(cs, i)[k] == o;
        assert o == cs[if k < i then k else k + 1];
      }
      if o in cs && CycleId(o) != CycleId(cs[i]) {
        var k :| 0 <= k < |cs| && cs[k] == o;
        assert Others(cs, i)[if k < i then k else k - 1] == o;
      }
    }
  }

  ghost predicate HasGroupRows(added: set<Name>, cs: seq<seq<Edge>>, n: nat)
    requires n <= |cs|
  {
    forall i :: 0 <= i < n ==> HasCycleRows(added, cs[i], false) && (|cs| > 1 ==> HasCycleRows(added, cs[i], true))
  }

  ghost predicate HasFiltered(added: set<Name>, g: string, several: bool, tables: set<nat>) {
    forall v :: v in tables ==> Filtered(g, v) in added && (several ==> United(g, v) in added)
  }

  method GenerateGroup(cq: Cte, ghost g: string, cs: seq<seq<Edge>>, extra: set<Name>)
    requires cq.Valid() && IsCycleGroup(cq.world, g, cs) && ExtraRight(cq.world, g, extra)
    modifies cq
    ensures cq.Valid() && old(cq.addedNames) <= cq.addedNames
    ensures HasGroupRows(cq.addedNames, cs, |cs|) && HasFiltered(cq.addedNames, g, |cs| > 1, Froms(cs[0]))
  {
    hide World.Ok, Cte.Valid, CycleGroupId, Froms, OtherCycles, ExtraRight, HasCycleRows, IsCycleGroup, Others;
    hide HasFiltered;
    ghost var w := cq.world;
    GroupIsNotEmpty(w, g, cs);
    for i := 0 to |cs|
      invariant cq.Valid() && cq.world == w && old(cq.addedNames) <= cq.addedNames && HasGroupRows(cq.addedNames, cs, i)
    {
      ghost var before := cq.addedNames;
      OthersAreOther(w, g, cs, i);
      GenerateRecursiveQueriesForCycle(cq, cs[i], Others(cs, i), extra);
      GroupRowsStay(before, cq.addedNames, cs, i);
    }
    ghost var before := cq.addedNames;
    GenerateFilteredQueries(cq, g, cs);
    GroupRowsStay(before, cq.addedNames, cs, |cs|);
  }

  lemma GroupIsNotEmpty(w: World, g: string, cs: seq<seq<Edge>>)
    requires IsCycleGroup(w, g, cs)
    ensures cs != []
  {
  }

  lemma GroupRowsStay(before: set<Name>, added: set<Name>, cs: seq<seq<Edge>>, n: nat)
    requires n <= |cs| && HasGroupRows(before, cs, n) && before <= added
    ensures HasGroupRows(added, cs, n)
  {
    hide CycleGroupId, CycleId;
  }

  // ---------------------------------------------------------------- filtered rows

  /** Every cycle of the group, rotated to the same position. */
  ghost predicate InStep(cycles: seq<seq<Edge>>, cs: seq<seq<Edge>>, k: nat) {
    |cycles| == |cs| && forall m :: 0 <= m < |cs| ==> k <= |cs[m]| && cycles[m] == Rotation(cs[m], k)
  }

  /** Cycles that differ in the closing edge only leave the same table at each position. */
  lemma SameStarts(cg: ComponentGraph, c: seq<Edge>, d: seq<Edge>, i: nat)
    requires Genuine(cg, c) && Genuine(cg, d) && SameButLast(c, d) && Froms(c) == Froms(d) && i < |c|
    ensures |d| == |c| && c[i].from == d[i].from
  {
    assert |c[..|c| - 1]| == |d[..|d| - 1]|;
    if i < |c| - 1 {
      assert c[i] == c[..|c| - 1][i] == d[..|d| - 1][i];
    } else if i > 0 {
      assert c[i - 1] == c[..|c| - 1][i - 1] == d[..|d| - 1][i - 1];
      assert c[i - 1].to == c[i].from && d[i - 1].to == d[i].from;
    } else {
      OneStart(c, d);
    }
  }

  lemma OneStart(c: seq<Edge>, d: seq<Edge>)
    requires |c| == 1 == |d| && Froms(c) == Froms(d)
    ensures c[0].from == d[0].from
  {
    assert c[0].from in Froms(c);
  }

  /** Any two cycles of the group are equally long and, rotated alike, start at the same table. */
  lemma AlignedStarts(w: World, g: string, cs: seq<seq<Edge>>, m: nat, k: nat)
    requires w.Ok() && IsCycleGroup(w, g, cs) && m < |cs| && k <= |cs[0]|
    ensures cs[m] in w.cycles && CycleGroupId(cs[m]) == g && cs[m] != [] && |cs[m]| == |cs[0]|
    ensures Rotation(cs[m], k) != [] && Rotation(cs[0], k) != [] &&
            Rotation(cs[m], k)[0].from == Rotation(cs[0], k)[0].from
  {
    hide World.Ok, IsCycleGroup, CycleGroupId, CycleId, Froms, SameButLast, Rotation, Genuine;
    InGroup(w, g, cs, 0);
    InGroup(w, g, cs, m);
    MemberOfGroup(w, cs[0], cs[m], 0);
    MemberOfGroup(w, cs[0], cs[0], 0);
    InGroupAgree(w, cs[0], cs[m]);
    SameStarts(w.cg, cs[0], cs[m], if k == |cs[0]| then 0 else k);
    RotationStarts(cs[0], k);
    RotationStarts(cs[m], k);
  }

  lemma InGroup(w: World, g: string, cs: seq<seq<Edge>>, m: nat)
    requires w.Ok() && IsCycleGroup(w, g, cs) && m < |cs|
    ensures cs[m] in w.cycles && CycleGroupId(cs[m]) == g && Genuine(w.cg, cs[m])
  {
    hide CycleGroupId, CycleId, Genuine, GroupsAgree;
    assert cs[m] in cs;
  }

  lemma InGroupAgree(w: World, c: seq<Edge>, d: seq<Edge>)
    requires w.Ok() && c in w.cycles && d in w.cycles && CycleGroupId(c) == CycleGroupId(d)
    ensures SameButLast(c, d)
  {
    hide CycleGroupId, CycleId, Genuine, SameButLast;
    assert GroupsAgree(w.cycles);
    var i :| 0 <= i < |w.cycles| && w.cycles[i] == c;
    var j :| 0 <= j < |w.cycles| && w.cycles[j] == d;
  }

  /** All cycles of the group are rotated together; the first one names the queries. */
  method GenerateFilteredQueries(cq: Cte, ghost g: string, cs: seq<seq<Edge>>)
    requires cq.Valid() && IsCycleGroup(cq.world, g, cs)
    modifies cq
    ensures cq.Valid() && old(cq.addedNames) <= cq.addedNames
    ensures HasFiltered(cq.addedNames, g, |cs| > 1, Froms(cs[0]))
  {
    hide World.Ok, Cte.Valid, CycleGroupId, CycleId, Froms, Rotation, ShiftCycle, IsCycleGroup, StartSet, InStep;
    ghost var w := cq.world;
    ValidWorld(cq);
    GroupIsNotEmpty(w, g, cs);
    FirstOfGroup(w, g, cs);
    var cycles := cs;
    StepStarts(w, g, cs);
    StartSets(cs[0], 0);
    for idx := 0 to |cs[0]|
      invariant cq.Valid() && cq.world == w && old(cq.addedNames) <= cq.addedNames
      invariant InStep(cycles, cs, |cs[0]| - idx) && |cycles| == |cs| && cycles[0] == Rotation(cs[0], |cs[0]| - idx)
      invariant HasFiltered(cq.addedNames, g, |cs| > 1, StartSet(cs[0], idx))
    {
      StartSets(cs[0], idx);
      RotationStarts(cs[0], |cs[0]| - idx);
      GenerateFiltered(cq, g, cs, cycles, |cs[0]| - idx);
      ShiftIsRotation(cs[0], |cs[0]| - idx);
      cycles := ShiftCycleGroup(w, g, cs, cycles, |cs[0]| - idx);
    }
  }

  lemma FirstOfGroup(w: World, g: string, cs: seq<seq<Edge>>)
    requires w.Ok() && IsCycleGroup(w, g, cs)
    ensures cs[0] in w.cycles && CycleGroupId(cs[0]) == g && cs[0] != [] && g in w.order && Genuine(w.cg, cs[0])
  {
    hide CycleGroupId, CycleId, GroupsAgree;
    assert cs[0] in cs;
    assert Genuine(w.cg, cs[0]);
  }

  lemma StepStarts(w: World, g: string, cs: seq<seq<Edge>>)
    requires w.Ok() && IsCycleGroup(w, g, cs)
    ensures InStep(cs, cs, |cs[0]|) && cs[0] == Rotation(cs[0], |cs[0]|)
  {
    hide World.Ok, IsCycleGroup, CycleGroupId;
    GroupIsNotEmpty(w, g, cs);
    forall m | 0 <= m < |cs|
      ensures |cs[0]| <= |cs[m]| && cs[m] == Rotation(cs[m], |cs[0]|)
    {
      AlignedStarts(w, g, cs, m, 0);
      StartsAsRotation(cs[m]);
    }
  }

  /** The cycles stay in step. */
  method ShiftCycleGroup(ghost w: World, ghost g: string, ghost cs: seq<seq<Edge>>, cycles: seq<seq<Edge>>,
                         ghost k: nat)
    returns (shifted: seq<seq<Edge>>)
    requires w.Ok() && IsCycleGroup(w, g, cs) && InStep(cycles, cs, k) && k > 0
    ensures InStep(shifted, cs, k - 1) && |shifted| == |cs| > 0 && k <= |cs[0]| && shifted[0] == Rotation(cs[0], k - 1)
  {
    hide World.Ok, IsCycleGroup, CycleGroupId, CycleId, Froms, ShiftCycle, Rotation;
    GroupIsNotEmpty(w, g, cs);
    shifted := [];
    for m := 0 to |cycles|
      invariant |shifted| == m && forall i :: 0 <= i < m ==> k <= |cs[i]| && shifted[i] == Rotation(cs[i], k - 1)
    {
      ShiftIsRotation(cs[m], k);
      RotationStarts(cs[m], k);
      shifted := shifted + [ShiftCycle(cycles[m])];
    }
  }

  /** The united rows, when there is more than one cycle, and the filtered rows for one start. */
  method GenerateFiltered(cq: Cte, ghost g: string, ghost cs: seq<seq<Edge>>, cycles: seq<seq<Edge>>, ghost k: nat)
    requires cq.Valid() && IsCycleGroup(cq.world, g, cs) && InStep(cycles, cs, k) && cycles != [] && cycles[0] != []
    modifies cq
    ensures cq.Valid() && old(cq.addedNames) <= cq.addedNames
    ensures Filtered(g, cycles[0][0].from) in cq.addedNames
    ensures |cycles| > 1 ==> United(g, cycles[0][0].from) in cq.addedNames
  {
    hide World.Ok, Cte.Valid, CycleGroupId, CycleId, IsCycleGroup, InStep, World.Expected, World.RefsRight;
    ghost var w := cq.world;
    ValidWorld(cq);
    FirstRotation(w, g, cs, cycles, k);
    var group, main := CycleGroupId(cycles[0]), cycles[0][0].from;
    var refs := {QueryName(cycles[0], false)};
    if |cycles| > 1 {
      var rows := UnitedRefs(w, g, cs, cycles, k);
      UnitedFine(w, g, cs, cycles, k, rows);
      cq.AddItem(United(group, main), rows);
      refs := {United(group, main)};
    }
    FilteredFine(w, g, cs, cycles, k, refs);
    cq.AddItem(Filtered(group, main), refs);
  }

  /** One of the rotated cycles: it names the rows of its cycle at the table where the first one starts. */
  lemma InStepNames(w: World, g: string, cs: seq<seq<Edge>>, cycles: seq<seq<Edge>>, k: nat, m: nat)
    requires w.Ok() && IsCycleGroup(w, g, cs) && InStep(cycles, cs, k) && m < |cs|
    ensures |cycles| == |cs| && cycles[0] != [] && cycles[m] != []
    ensures cycles[m][0].from == cycles[0][0].from && cycles[0][0].from in Froms(cs[m])
    ensures cs[m] in w.cycles && CycleGroupId(cs[m]) == g
    ensures forall o :: QueryName(cycles[m], o) == CycleRows(g, CycleId(cs[m]), cycles[0][0].from, o)
  {
    hide World.Ok, IsCycleGroup, CycleGroupId, CycleId, Froms, Rotation;
    AlignedStarts(w, g, cs, m, k);
    assert RotationOf(cycles[m], cs[m]);
    RotationNames(w, cs[m], cycles[m]);
  }

  lemma FirstRotation(w: World, g: string, cs: seq<seq<Edge>>, cycles: seq<seq<Edge>>, k: nat)
    requires w.Ok() && IsCycleGroup(w, g, cs) && InStep(cycles, cs, k)
    ensures cycles != [] && cycles[0] != [] && CycleGroupId(cycles[0]) == g
    ensures w.Cycle(g, CycleId(cycles[0]), cycles[0][0].from) && w.On(g, cycles[0][0].from)
    ensures w.Several(g) <==> |cycles| > 1
  {
    hide World.Ok, CycleGroupId, CycleId, Froms, InStep, IsCycleGroup;
    SeveralIff(w, g, cs);
    GroupIsNotEmpty(w, g, cs);
    InStepNames(w, g, cs, cycles, k, 0);
    assert QueryName(cycles[0], false) == CycleRows(g, CycleId(cs[0]), cycles[0][0].from, false);
  }

  /** The rows of every cycle of the group at the table where the first one starts, in both forms. */
  method UnitedRefs(ghost w: World, ghost g: string, ghost cs: seq<seq<Edge>>, cycles: seq<seq<Edge>>, ghost k: nat)
    returns (refs: set<Name>)
    requires w.Ok() && IsCycleGroup(w, g, cs) && InStep(cycles, cs, k) && cycles != [] && cycles[0] != []
    ensures forall r :: r in refs <==> w.SelectsFrom(United(g, cycles[0][0].from), r)
  {
    hide World.Ok, IsCycleGroup, InStep, CycleGroupId, CycleId, Froms, RotationOf;
    refs := {};
    ghost var v := cycles[0][0].from;
    StepLength(cycles, cs, k);
    for m := 0 to |cycles|
      invariant forall r :: r in refs ==> r.CycleRows? && r.group == g && r.main == v && w.Cycle(g, r.cycle, v)
      invariant forall i, o :: 0 <= i < m ==> CycleRows(g, CycleId(cs[i]), v, o) in refs
    {
      InStepNames(w, g, cs, cycles, k, m);
      refs := refs + {QueryName(cycles[m], false), QueryName(cycles[m], true)};
    }
    forall r: Name | r.CycleRows? && r.group == g && r.main == v && w.Cycle(g, r.cycle, v)
      ensures r in refs
    {
      var i := CycleListed(w, g, cs, r.cycle, v);
      assert CycleRows(g, CycleId(cs[i]), v, r.overlap) in refs;
    }
  }

  lemma StepLength(cycles: seq<seq<Edge>>, cs: seq<seq<Edge>>, k: nat)
    requires InStep(cycles, cs, k)
    ensures |cycles| == |cs|
  {
  }

  lemma CycleListed(w: World, g: string, cs: seq<seq<Edge>>, id: string, v: nat) returns (i: nat)
    requires IsCycleGroup(w, g, cs) && w.Cycle(g, id, v)
    ensures i < |cs| && CycleId(cs[i]) == id
  {
    hide CycleGroupId, CycleId, Froms;
    var c :| c in w.cycles && CycleGroupId(c) == g && CycleId(c) == id && v in Froms(c);
    assert c in cs;
    i :| 0 <= i < |cs| && cs[i] == c;
  }

  lemma UnitedFine(w: World, g: string, cs: seq<seq<Edge>>, cycles: seq<seq<Edge>>, k: nat, rows: set<Name>)
    requires w.Ok() && IsCycleGroup(w, g, cs) && InStep(cycles, cs, k) && |cycles| > 1 && cycles[0] != []
    requires forall r :: r in rows <==> w.SelectsFrom(United(g, cycles[0][0].from), r)
    ensures w.Expected(United(g, cycles[0][0].from)) && w.RefsRight(United(g, cycles[0][0].from), rows)
  {
    hide World.Ok, CycleGroupId, CycleId, IsCycleGroup, InStep;
    FirstRotation(w, g, cs, cycles, k);
  }

  lemma FilteredFine(w: World, g: string, cs: seq<seq<Edge>>, cycles: seq<seq<Edge>>, k: nat, refs: set<Name>)
    requires w.Ok() && IsCycleGroup(w, g, cs) && InStep(cycles, cs, k) && cycles != [] && cycles[0] != []
    requires refs == if |cycles| > 1 then {United(g, cycles[0][0].from)} else {QueryName(cycles[0], false)}
    ensures w.Expected(Filtered(g, cycles[0][0].from)) && w.RefsRight(Filtered(g, cycles[0][0].from), refs)
  {
    hide World.Ok, CycleGroupId, CycleId, IsCycleGroup, InStep, Froms;
    FirstRotation(w, g, cs, cycles, k);
    if |cycles| == 1 {
      OnlyCycle(w, g, CycleId(cycles[0]), cycles[0][0].from);
    }
  }

  /** In a group with one cycle only that cycle's rows can be selected from. */
  lemma OnlyCycle(w: World, g: string, id: string, v: nat)
    requires !w.Several(g) && w.Cycle(g, id, v)
    ensures forall other, x :: w.Cycle(g, other, x) ==> other == id
  {
    hide CycleGroupId, CycleId, Froms;
  }

  // ---------------------------------------------------------------- keys of tables

  /** What the final selection of a table needs of the names. */
  ghost predicate HasIds(added: set<Name>, tables: set<nat>) {
    forall v :: v in tables ==> Ids(v) in added
  }

  function FilteredRefs(g: string, tables: seq<nat>): set<Name> {
    set w: nat | w in tables :: Filtered(g, w)
  }

  /** With a single group, the keys of each of its tables are selected from all filtered rows. */
  method GenerateQueriesForVertexesInCycle(cq: Cte, cs: seq<seq<Edge>>)
    requires cq.Valid() && cs != [] && IsCycleGroup(cq.world, CycleGroupId(cs[0]), cs) &&
             cq.world.order == [CycleGroupId(cs[0])]
    modifies cq
    ensures cq.Valid() && old(cq.addedNames) <= cq.addedNames && HasIds(cq.addedNames, Froms(cs[0]))
  {
    hide World.Ok, Cte.Valid, CycleGroupId, CycleId, Froms, IsCycleGroup, World.Expected, World.RefsRight;
    hide FilteredRefs, Genuine;
    ghost var w := cq.world;
    ValidWorld(cq);
    var g := CycleGroupId(cs[0]);
    FirstOfGroup(w, g, cs);
    var tables := Tos(cs[0]);
    for k := 0 to |tables|
      invariant cq.Valid() && cq.world == w && old(cq.addedNames) <= cq.addedNames
      invariant forall i :: 0 <= i < k ==> Ids(tables[i]) in cq.addedNames
    {
      assert tables[k] in tables;
      KeysFine(w, g, cs, tables[k]);
      cq.AddItem(Ids(tables[k]), FilteredRefs(g, tables));
    }
    EntersAll(w.cg, cs[0]);
  }

  lemma EntersAll(cg: ComponentGraph, c: seq<Edge>)
    requires Genuine(cg, c)
    ensures forall v :: v in Froms(c) <==> v in Tos(c)
  {
    forall v
      ensures v in Froms(c) <==> v in Tos(c)
    {
      EntersItsTables(cg, c, v);
    }
  }

  /** Keys of a table, selected from the filtered rows of a group it belongs to. */
  lemma KeysFine(w: World, g: string, cs: seq<seq<Edge>>, v: nat)
    requires w.Ok() && cs != [] && IsCycleGroup(w, g, cs) && v in Tos(cs[0])
    ensures w.order == [g] ==> w.Expected(Ids(v)) && w.RefsRight(Ids(v), FilteredRefs(g, Tos(cs[0])))
    ensures |w.order| != 1 ==> w.Expected(GroupIds(g, v)) && w.RefsRight(GroupIds(g, v), FilteredRefs(g, Tos(cs[0])))
  {
    hide World.Ok, CycleGroupId, CycleId, IsCycleGroup, Froms;
    FirstOfGroup(w, g, cs);
    EntersAll(w.cg, cs[0]);
    forall x
      ensures x in Tos(cs[0]) <==> w.On(g, x)
    {
      OnIff(w, g, cs, x);
    }
  }
}
