/** When the search records every cycle of a component (component.go:194-232). */
module AllCycles {
  import opened FkGraph
  import opened Cycles
  import opened SearchOrder
  import opened SearchTree

  /** A recorded cycle consists of the same edges. */
  ghost predicate Known(cycles: seq<seq<Edge>>, c: seq<Edge>) {
    exists i :: 0 <= i < |cycles| && multiset(Ids(cycles[i])) == multiset(Ids(c))
  }

  ghost predicate AllRecorded(cg: ComponentGraph, cycles: seq<seq<Edge>>) {
    forall c: seq<Edge> :: Genuine(cg, c) ==> Known(cycles, c)
  }

  // ---------------------------------------------------------------- the root

  lemma {:induction false} StaysInside(cg: ComponentGraph, s: set<nat>, p: seq<Edge>, u: nat, v: nat)
    requires NoWayOut(cg, s) && Leads(cg, p, u, v) && u in s
    ensures v in s
    decreases |p|
  {
    if p != [] {
      assert p[0] in Out(cg, u) && p[0].to in s;
      assert Leads(cg, p[1..], p[0].to, v);
      StaysInside(cg, s, p[1..], p[0].to, v);
    }
  }

  /** In a strongly connected component every trunk is a simple chain from the least table. */
  lemma TrunkIsSimple(cg: ComponentGraph, trunk: Trunks, cycles: seq<seq<Edge>>, r: nat, v: nat)
    requires StronglyConnected(cg) && Searched(cg, trunk, cycles) && IsLeast(cg, r) && v in cg
    ensures v in trunk && SimpleChain(cg, trunk[v], r, v)
  {
    hide OrderedAt, Separated, StronglyConnected, IsChain, AllBack, IsBack, Closes;
    assert TrunkAt(cg, trunk, v);
    var root := if trunk[v] == [] then v else trunk[v][0].from;
    assert root in trunk && trunk[root] == [] && TrunkAt(cg, trunk, root);
    if root != r {
      NotSeparated(cg, r, root);
    }
  }

  lemma NotSeparated(cg: ComponentGraph, u: nat, v: nat)
    requires StronglyConnected(cg) && u in cg && v in cg
    ensures !Separated(cg, u, v)
  {
    hide Leads, NoWayOut;
    assert Connected(cg, u, v);
    var p: seq<Edge> :| Leads(cg, p, u, v);
    forall s: set<nat> | u in s && NoWayOut(cg, s)
      ensures v in s
    {
      StaysInside(cg, s, p, u, v);
    }
  }

  // ---------------------------------------------------------------- tree edges and back edges

  ghost predicate TreeOrBack(cg: ComponentGraph, trunk: Trunks) {
    forall v, e :: v in cg && e in cg[v] ==> IsBack(trunk, e) || IsTreeEdge(trunk, e)
  }

  /** With one simple chain to each table, an edge off the trunk can only be an edge of the tree. */
  lemma OneChainTreeOrBack(cg: ComponentGraph, trunk: Trunks, cycles: seq<seq<Edge>>, r: nat)
    requires Coherent(cg) && StronglyConnected(cg) && Searched(cg, trunk, cycles) && IsLeast(cg, r) &&
             OneSimpleChain(cg)
    ensures TreeOrBack(cg, trunk)
  {
    hide Searched, StronglyConnected, OneSimpleChain, SimpleChain;
    forall v, e | v in cg && e in cg[v] && !IsBack(trunk, e)
      ensures IsTreeEdge(trunk, e)
    {
      assert e.from == v && e.to in cg;
      TrunkIsSimple(cg, trunk, cycles, r, e.from);
      TrunkIsSimple(cg, trunk, cycles, r, e.to);
      AppendSimple(cg, trunk[e.from], r, e);
      SameSimple(cg, r, e.to, trunk[e.to], trunk[e.from] + [e]);
    }
  }

  lemma SameSimple(cg: ComponentGraph, r: nat, v: nat, p: seq<Edge>, q: seq<Edge>)
    requires OneSimpleChain(cg) && IsLeast(cg, r) && SimpleChain(cg, p, r, v) && SimpleChain(cg, q, r, v)
    ensures p == q
  {
    hide SimpleChain;
  }

  lemma AppendSimple(cg: ComponentGraph, p: seq<Edge>, r: nat, e: Edge)
    requires SimpleChain(cg, p, r, e.from) && e in Out(cg, e.from) && e.to != e.from && e.to !in Froms(p)
    ensures SimpleChain(cg, p + [e], r, e.to)
  {
    var s := p + [e];
    assert forall i :: 0 <= i < |p| ==> s[i] == p[i] && p[i].from in Froms(p) by {
      forall i | 0 <= i < |p|
        ensures p[i].from in Froms(p)
      {
      }
    }
  }

  /** With tree and back edges only, a simple chain from the root is a trunk. */
  lemma {:induction false} SimpleIsTrunk(cg: ComponentGraph, trunk: Trunks, p: seq<Edge>, r: nat, v: nat)
    requires Tree(cg, trunk) && TreeOrBack(cg, trunk) && r in trunk && trunk[r] == [] && SimpleChain(cg, p, r, v)
    ensures v in trunk && trunk[v] == p
    decreases |p|
  {
    hide Tree, TreeOrBack;
    if p != [] {
      var q, e := p[..|p| - 1], Last(p);
      InitIsSimple(cg, p, r, v);
      SimpleIsTrunk(cg, trunk, q, r, e.from);
      assert p == q + [e];
      EdgeIs(cg, trunk, e);
      if IsBack(trunk, e) {
        assert e.to == e.from || e.to in Froms(q);
        InitFroms(p, e.to);
      }
    }
  }

  lemma EdgeIs(cg: ComponentGraph, trunk: Trunks, e: Edge)
    requires TreeOrBack(cg, trunk) && e in Out(cg, e.from)
    ensures IsBack(trunk, e) || IsTreeEdge(trunk, e)
  {
  }

  lemma InitFroms(p: seq<Edge>, v: nat)
    requires p != [] && (v == Last(p).from || v in Froms(p[..|p| - 1]))
    ensures v in Froms(p)
  {
    if v in Froms(p[..|p| - 1]) {
      var i :| 0 <= i < |p| - 1 && p[..|p| - 1][i].from == v;
      assert p[i].from == v;
    } else {
      assert p[|p| - 1].from == v;
    }
  }

  lemma InitIsSimple(cg: ComponentGraph, p: seq<Edge>, r: nat, v: nat)
    requires SimpleChain(cg, p, r, v) && p != []
    ensures Last(p).to == v && Last(p) in Out(cg, Last(p).from) && SimpleChain(cg, p[..|p| - 1], r, Last(p).from)
  {
    var q := p[..|p| - 1];
    if q != [] {
      assert p[|q| - 1].to == p[|q|].from;
    }
    forall i | 0 <= i < |q|
      ensures q[i].from != Last(p).from
    {
    }
  }

  // ---------------------------------------------------------------- every cycle is a trunk and its closing edge

  /** The edge of the chain whose table has the shortest trunk. */
  lemma {:induction false} Highest(trunk: Trunks, c: seq<Edge>, n: nat) returns (k: nat)
    requires 0 < n <= |c| && forall i :: 0 <= i < |c| ==> c[i].from in trunk
    ensures k < n && forall i :: 0 <= i < n ==> |trunk[c[k].from]| <= |trunk[c[i].from]|
  {
    if n == 1 {
      k := 0;
    } else {
      k := Highest(trunk, c, n - 1);
      if |trunk[c[n - 1].from]| < |trunk[c[k].from]| {
        k := n - 1;
      }
    }
  }

  /** No table of the chain has a shorter trunk than the first one. */
  ghost predicate TopFirst(trunk: Trunks, c: seq<Edge>) {
    && (forall j :: 0 <= j < |c| ==> c[j].from in trunk)
    && forall j :: 0 <= j < |c| ==> |trunk[c[0].from]| <= |trunk[c[j].from]|
  }

  /** A cycle that starts at its highest table runs down the tree until it closes. */
  lemma {:induction false} RunsDown(cg: ComponentGraph, trunk: Trunks, c: seq<Edge>, i: nat)
    requires Tree(cg, trunk) && TreeOrBack(cg, trunk) && Genuine(cg, c) && i < |c|
    requires TopFirst(trunk, c)
    ensures trunk[c[i].from] == trunk[c[0].from] + c[..i]
  {
    hide Tree, TreeOrBack;
    if i == 0 {
      assert c[..0] == [];
    } else {
      RunsDown(cg, trunk, c, i - 1);
      var e := c[i - 1];
      assert e in Out(cg, e.from) && e.to == c[i].from && c[..i] == c[..i - 1] + [e];
      EdgeIs(cg, trunk, e);
      if IsBack(trunk, e) {
        NoEarlyReturn(cg, trunk, c, i);
      }
    }
  }

  lemma NoEarlyReturn(cg: ComponentGraph, trunk: Trunks, c: seq<Edge>, i: nat)
    requires Tree(cg, trunk) && Genuine(cg, c) && 0 < i < |c| && c[i - 1].to == c[i].from
    requires TopFirst(trunk, c)
    requires trunk[c[i - 1].from] == trunk[c[0].from] + c[..i - 1]
    ensures !IsBack(trunk, c[i - 1])
  {
    hide Tree;
    var e, p := c[i - 1], trunk[c[i - 1].from];
    var top := |trunk[c[0].from]|;
    assert forall k :: top <= k < |p| ==> p[k] == c[k - top];
    if IsBack(trunk, e) {
      var k := TrunkOfMember(cg, trunk, e.from, e.to);
    }
  }

  /** With tree and back edges only, every genuine cycle is recorded. */
  lemma GenuineIsKnown(cg: ComponentGraph, trunk: Trunks, cycles: seq<seq<Edge>>, c: seq<Edge>)
    requires Coherent(cg) && Searched(cg, trunk, cycles) && TreeOrBack(cg, trunk) && Genuine(cg, c)
    ensures Known(cycles, c)
  {
    hide Tree, TreeOrBack, OneTree, Coherent, AllBack, Rotation, Genuine, Closes, IsBack, BackCycle;
    var k := TopRotation(cg, trunk, c);
    var r := Rotation(c, k);
    RotationStaysGenuine(cg, c, k);
    ClosingEdgeIsBack(cg, trunk, r);
    ClosedIsKnown(cg, trunk, cycles, r);
    RotatedIds(c, k);
    var i :| 0 <= i < |cycles| && cycles[i] == r;
  }

  lemma RotatedIds(c: seq<Edge>, k: nat)
    requires k <= |c|
    ensures multiset(Ids(Rotation(c, k))) == multiset(Ids(c))
  {
    assert Ids(Rotation(c, k)) == Ids(c)[k..] + Ids(c)[..k] && Ids(c) == Ids(c)[..k] + Ids(c)[k..];
  }

  /** Some rotation starts at the highest table. */
  lemma TopRotation(cg: ComponentGraph, trunk: Trunks, c: seq<Edge>) returns (k: nat)
    requires trunk.Keys == cg.Keys && Genuine(cg, c)
    ensures k <= |c| && TopFirst(trunk, Rotation(c, k))
  {
    FromsInGraph(cg, c);
    k := Highest(trunk, c, |c|);
    var r := Rotation(c, k);
    forall j | 0 <= j < |r|
      ensures r[j].from in trunk && r[0] == c[k] && |trunk[c[k].from]| <= |trunk[r[j].from]|
    {
      assert r[j] == c[if j < |c| - k then j + k else j + k - |c|];
    }
  }

  lemma ClosedIsKnown(cg: ComponentGraph, trunk: Trunks, cycles: seq<seq<Edge>>, c: seq<Edge>)
    requires Coherent(cg) && Searched(cg, trunk, cycles) && Genuine(cg, c)
    requires IsBack(trunk, Last(c)) && c == BackCycle(trunk, Last(c))
    ensures c in cycles
  {
    hide Searched, IsBack, BackCycle;
    var e := Last(c);
    FromsInGraph(cg, c);
    assert c[|c| - 1] == e;
    BackEdgeCloses(cg, trunk, cycles, e);
  }

  /** The cycle of a back edge is on the list. */
  lemma BackEdgeCloses(cg: ComponentGraph, trunk: Trunks, cycles: seq<seq<Edge>>, e: Edge)
    requires Searched(cg, trunk, cycles) && e.from in cg && e in cg[e.from] && IsBack(trunk, e)
    ensures BackCycle(trunk, e) in cycles
  {
    hide Tree, OneTree, IsBack, BackCycle;
    var i :| 0 <= i < |cycles| && cycles[i] != [] && Last(cycles[i]) == e;
    assert IsBackCycle(trunk, cycles[i]);
  }

  lemma FromsInGraph(cg: ComponentGraph, c: seq<Edge>)
    requires IsChain(cg, c)
    ensures forall i :: 0 <= i < |c| ==> c[i].from in cg && c[i] in cg[c[i].from]
  {
  }

  lemma ClosingEdgeIsBack(cg: ComponentGraph, trunk: Trunks, c: seq<Edge>)
    requires Tree(cg, trunk) && TreeOrBack(cg, trunk) && Genuine(cg, c)
    requires TopFirst(trunk, c)
    ensures IsBack(trunk, Last(c)) && c == BackCycle(trunk, Last(c))
  {
    hide Tree, TreeOrBack;
    var e := Last(c);
    RunsDown(cg, trunk, c, |c| - 1);
    assert e in Out(cg, e.from) && e.to == c[0].from && c == c[..|c| - 1] + [e];
    EdgeIs(cg, trunk, e);
    assert trunk[e.from][|trunk[e.to]|..] == c[..|c| - 1];
  }

  // ---------------------------------------------------------------- an odd edge lies on a missed cycle

  lemma OddEdgeIsMissed(cg: ComponentGraph, trunk: Trunks, cycles: seq<seq<Edge>>, e: Edge)
    requires Coherent(cg) && StronglyConnected(cg) && Searched(cg, trunk, cycles)
    requires forall i :: 0 <= i < |cycles| ==> IsChain(cg, cycles[i])
    requires e in Out(cg, e.from) && !IsBack(trunk, e) && !IsTreeEdge(trunk, e)
    ensures !AllRecorded(cg, cycles)
  {
    hide TablesOf, SearchOf, Tree, OneTree, TrunkAt, Known, IsChain, Leads, SimpleChain, Genuine, IsBack, IsTreeEdge;
    EdgeEnds(cg, e);
    hide Coherent;
    assert Connected(cg, e.to, e.from);
    var p: seq<Edge> :| Leads(cg, p, e.to, e.from);
    var q := Shorten(cg, p, e.to, e.from);
    var c := [e] + q;
    CloseSimple(cg, e, q);
    NotKnown(cg, trunk, cycles, e, c);
  }

  lemma EdgeEnds(cg: ComponentGraph, e: Edge)
    requires Coherent(cg) && e in Out(cg, e.from)
    ensures e.to in cg && e.from in cg
  {
  }

  lemma CloseSimple(cg: ComponentGraph, e: Edge, q: seq<Edge>)
    requires e in Out(cg, e.from) && SimpleChain(cg, q, e.to, e.from)
    ensures Genuine(cg, [e] + q)
  {
    var c := [e] + q;
    assert forall i :: 0 < i < |c| ==> c[i] == q[i - 1];
    forall i | 0 < i < |c|
      ensures c[i].from != e.from
    {
      assert q[i - 1].from in Froms(q);
    }
  }

  lemma NotKnown(cg: ComponentGraph, trunk: Trunks, cycles: seq<seq<Edge>>, e: Edge, c: seq<Edge>)
    requires Coherent(cg) && Tree(cg, trunk) && AllBack(trunk, cycles)
    requires forall i :: 0 <= i < |cycles| ==> IsChain(cg, cycles[i])
    requires e in Out(cg, e.from) && !IsBack(trunk, e) && !IsTreeEdge(trunk, e) && c != [] && c[0] == e
    ensures !Known(cycles, c)
  {
    hide Tree, TrunkAt, Coherent, IsBack, IsTreeEdge, IsChain;
    assert Ids(c)[0] == e.id;
    assert e.id in multiset(Ids(c));
    forall i | 0 <= i < |cycles|
      ensures e.id !in multiset(Ids(cycles[i]))
    {
      assert IsBackCycle(trunk, cycles[i]);
      NoOddEdge(cg, trunk, cycles[i], e);
    }
  }

  /** No edge of a recorded cycle has the identity of an edge that is neither in the tree nor a back edge. */
  lemma NoOddEdge(cg: ComponentGraph, trunk: Trunks, c: seq<Edge>, e: Edge)
    requires Coherent(cg) && Tree(cg, trunk) && IsBackCycle(trunk, c) && IsChain(cg, c)
    requires e in Out(cg, e.from) && !IsBack(trunk, e) && !IsTreeEdge(trunk, e)
    ensures e.id !in Ids(c)
  {
    if e.id in Ids(c) {
      var k :| 0 <= k < |c| && Ids(c)[k] == e.id;
      SameIdSameEdge(cg, c[k], e);
      BackCycleAt(cg, trunk, c, k);
      if k < |c| - 1 {
        TrunkEdgeIsTree(cg, trunk, Last(c).from, |trunk[Last(c).to]| + k);
      }
    }
  }

  // ---------------------------------------------------------------- tables on recorded cycles

  /** The table is `u` itself or one the trunk of `u` leaves. */
  ghost predicate OnTrunk(trunk: Trunks, u: nat, v: nat) {
    u in trunk && (v == u || v in Froms(trunk[u]))
  }

  /** Some edge leads from the table, or from below it in the tree, to the table or above it. */
  ghost predicate Spanned(cg: ComponentGraph, trunk: Trunks, v: nat) {
    exists e: Edge :: e in Out(cg, e.from) && OnTrunk(trunk, e.from, v) && OnTrunk(trunk, v, e.to)
  }

  /** The same, read off the component alone. */
  ghost predicate SpannedIn(cg: ComponentGraph, v: nat) {
    exists e: Edge :: e in Out(cg, e.from) && OnLine(SearchOf(cg), e.from, v) && OnLine(SearchOf(cg), v, e.to)
  }

  lemma OnTrunkIff(trunk: Trunks, u: nat, v: nat)
    ensures OnTrunk(trunk, u, v) <==> OnLine(TablesOf(trunk), u, v)
  {
    if u in trunk {
      var p := trunk[u];
      if v in FromSeq(p) {
        var i :| 0 <= i < |p| && FromSeq(p)[i] == v;
        assert p[i].from == v;
      }
      if v in Froms(p) {
        var i :| 0 <= i < |p| && p[i].from == v;
        assert FromSeq(p)[i] == v;
      }
    }
  }

  lemma SpannedIff(cg: ComponentGraph, trunk: Trunks, v: nat)
    requires TablesOf(trunk) == SearchOf(cg)
    ensures Spanned(cg, trunk, v) <==> SpannedIn(cg, v)
  {
    hide OnTrunk, OnLine, TablesOf, SearchOf;
    forall u, w
      ensures OnTrunk(trunk, u, w) <==> OnLine(SearchOf(cg), u, w)
    {
      OnTrunkIff(trunk, u, w);
    }
  }

  ghost predicate OnRecorded(cycles: seq<seq<Edge>>, v: nat) {
    exists c :: c in cycles && v in Froms(c)
  }

  /** Exactly the spanned tables lie on recorded cycles. */
  lemma OnRecordedIff(cg: ComponentGraph, trunk: Trunks, cycles: seq<seq<Edge>>, idents: set<string>, v: nat)
    requires Searched(cg, trunk, cycles) && Recorded(cg, cycles, idents)
    ensures OnRecorded(cycles, v) <==> SpannedIn(cg, v)
  {
    hide Recorded, OnRecorded, Spanned, SpannedIn, TablesOf, SearchOf, Tree, OneTree, AllBack, Closes, IsBack;
    OnTreeIff(cg, trunk, cycles, idents, v);
    SpannedIff(cg, trunk, v);
  }

  lemma OnTreeIff(cg: ComponentGraph, trunk: Trunks, cycles: seq<seq<Edge>>, idents: set<string>, v: nat)
    requires Searched(cg, trunk, cycles) && Recorded(cg, cycles, idents)
    ensures OnRecorded(cycles, v) <==> Spanned(cg, trunk, v)
  {
    hide Searched, Recorded, Froms, OnTrunk;
    if c :| c in cycles && v in Froms(c) {
      RecordedIsSpanned(cg, trunk, cycles, idents, c, v);
    }
    if e: Edge :| e in Out(cg, e.from) && OnTrunk(trunk, e.from, v) && OnTrunk(trunk, v, e.to) {
      SpannedIsRecorded(cg, trunk, cycles, e, v);
    }
  }

  lemma RecordedIsSpanned(cg: ComponentGraph, trunk: Trunks, cycles: seq<seq<Edge>>, idents: set<string>, c: seq<Edge>,
                          v: nat)
    requires Searched(cg, trunk, cycles) && Recorded(cg, cycles, idents) && c in cycles && v in Froms(c)
    ensures Spanned(cg, trunk, v)
  {
    hide Tree, OneTree, CycleId, IsBackCycle, Closes, IsBack;
    var i :| 0 <= i < |cycles| && cycles[i] == c;
    var j :| 0 <= j < |c| && c[j].from == v;
    assert IsBackCycle(trunk, c) && Genuine(cg, c);
    BackCycleAt(cg, trunk, c, j);
    var e := Last(c);
    assert c[|c| - 1] in Out(cg, c[|c| - 1].from);
    var top, p := |trunk[e.to]|, trunk[e.from];
    assert c[..|c| - 1] == p[top..];
    assert j < |c| - 1 ==> p[top + j].from == v;
    assert OnTrunk(trunk, e.from, v);
    assert j > 0 ==> trunk[v][top] == p[top] == c[..|c| - 1][0];
    assert OnTrunk(trunk, v, e.to);
  }

  lemma SpannedIsRecorded(cg: ComponentGraph, trunk: Trunks, cycles: seq<seq<Edge>>, e: Edge, v: nat)
    requires Searched(cg, trunk, cycles) && e in Out(cg, e.from)
    requires OnTrunk(trunk, e.from, v) && OnTrunk(trunk, v, e.to)
    ensures OnRecorded(cycles, v)
  {
    hide Tree, OneTree, IsBackCycle, AllBack, Closes;
    var k := TrunkOfMember(cg, trunk, e.from, v);
    var top := TrunkOfMember(cg, trunk, v, e.to);
    var p := trunk[e.from];
    assert top < k ==> p[top] == trunk[v][top];
    assert IsBack(trunk, e);
    BackEdgeCloses(cg, trunk, cycles, e);
    var c := BackCycle(trunk, e);
    assert c == p[top..] + [e];
    assert c[k - top].from == v;
    assert v in Froms(c);
  }

  // ---------------------------------------------------------------- which cycles are recorded

  /** The reference leads back to a table on the path to its own. */
  ghost predicate LeadsBack(cg: ComponentGraph, e: Edge) {
    e in Out(cg, e.from) && OnLine(SearchOf(cg), e.from, e.to)
  }

  /** The tables from the target of the reference down to its own. */
  ghost function LoopOf(l: Lineage, e: Edge): seq<nat> {
    if e.from in l && e.to in l && |l[e.to]| <= |l[e.from]| then l[e.from][|l[e.to]|..] + [e.from] else [e.from]
  }

  /** One cycle for each reference that leads back, closed by it and over exactly those tables. */
  ghost predicate RecordsExactly(cg: ComponentGraph, cycles: seq<seq<Edge>>) {
    && (forall c :: c in cycles ==> c != [] && LeadsBack(cg, Last(c)) && FromSeq(c) == LoopOf(SearchOf(cg), Last(c)))
    && (forall e :: LeadsBack(cg, e) ==> Closes(cycles, e))
    && ClosersDiffer(cycles)
  }

  lemma BackTables(cg: ComponentGraph, trunk: Trunks, e: Edge)
    requires Tree(cg, trunk) && IsBack(trunk, e)
    ensures FromSeq(BackCycle(trunk, e)) == LoopOf(TablesOf(trunk), e)
  {
    hide Tree;
    var k := TrunkOfMember(cg, trunk, e.from, e.to);
    var p := trunk[e.from];
    assert BackCycle(trunk, e) == p[k..] + [e];
    assert FromSeq(p[k..] + [e]) == FromSeq(p)[k..] + [e.from];
  }

  lemma SearchRecordsExactly(cg: ComponentGraph, trunk: Trunks, cycles: seq<seq<Edge>>, idents: set<string>)
    requires Searched(cg, trunk, cycles) && Recorded(cg, cycles, idents)
    ensures RecordsExactly(cg, cycles)
  {
    hide Tree, OneTree, CycleId, TablesOf, SearchOf, Closes, ClosersDiffer, BackCycle, LoopOf, OnLine, IsBack, IsChain;
    ClosersAreDifferent(cg, trunk, cycles, idents);
    forall c | c in cycles
      ensures c != [] && LeadsBack(cg, Last(c)) && FromSeq(c) == LoopOf(SearchOf(cg), Last(c))
    {
      var i :| 0 <= i < |cycles| && cycles[i] == c;
      assert IsBackCycle(trunk, c) && Genuine(cg, c);
      BackIff(trunk, Last(c));
      BackTables(cg, trunk, Last(c));
      LastIsEdge(cg, c);
    }
    forall e | LeadsBack(cg, e)
      ensures Closes(cycles, e)
    {
      BackIff(trunk, e);
    }
  }

  lemma BackIff(trunk: Trunks, e: Edge)
    ensures IsBack(trunk, e) <==> OnLine(TablesOf(trunk), e.from, e.to)
  {
    OnTrunkIff(trunk, e.from, e.to);
  }

  lemma LastIsEdge(cg: ComponentGraph, c: seq<Edge>)
    requires IsChain(cg, c) && c != []
    ensures Last(c) in Out(cg, Last(c).from)
  {
    assert c[|c| - 1] in Out(cg, c[|c| - 1].from);
  }

  /** Whatever the order of parallel references, the recorded cycles have the same closing references and tables. */
  lemma SameCycles(cg: ComponentGraph, a: seq<seq<Edge>>, b: seq<seq<Edge>>)
    requires RecordsExactly(cg, a) && RecordsExactly(cg, b)
    ensures |a| == |b|
    ensures forall c :: c in a ==>
              c != [] && exists d :: d in b && d != [] && Last(d) == Last(c) && FromSeq(d) == FromSeq(c)
  {
    hide LeadsBack, LoopOf, SearchOf;
    SameNumber(cg, a, b);
    forall c | c in a
      ensures c != [] && exists d :: d in b && d != [] && Last(d) == Last(c) && FromSeq(d) == FromSeq(c)
    {
      var j :| 0 <= j < |b| && b[j] != [] && Last(b[j]) == Last(c);
      assert b[j] in b;
    }
  }

  function Closers(cycles: seq<seq<Edge>>): set<Edge> {
    set i | 0 <= i < |cycles| && cycles[i] != [] :: Last(cycles[i])
  }

  lemma {:induction false} CountClosers(cycles: seq<seq<Edge>>)
    requires ClosersDiffer(cycles) && forall c :: c in cycles ==> c != []
    ensures |Closers(cycles)| == |cycles|
  {
    if cycles != [] {
      var init, last := cycles[..|cycles| - 1], cycles[|cycles| - 1];
      assert forall c :: c in init ==> c in cycles;
      CountClosers(init);
      assert last in cycles;
      assert Closers(cycles) == Closers(init) + {Last(last)};
    }
  }

  lemma SameNumber(cg: ComponentGraph, a: seq<seq<Edge>>, b: seq<seq<Edge>>)
    requires RecordsExactly(cg, a) && RecordsExactly(cg, b)
    ensures |a| == |b|
  {
    hide LeadsBack, LoopOf, SearchOf;
    CountClosers(a);
    CountClosers(b);
    forall e
      ensures e in Closers(a) <==> e in Closers(b)
    {
      ClosersLeadBack(cg, a, e);
      ClosersLeadBack(cg, b, e);
    }
    assert Closers(a) == Closers(b);
  }

  lemma ClosersLeadBack(cg: ComponentGraph, cycles: seq<seq<Edge>>, e: Edge)
    requires RecordsExactly(cg, cycles)
    ensures e in Closers(cycles) <==> LeadsBack(cg, e)
  {
    hide LeadsBack, LoopOf, SearchOf;
    if e in Closers(cycles) {
      var i :| 0 <= i < |cycles| && cycles[i] != [] && Last(cycles[i]) == e;
      assert cycles[i] in cycles;
    }
    if LeadsBack(cg, e) {
      assert Closes(cycles, e);
    }
  }

  // ---------------------------------------------------------------- the exact condition

  /**
   * Every cycle of a strongly connected component is recorded exactly when each table is reached from the
   * least one by one simple chain of edges only.
   */
  lemma AllRecordedIff(cg: ComponentGraph, trunk: Trunks, cycles: seq<seq<Edge>>, idents: set<string>)
    requires Coherent(cg) && StronglyConnected(cg) && Searched(cg, trunk, cycles) && Recorded(cg, cycles, idents)
    ensures AllRecorded(cg, cycles) <==> OneSimpleChain(cg)
  {
    hide Searched, Coherent, StronglyConnected, IsBack, IsTreeEdge, CycleId, Known;
    RecordedAreChains(cg, cycles, idents);
    if OneSimpleChain(cg) {
      OneChainRecordsAll(cg, trunk, cycles);
    } else {
      TwoChainsMiss(cg, trunk, cycles);
    }
  }

  lemma RecordedAreChains(cg: ComponentGraph, cycles: seq<seq<Edge>>, idents: set<string>)
    requires Recorded(cg, cycles, idents)
    ensures forall i :: 0 <= i < |cycles| ==> IsChain(cg, cycles[i])
  {
    hide CycleId, IsChain;
    forall i | 0 <= i < |cycles|
      ensures IsChain(cg, cycles[i])
    {
      assert Genuine(cg, cycles[i]);
    }
  }

  lemma OneChainRecordsAll(cg: ComponentGraph, trunk: Trunks, cycles: seq<seq<Edge>>)
    requires Coherent(cg) && StronglyConnected(cg) && Searched(cg, trunk, cycles) && OneSimpleChain(cg)
    ensures AllRecorded(cg, cycles)
  {
    hide Searched, Coherent, StronglyConnected, OneSimpleChain, Known, TreeOrBack, IsLeast;
    forall c: seq<Edge> | Genuine(cg, c)
      ensures Known(cycles, c)
    {
      FromsInGraph(cg, c);
      var r := LeastOf(cg, c[0].from);
      OneChainTreeOrBack(cg, trunk, cycles, r);
      GenuineIsKnown(cg, trunk, cycles, c);
    }
  }

  lemma {:induction false} LeastOf(cg: ComponentGraph, v: nat) returns (r: nat)
    requires v in cg
    ensures IsLeast(cg, r)
    decreases v
  {
    if w: nat :| w in cg && w < v {
      r := LeastOf(cg, w);
    } else {
      r := v;
    }
  }

  lemma TwoChainsMiss(cg: ComponentGraph, trunk: Trunks, cycles: seq<seq<Edge>>)
    requires Coherent(cg) && StronglyConnected(cg) && Searched(cg, trunk, cycles) && !OneSimpleChain(cg)
    requires forall i :: 0 <= i < |cycles| ==> IsChain(cg, cycles[i])
    ensures !AllRecorded(cg, cycles)
  {
    hide Coherent, StronglyConnected, Tree, OneTree, AllBack, SimpleChain, IsBack, IsTreeEdge, AllRecorded, IsChain;
    var r, v, p, q :| IsLeast(cg, r) && SimpleChain(cg, p, r, v) && SimpleChain(cg, q, r, v) && p != q;
    TrunkIsSimple(cg, trunk, cycles, r, r);
    LoopIsEmpty(cg, trunk[r], r);
    if TreeOrBack(cg, trunk) {
      SimpleIsTrunk(cg, trunk, p, r, v);
      SimpleIsTrunk(cg, trunk, q, r, v);
      assert false;
    }
    var w, e :| w in cg && e in cg[w] && !IsBack(trunk, e) && !IsTreeEdge(trunk, e);
    assert e.from == w by { FromIs(cg, w, e); }
    OddEdgeIsMissed(cg, trunk, cycles, e);
  }

  lemma FromIs(cg: ComponentGraph, w: nat, e: Edge)
    requires Coherent(cg) && w in cg && e in cg[w]
    ensures e.from == w
  {
  }

  lemma LoopIsEmpty(cg: ComponentGraph, p: seq<Edge>, r: nat)
    requires SimpleChain(cg, p, r, r)
    ensures p == []
  {
    FromsHold(p);
  }
}
