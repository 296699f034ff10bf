/** The order in which the cycle groups of a component are processed (component.go:107-172). */
module CycleGroups {
  import opened FkGraph
  import opened Keys
  import opened Cycles
  import opened CycleSearch

  // ---------------------------------------------------------------- groups and their tables

  function FirstCycle(cycles: seq<seq<Edge>>, groups: map<string, seq<nat>>, id: string): seq<Edge> {
    if id in groups && groups[id] != [] && groups[id][0] < |cycles| then cycles[groups[id][0]] else []
  }

  predicate HasOwnSubsetConds(c: seq<Edge>, conditioned: set<nat>) {
    exists i :: 0 <= i < |c| && c[i].to in conditioned
  }

  predicate ShareVertexes(a: seq<Edge>, b: seq<Edge>) {
    exists i, j :: 0 <= i < |a| && 0 <= j < |b| && a[i].to == b[j].to
  }

  /** The group has conditions of its own when one of its tables is conditioned. */
  lemma OwnMeansConditioned(cg: ComponentGraph, c: seq<Edge>, conditioned: set<nat>)
    requires Genuine(cg, c)
    ensures HasOwnSubsetConds(c, conditioned) <==> Froms(c) * conditioned != {}
  {
    hide Genuine, Froms;
    forall x
      ensures x in Froms(c) <==> x in Tos(c)
    {
      EntersItsTables(cg, c, x);
    }
    if HasOwnSubsetConds(c, conditioned) {
      var i :| 0 <= i < |c| && c[i].to in conditioned;
      assert Tos(c)[i] in Froms(c) * conditioned;
    }
    if x :| x in Froms(c) && x in conditioned {
      var i :| 0 <= i < |c| && Tos(c)[i] == x;
      assert c[i].to in conditioned;
    }
  }

  /** The first cycle stands for all cycles of its group: they visit the same tables. */
  lemma FirstCycleStandsForGroup(cg: ComponentGraph, cycles: seq<seq<Edge>>, groups: map<string, seq<nat>>, id: string,
                                 k: nat)
    requires Grouped(cycles, groups) && id in groups && k in groups[id]
    requires forall i :: 0 <= i < |cycles| ==> Genuine(cg, cycles[i])
    ensures k < |cycles| && Froms(cycles[k]) == Froms(FirstCycle(cycles, groups, id))
  {
    assert IsGroup(cycles, id, groups[id]);
    assert groups[id][0] in groups[id];
    SameGroupIff(cg, cycles[k], FirstCycle(cycles, groups, id));
  }

  // ---------------------------------------------------------------- the order

  /**
   * Position `i` is justified: the group has conditions of its own, or shares a table with an earlier
   * group, or neither it nor any group after it shares a table with an earlier one.
   */
  ghost predicate Justified(ordered: seq<string>, rest: seq<string>, own: string -> bool,
                            share: (string, string) -> bool, i: nat)
    requires i < |ordered|
  {
    own(ordered[i]) || LinkedTo(ordered[..i], ordered[i], share) || Detached(ordered, rest, share, i)
  }

  predicate LinkedTo(ordered: seq<string>, id: string, share: (string, string) -> bool) {
    exists j :: 0 <= j < |ordered| && share(ordered[j], id)
  }

  ghost predicate Detached(ordered: seq<string>, rest: seq<string>, share: (string, string) -> bool, i: nat)
    requires i <= |ordered|
  {
    && (forall j, m :: 0 <= j < i <= m < |ordered| ==> !share(ordered[j], ordered[m]))
    && (forall j, x :: 0 <= j < i && x in rest ==> !share(ordered[j], x))
  }

  ghost predicate AllJustified(ordered: seq<string>, rest: seq<string>, own: string -> bool,
                               share: (string, string) -> bool) {
    forall i: nat :: i < |ordered| ==> Justified(ordered, rest, own, share, i)
  }

  ghost predicate OwnFirst(ordered: seq<string>, own: string -> bool) {
    forall i, j :: 0 <= i < j < |ordered| && own(ordered[j]) ==> own(ordered[i])
  }

  ghost predicate NoneOwn(rest: seq<string>, own: string -> bool) {
    forall x :: x in rest ==> !own(x)
  }

  /** Moving a justified group from the rest to the end of the order keeps everything justified. */
  lemma AppendKeepsJustified(ordered: seq<string>, rest: seq<string>, k: nat, own: string -> bool,
                             share: (string, string) -> bool)
    requires k < |rest| && AllJustified(ordered, rest, own, share)
    requires own(rest[k]) || LinkedTo(ordered, rest[k], share) || Detached(ordered, rest, share, |ordered|)
    ensures AllJustified(ordered + [rest[k]], rest[..k] + rest[k + 1..], own, share)
  {
    var grown, left := ordered + [rest[k]], rest[..k] + rest[k + 1..];
    assert forall x :: x in left ==> x in rest;
    assert rest[k] in rest;
    forall i: nat | i < |grown|
      ensures Justified(grown, left, own, share, i)
    {
      assert grown[..i] == ordered[..i];
      if i < |ordered| {
        assert Justified(ordered, rest, own, share, i);
        DetachedStays(ordered, rest, left, rest[k], share, i);
      } else {
        assert ordered[..i] == ordered;
        DetachedStays(ordered, rest, left, rest[k], share, i);
      }
    }
  }

  lemma DetachedStays(ordered: seq<string>, rest: seq<string>, left: seq<string>, x: string,
                      share: (string, string) -> bool, i: nat)
    requires i <= |ordered| && x in rest && forall y :: y in left ==> y in rest
    ensures Detached(ordered, rest, share, i) ==> Detached(ordered + [x], left, share, i)
  {
  }

  function Filtered(ids: seq<string>, p: string -> bool): seq<string> {
    if ids == [] then [] else (if p(ids[0]) then [ids[0]] else []) + Filtered(ids[1..], p)
  }

  function Not(p: string -> bool): string -> bool {
    x => !p(x)
  }

  /** One pass from position `idx`: a group linked to the order is moved to its end. */
  function Pass(ordered: seq<string>, rest: seq<string>, idx: nat,
                share: (string, string) -> bool): (r: (seq<string>, seq<string>))
    ensures |r.1| <= |rest|
    decreases |rest| - idx
  {
    if idx >= |rest| then (ordered, rest)
    else if LinkedTo(ordered, rest[idx], share)
    then Pass(ordered + [rest[idx]], rest[..idx] + rest[idx + 1..], idx, share)
    else Pass(ordered, rest, idx + 1, share)
  }

  /** Passes until nothing is left; a pass that moves nothing is followed by moving the first group. */
  function Arranged(ordered: seq<string>, rest: seq<string>, share: (string, string) -> bool): seq<string>
    decreases |rest|
  {
    if rest == [] then ordered
    else
      var (o, r) := Pass(ordered, rest, 0, share);
      if |r| == |rest| then Arranged(o + [r[0]], r[1..], share) else Arranged(o, r, share)
  }

  /** The order of the groups, given their ids in ascending order. */
  function OrderOf(sorted: seq<string>, own: string -> bool, share: (string, string) -> bool): seq<string> {
    Arranged(Filtered(sorted, own), Filtered(sorted, Not(own)), share)
  }

  /** One pass that takes the groups with conditions of their own. */
  method TakeOwn(ids: seq<string>, own: string -> bool, ghost share: (string, string) -> bool)
    returns (ordered: seq<string>, remaining: seq<string>)
    ensures multiset(ordered) + multiset(remaining) == multiset(ids)
    ensures AllJustified(ordered, remaining, own, share) && OwnFirst(ordered, own) && NoneOwn(remaining, own)
    ensures ordered == Filtered(ids, own) && remaining == Filtered(ids, Not(own))
  {
    hide AllJustified, Filtered;
    ordered, remaining := [], ids;
    var idx := 0;
    NothingOrdered(ids, own, share);
    DivisionStarts(ids, own);
    while idx < |remaining|
      invariant idx <= |remaining| && multiset(ordered) + multiset(remaining) == multiset(ids)
      invariant AllJustified(ordered, remaining, own, share) && forall i :: 0 <= i < |ordered| ==> own(ordered[i])
      invariant forall i :: 0 <= i < idx ==> !own(remaining[i])
      invariant Divided(ids, ordered, remaining, idx, own)
    {
      DivideOne(ids, ordered, remaining, idx, own);
      if own(remaining[idx]) {
        ordered, remaining := MoveOver(ordered, remaining, idx, own, share);
      } else {
        idx := idx + 1;
      }
    }
    DivisionEnds(ids, ordered, remaining, own);
  }

  /** What is taken and passed over so far; the ids from `idx` on are open. */
  ghost predicate Divided(ids: seq<string>, ordered: seq<string>, rest: seq<string>, idx: nat, p: string -> bool)
    requires idx <= |rest|
  {
    && Filtered(ids, p) == ordered + Filtered(rest[idx..], p)
    && Filtered(ids, Not(p)) == rest[..idx] + Filtered(rest[idx..], Not(p))
  }

  lemma DivisionStarts(ids: seq<string>, p: string -> bool)
    ensures Divided(ids, [], ids, 0, p)
  {
    assert ids[0..] == ids;
  }

  lemma DivisionEnds(ids: seq<string>, ordered: seq<string>, rest: seq<string>, p: string -> bool)
    requires Divided(ids, ordered, rest, |rest|, p)
    ensures ordered == Filtered(ids, p) && rest == Filtered(ids, Not(p))
  {
    assert rest[..|rest|] == rest;
  }

  lemma DivideOne(ids: seq<string>, ordered: seq<string>, rest: seq<string>, idx: nat, p: string -> bool)
    requires idx < |rest| && Divided(ids, ordered, rest, idx, p)
    ensures if p(rest[idx]) then Divided(ids, ordered + [rest[idx]], rest[..idx] + rest[idx + 1..], idx, p)
            else Divided(ids, ordered, rest, idx + 1, p)
  {
    hide Filtered;
    TakeOne(rest, idx, p);
    TakeOne(rest, idx, Not(p));
  }

  lemma TakeOne(rest: seq<string>, idx: nat, p: string -> bool)
    requires idx < |rest|
    ensures Filtered(rest[idx..], p) == (if p(rest[idx]) then [rest[idx]] else []) + Filtered(rest[idx + 1..], p)
    ensures (rest[..idx] + rest[idx + 1..])[idx..] == rest[idx + 1..] &&
            (rest[..idx] + rest[idx + 1..])[..idx] == rest[..idx]
    ensures rest[..idx + 1] == rest[..idx] + [rest[idx]]
  {
    assert rest[idx..][1..] == rest[idx + 1..];
  }

  lemma NothingOrdered(ids: seq<string>, own: string -> bool, share: (string, string) -> bool)
    ensures AllJustified([], ids, own, share)
  {
  }

  method MoveOver(ordered: seq<string>, remaining: seq<string>, idx: nat, ghost own: string -> bool,
                  ghost share: (string, string) -> bool)
    returns (grown: seq<string>, left: seq<string>)
    requires idx < |remaining| && AllJustified(ordered, remaining, own, share)
    requires own(remaining[idx]) || LinkedTo(ordered, remaining[idx], share) ||
             Detached(ordered, remaining, share, |ordered|)
    ensures grown == ordered + [remaining[idx]] && left == remaining[..idx] + remaining[idx + 1..]
    ensures multiset(grown) + multiset(left) == multiset(ordered) + multiset(remaining)
    ensures AllJustified(grown, left, own, share)
    ensures forall own :: NoneOwn(remaining, own) ==> NoneOwn(left, own) && !own(remaining[idx])
  {
    AppendKeepsJustified(ordered, remaining, idx, own, share);
    grown := ordered + [remaining[idx]];
    left := remaining[..idx] + remaining[idx + 1..];
    assert remaining == remaining[..idx] + [remaining[idx]] + remaining[idx + 1..];
  }

  /** One pass that takes the groups sharing a table with a group taken before, including in this pass. */
  method TakeLinked(ordered0: seq<string>, remaining0: seq<string>, ghost own: string -> bool,
                    share: (string, string) -> bool)
    returns (ordered: seq<string>, remaining: seq<string>)
    requires AllJustified(ordered0, remaining0, own, share) && OwnFirst(ordered0, own) && NoneOwn(remaining0, own)
    ensures multiset(ordered) + multiset(remaining) == multiset(ordered0) + multiset(remaining0)
    ensures AllJustified(ordered, remaining, own, share) && OwnFirst(ordered, own) && NoneOwn(remaining, own)
    ensures |remaining| <= |remaining0|
    ensures |remaining| == |remaining0| ==> ordered == ordered0 && Detached(ordered, remaining, share, |ordered|)
    ensures (ordered, remaining) == Pass(ordered0, remaining0, 0, share)
  {
    hide AllJustified, NoneOwn;
    ordered, remaining := ordered0, remaining0;
    var idx := 0;
    while idx < |remaining|
      invariant idx <= |remaining| <= |remaining0| &&
                multiset(ordered) + multiset(remaining) == multiset(ordered0) + multiset(remaining0)
      invariant AllJustified(ordered, remaining, own, share) && OwnFirst(ordered, own) && NoneOwn(remaining, own)
      invariant |remaining| == |remaining0| ==>
                  ordered == ordered0 && forall i :: 0 <= i < idx ==> !LinkedTo(ordered, remaining[i], share)
      invariant Pass(ordered, remaining, idx, share) == Pass(ordered0, remaining0, 0, share)
    {
      if LinkedTo(ordered, remaining[idx], share) {
        ordered, remaining := MoveOver(ordered, remaining, idx, own, share);
      } else {
        idx := idx + 1;
      }
    }
  }

  /**
   * Every group once; groups with conditions of their own come first, and each other group follows one it
   * shares a table with unless no group that is left shares a table with the groups before it. The order is the
   * same however the set is listed.
   */
  method GetSortedGroupIds(groupIds: set<string>, own: string -> bool, share: (string, string) -> bool)
    returns (ordered: seq<string>)
    ensures multiset(ordered) == multiset(groupIds)
    ensures AllJustified(ordered, [], own, share) && OwnFirst(ordered, own)
    ensures forall ids: seq<string> :: multiset(ids) == multiset(groupIds) ==> ordered == OrderOf(Sort(ids), own, share)
  {
    hide AllJustified, NoneOwn, Detached, OwnFirst, Filtered, Pass, Arranged, OrderOf, Sort;
    var ids := Listed(groupIds);
    var remaining: seq<string>;
    SortSorts(ids);
    ordered, remaining := TakeOwn(Sort(ids), own, share);
    ghost var expected := OrderOf(Sort(ids), own, share);
    OrderStarts(Sort(ids), own, share);
    while remaining != []
      invariant multiset(ordered) + multiset(remaining) == multiset(groupIds)
      invariant AllJustified(ordered, remaining, own, share) && OwnFirst(ordered, own) && NoneOwn(remaining, own)
      invariant Arranged(ordered, remaining, share) == expected
      decreases |remaining|
    {
      var prevLen := |remaining|;
      ArrangeOne(ordered, remaining, share);
      ordered, remaining := TakeLinked(ordered, remaining, own, share);
      if |remaining| == prevLen {
        OwnStaysFirst(ordered, remaining, own);
        ordered, remaining := MoveOver(ordered, remaining, 0, own, share);
      }
    }
    ArrangedAll(ordered, share);
    SortIgnoresOrder(ids);
  }

  lemma OwnStaysFirst(ordered: seq<string>, rest: seq<string>, own: string -> bool)
    requires OwnFirst(ordered, own) && NoneOwn(rest, own) && rest != []
    ensures OwnFirst(ordered + [rest[0]], own)
  {
    assert rest[0] in rest;
  }

  lemma OrderStarts(sorted: seq<string>, own: string -> bool, share: (string, string) -> bool)
    ensures OrderOf(sorted, own, share) == Arranged(Filtered(sorted, own), Filtered(sorted, Not(own)), share)
  {
  }

  lemma ArrangedAll(ordered: seq<string>, share: (string, string) -> bool)
    ensures Arranged(ordered, [], share) == ordered
  {
  }

  lemma ArrangeOne(ordered: seq<string>, rest: seq<string>, share: (string, string) -> bool)
    requires rest != []
    ensures var (o, r) := Pass(ordered, rest, 0, share);
            Arranged(ordered, rest, share) ==
            if |r| == |rest| then Arranged(o + [r[0]], r[..0] + r[1..], share) else Arranged(o, r, share)
  {
    hide Pass;
    var (o, r) := Pass(ordered, rest, 0, share);
    assert |r| > 0 ==> r[..0] + r[1..] == r[1..];
  }

  lemma SortIgnoresOrder(ids: seq<string>)
    ensures forall other: seq<string> :: multiset(other) == multiset(ids) ==> Sort(other) == Sort(ids)
  {
    forall other: seq<string> | multiset(other) == multiset(ids)
      ensures Sort(other) == Sort(ids)
    {
      SortSorts(ids);
      SortSorts(other);
      SortedUnique(Sort(other), Sort(ids));
    }
  }

  /** The order of a component's groups, given the tables that carry subset conditions. */
  method SortGroups(component: Component, conditioned: set<nat>) returns (ordered: seq<string>)
    requires component.Sound() && Grouped(component.cycles, component.groupedCycles)
    ensures multiset(ordered) == multiset(component.groupedCycles.Keys)
    ensures OwnFirst(ordered, OwnIn(component.cycles, component.groupedCycles, conditioned))
    ensures AllJustified(ordered, [], OwnIn(component.cycles, component.groupedCycles, conditioned),
                         ShareIn(component.cycles, component.groupedCycles))
    ensures forall ids: seq<string> :: multiset(ids) == multiset(component.groupedCycles.Keys) ==>
              ordered == OrderOf(Sort(ids), OwnIn(component.cycles, component.groupedCycles, conditioned),
                                 ShareIn(component.cycles, component.groupedCycles))
  {
    var own := OwnIn(component.cycles, component.groupedCycles, conditioned);
    ordered := GetSortedGroupIds(component.groupedCycles.Keys, own,
                                 ShareIn(component.cycles, component.groupedCycles));
  }

  function OwnIn(cycles: seq<seq<Edge>>, groups: map<string, seq<nat>>, conditioned: set<nat>): string -> bool {
    id => HasOwnSubsetConds(FirstCycle(cycles, groups, id), conditioned)
  }

  function ShareIn(cycles: seq<seq<Edge>>, groups: map<string, seq<nat>>): (string, string) -> bool {
    (a, b) => ShareVertexes(FirstCycle(cycles, groups, a), FirstCycle(cycles, groups, b))
  }

  /** Sharing a table, read off the first cycles, is a common table of any two cycles of the groups. */
  lemma ShareMeansCommonTable(cg: ComponentGraph, a: seq<Edge>, b: seq<Edge>)
    requires Genuine(cg, a) && Genuine(cg, b)
    ensures ShareVertexes(a, b) <==> Froms(a) * Froms(b) != {}
  {
    hide Genuine, Froms;
    forall x
      ensures (x in Froms(a) <==> x in Tos(a)) && (x in Froms(b) <==> x in Tos(b))
    {
      EntersItsTables(cg, a, x);
      EntersItsTables(cg, b, x);
    }
    if x :| x in Froms(a) && x in Froms(b) {
      var i, j :| 0 <= i < |a| && Tos(a)[i] == x && 0 <= j < |b| && Tos(b)[j] == x;
      assert a[i].to == b[j].to;
    }
    if ShareVertexes(a, b) {
      var i, j :| 0 <= i < |a| && 0 <= j < |b| && a[i].to == b[j].to;
      var x := Tos(a)[i];
      assert x in Tos(a) && x == Tos(b)[j] && x in Tos(b);
      assert x in Froms(a) * Froms(b);
    }
  }

  lemma EntersItsTables(cg: ComponentGraph, c: seq<Edge>, x: nat)
    requires Genuine(cg, c)
    ensures x in Froms(c) <==> x in Tos(c)
  {
    EntersEachOnce(cg, c, x);
    assert x in Tos(c) <==> x in multiset(Tos(c));
  }

  method Listed(s: set<string>) returns (r: seq<string>)
    ensures multiset(r) == multiset(s)
  {
    r := [];
    var rest := s;
    while rest != {}
      invariant rest <= s && multiset(r) + multiset(rest) == multiset(s)
      decreases rest
    {
      var x: string :| x in rest;
      assert multiset(rest) == multiset(rest - {x}) + multiset{x};
      r, rest := r + [x], rest - {x};
    }
  }
}
