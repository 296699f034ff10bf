/**
 * What the search order means: it is the only forest over the tables in which every reference leads to a table met
 * before its own, or to one below it through a table no larger than the target (component.go:194-232).
 */
module DepthFirst {
  import opened Cycles
  import opened SearchOrder

  // ---------------------------------------------------------------- paths in order

  /** The path to a table, with the table itself. */
  function Full(l: Lineage, v: nat): (p: seq<nat>)
    requires v in l
    ensures p != [] && p[|p| - 1] == v && p[..|p| - 1] == l[v]
  {
    l[v] + [v]
  }

  /** The beginning of a path comes first, then its continuations, smaller tables first. */
  predicate Precedes(p: seq<nat>, q: seq<nat>) {
    q != [] && (p == [] || p[0] < q[0] || (p[0] == q[0] && Precedes(p[1..], q[1..])))
  }

  /** The path goes on behind `p`. */
  predicate Continues(f: seq<nat>, p: seq<nat>) {
    |p| < |f| && p <= f
  }

  lemma {:induction false} PrecedesNot(p: seq<nat>, s: seq<nat>)
    ensures !Precedes(p + s, p)
  {
    if p != [] {
      assert (p + s)[1..] == p[1..] + s;
      PrecedesNot(p[1..], s);
    }
  }

  /** What comes before a continuation comes before the path, is the path, or continues it with a smaller table. */
  lemma {:induction false} PrecedesExtended(f: seq<nat>, p: seq<nat>, t: nat)
    ensures Precedes(f, p + [t]) <==> Precedes(f, p) || f == p || (Continues(f, p) && f[|p|] < t)
  {
    if p == [] {
      if f != [] {
        assert f[0] == t ==> !Precedes(f[1..], ([] + [t])[1..]);
      }
    } else if f != [] && f[0] == p[0] {
      assert (p + [t])[1..] == p[1..] + [t];
      PrecedesExtended(f[1..], p[1..], t);
      assert f == [f[0]] + f[1..] && p == [p[0]] + p[1..];
      assert Continues(f, p) <==> Continues(f[1..], p[1..]);
    }
  }

  // ---------------------------------------------------------------- the ordered forest

  /** Every path runs along references, and its beginnings are the paths of the tables on it. */
  ghost predicate Forest(cg: ComponentGraph, l: Lineage) {
    forall v :: v in l ==> v in cg && Rooted(cg, l, v)
  }

  ghost predicate Rooted(cg: ComponentGraph, l: Lineage, v: nat)
    requires v in l
  {
    && (forall i :: 0 <= i < |l[v]| ==> l[v][i] in l && l[l[v][i]] == l[v][..i])
    && (l[v] != [] ==> v in TargetSet(cg, l[v][|l[v]| - 1]))
  }

  /** Seen from the end of `p`, the table was met before, or lies below through a table no larger than itself. */
  ghost predicate InOrder(l: Lineage, p: seq<nat>, w: nat) {
    w in l && (Precedes(Full(l, w), p) || Full(l, w) == p || (Continues(Full(l, w), p) && Full(l, w)[|p|] <= w))
  }

  ghost predicate OrderedFrom(cg: ComponentGraph, l: Lineage, u: nat)
    requires u in l
  {
    forall w :: w in TargetSet(cg, u) ==> InOrder(l, Full(l, u), w)
  }

  /** A depth-first forest over all tables that takes smaller targets, and smaller roots, first. */
  ghost predicate Ordered(cg: ComponentGraph, l: Lineage) {
    && l.Keys == cg.Keys && Forest(cg, l)
    && (forall u :: u in l ==> OrderedFrom(cg, l, u))
    && (forall w :: w in l ==> InOrder(l, [], w))
  }

  // ---------------------------------------------------------------- no other forest is ordered so

  /** Met when the targets of the end of `p` below `t0` are done. */
  ghost predicate Reached(f: seq<nat>, p: seq<nat>, t0: nat) {
    Precedes(f, p) || f == p || (Continues(f, p) && f[|p|] < t0)
  }

  ghost predicate MetSoFar(l: Lineage, p: seq<nat>, t0: nat, seen: Lineage) {
    && Grows(seen, l)
    && forall v :: v in l ==> (v in seen <==> Reached(Full(l, v), p, t0))
  }

  /** Met when everything below `p` is done. */
  ghost predicate MetBelow(l: Lineage, p: seq<nat>, seen: Lineage) {
    && Grows(seen, l)
    && forall v :: v in l ==> (v in seen <==> Precedes(Full(l, v), p) || p <= Full(l, v))
  }

  /** `targets` are in order behind `p`, and all tables right behind `p` are among them. */
  ghost predicate Targeted(l: Lineage, p: seq<nat>, targets: set<nat>) {
    && (forall w :: w in targets ==> InOrder(l, p, w))
    && (forall v :: v in l && l[v] == p ==> v in targets)
  }

  function From(targets: set<nat>, t0: nat): set<nat> {
    set t | t in targets && t >= t0
  }

  /** The table with which a path goes on behind `p` is one of the targets. */
  lemma BranchIsTarget(cg: ComponentGraph, l: Lineage, p: seq<nat>, targets: set<nat>, v: nat)
    requires Forest(cg, l) && Targeted(l, p, targets) && v in l && Continues(Full(l, v), p)
    ensures var c := Full(l, v)[|p|]; c in targets && c in l && l[c] == p
  {
    assert Rooted(cg, l, v);
    var c := Full(l, v)[|p|];
    if |p| == |l[v]| {
      assert p == l[v];
    } else {
      assert l[v][|p|] == c && p == l[v][..|p|];
    }
  }

  /** Nothing lies below `p` through a table between `t0` and the least target that is left. */
  lemma BranchesFall(cg: ComponentGraph, l: Lineage, p: seq<nat>, targets: set<nat>, t0: nat, v: nat)
    requires Forest(cg, l) && Targeted(l, p, targets) && From(targets, t0) != {} && v in l
    requires Continues(Full(l, v), p)
    ensures Full(l, v)[|p|] < Least(From(targets, t0)) <==> Full(l, v)[|p|] < t0
  {
    hide Forest, Targeted, Full;
    BranchIsTarget(cg, l, p, targets, v);
    assert Least(From(targets, t0)) in From(targets, t0);
    var c := Full(l, v)[|p|];
    assert c >= t0 ==> c in From(targets, t0);
  }

  lemma NotOnOwnPath(cg: ComponentGraph, l: Lineage, t: nat)
    requires t in l && Rooted(cg, l, t)
    ensures forall i :: 0 <= i < |l[t]| ==> l[t][i] != t
  {
    assert forall i :: 0 <= i < |l[t]| && l[t][i] == t ==> l[t] == l[t][..i];
  }

  /** The next target, unless it was met, is the next table right behind `p`. */
  lemma NextIsBehind(cg: ComponentGraph, l: Lineage, p: seq<nat>, targets: set<nat>, t0: nat, seen: Lineage)
    requires Forest(cg, l) && Targeted(l, p, targets) && MetSoFar(l, p, t0, seen) && From(targets, t0) != {}
    ensures var t := Least(From(targets, t0)); t in l && (t !in seen <==> l[t] == p)
  {
    var t := Least(From(targets, t0));
    assert InOrder(l, p, t);
    var f := Full(l, t);
    assert Rooted(cg, l, t);
    hide Precedes, Targeted, Forest, From;
    if t !in seen {
      assert Continues(f, p) && f[|p|] <= t;
      BranchesFall(cg, l, p, targets, t0, t);
      NotOnOwnPath(cg, l, t);
    }
    if l[t] == p {
      assert f == p + [t];
      PrecedesNot(p, [t]);
    }
  }

  /** In front of the tables behind `p` and the table `t` is what was met when `t` is entered. */
  lemma EnteredSoFar(cg: ComponentGraph, l: Lineage, p: seq<nat>, targets: set<nat>, t0: nat, seen: Lineage)
    requires Forest(cg, l) && Targeted(l, p, targets) && MetSoFar(l, p, t0, seen) && From(targets, t0) != {}
    requires var t := Least(From(targets, t0)); t in l && l[t] == p
    ensures var t := Least(From(targets, t0)); MetSoFar(l, p + [t], 0, seen[t := p])
  {
    hide Forest, Targeted;
    var t := Least(From(targets, t0));
    forall v | v in l
      ensures v in seen[t := p] <==> Reached(Full(l, v), p + [t], 0)
    {
      PrecedesExtended(Full(l, v), p, t);
      if Continues(Full(l, v), p) {
        BranchesFall(cg, l, p, targets, t0, v);
      }
      assert Full(l, v) == p + [t] <==> v == t by {
        assert Full(l, t) == p + [t];
      }
    }
  }

  /** When all below `t` is done, or `t` was met before, the targets up to `t` are done. */
  lemma DoneUpTo(cg: ComponentGraph, l: Lineage, p: seq<nat>, targets: set<nat>, t0: nat, seen: Lineage, after: Lineage)
    requires Forest(cg, l) && Targeted(l, p, targets) && MetSoFar(l, p, t0, seen) && From(targets, t0) != {}
    requires var t := Least(From(targets, t0));
             t in l && if l[t] == p then MetBelow(l, p + [t], after) else after == seen
    ensures MetSoFar(l, p, Least(From(targets, t0)) + 1, after)
  {
    hide Forest, Targeted, From, Full;
    var t := Least(From(targets, t0));
    forall v | v in l
      ensures v in after <==> Reached(Full(l, v), p, t + 1)
    {
      var f := Full(l, v);
      PrecedesExtended(f, p, t);
      if Continues(f, p) {
        BranchesFall(cg, l, p, targets, t0, v);
        BranchIsTarget(cg, l, p, targets, v);
      }
      assert p + [t] <= f <==> Continues(f, p) && f[|p|] == t;
    }
  }

  lemma LeftBehind(targets: set<nat>, t0: nat)
    requires From(targets, t0) != {}
    ensures var t := Least(From(targets, t0)); From(targets, t0) - {t} == From(targets, t + 1)
  {
  }

  lemma AllDone(cg: ComponentGraph, l: Lineage, p: seq<nat>, targets: set<nat>, t0: nat, seen: Lineage)
    requires Forest(cg, l) && Targeted(l, p, targets) && MetSoFar(l, p, t0, seen) && From(targets, t0) == {}
    ensures MetBelow(l, p, seen)
  {
    forall v | v in l
      ensures v in seen <==> Precedes(Full(l, v), p) || p <= Full(l, v)
    {
      var f := Full(l, v);
      if p <= f && f != p {
        assert Continues(f, p);
        BranchIsTarget(cg, l, p, targets, v);
        assert f[|p|] !in From(targets, t0);
      }
    }
  }

  /** The search meets the tables below the end of a path as they lie in an ordered forest. */
  lemma {:induction false} FollowsForest(cg: ComponentGraph, l: Lineage, p: seq<nat>, targets: set<nat>, t0: nat,
                                         seen: Lineage)
    requires Ordered(cg, l) && Targeted(l, p, targets) && MetSoFar(l, p, t0, seen)
    ensures MetBelow(l, p, FollowTargets(cg, p, From(targets, t0), seen))
    decreases cg.Keys - seen.Keys, |From(targets, t0)|
  {
    hide Targeted, MetSoFar, MetBelow, Forest, From, InOrder, OrderedFrom;
    var left := From(targets, t0);
    if left == {} {
      AllDone(cg, l, p, targets, t0, seen);
    } else {
      var t := Least(left);
      NextIsBehind(cg, l, p, targets, t0, seen);
      LeftBehind(targets, t0);
      var after := seen;
      if l[t] == p {
        EnteredSoFar(cg, l, p, targets, t0, seen);
        TargetedBehind(cg, l, p, t);
        assert cg.Keys - seen[t := p].Keys < cg.Keys - seen.Keys by {
          assert t in cg.Keys - seen.Keys && t !in cg.Keys - seen[t := p].Keys;
        }
        FollowsForest(cg, l, p + [t], TargetSet(cg, t), 0, seen[t := p]);
        AllLeft(TargetSet(cg, t));
        after := EnterTable(cg, t, p, seen);
      }
      DoneUpTo(cg, l, p, targets, t0, seen, after);
      assert cg.Keys - after.Keys <= cg.Keys - seen.Keys;
      FollowsForest(cg, l, p, targets, t + 1, after);
    }
  }

  lemma AllLeft(targets: set<nat>)
    ensures From(targets, 0) == targets
  {
  }

  lemma TargetedBehind(cg: ComponentGraph, l: Lineage, p: seq<nat>, t: nat)
    requires Ordered(cg, l) && t in l && l[t] == p
    ensures Targeted(l, p + [t], TargetSet(cg, t))
  {
    assert OrderedFrom(cg, l, t) && Full(l, t) == p + [t];
    forall v | v in l && l[v] == p + [t]
      ensures v in TargetSet(cg, t)
    {
      assert Rooted(cg, l, v);
    }
  }

  lemma OrderedIsSearch(cg: ComponentGraph, l: Lineage)
    requires Ordered(cg, l)
    ensures l == SearchOf(cg)
  {
    hide FollowTargets, Forest, OrderedFrom, From;
    NothingMet(cg, l);
    AllLeft(cg.Keys);
    FollowsForest(cg, l, [], cg.Keys, 0, map[]);
    AllMet(l, SearchOf(cg));
  }

  lemma NothingMet(cg: ComponentGraph, l: Lineage)
    requires Ordered(cg, l)
    ensures MetSoFar(l, [], 0, map[]) && Targeted(l, [], cg.Keys)
  {
    hide Forest, OrderedFrom;
  }

  lemma AllMet(l: Lineage, r: Lineage)
    requires MetBelow(l, [], r)
    ensures l.Keys <= r.Keys && forall v :: v in l ==> r[v] == l[v]
  {
    assert forall v :: v in l ==> [] <= Full(l, v);
  }

  // ---------------------------------------------------------------- the search gives an ordered forest

  /** Tables met so far do not lie behind any target that is left. */
  ghost predicate NoneAhead(seen: Lineage, p: seq<nat>, left: set<nat>) {
    forall v, t :: v in seen && t in left ==> Reached(Full(seen, v), p, t)
  }

  /** The tables of the path were met on it. */
  ghost predicate PathMet(seen: Lineage, p: seq<nat>) {
    forall i :: 0 <= i < |p| ==> p[i] in seen && seen[p[i]] == p[..i]
  }

  ghost predicate LeftAreTargets(cg: ComponentGraph, p: seq<nat>, left: set<nat>) {
    left <= cg.Keys && (p != [] ==> left <= TargetSet(cg, p[|p| - 1]))
  }

  /** The tables met between `seen` and `r` lie behind `p` through `left`, with their references in order. */
  ghost predicate AddsInOrder(cg: ComponentGraph, p: seq<nat>, left: set<nat>, seen: Lineage, r: Lineage) {
    forall v :: v in r && v !in seen ==>
      Continues(Full(r, v), p) && Full(r, v)[|p|] in left && OrderedFrom(cg, r, v)
  }

  ghost predicate AllInOrder(r: Lineage, p: seq<nat>, targets: set<nat>) {
    forall w :: w in targets ==> InOrder(r, p, w)
  }

  lemma InOrderStays(before: Lineage, after: Lineage, p: seq<nat>, w: nat)
    requires Grows(before, after) && InOrder(before, p, w)
    ensures InOrder(after, p, w)
  {
    assert Full(after, w) == Full(before, w);
  }

  lemma OrderedStays(cg: ComponentGraph, before: Lineage, after: Lineage, u: nat)
    requires Grows(before, after) && u in before && OrderedFrom(cg, before, u)
    ensures OrderedFrom(cg, after, u)
  {
    hide InOrder;
    assert Full(after, u) == Full(before, u);
    forall w | w in TargetSet(cg, u)
      ensures InOrder(after, Full(after, u), w)
    {
      InOrderStays(before, after, Full(before, u), w);
    }
  }

  /** The search can go on from the end of `p` to the targets that are left. */
  ghost predicate CanFollow(cg: ComponentGraph, p: seq<nat>, left: set<nat>, seen: Lineage) {
    Forest(cg, seen) && NoneAhead(seen, p, left) && PathMet(seen, p) && LeftAreTargets(cg, p, left)
  }

  /** Entering `t` from the end of `p`. */
  lemma EnterKeeps(cg: ComponentGraph, p: seq<nat>, left: set<nat>, seen: Lineage, t: nat)
    requires Coherent(cg) && CanFollow(cg, p, left, seen) && t in left && t !in seen
    ensures CanFollow(cg, p + [t], TargetSet(cg, t), seen[t := p])
  {
    hide Coherent, Forest, NoneAhead, PathMet;
    EnterForest(cg, p, left, seen, t);
    EnterNoneAhead(p, left, seen, t, TargetSet(cg, t));
    EnterPath(p, seen, t);
    TargetsInside(cg, t);
  }

  lemma TargetsInside(cg: ComponentGraph, t: nat)
    requires Coherent(cg)
    ensures TargetSet(cg, t) <= cg.Keys
  {
  }

  lemma EnterForest(cg: ComponentGraph, p: seq<nat>, left: set<nat>, seen: Lineage, t: nat)
    requires Forest(cg, seen) && PathMet(seen, p) && LeftAreTargets(cg, p, left) && t in left && t !in seen
    ensures Forest(cg, seen[t := p])
  {
    hide TargetSet;
    var grown := seen[t := p];
    forall v | v in grown
      ensures v in cg && Rooted(cg, grown, v)
    {
      assert v != t ==> Rooted(cg, seen, v);
    }
  }

  lemma EnterNoneAhead(p: seq<nat>, left: set<nat>, seen: Lineage, t: nat, targets: set<nat>)
    requires NoneAhead(seen, p, left) && t in left && t !in seen
    ensures NoneAhead(seen[t := p], p + [t], targets)
  {
    hide Precedes;
    var grown := seen[t := p];
    forall v, w | v in grown && w in targets
      ensures Reached(Full(grown, v), p + [t], w)
    {
      if v != t {
        assert Full(grown, v) == Full(seen, v);
        assert Reached(Full(seen, v), p, t);
        PrecedesExtended(Full(seen, v), p, t);
      }
    }
  }

  lemma EnterPath(p: seq<nat>, seen: Lineage, t: nat)
    requires PathMet(seen, p) && t !in seen
    ensures PathMet(seen[t := p], p + [t])
  {
    var q := p + [t];
    assert forall i :: 0 <= i < |p| ==> q[i] == p[i] && q[..i] == p[..i];
    assert q[..|p|] == p;
  }

  /** What entering `t` added, with `t` itself, seen from the end of `p`. */
  lemma AddedBelow(cg: ComponentGraph, p: seq<nat>, left: set<nat>, seen: Lineage, t: nat, r: Lineage)
    requires t in left && t !in seen && NoneAhead(seen, p, left) && t == Least(left)
    requires Grows(seen[t := p], r) && AddsInOrder(cg, p + [t], TargetSet(cg, t), seen[t := p], r)
    requires AllInOrder(r, p + [t], TargetSet(cg, t))
    ensures AddsInOrder(cg, p, left, seen, r) && NoneAhead(r, p, left - {t}) && InOrder(r, p, t)
  {
    hide InOrder, TargetSet, Precedes;
    assert t in seen[t := p] && t in r && Full(r, t) == p + [t];
    BehindThrough(cg, p, seen, t, r);
    forall v, w | v in r && w in left - {t}
      ensures Reached(Full(r, v), p, w)
    {
      if v in seen {
        assert v in seen[t := p];
        assert Full(r, v) == Full(seen, v);
      }
    }
    assert InOrder(r, p, t) by { EndsBehind(r, p, t); }
  }

  lemma BehindThrough(cg: ComponentGraph, p: seq<nat>, seen: Lineage, t: nat, r: Lineage)
    requires t !in seen && Grows(seen[t := p], r)
    requires AddsInOrder(cg, p + [t], TargetSet(cg, t), seen[t := p], r)
    requires AllInOrder(r, p + [t], TargetSet(cg, t))
    ensures forall v :: v in r && v !in seen ==>
              Continues(Full(r, v), p) && Full(r, v)[|p|] == t && OrderedFrom(cg, r, v)
  {
    hide InOrder, TargetSet;
    var q := p + [t];
    assert q[|p|] == t && q[..|p|] == p;
    assert t in seen[t := p] && Full(r, t) == q;
    forall v | v in r && v !in seen
      ensures Continues(Full(r, v), p) && Full(r, v)[|p|] == t && OrderedFrom(cg, r, v)
    {
      if v != t {
        assert Continues(Full(r, v), q);
      }
    }
  }

  lemma EndsBehind(r: Lineage, p: seq<nat>, t: nat)
    requires t in r && Full(r, t) == p + [t]
    ensures InOrder(r, p, t)
  {
  }

  /** Two stretches of the search, one after the other. */
  lemma AddsTwice(cg: ComponentGraph, p: seq<nat>, left: set<nat>, seen: Lineage, t: nat, middle: Lineage, r: Lineage)
    requires Grows(seen, middle) && Grows(middle, r) && t in left
    requires AddsInOrder(cg, p, left, seen, middle) && InOrder(middle, p, t)
    requires AddsInOrder(cg, p, left - {t}, middle, r) && AllInOrder(r, p, left - {t})
    ensures AddsInOrder(cg, p, left, seen, r) && AllInOrder(r, p, left)
  {
    hide InOrder, OrderedFrom, TargetSet;
    InOrderStays(middle, r, p, t);
    forall v | v in r && v !in seen
      ensures Continues(Full(r, v), p) && Full(r, v)[|p|] in left && OrderedFrom(cg, r, v)
    {
      if v in middle {
        assert Full(r, v) == Full(middle, v);
        OrderedStays(cg, middle, r, v);
      }
    }
  }

  /** A target met before is in order. */
  lemma MetIsInOrder(seen: Lineage, p: seq<nat>, left: set<nat>, t: nat)
    requires NoneAhead(seen, p, left) && t in left && t in seen
    ensures InOrder(seen, p, t)
  {
    assert Reached(Full(seen, t), p, t);
  }

  lemma {:induction false} FollowKeepsOrder(cg: ComponentGraph, p: seq<nat>, left: set<nat>, seen: Lineage)
    requires Coherent(cg) && CanFollow(cg, p, left, seen)
    ensures var r := FollowTargets(cg, p, left, seen);
            Forest(cg, r) && AddsInOrder(cg, p, left, seen, r) && AllInOrder(r, p, left)
    decreases cg.Keys - seen.Keys, |left|
  {
    hide Coherent, Forest, NoneAhead, PathMet, InOrder, OrderedFrom, AddsInOrder, AllInOrder;
    if left == {} {
      NothingAdded(cg, p, seen);
    } else {
      var t := Least(left);
      var middle := seen;
      if t in seen {
        MetIsInOrder(seen, p, left, t);
        NothingAddedYet(cg, p, left, seen, t);
      } else {
        EnterKeeps(cg, p, left, seen, t);
        assert cg.Keys - seen[t := p].Keys < cg.Keys - seen.Keys by {
          assert t in cg.Keys - seen.Keys && t !in cg.Keys - seen[t := p].Keys;
        }
        FollowKeepsOrder(cg, p + [t], TargetSet(cg, t), seen[t := p]);
        middle := EnterTable(cg, t, p, seen);
        AddedBelow(cg, p, left, seen, t, middle);
      }
      PathStaysMet(seen, middle, p);
      assert cg.Keys - middle.Keys <= cg.Keys - seen.Keys;
      FollowKeepsOrder(cg, p, left - {t}, middle);
      AddsTwice(cg, p, left, seen, t, middle, FollowTargets(cg, p, left - {t}, middle));
    }
  }

  lemma NothingAdded(cg: ComponentGraph, p: seq<nat>, seen: Lineage)
    ensures AddsInOrder(cg, p, {}, seen, seen) && AllInOrder(seen, p, {})
  {
  }

  lemma NothingAddedYet(cg: ComponentGraph, p: seq<nat>, left: set<nat>, seen: Lineage, t: nat)
    requires NoneAhead(seen, p, left)
    ensures AddsInOrder(cg, p, left, seen, seen) && NoneAhead(seen, p, left - {t})
  {
  }

  lemma PathStaysMet(seen: Lineage, r: Lineage, p: seq<nat>)
    requires PathMet(seen, p) && Grows(seen, r)
    ensures PathMet(r, p)
  {
  }

  /** The search is the ordered depth-first forest of the component, and the only one. */
  lemma OrderedIff(cg: ComponentGraph, l: Lineage)
    requires Coherent(cg)
    ensures Ordered(cg, l) <==> l == SearchOf(cg)
  {
    hide FollowTargets, Forest, OrderedFrom, InOrder, Coherent;
    FollowKeepsOrder(cg, [], cg.Keys, map[]) by { NothingMetYet(cg); }
    assert SearchOf(cg).Keys == cg.Keys by { AllAreMet(cg, SearchOf(cg)); }
    if Ordered(cg, l) {
      OrderedIsSearch(cg, l);
    }
  }

  lemma NothingMetYet(cg: ComponentGraph)
    ensures CanFollow(cg, [], cg.Keys, map[])
  {
  }

  lemma AllAreMet(cg: ComponentGraph, r: Lineage)
    requires Forest(cg, r) && AllInOrder(r, [], cg.Keys)
    ensures r.Keys == cg.Keys
  {
  }
}
