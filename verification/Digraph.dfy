/** Finite directed graphs given by adjacency lists, with reachability along walks. */
module Digraph {

  type Adjacency = seq<seq<nat>>

  predicate WellFormed(g: Adjacency) {
    forall u, k :: 0 <= u < |g| && 0 <= k < |g[u]| ==> g[u][k] < |g|
  }

  predicate HasArc(g: Adjacency, u: nat, v: nat) {
    u < |g| && v in g[u]
  }

  predicate IsWalk(g: Adjacency, p: seq<nat>) {
    && p != []
    && forall i :: 0 <= i < |p| - 1 ==> HasArc(g, p[i], p[i + 1])
  }

  /** `v` can be reached from `u` along zero or more arcs. */
  ghost predicate Reach(g: Adjacency, u: nat, v: nat) {
    exists p: seq<nat> :: IsWalk(g, p) && p[0] == u && p[|p| - 1] == v
  }

  /** Two vertices are strongly connected when each reaches the other. */
  ghost predicate Mutual(g: Adjacency, u: nat, v: nat) {
    Reach(g, u, v) && Reach(g, v, u)
  }

  ghost predicate Transposed(g: Adjacency, h: Adjacency) {
    && |g| == |h|
    && forall u: nat, v: nat :: HasArc(g, u, v) <==> HasArc(h, v, u)
  }

  lemma ReachRefl(g: Adjacency, u: nat)
    ensures Reach(g, u, u)
  {
    assert IsWalk(g, [u]);
  }

  lemma ReachArc(g: Adjacency, u: nat, v: nat)
    requires HasArc(g, u, v)
    ensures Reach(g, u, v)
  {
    var p := [u, v];
    assert IsWalk(g, p) && p[0] == u && p[|p| - 1] == v;
  }

  lemma ReachTrans(g: Adjacency, u: nat, v: nat, w: nat)
    requires Reach(g, u, v) && Reach(g, v, w)
    ensures Reach(g, u, w)
  {
    var p: seq<nat> :| IsWalk(g, p) && p[0] == u && p[|p| - 1] == v;
    var q: seq<nat> :| IsWalk(g, q) && q[0] == v && q[|q| - 1] == w;
    var r := p + q[1..];
    assert forall i :: 0 <= i < |r| - 1 ==> HasArc(g, r[i], r[i + 1]) by {
      forall i | 0 <= i < |r| - 1
        ensures HasArc(g, r[i], r[i + 1])
      {
        if i >= |p| - 1 {
          assert r[i] == q[i - |p| + 1] && r[i + 1] == q[i - |p| + 2];
        }
      }
    }
    assert IsWalk(g, r);
  }

  lemma TailOfWalk(g: Adjacency, p: seq<nat>)
    requires IsWalk(g, p) && |p| > 1
    ensures IsWalk(g, p[1..])
  {
    var q := p[1..];
    forall i | 0 <= i < |q| - 1
      ensures HasArc(g, q[i], q[i + 1])
    {
      assert HasArc(g, p[i + 1], p[i + 1 + 1]);
    }
  }

  /** A walk that leaves a set crosses its border along some arc. */
  lemma {:induction false} BorderCrossing(g: Adjacency, p: seq<nat>, inside: set<nat>) returns (a: nat, b: nat)
    requires IsWalk(g, p) && p[0] in inside && p[|p| - 1] !in inside
    ensures a in inside && b !in inside && HasArc(g, a, b)
    ensures Reach(g, p[0], a) && Reach(g, b, p[|p| - 1])
  {
    assert HasArc(g, p[0], p[1]);
    if p[1] in inside {
      TailOfWalk(g, p);
      a, b := BorderCrossing(g, p[1..], inside);
      ReachArc(g, p[0], p[1]);
      ReachTrans(g, p[0], p[1], a);
    } else {
      a, b := p[0], p[1];
      ReachRefl(g, a);
      TailOfWalk(g, p);
      assert p[1..][0] == b && p[1..][|p| - 2] == p[|p| - 1];
    }
  }

  lemma BorderArc(g: Adjacency, u: nat, v: nat, inside: set<nat>) returns (a: nat, b: nat)
    requires Reach(g, u, v) && u in inside && v !in inside
    ensures a in inside && b !in inside && HasArc(g, a, b)
    ensures Reach(g, u, a) && Reach(g, b, v)
  {
    var p: seq<nat> :| IsWalk(g, p) && p[0] == u && p[|p| - 1] == v;
    a, b := BorderCrossing(g, p, inside);
  }

  lemma MutualTrans(g: Adjacency, u: nat, v: nat, w: nat)
    requires Mutual(g, u, v) && Mutual(g, v, w)
    ensures Mutual(g, u, w)
  {
    ReachTrans(g, u, v, w);
    ReachTrans(g, w, v, u);
  }

  /** A number that never falls along an arc never falls along a walk. */
  lemma {:induction false} NeverFalls(g: Adjacency, rank: seq<int>, p: seq<nat>)
    requires WellFormed(g) && |rank| == |g|
    requires forall a: nat, b: nat :: HasArc(g, a, b) ==> b < |g| && rank[a] <= rank[b]
    requires IsWalk(g, p) && p[0] < |g|
    ensures p[|p| - 1] < |g| && rank[p[0]] <= rank[p[|p| - 1]]
  {
    if |p| > 1 {
      assert HasArc(g, p[0], p[1]);
      TailOfWalk(g, p);
      NeverFalls(g, rank, p[1..]);
    }
  }
}
