/** Finite directed graphs given by successor lists, walks and reachability. */
module Digraph {

  /** Node `v` has the outgoing edges `g[v]`, in order and possibly repeated. */
  type Graph = seq<seq<nat>>

  predicate WellFormed(g: Graph) {
    forall v, j :: 0 <= v < |g| && 0 <= j < |g[v]| ==> g[v][j] < |g|
  }

  /** `p` is a walk from `u` to `v`: consecutive nodes are joined by an edge. */
  ghost predicate IsWalk(g: Graph, p: seq<nat>, u: nat, v: nat)
    decreases |p|
  {
    && |p| > 0 && p[0] == u < |g|
    && if |p| == 1 then u == v else p[1] in g[u] && IsWalk(g, p[1..], p[1], v)
  }

  ghost predicate Reach(g: Graph, u: nat, v: nat) {
    exists p :: IsWalk(g, p, u, v)
  }

  /** `u` and `v` lie in one strongly connected component. */
  ghost predicate Mutual(g: Graph, u: nat, v: nat) {
    Reach(g, u, v) && Reach(g, v, u)
  }

  /** The component of `u` has another member. */
  ghost predicate HasCompany(g: Graph, u: nat) {
    exists w: nat :: w < |g| && w != u && Mutual(g, u, w)
  }

  lemma ReachSelf(g: Graph, u: nat)
    requires u < |g|
    ensures Reach(g, u, u)
  {
    assert IsWalk(g, [u], u, u);
  }

  lemma ReachEdge(g: Graph, u: nat, v: nat)
    requires u < |g| && v < |g| && v in g[u]
    ensures Reach(g, u, v)
  {
    assert IsWalk(g, [u, v], u, v);
  }

  lemma {:induction false} WalkAppend(g: Graph, p: seq<nat>, q: seq<nat>, u: nat, v: nat, w: nat)
    requires IsWalk(g, p, u, v) && IsWalk(g, q, v, w)
    ensures IsWalk(g, p + q[1..], u, w)
    decreases |p|
  {
    var r := p + q[1..];
    if |p| == 1 {
      assert r == q;
    } else {
      WalkAppend(g, p[1..], q, p[1], v, w);
      assert r[1..] == p[1..] + q[1..];
    }
  }

  lemma ReachTransitive(g: Graph, u: nat, v: nat, w: nat)
    requires Reach(g, u, v) && Reach(g, v, w)
    ensures Reach(g, u, w)
  {
    var p :| IsWalk(g, p, u, v);
    var q :| IsWalk(g, q, v, w);
    WalkAppend(g, p, q, u, v, w);
  }

  /** A walk to another node starts with an edge. */
  lemma ReachFirst(g: Graph, u: nat, w: nat) returns (v: nat)
    requires Reach(g, u, w) && u != w
    ensures u < |g| && v in g[u] && Reach(g, v, w)
  {
    var p :| IsWalk(g, p, u, w);
    v := p[1];
    assert IsWalk(g, p[1..], v, w);
  }

  /** A set of nodes that no edge leaves. */
  ghost predicate Closed(g: Graph, c: set<nat>) {
    forall v, j :: v in c && v < |g| && 0 <= j < |g[v]| ==> g[v][j] in c
  }

  lemma {:induction false} WalkStaysInside(g: Graph, c: set<nat>, p: seq<nat>, u: nat, v: nat)
    requires Closed(g, c) && u in c && IsWalk(g, p, u, v)
    ensures v in c
    decreases |p|
  {
    if |p| > 1 {
      assert p[1] in g[p[0]];
      WalkStaysInside(g, c, p[1..], p[1], v);
    }
  }

  lemma ReachStaysInside(g: Graph, c: set<nat>, u: nat, v: nat)
    requires Closed(g, c) && u in c && Reach(g, u, v)
    ensures v in c
  {
    var p :| IsWalk(g, p, u, v);
    WalkStaysInside(g, c, p, u, v);
  }

  /** Pigeonhole: a sequence of distinct numbers below `n` has at most `n` entries. */
  lemma {:induction false} DistinctBelow(s: seq<nat>, n: nat)
    requires forall i :: 0 <= i < |s| ==> s[i] < n
    requires forall i, j :: 0 <= i < j < |s| ==> s[i] != s[j]
    ensures |s| <= n
  {
    if |s| > 0 {
      var first := s[0];
      assert first < n;
      if k :| 0 <= k < |s| && s[k] == n - 1 {
        DistinctBelow(s[..k] + s[k + 1..], n - 1);
      } else {
        DistinctBelow(s, n - 1);
      }
    }
  }
}
