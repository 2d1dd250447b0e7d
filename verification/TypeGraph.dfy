/** Walking a graph of type nodes depth first, with the nodes on the current path and all nodes
    met so far: when the walk succeeds. */
module TypeGraph {
  import opened Wrappers
  import opened Digraph

  ghost function Nodes(g: Graph): set<nat> {
    set v: nat | v < |g| && IsNode(g, v)
  }

  predicate IsNode(g: Graph, v: nat) {
    v < |g|
  }

  /** Visits `node`: refused on the current path, or when it is not sound in itself, and in
      `tree` mode when it was met before. Gives the nodes met. */
  ghost function Visit(g: Graph, sound: seq<bool>, tree: bool, node: nat, active: set<nat>, met: set<nat>):
    Option<set<nat>>
    requires WellFormed(g) && |sound| == |g| && node < |g|
    decreases |Nodes(g) - active|, 0
  {
    if node in active || !sound[node] || (tree && node in met) then None
    else
      assert Nodes(g) - (active + {node}) < Nodes(g) - active by {
        assert node in Nodes(g) - active;
      }
      Smaller(Nodes(g) - (active + {node}), Nodes(g) - active);
      VisitAll(g, sound, tree, g[node], active + {node}, met + {node})
  }

  ghost function VisitAll(g: Graph, sound: seq<bool>, tree: bool, ts: seq<nat>, active: set<nat>, met: set<nat>):
    Option<set<nat>>
    requires WellFormed(g) && |sound| == |g| && forall j :: 0 <= j < |ts| ==> ts[j] < |g|
    decreases |Nodes(g) - active|, |ts| + 1
  {
    if ts == [] then Some(met)
    else match Visit(g, sound, tree, ts[0], active, met)
      case None => None
      case Some(more) => VisitAll(g, sound, tree, ts[1..], active, more)
  }

  lemma {:induction false} Smaller(a: set<nat>, b: set<nat>)
    requires a < b
    ensures |a| < |b|
  {
    var x :| x in b && x !in a;
    Fewer(a, b - {x});
  }

  lemma {:induction false} Fewer(a: set<nat>, b: set<nat>)
    requires a <= b
    ensures |a| <= |b|
  {
    if a != {} {
      var x :| x in a;
      Fewer(a - {x}, b - {x});
    }
  }

  // ---------------------------------------------------------------------------------
  // Without tree mode.

  ghost function Reached(g: Graph, node: nat): set<nat> {
    set v: nat | v < |g| && Reach(g, node, v)
  }

  ghost predicate OnCycle(g: Graph, v: nat) {
    v < |g| && exists s :: s in g[v] && Reach(g, s, v)
  }

  /** Everything reachable from `node` is sound, off the current path and on no cycle. */
  ghost predicate Sane(g: Graph, sound: seq<bool>, node: nat, active: set<nat>)
    requires |sound| == |g|
  {
    forall v :: v in Reached(g, node) ==> sound[v] && v !in active && !OnCycle(g, v)
  }

  ghost function ReachedAll(g: Graph, ts: seq<nat>): set<nat> {
    set v: nat | v < |g| && FromAny(g, ts, v)
  }

  ghost predicate FromAny(g: Graph, ts: seq<nat>, v: nat) {
    exists j :: 0 <= j < |ts| && Reach(g, ts[j], v)
  }

  lemma ReachedStep(g: Graph, node: nat)
    requires WellFormed(g) && node < |g|
    ensures Reached(g, node) == {node} + ReachedAll(g, g[node])
  {
    hide IsWalk;
    ReachSelf(g, node);
    forall v | v in Reached(g, node) && v != node
      ensures v in ReachedAll(g, g[node])
    {
      var s := ReachFirst(g, node, v);
    }
    forall v | v in ReachedAll(g, g[node])
      ensures v in Reached(g, node)
    {
      var j :| 0 <= j < |g[node]| && Reach(g, g[node][j], v);
      ReachEdge(g, node, g[node][j]);
      ReachTransitive(g, node, g[node][j], v);
    }
  }

  /** A node is sane when it is so itself and its successors are, with it on the path. */
  lemma SaneStep(g: Graph, sound: seq<bool>, node: nat, active: set<nat>)
    requires WellFormed(g) && |sound| == |g| && node < |g|
    ensures Sane(g, sound, node, active) <==>
            node !in active && sound[node] && forall j :: 0 <= j < |g[node]| ==> Sane(g, sound, g[node][j], active + {node})
  {
    hide IsWalk, Reach;
    ReachedStep(g, node);
    if Sane(g, sound, node, active) {
      forall j | 0 <= j < |g[node]|
        ensures Sane(g, sound, g[node][j], active + {node})
      {
        forall v | v in Reached(g, g[node][j])
          ensures sound[v] && v !in active + {node} && !OnCycle(g, v)
        {
          assert v in ReachedAll(g, g[node]);
          assert g[node][j] in g[node];
        }
      }
    }
    if node !in active && sound[node] && forall j :: 0 <= j < |g[node]| ==> Sane(g, sound, g[node][j], active + {node}) {
      forall v | v in Reached(g, node)
        ensures sound[v] && v !in active && !OnCycle(g, v)
      {
        if v == node {
          NotOnCycle(g, sound, node, active);
        } else {
          var j :| 0 <= j < |g[node]| && Reach(g, g[node][j], v);
          assert v in Reached(g, g[node][j]);
        }
      }
    }
  }

  lemma NotOnCycle(g: Graph, sound: seq<bool>, node: nat, active: set<nat>)
    requires WellFormed(g) && |sound| == |g| && node < |g|
    requires forall j :: 0 <= j < |g[node]| ==> Sane(g, sound, g[node][j], active + {node})
    ensures !OnCycle(g, node)
  {
    hide Reach;
    forall s | s in g[node]
      ensures !Reach(g, s, node)
    {
      var j :| 0 <= j < |g[node]| && g[node][j] == s;
      assert node in Reached(g, s) <==> Reach(g, s, node);
    }
  }

  /** The walk succeeds exactly when all it can reach is sane, and then it has met just that. */
  lemma {:induction false} VisitGraph(g: Graph, sound: seq<bool>, node: nat, active: set<nat>, met: set<nat>)
    requires WellFormed(g) && |sound| == |g| && node < |g|
    ensures var r := Visit(g, sound, false, node, active, met);
            && (r.Some? <==> Sane(g, sound, node, active))
            && (r.Some? ==> r.value == met + Reached(g, node))
    decreases |Nodes(g) - active|, 0
  {
    hide Sane, Reached, ReachedAll;
    SaneStep(g, sound, node, active);
    ReachedStep(g, node);
    if node !in active && sound[node] {
      assert Nodes(g) - (active + {node}) < Nodes(g) - active by {
        assert node in Nodes(g) - active;
      }
      Smaller(Nodes(g) - (active + {node}), Nodes(g) - active);
      VisitGraphAll(g, sound, g[node], active + {node}, met + {node});
    }
  }

  lemma {:induction false} VisitGraphAll(g: Graph, sound: seq<bool>, ts: seq<nat>, active: set<nat>, met: set<nat>)
    requires WellFormed(g) && |sound| == |g| && forall j :: 0 <= j < |ts| ==> ts[j] < |g|
    ensures var r := VisitAll(g, sound, false, ts, active, met);
            && (r.Some? <==> forall j :: 0 <= j < |ts| ==> Sane(g, sound, ts[j], active))
            && (r.Some? ==> r.value == met + ReachedAll(g, ts))
    decreases |Nodes(g) - active|, |ts| + 1
  {
    hide Sane, Reach, Visit;
    if ts == [] {
      assert ReachedAll(g, ts) == {};
    } else {
      VisitGraph(g, sound, ts[0], active, met);
      var first := Visit(g, sound, false, ts[0], active, met);
      if first.Some? {
        VisitGraphAll(g, sound, ts[1..], active, first.value);
        ReachedCons(g, ts);
        assert forall j :: 1 <= j < |ts| ==> ts[j] == ts[1..][j - 1];
      }
    }
  }

  lemma ReachedCons(g: Graph, ts: seq<nat>)
    requires ts != []
    ensures ReachedAll(g, ts) == Reached(g, ts[0]) + ReachedAll(g, ts[1..])
  {
    hide Reach;
    forall v: nat | v < |g|
      ensures v in ReachedAll(g, ts) <==> v in Reached(g, ts[0]) + ReachedAll(g, ts[1..])
    {
      if j :| 0 <= j < |ts| && Reach(g, ts[j], v) {
        assert j > 0 ==> Reach(g, ts[1..][j - 1], v);
      }
      if j :| 0 <= j < |ts| - 1 && Reach(g, ts[1..][j], v) {
        assert Reach(g, ts[j + 1], v);
      }
    }
  }

  // ---------------------------------------------------------------------------------
  // Counting edges.

  function Times(s: seq<nat>, m: nat): nat {
    if s == [] then 0 else (if s[0] == m then 1 else 0) + Times(s[1..], m)
  }

  /** How many edges from nodes of `from`, below `k`, lead to `m`. */
  ghost function EdgesInto(g: Graph, from: set<nat>, m: nat, k: nat): nat
    requires k <= |g|
  {
    if k == 0 then 0 else EdgesInto(g, from, m, k - 1) + if k - 1 in from then Times(g[k - 1], m) else 0
  }

  ghost function EdgesTo(g: Graph, from: set<nat>, m: nat): nat {
    EdgesInto(g, from, m, |g|)
  }

  lemma {:induction false} EdgesJoin(g: Graph, a: set<nat>, b: set<nat>, m: nat, k: nat)
    requires k <= |g| && a !! b
    ensures EdgesInto(g, a + b, m, k) == EdgesInto(g, a, m, k) + EdgesInto(g, b, m, k)
  {
    if k > 0 {
      EdgesJoin(g, a, b, m, k - 1);
    }
  }

  lemma {:induction false} EdgesOne(g: Graph, n: nat, m: nat, k: nat)
    requires k <= |g|
    ensures EdgesInto(g, {n}, m, k) == if n < k then Times(g[n], m) else 0
  {
    if k > 0 {
      EdgesOne(g, n, m, k - 1);
    }
  }

  lemma {:induction false} EdgesNone(g: Graph, m: nat, k: nat)
    requires k <= |g|
    ensures EdgesInto(g, {}, m, k) == 0
  {
    if k > 0 {
      EdgesNone(g, m, k - 1);
    }
  }

  // ---------------------------------------------------------------------------------
  // In tree mode.

  /** Tree mode refuses more, and meets the same nodes. */
  lemma {:induction false} TreeIsGraph(g: Graph, sound: seq<bool>, node: nat, active: set<nat>, met: set<nat>)
    requires WellFormed(g) && |sound| == |g| && node < |g| && Visit(g, sound, true, node, active, met).Some?
    ensures Visit(g, sound, false, node, active, met) == Visit(g, sound, true, node, active, met)
    decreases |Nodes(g) - active|, 0
  {
    assert Nodes(g) - (active + {node}) < Nodes(g) - active by {
      assert node in Nodes(g) - active;
    }
    Smaller(Nodes(g) - (active + {node}), Nodes(g) - active);
    TreeIsGraphAll(g, sound, g[node], active + {node}, met + {node});
  }

  lemma {:induction false} TreeIsGraphAll(g: Graph, sound: seq<bool>, ts: seq<nat>, active: set<nat>, met: set<nat>)
    requires WellFormed(g) && |sound| == |g| && forall j :: 0 <= j < |ts| ==> ts[j] < |g|
    requires VisitAll(g, sound, true, ts, active, met).Some?
    ensures VisitAll(g, sound, false, ts, active, met) == VisitAll(g, sound, true, ts, active, met)
    decreases |Nodes(g) - active|, |ts| + 1
  {
    if ts != [] {
      TreeIsGraph(g, sound, ts[0], active, met);
      TreeIsGraphAll(g, sound, ts[1..], active, Visit(g, sound, true, ts[0], active, met).value);
    }
  }

  /** Each node newly met is met over one edge from another new one, except the first. */
  lemma {:induction false} TreeEdges(g: Graph, sound: seq<bool>, node: nat, active: set<nat>, met: set<nat>, m: nat)
    requires WellFormed(g) && |sound| == |g| && node < |g| && Visit(g, sound, true, node, active, met).Some?
    ensures var r := Visit(g, sound, true, node, active, met).value;
            && met <= r && node in r - met
            && EdgesTo(g, r - met, m) == if m in r - met && m != node then 1 else 0
    decreases |Nodes(g) - active|, 0
  {
    assert Nodes(g) - (active + {node}) < Nodes(g) - active by {
      assert node in Nodes(g) - active;
    }
    Smaller(Nodes(g) - (active + {node}), Nodes(g) - active);
    var r := Visit(g, sound, true, node, active, met).value;
    var with := met + {node};
    TreeEdgesAll(g, sound, g[node], active + {node}, with, m);
    assert r - met == {node} + (r - with);
    EdgesJoin(g, {node}, r - with, m, |g|);
    EdgesOne(g, node, m, |g|);
  }

  lemma {:induction false} TreeEdgesAll(g: Graph, sound: seq<bool>, ts: seq<nat>, active: set<nat>, met: set<nat>, m: nat)
    requires WellFormed(g) && |sound| == |g| && forall j :: 0 <= j < |ts| ==> ts[j] < |g|
    requires VisitAll(g, sound, true, ts, active, met).Some?
    ensures var r := VisitAll(g, sound, true, ts, active, met).value;
            met <= r && EdgesTo(g, r - met, m) + Times(ts, m) == if m in r - met then 1 else 0
    decreases |Nodes(g) - active|, |ts| + 1
  {
    hide Visit;
    var r := VisitAll(g, sound, true, ts, active, met).value;
    if ts == [] {
      assert r - met == {};
      EdgesNone(g, m, |g|);
    } else {
      var more := Visit(g, sound, true, ts[0], active, met).value;
      TreeEdges(g, sound, ts[0], active, met, m);
      TreeEdgesAll(g, sound, ts[1..], active, more, m);
      assert r - met == (more - met) + (r - more);
      EdgesJoin(g, more - met, r - more, m, |g|);
    }
  }

  // ---------------------------------------------------------------------------------
  // The converse: with at most one edge into each node, tree mode refuses no more.

  ghost predicate OneWayIn(g: Graph) {
    forall m :: 0 <= m < |g| ==> EdgesTo(g, Nodes(g), m) <= 1
  }

  lemma {:induction false} TimesPositive(s: seq<nat>, m: nat)
    requires m in s
    ensures Times(s, m) >= 1
  {
    if s[0] != m {
      TimesPositive(s[1..], m);
    }
  }

  lemma {:induction false} TimesTwo(s: seq<nat>, i: nat, j: nat)
    requires i < j < |s| && s[i] == s[j]
    ensures Times(s, s[i]) >= 2
  {
    if i == 0 {
      assert s[1..][j - 1] == s[j];
      TimesPositive(s[1..], s[j]);
    } else {
      TimesTwo(s[1..], i - 1, j - 1);
    }
  }

  lemma {:induction false} EdgesAtLeast(g: Graph, from: set<nat>, m: nat, k: nat, a: nat)
    requires a < k <= |g| && a in from
    ensures EdgesInto(g, from, m, k) >= Times(g[a], m)
  {
    if a < k - 1 {
      EdgesAtLeast(g, from, m, k - 1, a);
    }
  }

  lemma {:induction false} EdgesFromTwo(g: Graph, from: set<nat>, m: nat, k: nat, a: nat, b: nat)
    requires a < b < k <= |g| && a in from && b in from
    ensures EdgesInto(g, from, m, k) >= Times(g[a], m) + Times(g[b], m)
  {
    if b < k - 1 {
      EdgesFromTwo(g, from, m, k - 1, a, b);
    } else {
      EdgesAtLeast(g, from, m, k - 1, a);
    }
  }

  /** The one node with an edge to `m`. */
  lemma OneParent(g: Graph, a: nat, b: nat, m: nat)
    requires WellFormed(g) && OneWayIn(g) && a < |g| && b < |g| && m in g[a] && m in g[b]
    ensures a == b
  {
    hide EdgesInto;
    var j :| 0 <= j < |g[a]| && g[a][j] == m;
    assert EdgesTo(g, Nodes(g), m) <= 1;
    TimesPositive(g[a], m);
    TimesPositive(g[b], m);
    if a < b {
      EdgesFromTwo(g, Nodes(g), m, |g|, a, b);
    } else if b < a {
      EdgesFromTwo(g, Nodes(g), m, |g|, b, a);
    }
  }

  lemma NoTwin(g: Graph, n: nat, i: nat, j: nat)
    requires WellFormed(g) && OneWayIn(g) && n < |g| && i < j < |g[n]|
    ensures g[n][i] != g[n][j]
  {
    hide EdgesInto;
    assert EdgesTo(g, Nodes(g), g[n][i]) <= 1;
    EdgesAtLeast(g, Nodes(g), g[n][i], |g|, n);
    if g[n][i] == g[n][j] {
      TimesTwo(g[n], i, j);
    }
  }

  /** A walk to another node ends with an edge. */
  lemma {:induction false} WalkLast(g: Graph, p: seq<nat>, u: nat, w: nat)
    requires IsWalk(g, p, u, w) && |p| > 1
    ensures IsWalk(g, p[..|p| - 1], u, p[|p| - 2]) && p[|p| - 2] < |g| && w in g[p[|p| - 2]]
  {
    if |p| > 2 {
      WalkLast(g, p[1..], p[1], w);
      assert p[..|p| - 1][1..] == p[1..][..|p| - 2];
    }
  }

  /** Of two nodes that reach a third, one reaches the other. */
  lemma {:induction false} OneLine(g: Graph, p: seq<nat>, q: seq<nat>, u: nat, v: nat, x: nat)
    requires WellFormed(g) && OneWayIn(g) && IsWalk(g, p, u, x) && IsWalk(g, q, v, x)
    ensures Reach(g, u, v) || Reach(g, v, u)
    decreases |p|
  {
    hide OneWayIn;
    if |p| == 1 {
      assert Reach(g, v, u);
    } else if |q| == 1 {
      assert Reach(g, u, v);
    } else {
      WalkLast(g, p, u, x);
      WalkLast(g, q, v, x);
      OneParent(g, p[|p| - 2], q[|q| - 2], x);
      OneLine(g, p[..|p| - 1], q[..|q| - 1], u, v, p[|p| - 2]);
    }
  }

  /** What reaches a successor of `n`, and is not it, reaches `n`. */
  lemma ReachParent(g: Graph, n: nat, s: nat, t: nat)
    requires WellFormed(g) && OneWayIn(g) && n < |g| && t in g[n] && Reach(g, s, t) && s != t
    ensures Reach(g, s, n)
  {
    hide OneWayIn;
    var p :| IsWalk(g, p, s, t);
    WalkLast(g, p, s, t);
    OneParent(g, p[|p| - 2], n, t);
  }

  /** The successors of a node on no cycle lead to different nodes. */
  lemma ApartBelow(g: Graph, n: nat, i: nat, j: nat)
    requires WellFormed(g) && OneWayIn(g) && n < |g| && i < j < |g[n]| && !OnCycle(g, n)
    ensures Reached(g, g[n][i]) !! Reached(g, g[n][j])
  {
    hide OneWayIn, IsWalk;
    var s, t := g[n][i], g[n][j];
    NoTwin(g, n, i, j);
    assert s in g[n] && t in g[n];
    forall x | x in Reached(g, s)
      ensures x !in Reached(g, t)
    {
      if Reach(g, t, x) {
        MeetAbove(g, s, t, x);
        if Reach(g, s, t) {
          ReachParent(g, n, s, t);
        } else {
          ReachParent(g, n, t, s);
        }
      }
    }
  }

  lemma MeetAbove(g: Graph, s: nat, t: nat, x: nat)
    requires WellFormed(g) && OneWayIn(g) && Reach(g, s, x) && Reach(g, t, x)
    ensures Reach(g, s, t) || Reach(g, t, s)
  {
    hide OneWayIn, IsWalk;
    var p :| IsWalk(g, p, s, x);
    var q :| IsWalk(g, q, t, x);
    OneLine(g, p, q, s, t, x);
  }

  lemma {:induction false} TreeAccepts(g: Graph, sound: seq<bool>, node: nat, active: set<nat>, met: set<nat>)
    requires WellFormed(g) && |sound| == |g| && node < |g| && OneWayIn(g)
    requires Sane(g, sound, node, active) && Reached(g, node) !! met
    ensures Visit(g, sound, true, node, active, met).Some?
    decreases |Nodes(g) - active|, 0
  {
    hide Sane, OneWayIn, Reached, ReachedAll, VisitAll;
    SaneStep(g, sound, node, active);
    ReachedStep(g, node);
    SaneHere(g, sound, node, active);
    assert Nodes(g) - (active + {node}) < Nodes(g) - active by {
      assert node in Nodes(g) - active;
    }
    Smaller(Nodes(g) - (active + {node}), Nodes(g) - active);
    BelowAway(g, sound, node, active, met);
    TreeAcceptsAll(g, sound, node, 0, active + {node}, met + {node});
    assert g[node][0..] == g[node];
  }

  lemma SaneHere(g: Graph, sound: seq<bool>, node: nat, active: set<nat>)
    requires node < |g| == |sound| && Sane(g, sound, node, active)
    ensures sound[node] && node !in active && !OnCycle(g, node) && node in Reached(g, node)
  {
    hide OnCycle;
    ReachSelf(g, node);
  }

  /** What is below `node` is away from it and from what was met. */
  lemma BelowAway(g: Graph, sound: seq<bool>, node: nat, active: set<nat>, met: set<nat>)
    requires WellFormed(g) && |sound| == |g| && node < |g|
    requires !OnCycle(g, node) && Reached(g, node) !! met
    ensures forall j :: 0 <= j < |g[node]| ==> Reached(g, g[node][j]) !! met + {node}
  {
    hide IsWalk;
    ReachedStep(g, node);
    forall j, x | 0 <= j < |g[node]| && x in Reached(g, g[node][j])
      ensures x !in met + {node}
    {
      assert x in ReachedAll(g, g[node]);
      assert g[node][j] in g[node];
    }
  }

  /** The successors of `n` from the one at `i` on. */
  lemma {:induction false} TreeAcceptsAll(g: Graph, sound: seq<bool>, n: nat, i: nat, active: set<nat>, met: set<nat>)
    requires WellFormed(g) && |sound| == |g| && n < |g| && OneWayIn(g) && !OnCycle(g, n) && i <= |g[n]|
    requires forall j :: i <= j < |g[n]| ==> Sane(g, sound, g[n][j], active) && Reached(g, g[n][j]) !! met
    ensures VisitAll(g, sound, true, g[n][i..], active, met).Some?
    decreases |Nodes(g) - active|, |g[n]| - i + 1
  {
    hide Sane, OneWayIn, Reached, Visit, OnCycle;
    var ts := g[n][i..];
    if i < |g[n]| {
      TreeAccepts(g, sound, ts[0], active, met);
      TreeIsGraph(g, sound, ts[0], active, met);
      VisitGraph(g, sound, ts[0], active, met);
      var more := Visit(g, sound, true, ts[0], active, met).value;
      forall j | i + 1 <= j < |g[n]|
        ensures Reached(g, g[n][j]) !! more
      {
        ApartBelow(g, n, i, j);
      }
      TreeAcceptsAll(g, sound, n, i + 1, active, more);
      assert ts[1..] == g[n][i + 1..];
    }
  }
}
