/** Edge lists, the graphs they stand for, and the flat adjacency table built from one. */
module Csr {
  import opened Digraph
  import SccMachine

  /** The targets of the edges leaving `v`, in list order. */
  function Out(from: seq<nat>, to: seq<nat>, v: nat): seq<nat>
    requires |from| == |to|
  {
    if |from| == 0 then []
    else
      var last := |from| - 1;
      Out(from[..last], to[..last], v) + (if from[last] == v then [to[last]] else [])
  }

  /** The graph on `n` nodes with the edges `from[e] -> to[e]`. */
  function Adjacency(n: nat, from: seq<nat>, to: seq<nat>): (g: Graph)
    requires |from| == |to|
    ensures |g| == n
  {
    seq(n, v requires v >= 0 => Out(from, to, v))
  }

  lemma {:induction false} OutMember(from: seq<nat>, to: seq<nat>, v: nat, w: nat)
    requires |from| == |to|
    ensures w in Out(from, to, v) <==> exists e :: 0 <= e < |from| && from[e] == v && to[e] == w
  {
    if |from| > 0 {
      var last := |from| - 1;
      OutMember(from[..last], to[..last], v, w);
      assert forall e :: 0 <= e < last ==> from[..last][e] == from[e] && to[..last][e] == to[e];
    }
  }

  lemma AdjacencyWellFormed(n: nat, from: seq<nat>, to: seq<nat>)
    requires |from| == |to| && forall e :: 0 <= e < |to| ==> to[e] < n
    ensures WellFormed(Adjacency(n, from, to))
  {
    var g := Adjacency(n, from, to);
    forall v, j | 0 <= v < |g| && 0 <= j < |g[v]|
      ensures g[v][j] < |g|
    {
      assert g[v][j] in Out(from, to, v);
      OutMember(from, to, v, g[v][j]);
    }
  }

  // ---------------------------------------------------------------------------------
  // Where the successors of each node start in the flat table.

  function Offset(g: Graph, k: nat): nat
    requires k <= |g|
  {
    if k == 0 then 0 else Offset(g, k - 1) + |g[k - 1]|
  }

  lemma {:induction false} OffsetMonotone(g: Graph, u: nat, v: nat)
    requires u <= v <= |g|
    ensures Offset(g, u) <= Offset(g, v)
  {
    if u < v {
      OffsetMonotone(g, u, v - 1);
    }
  }

  lemma {:induction false} OutStep(from: seq<nat>, to: seq<nat>, e: nat, v: nat)
    requires |from| == |to| && e < |from|
    ensures Out(from[..e + 1], to[..e + 1], v) ==
            Out(from[..e], to[..e], v) + (if from[e] == v then [to[e]] else [])
  {
    assert from[..e + 1][..e] == from[..e] && to[..e + 1][..e] == to[..e];
  }

  lemma {:induction false} OutPrefix(from: seq<nat>, to: seq<nat>, e: nat, v: nat)
    requires |from| == |to| && e <= |from|
    ensures |Out(from[..e], to[..e], v)| <= |Out(from, to, v)|
    decreases |from| - e
  {
    if e == |from| {
      assert from[..e] == from && to[..e] == to;
    } else {
      OutStep(from, to, e, v);
      OutPrefix(from, to, e + 1, v);
    }
  }

  lemma {:induction false} OffsetAppend(n: nat, from: seq<nat>, to: seq<nat>, k: nat)
    requires |from| == |to| > 0 && k <= n
    ensures var last := |from| - 1;
            Offset(Adjacency(n, from, to), k) ==
            Offset(Adjacency(n, from[..last], to[..last]), k) + (if from[last] < k then 1 else 0)
  {
    if k > 0 {
      OffsetAppend(n, from, to, k - 1);
    }
  }

  lemma {:induction false} OffsetEmpty(n: nat, k: nat)
    requires k <= n
    ensures Offset(Adjacency(n, [], []), k) == 0
  {
    if k > 0 {
      OffsetEmpty(n, k - 1);
    }
  }

  lemma {:induction false} OffsetTotal(n: nat, from: seq<nat>, to: seq<nat>)
    requires |from| == |to| && forall e :: 0 <= e < |from| ==> from[e] < n
    ensures Offset(Adjacency(n, from, to), n) == |from|
  {
    if |from| == 0 {
      assert from == [] && to == [];
      OffsetEmpty(n, n);
    } else {
      var last := |from| - 1;
      OffsetAppend(n, from, to, n);
      OffsetTotal(n, from[..last], to[..last]);
    }
  }

  // ---------------------------------------------------------------------------------
  // Building the table.

  /** Counts the edges leaving each node into the slot after it. */
  method CountEdges(n: nat, from: array<nat>, edgeCount: nat, ghost f: seq<nat>, ghost t: seq<nat>)
    returns (first: array<nat>)
    requires edgeCount <= from.Length && f == from[..edgeCount] && |t| == edgeCount
    requires forall e :: 0 <= e < edgeCount ==> from[e] < n
    ensures fresh(first) && first.Length == n + 1 && first[0] == 0
    ensures forall k: nat :: 1 <= k <= n ==> first[k] == |Out(f, t, k - 1)|
  {
    hide Out;
    first := new nat[n + 1](_ => 0);
    var edge := 0;
    OutEmpty(f, t);
    while edge < edgeCount
      invariant edge <= edgeCount && first[0] == 0
      invariant forall k: nat :: 1 <= k <= n ==> first[k] == |Out(f[..edge], t[..edge], k - 1)|
    {
      forall v: nat | v < n
        ensures |Out(f[..edge + 1], t[..edge + 1], v)| ==
                |Out(f[..edge], t[..edge], v)| + (if from[edge] == v then 1 else 0)
      {
        OutStep(f, t, edge, v);
      }
      first[from[edge] + 1] := first[from[edge] + 1] + 1;
      edge := edge + 1;
    }
    assert f[..edge] == f && t[..edge] == t;
  }

  lemma OutEmpty(from: seq<nat>, to: seq<nat>)
    requires |from| == |to|
    ensures forall v: nat :: Out(from[..0], to[..0], v) == []
  {
  }

  /** Turns the counts into starting positions. */
  method SumCounts(n: nat, ghost g: Graph, first: array<nat>)
    requires first.Length == n + 1 && |g| == n && first[0] == 0
    requires forall k: nat :: 1 <= k <= n ==> first[k] == |g[k - 1]|
    modifies first
    ensures forall k: nat :: k <= n ==> first[k] == Offset(g, k)
  {
    var node := 0;
    while node < n
      invariant node <= n
      invariant forall k: nat :: k <= node ==> first[k] == Offset(g, k)
      invariant forall k: nat :: node < k <= n ==> first[k] == |g[k - 1]|
    {
      first[node + 1] := first[node + 1] + first[node];
      node := node + 1;
    }
  }

  /** The first `|out|` slots of a node's stretch, from `start` on, hold `out`. */
  ghost predicate Filled(targets: seq<nat>, start: nat, out: seq<nat>) {
    start + |out| <= |targets| && targets[start..start + |out|] == out
  }

  lemma FilledElsewhere(targets: seq<nat>, start: nat, out: seq<nat>, at: nat, x: nat)
    requires Filled(targets, start, out) && at < |targets| && (at < start || start + |out| <= at)
    ensures Filled(targets[at := x], start, out)
  {
  }

  lemma FilledHere(targets: seq<nat>, start: nat, out: seq<nat>, x: nat)
    requires Filled(targets, start, out) && start + |out| < |targets|
    ensures Filled(targets[start + |out| := x], start, out + [x])
  {
    var at := start + |out|;
    var now := targets[at := x];
    assert now[start..at + 1] == now[start..at] + [x];
    assert now[start..at] == targets[start..at];
  }

  /** The edges of `v` up to edge `e` fit into the stretch of `v`. */
  lemma RoomFor(n: nat, from: seq<nat>, to: seq<nat>, e: nat, v: nat)
    requires |from| == |to| && e < |from| && v < n
    ensures var g := Adjacency(n, from, to);
            var out := Out(from[..e + 1], to[..e + 1], v);
            && out == Out(from[..e], to[..e], v) + (if from[e] == v then [to[e]] else [])
            && Offset(g, v) + |out| <= Offset(g, v + 1)
  {
    hide Out;
    OutStep(from, to, e, v);
    OutPrefix(from, to, e + 1, v);
  }

  /** One edge put in place keeps what every node has so far. */
  lemma FillStep(n: nat, from: seq<nat>, to: seq<nat>, e: nat, targets: seq<nat>, v: nat)
    requires |from| == |to| && e < |from| && v < n && from[e] < n
    requires |targets| > |from| && forall i :: 0 <= i < |from| ==> from[i] < n
    requires forall u: nat :: u < n ==>
      Filled(targets, Offset(Adjacency(n, from, to), u), Out(from[..e], to[..e], u))
    ensures var g := Adjacency(n, from, to);
            var at := Offset(g, from[e]) + |Out(from[..e], to[..e], from[e])|;
            && at < |targets|
            && Filled(targets[at := to[e]], Offset(g, v), Out(from[..e + 1], to[..e + 1], v))
  {
    hide Out, Filled, Adjacency;
    var g := Adjacency(n, from, to);
    var u := from[e];
    var at := Offset(g, u) + |Out(from[..e], to[..e], u)|;
    RoomFor(n, from, to, e, u);
    RoomFor(n, from, to, e, v);
    OffsetMonotone(g, u + 1, n);
    OffsetTotal(n, from, to);
    if u == v {
      FilledHere(targets, Offset(g, v), Out(from[..e], to[..e], v), to[e]);
    } else {
      if u < v {
        OffsetMonotone(g, u + 1, v);
      } else {
        OffsetMonotone(g, v + 1, u);
      }
      FilledElsewhere(targets, Offset(g, v), Out(from[..e], to[..e], v), at, to[e]);
      assert Out(from[..e + 1], to[..e + 1], v) == Out(from[..e], to[..e], v);
    }
  }

  /** Distributes the edges over the stretches of their sources. */
  method FillTargets(n: nat, from: array<nat>, to: array<nat>, edgeCount: nat, first: array<nat>,
                     ghost f: seq<nat>, ghost t: seq<nat>) returns (targets: array<nat>)
    requires edgeCount <= from.Length && edgeCount <= to.Length && first.Length == n + 1
    requires f == from[..edgeCount] && t == to[..edgeCount]
    requires forall e :: 0 <= e < edgeCount ==> f[e] < n
    requires forall k: nat :: k <= n ==> first[k] == Offset(Adjacency(n, f, t), k)
    ensures fresh(targets) && targets.Length == edgeCount + 1
    ensures forall v: nat :: v < n ==> Filled(targets[..], first[v], Out(f, t, v))
  {
    hide Out, Offset, Filled, Adjacency;
    targets := new nat[edgeCount + 1];
    var fill := new nat[n + 1](i requires 0 <= i <= n reads first => first[i]);
    ghost var g := Adjacency(n, f, t);
    var edge := 0;
    OutEmpty(f, t);
    FilledStart(n, f, t, targets[..]);
    while edge < edgeCount
      invariant edge <= edgeCount
      invariant forall v: nat :: v < n ==> fill[v] == Offset(g, v) + |Out(f[..edge], t[..edge], v)|
      invariant forall v: nat :: v < n ==> Filled(targets[..], Offset(g, v), Out(f[..edge], t[..edge], v))
    {
      var u := from[edge];
      FillAll(n, f, t, edge, targets[..]);
      ghost var before := targets[..];
      ghost var at := fill[u];
      targets[fill[u]] := to[edge];
      fill[u] := fill[u] + 1;
      assert targets[..] == before[at := to[edge]];
      edge := edge + 1;
    }
    assert f[..edge] == f && t[..edge] == t;
  }

  lemma FilledStart(n: nat, from: seq<nat>, to: seq<nat>, targets: seq<nat>)
    requires |from| == |to| < |targets| && forall i :: 0 <= i < |from| ==> from[i] < n
    ensures forall v: nat :: v < n ==>
      Filled(targets, Offset(Adjacency(n, from, to), v), Out(from[..0], to[..0], v))
  {
    forall v: nat | v < n
      ensures Filled(targets, Offset(Adjacency(n, from, to), v), Out(from[..0], to[..0], v))
    {
      OffsetMonotone(Adjacency(n, from, to), v, n);
      OffsetTotal(n, from, to);
    }
  }

  lemma FillAll(n: nat, from: seq<nat>, to: seq<nat>, e: nat, targets: seq<nat>)
    requires |from| == |to| && e < |from| && |targets| > |from|
    requires forall i :: 0 <= i < |from| ==> from[i] < n
    requires forall u: nat :: u < n ==>
      Filled(targets, Offset(Adjacency(n, from, to), u), Out(from[..e], to[..e], u))
    ensures var g := Adjacency(n, from, to);
            var at := Offset(g, from[e]) + |Out(from[..e], to[..e], from[e])|;
            && at < |targets|
            && forall v: nat :: v < n ==>
                 Filled(targets[at := to[e]], Offset(g, v), Out(from[..e + 1], to[..e + 1], v))
    ensures forall v: nat :: v < n ==>
      |Out(from[..e + 1], to[..e + 1], v)| == |Out(from[..e], to[..e], v)| + (if from[e] == v then 1 else 0)
  {
    hide Out, Offset, Filled, Adjacency;
    var g := Adjacency(n, from, to);
    FillStep(n, from, to, e, targets, from[e]);
    var at := Offset(g, from[e]) + |Out(from[..e], to[..e], from[e])|;
    forall v: nat | v < n
      ensures Filled(targets[at := to[e]], Offset(g, v), Out(from[..e + 1], to[..e + 1], v))
      ensures |Out(from[..e + 1], to[..e + 1], v)| ==
              |Out(from[..e], to[..e], v)| + (if from[e] == v then 1 else 0)
    {
      FillStep(n, from, to, e, targets, v);
      OutStep(from, to, e, v);
    }
  }

  /** The flat adjacency table of the first `edgeCount` edges. */
  method BuildCsr(n: nat, from: array<nat>, to: array<nat>, edgeCount: nat)
    returns (first: array<nat>, targets: array<nat>)
    requires edgeCount <= from.Length && edgeCount <= to.Length
    requires forall e :: 0 <= e < edgeCount ==> from[e] < n
    ensures fresh(first) && fresh(targets)
    ensures SccMachine.IsCsr(Adjacency(n, from[..edgeCount], to[..edgeCount]), first[..], targets[..])
  {
    ghost var f, t := from[..edgeCount], to[..edgeCount];
    ghost var g := Adjacency(n, f, t);
    first := CountEdges(n, from, edgeCount, f, t);
    SumCounts(n, g, first);
    targets := FillTargets(n, from, to, edgeCount, first, f, t);
    forall v: nat | v < n
      ensures SccMachine.IsSlice(g, first[..], targets[..], v)
    {
      assert first[v + 1] == Offset(g, v + 1) == first[v] + |g[v]|;
      OffsetMonotone(g, v + 1, n);
      OffsetTotal(n, f, t);
    }
  }
}
