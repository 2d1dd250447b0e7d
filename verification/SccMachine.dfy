/** The walk as `rewrite_cyclic_tail_calls` holds it: flat tables, two stacks given as
    arrays with a fill count, and edge positions that index a flat adjacency table. Each
    of its steps is related to a step of the abstract walk of module Tarjan. */
module SccMachine {
  import opened Digraph
  import opened Tarjan

  /** The flat adjacency table: the successors of `v` are `targets[first[v]..first[v + 1]]`. */
  ghost predicate IsSlice(g: Graph, first: seq<nat>, targets: seq<nat>, v: nat) {
    && v < |g| && v + 1 < |first| && first[v] <= first[v + 1] <= |targets|
    && targets[first[v]..first[v + 1]] == g[v]
  }

  ghost predicate IsCsr(g: Graph, first: seq<nat>, targets: seq<nat>) {
    |first| == |g| + 1 && forall v: nat :: v < |g| ==> IsSlice(g, first, targets, v)
  }

  /** `stack` and `path` are the used parts of `tarjan_stack` and `walk_node`; `edges` that
      of `walk_edge`. */
  datatype Machine = Machine(
    disc: seq<int>,
    low: seq<int>,
    comp: seq<nat>,
    size: seq<nat>,
    components: nat,
    onStack: seq<bool>,
    stack: seq<nat>,
    path: seq<nat>,
    edges: seq<nat>,
    clock: nat)

  /** `q` lists the set `c` by increasing discovery number. */
  ghost predicate Ordered(disc: seq<int>, q: seq<nat>, c: set<nat>) {
    && (forall v: nat :: v in q <==> v in c)
    && (forall i :: 0 <= i < |q| ==> q[i] < |disc|)
    && (forall i, j :: 0 <= i < j < |q| ==> disc[q[i]] < disc[q[j]])
  }

  ghost predicate EdgesAt(first: seq<nat>, cursor: seq<nat>, path: seq<nat>, edges: seq<nat>) {
    && |edges| == |path|
    && (forall d :: 0 <= d < |path| ==>
          path[d] < |first| && path[d] < |cursor| && edges[d] == first[path[d]] + cursor[path[d]])
  }

  ghost predicate Counts(size: seq<nat>, components: nat, groups: seq<seq<nat>>) {
    && components == |groups| <= |size|
    && (forall c :: 0 <= c < |groups| ==> size[c] == |groups[c]|)
    && (forall c :: |groups| <= c < |size| ==> size[c] == 0)
  }

  ghost predicate Flags(onStack: seq<bool>, live: set<nat>) {
    forall v: nat :: v < |onStack| ==> (onStack[v] <==> v in live)
  }

  ghost predicate Represents(g: Graph, first: seq<nat>, m: Machine, s: State) {
    && Sizes(g, s)
    && m.disc == s.disc && m.low == s.low && m.comp == s.comp && m.clock == s.clock
    && |m.onStack| == |g| && |m.size| == |g| + 1
    && Ordered(m.disc, m.stack, s.live)
    && Ordered(m.disc, m.path, s.open)
    && EdgesAt(first, s.cursor, m.path, m.edges)
    && Flags(m.onStack, s.live)
    && Counts(m.size, m.components, s.groups)
  }

  lemma OrderedDistinct(disc: seq<int>, q: seq<nat>, c: set<nat>)
    requires Ordered(disc, q, c)
    ensures forall i, j :: 0 <= i < j < |q| ==> q[i] != q[j]
    ensures |q| <= |disc|
  {
    DistinctBelow(q, |disc|);
  }

  /** The end of an ordered list is its top. */
  lemma OrderedTop(disc: seq<int>, q: seq<nat>, c: set<nat>)
    requires Ordered(disc, q, c) && |q| > 0
    ensures IsTop(disc, c, q[|q| - 1])
  {
    var top := q[|q| - 1];
    assert top in q;
    forall p | p in c && p < |disc|
      ensures disc[p] <= disc[top]
    {
      assert p in q;
    }
  }

  lemma OrderedPush(disc: seq<int>, q: seq<nat>, c: set<nat>, v: nat, clock: nat)
    requires Ordered(disc, q, c) && v < |disc| && v !in c && forall u: nat :: u < |disc| ==> disc[u] < clock
    ensures Ordered(disc[v := clock], q + [v], c + {v})
  {
    assert forall i :: 0 <= i < |q| ==> q[i] in q;
  }

  lemma OrderedPop(disc: seq<int>, q: seq<nat>, c: set<nat>)
    requires Ordered(disc, q, c) && |q| > 0
    ensures Ordered(disc, q[..|q| - 1], c - {q[|q| - 1]})
  {
    OrderedDistinct(disc, q, c);
    assert q == q[..|q| - 1] + [q[|q| - 1]];
  }

  /** Two components never share a node, so there are at most `|g|`. */
  lemma ComponentBound(g: Graph, s: State)
    requires Inv(g, s)
    ensures |s.groups| <= |g|
    ensures s.live != {} ==> |s.groups| < |g|
  {
    var heads: seq<nat> := seq(|s.groups|, c requires 0 <= c < |s.groups| =>
      assert IsComponent(g, s.groups[c]); s.groups[c][0]);
    assert forall c :: 0 <= c < |s.groups| ==> IsComponent(g, s.groups[c]);
    assert forall c :: 0 <= c < |heads| ==> heads[c] == s.groups[c][0];
    assert forall c :: 0 <= c < |heads| ==> Done(s.disc, s.live, heads[c]) && s.comp[heads[c]] == c;
    if s.live != {} {
      var v :| v in s.live;
      DistinctBelow(heads + [v], |g|);
    } else {
      DistinctBelow(heads, |g|);
    }
  }

  /** The edges not yet taken by the first `n` nodes. */
  function Remaining(g: Graph, cursor: seq<nat>, n: nat): int
    requires n <= |g| && n <= |cursor|
  {
    if n == 0 then 0 else Remaining(g, cursor, n - 1) + |g[n - 1]| - cursor[n - 1]
  }

  lemma {:induction false} RemainingNonNegative(g: Graph, cursor: seq<nat>, n: nat)
    requires n <= |g| == |cursor| && forall v: nat :: v < |g| ==> cursor[v] <= |g[v]|
    ensures Remaining(g, cursor, n) >= 0
  {
    if n > 0 {
      RemainingNonNegative(g, cursor, n - 1);
    }
  }

  lemma {:induction false} RemainingTake(g: Graph, cursor: seq<nat>, v: nat, n: nat)
    requires n <= |g| == |cursor| && v < |g|
    ensures Remaining(g, cursor[v := cursor[v] + 1], n) == Remaining(g, cursor, n) - (if v < n then 1 else 0)
  {
    if n > 0 {
      RemainingTake(g, cursor, v, n - 1);
    }
  }

  /** One edge fewer is left, and no node loses its number. */
  ghost predicate Progress(g: Graph, before: State, after: State) {
    && Sizes(g, before) && Sizes(g, after)
    && Remaining(g, after.cursor, |g|) < Remaining(g, before.cursor, |g|)
    && forall v: nat :: v < |g| && before.disc[v] >= 0 ==> after.disc[v] >= 0
  }

  // ---------------------------------------------------------------------------------
  // Pushing a newly discovered node.

  function Pushed(m: Machine, v: nat, edge: nat): Machine
    requires v < |m.disc| == |m.low| && v < |m.onStack|
  {
    m.(disc := m.disc[v := m.clock], low := m.low[v := m.clock], clock := m.clock + 1,
       stack := m.stack + [v], onStack := m.onStack[v := true],
       path := m.path + [v], edges := m.edges + [edge])
  }

  lemma PushedRepresents(g: Graph, first: seq<nat>, m: Machine, s: State, v: nat)
    requires Inv(g, s) && Represents(g, first, m, s) && |first| == |g| + 1
    requires v < |g| && !Visited(s.disc, v)
    ensures Represents(g, first, Pushed(m, v, first[v]), Discover(s, v))
    ensures |m.stack| < |g| && |m.path| < |g|
  {
    OrderedPush(m.disc, m.stack, s.live, v, s.clock);
    OrderedPush(m.disc, m.path, s.open, v, s.clock);
    OrderedDistinct(m.disc[v := s.clock], m.stack + [v], s.live + {v});
    OrderedDistinct(m.disc[v := s.clock], m.path + [v], s.open + {v});
    assert s.cursor[v] == 0;
  }

  lemma RootStep(g: Graph, first: seq<nat>, m: Machine, s: State, root: nat)
    requires Inv(g, s) && Represents(g, first, m, s) && |first| == |g| + 1
    requires m.path == [] && root < |g| && m.disc[root] < 0
    ensures Inv(g, Discover(s, root))
    ensures Represents(g, first, Pushed(m, root, first[root]), Discover(s, root))
    ensures |m.stack| < |g|
  {
    forall p | p in s.open
      ensures Reach(g, p, root)
    {
      assert p in m.path;
    }
    DiscoverInv(g, s, root);
    PushedRepresents(g, first, m, s, root);
  }

  // ---------------------------------------------------------------------------------
  // Taking an edge of the top of the path.

  function Advanced(m: Machine): Machine
    requires |m.edges| > 0
  {
    m.(edges := m.edges[|m.edges| - 1 := m.edges[|m.edges| - 1] + 1])
  }

  lemma TakeEdges(first: seq<nat>, cursor: seq<nat>, path: seq<nat>, edges: seq<nat>, d: nat)
    requires EdgesAt(first, cursor, path, edges) && d < |path|
    requires forall i, j :: 0 <= i < j < |path| ==> path[i] != path[j]
    ensures EdgesAt(first, cursor[path[d] := cursor[path[d]] + 1], path, edges[d := edges[d] + 1])
  {
  }

  lemma Unpacked(g: Graph, first: seq<nat>, m: Machine, s: State)
    requires Inv(g, s) && Represents(g, first, m, s)
    ensures Sizes(g, s) && m.disc == s.disc && m.low == s.low && |m.path| == |m.edges|
    ensures |m.onStack| == |g|
    ensures forall v: nat :: v < |g| ==> s.cursor[v] <= |g[v]|
  {
  }

  /** A live node has one place on the stack. */
  lemma PlaceOnStack(g: Graph, first: seq<nat>, m: Machine, s: State, v: nat) returns (k: nat)
    requires Inv(g, s) && Represents(g, first, m, s) && v in s.live
    ensures v < |g| && m.low[v] <= m.disc[v] && m.components < |g|
    ensures k < |m.stack| && m.stack[k] == v
    ensures forall i :: 0 <= i < |m.stack| ==> m.stack[i] < |g|
    ensures forall i :: k < i < |m.stack| ==> m.stack[i] != v
  {
    assert Anchored(g, s, v);
    assert v in m.stack;
    k :| 0 <= k < |m.stack| && m.stack[k] == v;
    OrderedDistinct(m.disc, m.stack, s.live);
    ComponentBound(g, s);
  }

  /** What the walk sees when it looks at the top of the path. */
  lemma TopEdge(g: Graph, first: seq<nat>, targets: seq<nat>, m: Machine, s: State)
    requires Inv(g, s) && Represents(g, first, m, s) && IsCsr(g, first, targets) && |m.path| > 0
    ensures var top := m.path[|m.path| - 1]; var edge := m.edges[|m.edges| - 1];
            && top < |g| && IsTop(s.disc, s.open, top) && top in s.open && top in s.live
            && edge == first[top] + s.cursor[top]
            && (edge < first[top + 1] <==> s.cursor[top] < |g[top]|)
            && (edge < first[top + 1] ==>
                  edge < |targets| && targets[edge] == g[top][s.cursor[top]] < |g|)
            && (edge >= first[top + 1] ==> s.cursor[top] == |g[top]|)
  {
    Unpacked(g, first, m, s);
    OrderedTop(m.disc, m.path, s.open);
    var top := m.path[|m.path| - 1];
    assert IsSlice(g, first, targets, top);
    assert forall j :: 0 <= j < |g[top]| ==> g[top][j] == targets[first[top] + j];
  }

  lemma DescendStep(g: Graph, first: seq<nat>, targets: seq<nat>, m: Machine, s: State)
    requires Inv(g, s) && Represents(g, first, m, s) && IsCsr(g, first, targets) && |m.path| > 0
    requires m.path[|m.path| - 1] < |g|
    requires m.edges[|m.edges| - 1] < first[m.path[|m.path| - 1] + 1]
    requires m.edges[|m.edges| - 1] < |targets| && targets[m.edges[|m.edges| - 1]] < |g|
    requires m.disc[targets[m.edges[|m.edges| - 1]]] < 0
    ensures var top := m.path[|m.path| - 1]; var next := targets[m.edges[|m.edges| - 1]];
            && Inv(g, Descend(s, top, next))
            && Represents(g, first, Pushed(Advanced(m), next, first[next]), Descend(s, top, next))
            && Progress(g, s, Descend(s, top, next))
            && |m.stack| < |g| && |m.path| < |g|
  {
    hide Inv, Represents;
    Unpacked(g, first, m, s);
    TopEdge(g, first, targets, m, s);
    RemainingTake(g, s.cursor, m.path[|m.path| - 1], |g|);
    DescendInv(g, s, m.path[|m.path| - 1]);
    PushedRepresents(g, first, m, s, targets[m.edges[|m.edges| - 1]]);
    DescendRepresents(g, first, m, s, targets[m.edges[|m.edges| - 1]]);
  }

  lemma DescendRepresents(g: Graph, first: seq<nat>, m: Machine, s: State, next: nat)
    requires Sizes(g, s) && |first| == |g| + 1 && next < |m.disc| == |m.low| == |m.onStack| == |g|
    requires |m.edges| == |m.path| > 0 && m.path[|m.path| - 1] < |g|
    requires Represents(g, first, Pushed(m, next, first[next]), Discover(s, next))
    ensures var top := m.path[|m.path| - 1];
            Represents(g, first, Pushed(Advanced(m), next, first[next]), Descend(s, top, next))
  {
    var p, t := Pushed(m, next, first[next]), Discover(s, next);
    var d := |m.path| - 1;
    OrderedDistinct(p.disc, p.path, t.open);
    TakeEdges(first, t.cursor, p.path, p.edges, d);
    assert Pushed(Advanced(m), next, first[next]) == p.(edges := p.edges[d := p.edges[d] + 1]);
  }

  function Noticed(m: Machine, next: nat): Machine
    requires |m.edges| == |m.path| > 0 && m.path[|m.path| - 1] < |m.low|
    requires next < |m.onStack| && next < |m.disc|
  {
    var top := m.path[|m.path| - 1];
    if m.onStack[next] && m.disc[next] < m.low[top] then
      Advanced(m).(low := m.low[top := m.disc[next]])
    else Advanced(m)
  }

  lemma NoticeStep(g: Graph, first: seq<nat>, targets: seq<nat>, m: Machine, s: State)
    requires Inv(g, s) && Represents(g, first, m, s) && IsCsr(g, first, targets) && |m.path| > 0
    requires m.path[|m.path| - 1] < |g|
    requires m.edges[|m.edges| - 1] < first[m.path[|m.path| - 1] + 1]
    requires m.edges[|m.edges| - 1] < |targets| && targets[m.edges[|m.edges| - 1]] < |g|
    requires m.disc[targets[m.edges[|m.edges| - 1]]] >= 0
    ensures var top := m.path[|m.path| - 1]; var next := targets[m.edges[|m.edges| - 1]];
            && Inv(g, Notice(s, top, next))
            && Represents(g, first, Noticed(m, next), Notice(s, top, next))
            && Progress(g, s, Notice(s, top, next))
  {
    hide Inv, Represents;
    Unpacked(g, first, m, s);
    TopEdge(g, first, targets, m, s);
    RemainingTake(g, s.cursor, m.path[|m.path| - 1], |g|);
    NoticeInv(g, s, m.path[|m.path| - 1]);
    NoticeRepresents(g, first, m, s, targets[m.edges[|m.edges| - 1]]);
  }

  lemma NoticeRepresents(g: Graph, first: seq<nat>, m: Machine, s: State, next: nat)
    requires Represents(g, first, m, s) && |m.path| > 0 && next < |g|
    requires m.path[|m.path| - 1] < |g|
    ensures var top := m.path[|m.path| - 1];
            Represents(g, first, Noticed(m, next), Notice(s, top, next))
  {
    OrderedDistinct(m.disc, m.path, s.open);
    TakeEdges(first, s.cursor, m.path, m.edges, |m.path| - 1);
    assert m.onStack[next] <==> next in s.live;
  }

  // ---------------------------------------------------------------------------------
  // Popping a whole component.

  /** `a` with `x` at every position in `gone`. */
  function Marked<T>(a: seq<T>, gone: seq<nat>, x: T): (b: seq<T>)
    ensures |b| == |a|
  {
    seq(|a|, i requires 0 <= i < |a| => if i in gone then x else a[i])
  }

  lemma MarkedCons<T>(a: seq<T>, gone: seq<nat>, v: nat, x: T)
    requires v < |a|
    ensures Marked(a, gone, x)[v := x] == Marked(a, [v] + gone, x)
  {
  }

  /** Pops everything from position `k` of the stack on, as one component. */
  function Popped(m: Machine, k: nat): Machine
    requires k <= |m.stack| && m.components < |m.size|
  {
    var gone := m.stack[k..];
    m.(stack := m.stack[..k],
       onStack := Marked(m.onStack, gone, false),
       comp := Marked(m.comp, gone, m.components),
       size := m.size[m.components := m.size[m.components] + |gone|],
       components := m.components + 1)
  }

  /** Drops the top of the path. */
  function Left(m: Machine): Machine
    requires |m.path| > 0 && |m.edges| > 0
  {
    m.(path := m.path[..|m.path| - 1], edges := m.edges[..|m.edges| - 1])
  }

  lemma OrderedStretch(s: State, q: seq<nat>, k: nat)
    requires Ordered(s.disc, q, s.live) && k < |q|
    ensures IsStretch(s, q[k], q[k..])
    ensures Ordered(s.disc, q[..k], s.live - (set x | x in q[k..]))
  {
    OrderedDistinct(s.disc, q, s.live);
    var gone := q[k..];
    assert q == q[..k] + gone;
    forall v: nat
      ensures v in gone <==> v in s.live && v < |s.disc| && s.disc[q[k]] <= s.disc[v]
      ensures v in q[..k] <==> v in s.live && v !in gone
    {
      StretchMember(s.disc, q, k, v);
      assert v in q <==> v in s.live;
    }
  }

  lemma StretchMember(disc: seq<int>, q: seq<nat>, k: nat, v: nat)
    requires k < |q| && forall i :: 0 <= i < |q| ==> q[i] < |disc|
    requires forall i, j :: 0 <= i < j < |q| ==> disc[q[i]] < disc[q[j]]
    ensures v in q[k..] <==> v in q && v < |disc| && disc[q[k]] <= disc[v]
    ensures v in q[..k] <==> v in q && v !in q[k..]
  {
    assert q == q[..k] + q[k..];
    if v in q {
      var i :| 0 <= i < |q| && q[i] == v;
      assert i < k ==> q[..k][i] == v;
      assert i >= k ==> q[k..][i - k] == v;
    }
  }

  lemma RetireStep(g: Graph, first: seq<nat>, m: Machine, s: State, k: nat)
    requires Inv(g, s) && Represents(g, first, m, s) && |m.path| > 0 && |first| == |g| + 1
    requires var top := m.path[|m.path| - 1]; Ripe(g, s, top) && k < |m.stack| && m.stack[k] == top
    ensures m.components < |g|
    ensures var top := m.path[|m.path| - 1]; var t := Retire(s, top, m.stack[k..]);
            Inv(g, t) && Represents(g, first, Left(Popped(m, k)), t)
  {
    var top := m.path[|m.path| - 1];
    ComponentBound(g, s);
    OrderedStretch(s, m.stack, k);
    RetireInv(g, s, top, m.stack[k..]);
    OrderedPop(m.disc, m.path, s.open);
    RetireRepresents(g, first, m, s, k);
  }

  lemma RetireRepresents(g: Graph, first: seq<nat>, m: Machine, s: State, k: nat)
    requires Represents(g, first, m, s) && |m.path| > 0 && k < |m.stack| && m.components < |g|
    requires Ordered(m.disc, m.stack[..k], s.live - (set x | x in m.stack[k..]))
    requires Ordered(m.disc, m.path[..|m.path| - 1], s.open - {m.path[|m.path| - 1]})
    ensures Represents(g, first, Left(Popped(m, k)), Retire(s, m.path[|m.path| - 1], m.stack[k..]))
  {
    var t := Retire(s, m.path[|m.path| - 1], m.stack[k..]);
    var p := Left(Popped(m, k));
    assert Counts(p.size, p.components, t.groups) by {
      assert |t.groups| == |s.groups| + 1;
    }
    assert p.comp == t.comp;
  }

  /** After a component is popped its old top cannot lower its parent. */
  lemma RipeKeepsParent(g: Graph, first: seq<nat>, m: Machine, s: State)
    requires Inv(g, s) && Represents(g, first, m, s) && |m.path| > 1
    requires Ripe(g, s, m.path[|m.path| - 1])
    ensures var parent := m.path[|m.path| - 2];
            parent < |g| && m.low[parent] <= m.low[m.path[|m.path| - 1]]
  {
    var parent := m.path[|m.path| - 2];
    assert parent in m.path;
    assert Anchored(g, s, parent);
  }

  /** The bottom of the path never reaches below itself. */
  lemma BottomIsRipe(g: Graph, first: seq<nat>, m: Machine, s: State)
    requires Inv(g, s) && Represents(g, first, m, s) && |m.path| > 0
    ensures |m.path| == 1 ==> m.path[0] < |g| && m.low[m.path[0]] == m.disc[m.path[0]]
  {
    if |m.path| == 1 {
      BottomLow(g, first, m, s);
    }
  }

  lemma BottomLow(g: Graph, first: seq<nat>, m: Machine, s: State)
    requires Inv(g, s) && Represents(g, first, m, s) && |m.path| == 1
    ensures m.low[m.path[0]] == m.disc[m.path[0]]
  {
    var root := m.path[0];
    OrderedTop(m.disc, m.path, s.open);
    assert forall p :: p in s.open ==> p in m.path && p == root;
    assert Anchored(g, s, root);
    var u := s.reached[root];
    assert s.owner[u] == root;
    assert s.disc[root] <= s.disc[u];
  }

  // ---------------------------------------------------------------------------------
  // Going back to the parent of a node that reaches below itself.

  function Backed(m: Machine): Machine
    requires |m.path| > 1 && |m.edges| > 0
    requires m.path[|m.path| - 1] < |m.low| && m.path[|m.path| - 2] < |m.low|
  {
    var node, parent := m.path[|m.path| - 1], m.path[|m.path| - 2];
    if m.low[node] < m.low[parent] then Left(m).(low := m.low[parent := m.low[node]]) else Left(m)
  }

  lemma LeftIsBacked(m: Machine, k: nat)
    requires |m.path| > 1 && |m.edges| > 0 && k <= |m.stack| && m.components < |m.size|
    requires m.path[|m.path| - 1] < |m.low| && m.path[|m.path| - 2] < |m.low|
    requires m.low[m.path[|m.path| - 2]] <= m.low[m.path[|m.path| - 1]]
    ensures Left(Popped(m, k)) == Backed(Popped(m, k))
  {
  }

  lemma RetreatStep(g: Graph, first: seq<nat>, m: Machine, s: State)
    requires Inv(g, s) && Represents(g, first, m, s) && |m.path| > 1
    requires var top := m.path[|m.path| - 1];
             top < |g| && s.cursor[top] == |g[top]| && m.low[top] < m.disc[top]
    ensures var top, parent := m.path[|m.path| - 1], m.path[|m.path| - 2];
            && parent < |g| && s.reached[top] < |s.disc|
            && Inv(g, Retreat(s, top, parent))
            && Represents(g, first, Backed(m), Retreat(s, top, parent))
  {
    hide Explored, Finished, Numbered, Descends;
    var top, parent := m.path[|m.path| - 1], m.path[|m.path| - 2];
    OrderedTop(m.disc, m.path, s.open);
    OrderedPop(m.disc, m.path, s.open);
    OrderedTop(m.disc, m.path[..|m.path| - 1], s.open - {top});
    RetreatInv(g, s, top, parent);
    RetreatRepresents(g, first, m, s);
  }

  lemma RetreatRepresents(g: Graph, first: seq<nat>, m: Machine, s: State)
    requires Represents(g, first, m, s) && |m.path| > 1
    requires m.path[|m.path| - 1] < |g| && m.path[|m.path| - 2] < |g|
    requires var top := m.path[|m.path| - 1];
             s.reached[top] < |g| && s.disc[s.reached[top]] == s.low[top]
    requires Ordered(m.disc, m.path[..|m.path| - 1], s.open - {m.path[|m.path| - 1]})
    ensures Represents(g, first, Backed(m), Retreat(s, m.path[|m.path| - 1], m.path[|m.path| - 2]))
  {
  }

  // ---------------------------------------------------------------------------------
  // What the tables say at the end.

  lemma EmptyPath(s: State, path: seq<nat>)
    requires |s.owner| == |s.disc| && Stacked(s.disc, s.owner, s.live, s.open)
    requires Ordered(s.disc, path, s.open)
    ensures path == [] ==> s.open == {} && s.live == {}
  {
    assert path == [] ==> forall p: nat :: p in s.open <==> p in path;
    forall x | x in s.live
      ensures |path| > 0
    {
      assert s.owner[x] in path;
    }
  }

  /** When every node is discovered and nothing is open, equal component numbers mean mutual
      reachability, and a component of two or more is one with another member. */
  lemma TablesAtEnd(g: Graph, first: seq<nat>, m: Machine, s: State, u: nat, v: nat)
    requires Inv(g, s) && Represents(g, first, m, s) && m.path == []
    requires u < |g| && v < |g| && m.disc[u] >= 0 && m.disc[v] >= 0
    ensures m.comp[u] == m.comp[v] <==> Mutual(g, u, v)
    ensures m.comp[u] < |m.size|
    ensures m.size[m.comp[u]] >= 2 <==> HasCompany(g, u)
  {
    EmptyPath(s, m.path);
    assert Done(s.disc, s.live, u) && Done(s.disc, s.live, v);
    GroupMeaning(g, s.groups[s.comp[u]], u);
    var c := s.groups[s.comp[u]];
    assert v in c <==> s.comp[v] == s.comp[u];
  }

  lemma GroupMeaning(g: Graph, c: seq<nat>, u: nat)
    requires IsComponent(g, c) && u in c
    ensures forall w: nat :: w < |g| ==> (w in c <==> Mutual(g, u, w))
    ensures |c| >= 2 <==> HasCompany(g, u)
  {
    var i :| 0 <= i < |c| && c[i] == u;
    assert forall w: nat :: w < |g| ==> (w in c <==> Mutual(g, c[i], w));
    if |c| >= 2 {
      var k := if i == 0 then 1 else 0;
      assert c[k] in c && c[k] != u;
    } else {
      assert forall w: nat :: w in c ==> w == u;
    }
  }
}
