/** Tarjan's strongly connected components as a state machine over values: what the
    walk of `rewrite_cyclic_tail_calls` keeps true after each of its steps.

    The walk holds every discovered node that is not yet assigned to a component on one
    stack (`live`), and the nodes it is still expanding on a second one (`open`). Both
    are ordered by discovery number, so each open node starts a stretch of the first. */
module Tarjan {
  import opened Digraph

  /** `disc[v]` is -1 until `v` is discovered; `cursor[v]` edges of `v` have been taken;
      `reached[v]` is a live node that `v` reaches, numbered `low[v]`; `owner[v]` is the
      open node whose stretch holds `v`; `comp[v]` is the place of `v`'s component in
      `groups` once it is finished. */
  datatype State = State(
    disc: seq<int>,
    low: seq<int>,
    cursor: seq<nat>,
    reached: seq<nat>,
    owner: seq<nat>,
    live: set<nat>,
    open: set<nat>,
    comp: seq<nat>,
    groups: seq<seq<nat>>,
    clock: nat)

  /** Nothing discovered; the low numbers and component numbers hold whatever they hold. */
  function Start(low: seq<int>, comp: seq<nat>): State {
    var zeros := seq(|low|, _ => 0);
    State(seq(|low|, _ => -1), low, zeros, zeros, zeros, {}, {}, comp, [], 0)
  }

  predicate Sizes(g: Graph, s: State) {
    |s.disc| == |s.low| == |s.cursor| == |s.reached| == |s.owner| == |s.comp| == |g|
  }

  predicate Visited(disc: seq<int>, v: nat) {
    v < |disc| && disc[v] >= 0
  }

  predicate Done(disc: seq<int>, live: set<nat>, v: nat) {
    Visited(disc, v) && v !in live
  }

  /** Discovery numbers are given out once each, in order. */
  ghost predicate Numbered(disc: seq<int>, clock: nat) {
    && (forall v: nat :: v < |disc| ==> -1 <= disc[v] < clock)
    && (forall u: nat, v: nat :: u < |disc| && v < |disc| && disc[u] == disc[v] >= 0 ==> u == v)
  }

  /** `owner` splits the live nodes into one stretch for each open node. */
  ghost predicate Stacked(disc: seq<int>, owner: seq<nat>, live: set<nat>, open: set<nat>)
    requires |owner| == |disc|
  {
    && (forall v :: v in live ==> Visited(disc, v) && owner[v] in open)
    && (forall v :: v in open ==> v in live && owner[v] == v)
    && (forall v, p :: v in live && p in open ==>
          (disc[p] <= disc[v] <==> disc[p] <= disc[owner[v]]))
  }

  /** A taken edge leads to a discovered node; a node that is not open has no edge left. */
  ghost predicate Explored(g: Graph, disc: seq<int>, open: set<nat>, cursor: seq<nat>)
    requires |disc| == |cursor| == |g|
  {
    && (forall v: nat :: v < |g| ==> cursor[v] <= |g[v]|)
    && (forall v: nat, j :: Visited(disc, v) && 0 <= j < cursor[v] ==> Visited(disc, g[v][j]))
    && (forall v: nat :: Visited(disc, v) && v !in open ==> cursor[v] == |g[v]|)
    && (forall v: nat :: v < |g| && !Visited(disc, v) ==> cursor[v] == 0)
  }

  /** The finished nodes are closed under successors, and they are exactly the grouped ones;
      each group is one whole strongly connected component. */
  ghost predicate Finished(g: Graph, disc: seq<int>, live: set<nat>, comp: seq<nat>,
                           groups: seq<seq<nat>>)
    requires |disc| == |comp| == |g|
  {
    && (forall v: nat, j :: Done(disc, live, v) && 0 <= j < |g[v]| ==> Done(disc, live, g[v][j]))
    && (forall v: nat :: Done(disc, live, v) ==> comp[v] < |groups| && v in groups[comp[v]])
    && (forall c, i :: 0 <= c < |groups| && 0 <= i < |groups[c]| ==>
          Done(disc, live, groups[c][i]) && comp[groups[c][i]] == c)
    && (forall c :: 0 <= c < |groups| ==> IsComponent(g, groups[c]))
  }

  /** `m` lists, without repetition, one class of the mutual reachability relation. */
  ghost predicate IsComponent(g: Graph, m: seq<nat>) {
    && |m| > 0
    && (forall i :: 0 <= i < |m| ==> m[i] < |g|)
    && (forall i, j :: 0 <= i < j < |m| ==> m[i] != m[j])
    && (forall i, w: nat :: 0 <= i < |m| && w < |g| ==> (w in m <==> Mutual(g, m[i], w)))
  }

  /** An open node reaches every live node at or above it. */
  ghost predicate Descends(g: Graph, disc: seq<int>, live: set<nat>, open: set<nat>) {
    forall p, v :: p in open && v in live && p < |disc| && v < |disc| && disc[p] <= disc[v] ==>
      Reach(g, p, v)
  }

  /** The low number of `v` is that of a live node `v` reaches, strictly below `v` if `v` is
      no longer open. */
  ghost predicate Anchored(g: Graph, s: State, v: nat) {
    && Sizes(g, s) && v < |g| && s.low[v] <= s.disc[v]
    && s.reached[v] in s.live && s.reached[v] < |g| && s.disc[s.reached[v]] == s.low[v]
    && Reach(g, v, s.reached[v])
    && (v !in s.open ==> s.low[v] < s.disc[v])
  }

  ghost predicate LowSound(g: Graph, s: State) {
    forall v {:trigger Anchored(g, s, v)} :: v in s.live ==> Anchored(g, s, v)
  }

  /** A taken edge from a live node to a live node is accounted for in the low number of
      the open node that owns its source. */
  ghost predicate Accounted(g: Graph, s: State, v: nat, j: nat)
    requires Sizes(g, s)
  {
    v in s.live && v < |g| && j < |g[v]| && j < s.cursor[v] && g[v][j] in s.live ==>
      s.owner[v] < |g| && g[v][j] < |g| && s.low[s.owner[v]] <= s.disc[g[v][j]]
  }

  ghost predicate LowComplete(g: Graph, s: State)
    requires Sizes(g, s)
  {
    forall v: nat, j: nat :: Accounted(g, s, v, j)
  }

  ghost predicate Inv(g: Graph, s: State) {
    && WellFormed(g)
    && Sizes(g, s)
    && Numbered(s.disc, s.clock)
    && Stacked(s.disc, s.owner, s.live, s.open)
    && Explored(g, s.disc, s.open, s.cursor)
    && Finished(g, s.disc, s.live, s.comp, s.groups)
    && Descends(g, s.disc, s.live, s.open)
    && LowSound(g, s)
    && LowComplete(g, s)
  }

  lemma StartInv(g: Graph, low: seq<int>, comp: seq<nat>)
    requires WellFormed(g) && |low| == |comp| == |g|
    ensures Inv(g, Start(low, comp))
  {
  }

  // ---------------------------------------------------------------------------------
  // Discovering a node: as a new root, or through an edge of the top of the path.

  /** Gives `v` the next number and puts it on both stacks. */
  function Discover(s: State, v: nat): State
    requires v < |s.disc| == |s.low| == |s.owner| == |s.reached|
  {
    s.(disc := s.disc[v := s.clock], low := s.low[v := s.clock], owner := s.owner[v := v],
       reached := s.reached[v := v], live := s.live + {v}, open := s.open + {v},
       clock := s.clock + 1)
  }

  lemma DiscoverNumbered(s: State, v: nat)
    requires |s.low| == |s.owner| == |s.reached| == |s.disc| && Numbered(s.disc, s.clock)
    requires v < |s.disc|
    ensures var t := Discover(s, v); Numbered(t.disc, t.clock)
  {
  }

  lemma DiscoverStacked(s: State, v: nat)
    requires |s.low| == |s.owner| == |s.reached| == |s.disc|
    requires Numbered(s.disc, s.clock) && Stacked(s.disc, s.owner, s.live, s.open)
    requires v < |s.disc| && !Visited(s.disc, v)
    ensures var t := Discover(s, v); Stacked(t.disc, t.owner, t.live, t.open)
  {
    var t := Discover(s, v);
    forall x, p | x in t.live && p in t.open
      ensures t.disc[p] <= t.disc[x] <==> t.disc[p] <= t.disc[t.owner[x]]
    {
      assert x != v ==> x in s.live && s.owner[x] != v;
    }
  }

  lemma DiscoverExplored(g: Graph, s: State, v: nat)
    requires Sizes(g, s) && Explored(g, s.disc, s.open, s.cursor) && v < |g| && !Visited(s.disc, v)
    ensures var t := Discover(s, v); Explored(g, t.disc, t.open, t.cursor)
  {
  }

  lemma DiscoverFinished(g: Graph, s: State, v: nat)
    requires Sizes(g, s) && v < |g| && !Visited(s.disc, v)
    requires Finished(g, s.disc, s.live, s.comp, s.groups)
    ensures var t := Discover(s, v); Finished(g, t.disc, t.live, t.comp, t.groups)
  {
    var t := Discover(s, v);
    assert forall x: nat :: Done(t.disc, t.live, x) <==> Done(s.disc, s.live, x);
  }

  lemma DiscoverLowSound(g: Graph, s: State, v: nat)
    requires Sizes(g, s) && LowSound(g, s) && v < |g| && v !in s.live
    ensures LowSound(g, Discover(s, v))
  {
    var t := Discover(s, v);
    forall x | x in t.live
      ensures Anchored(g, t, x)
    {
      if x == v {
        ReachSelf(g, v);
      } else {
        assert Anchored(g, s, x);
      }
    }
  }

  lemma DiscoverLowComplete(g: Graph, s: State, v: nat)
    requires Sizes(g, s) && Stacked(s.disc, s.owner, s.live, s.open)
    requires Explored(g, s.disc, s.open, s.cursor) && LowComplete(g, s)
    requires v < |g| && !Visited(s.disc, v)
    ensures LowComplete(g, Discover(s, v))
  {
    var t := Discover(s, v);
    forall x: nat, j: nat
      ensures Accounted(g, t, x, j)
    {
      assert Accounted(g, s, x, j);
      assert x in s.live ==> s.owner[x] != v;
    }
  }

  /** The top open node: the last one discovered among the open ones. */
  ghost predicate IsTop(disc: seq<int>, open: set<nat>, top: nat) {
    top in open && top < |disc| && forall p :: p in open && p < |disc| ==> disc[p] <= disc[top]
  }

  /** A new root, found when nothing is open, or a node found through an edge of the top. */
  lemma DiscoverInv(g: Graph, s: State, v: nat)
    requires Inv(g, s) && v < |g| && !Visited(s.disc, v)
    requires forall p :: p in s.open ==> Reach(g, p, v)
    ensures Inv(g, Discover(s, v)) && IsTop(Discover(s, v).disc, Discover(s, v).open, v)
  {
    hide Stacked, Explored, Finished, LowSound, LowComplete, Descends, Reach, Numbered, IsTop;
    DiscoverNumbered(s, v);
    DiscoverStacked(s, v);
    DiscoverExplored(g, s, v);
    DiscoverFinished(g, s, v);
    DiscoverFresh(s, v);
    DiscoverLowSound(g, s, v);
    DiscoverLowComplete(g, s, v);
    DiscoverDescends(g, s, v);
  }

  lemma DiscoverFresh(s: State, v: nat)
    requires |s.owner| == |s.disc| && Stacked(s.disc, s.owner, s.live, s.open) && !Visited(s.disc, v)
    ensures v !in s.live
  {
  }

  /** The new node is the top, and every open node reaches it. */
  lemma DiscoverDescends(g: Graph, s: State, v: nat)
    requires Sizes(g, s) && v < |g| && Numbered(s.disc, s.clock) && Descends(g, s.disc, s.live, s.open)
    requires Stacked(s.disc, s.owner, s.live, s.open) && !Visited(s.disc, v)
    requires forall p :: p in s.open ==> Reach(g, p, v)
    ensures var t := Discover(s, v); Descends(g, t.disc, t.live, t.open) && IsTop(t.disc, t.open, v)
  {
    hide Reach;
    ReachSelf(g, v);
  }

  // ---------------------------------------------------------------------------------
  // Taking an edge of an open node.

  /** Takes the next edge of `v`. */
  function Take(s: State, v: nat): State
    requires v < |s.cursor|
  {
    s.(cursor := s.cursor[v := s.cursor[v] + 1])
  }

  lemma TakeInv(g: Graph, s: State, v: nat)
    requires Inv(g, s) && v in s.open && s.cursor[v] < |g[v]|
    requires Visited(s.disc, g[v][s.cursor[v]])
    requires g[v][s.cursor[v]] in s.live ==> s.low[v] <= s.disc[g[v][s.cursor[v]]]
    ensures Inv(g, Take(s, v))
  {
    TakeExplored(g, s, v);
    TakeLowSound(g, s, v);
    TakeLowComplete(g, s, v);
  }

  lemma TakeExplored(g: Graph, s: State, v: nat)
    requires Sizes(g, s) && Explored(g, s.disc, s.open, s.cursor)
    requires v < |g| && v in s.open && s.cursor[v] < |g[v]| && Visited(s.disc, v)
    requires Visited(s.disc, g[v][s.cursor[v]])
    ensures Explored(g, s.disc, s.open, Take(s, v).cursor)
  {
  }

  lemma TakeLowSound(g: Graph, s: State, v: nat)
    requires Sizes(g, s) && LowSound(g, s) && v < |g|
    ensures LowSound(g, Take(s, v))
  {
    forall x | x in s.live
      ensures Anchored(g, Take(s, v), x)
    {
      assert Anchored(g, s, x);
    }
  }

  lemma TakeLowComplete(g: Graph, s: State, v: nat)
    requires WellFormed(g) && Sizes(g, s) && LowComplete(g, s)
    requires v < |g| && s.owner[v] == v && s.cursor[v] < |g[v]|
    requires g[v][s.cursor[v]] in s.live ==> s.low[v] <= s.disc[g[v][s.cursor[v]]]
    ensures LowComplete(g, Take(s, v))
  {
    forall x: nat, j: nat
      ensures Accounted(g, Take(s, v), x, j)
    {
      assert Accounted(g, s, x, j);
    }
  }

  /** The state after the top takes an edge to the undiscovered `next`. */
  function Descend(s: State, top: nat, next: nat): State
    requires top < |s.cursor| && next < |s.disc| == |s.low| == |s.owner| == |s.reached|
  {
    Take(Discover(s, next), top)
  }

  lemma DescendInv(g: Graph, s: State, top: nat)
    requires Inv(g, s) && IsTop(s.disc, s.open, top) && s.cursor[top] < |g[top]|
    requires !Visited(s.disc, g[top][s.cursor[top]])
    ensures var next := g[top][s.cursor[top]]; var t := Descend(s, top, next);
            Inv(g, t) && IsTop(t.disc, t.open, next)
  {
    var next := g[top][s.cursor[top]];
    forall p | p in s.open
      ensures Reach(g, p, next)
    {
      ReachEdge(g, top, next);
      ReachTransitive(g, p, top, next);
    }
    DiscoverInv(g, s, next);
    assert Anchored(g, s, top);
    TakeInv(g, Discover(s, next), top);
  }

  // ---------------------------------------------------------------------------------
  // Lowering a low number.

  /** Sets `low[v]` to the number of `w`, if that is smaller. */
  function Lower(s: State, v: nat, w: nat): State
    requires v < |s.low| == |s.reached| && w < |s.disc|
  {
    if s.disc[w] < s.low[v] then
      s.(low := s.low[v := s.disc[w]], reached := s.reached[v := w])
    else s
  }

  lemma LowerSound(g: Graph, s: State, v: nat, w: nat)
    requires Sizes(g, s) && LowSound(g, s)
    requires v < |g| && w < |g| && w in s.live && Reach(g, v, w)
    ensures LowSound(g, Lower(s, v, w))
  {
    var t := Lower(s, v, w);
    forall x | x in s.live
      ensures Anchored(g, t, x)
    {
      assert Anchored(g, s, x);
    }
  }

  lemma LowerComplete(g: Graph, s: State, v: nat, w: nat)
    requires Sizes(g, s) && LowComplete(g, s) && v < |g| && w < |g|
    ensures LowComplete(g, Lower(s, v, w))
  {
    forall x: nat, j: nat
      ensures Accounted(g, Lower(s, v, w), x, j)
    {
      assert Accounted(g, s, x, j);
    }
  }

  lemma LowerInv(g: Graph, s: State, v: nat, w: nat)
    requires Inv(g, s) && v in s.live && w in s.live && Reach(g, v, w)
    ensures Inv(g, Lower(s, v, w))
  {
    LowerSound(g, s, v, w);
    LowerComplete(g, s, v, w);
  }

  /** The state after the top takes an edge to the discovered `next`. */
  function Notice(s: State, top: nat, next: nat): State
    requires top < |s.cursor| && top < |s.low| == |s.reached| && next < |s.disc|
  {
    Take(if next in s.live then Lower(s, top, next) else s, top)
  }

  lemma NoticeInv(g: Graph, s: State, top: nat)
    requires Inv(g, s) && top in s.open && s.cursor[top] < |g[top]|
    requires Visited(s.disc, g[top][s.cursor[top]])
    ensures Inv(g, Notice(s, top, g[top][s.cursor[top]]))
  {
    var next := g[top][s.cursor[top]];
    if next in s.live {
      ReachEdge(g, top, next);
      LowerInv(g, s, top, next);
      TakeInv(g, Lower(s, top, next), top);
    } else {
      TakeInv(g, s, top);
    }
  }

  // ---------------------------------------------------------------------------------
  // Leaving a node that reaches below itself: its stretch joins its parent's.

  /** `parent` is the open node right below the top. */
  ghost predicate IsParent(s: State, top: nat, parent: nat) {
    && IsTop(s.disc, s.open, top) && parent != top
    && IsTop(s.disc, s.open - {top}, parent)
  }

  function Close(s: State, top: nat, parent: nat): State {
    s.(open := s.open - {top},
       owner := seq(|s.owner|, i requires 0 <= i < |s.owner| =>
         if s.owner[i] == top then parent else s.owner[i]))
  }

  lemma CloseStacked(s: State, top: nat, parent: nat)
    requires |s.owner| == |s.disc| && Numbered(s.disc, s.clock)
    requires Stacked(s.disc, s.owner, s.live, s.open) && IsParent(s, top, parent)
    ensures var t := Close(s, top, parent); Stacked(s.disc, t.owner, s.live, t.open)
  {
    hide Stacked, Visited;
    var t := Close(s, top, parent);
    forall v | v in t.live
      ensures Visited(t.disc, v) && v < |t.owner| && t.owner[v] in t.open
    {
      ClosedOwner(s, top, parent, v);
    }
    forall v | v in t.open
      ensures v in t.live && v < |t.owner| && t.owner[v] == v
    {
      OpenOwner(s, top, parent, v);
    }
    forall v, p | v in t.live && p in t.open
      ensures InStretch(t.disc, t.owner, v, p)
    {
      ClosedOrder(s, top, parent, v, p);
    }
    StackedFrom(t.disc, t.owner, t.live, t.open);
  }

  /** `p` was entered no later than `v` exactly when it was no later than the owner of `v`. */
  ghost predicate InStretch(disc: seq<int>, owner: seq<nat>, v: nat, p: nat) {
    v < |disc| == |owner| && p < |disc| && owner[v] < |disc| && (disc[p] <= disc[v] <==> disc[p] <= disc[owner[v]])
  }

  lemma StackedFrom(disc: seq<int>, owner: seq<nat>, live: set<nat>, open: set<nat>)
    requires |owner| == |disc|
    requires forall v :: v in live ==> Visited(disc, v) && v < |owner| && owner[v] in open
    requires forall v :: v in open ==> v in live && v < |owner| && owner[v] == v
    requires forall v, p :: v in live && p in open ==> InStretch(disc, owner, v, p)
    ensures Stacked(disc, owner, live, open)
  {
    forall v, p | v in live && p in open
      ensures disc[p] <= disc[v] <==> disc[p] <= disc[owner[v]]
    {
      assert InStretch(disc, owner, v, p);
    }
  }

  lemma ClosedOwner(s: State, top: nat, parent: nat, v: nat)
    requires |s.owner| == |s.disc| && Stacked(s.disc, s.owner, s.live, s.open) && IsParent(s, top, parent) && v in s.live
    ensures Visited(s.disc, v) && v < |s.owner| && Close(s, top, parent).owner[v] in s.open - {top}
  {
  }

  lemma OpenOwner(s: State, top: nat, parent: nat, v: nat)
    requires |s.owner| == |s.disc| && Stacked(s.disc, s.owner, s.live, s.open) && IsParent(s, top, parent) && v in s.open - {top}
    ensures v in s.live && v < |s.owner| && Close(s, top, parent).owner[v] == v
  {
    assert s.owner[v] == v;
  }

  lemma ClosedOrder(s: State, top: nat, parent: nat, v: nat, p: nat)
    requires |s.owner| == |s.disc| && Stacked(s.disc, s.owner, s.live, s.open) && IsParent(s, top, parent)
    requires v in s.live && p in s.open - {top}
    ensures InStretch(s.disc, Close(s, top, parent).owner, v, p)
  {
    assert Visited(s.disc, v) && p in s.live && Visited(s.disc, p);
    assert s.owner[v] in s.open && s.owner[v] in s.live;
    if s.owner[v] == top {
      assert s.disc[p] <= s.disc[parent];
      assert s.disc[p] <= s.disc[top] <= s.disc[v];
    }
  }

  lemma CloseLowSound(g: Graph, s: State, top: nat, parent: nat)
    requires Sizes(g, s) && LowSound(g, s) && top < |g| && s.low[top] < s.disc[top]
    ensures LowSound(g, Close(s, top, parent))
  {
    forall x | x in s.live
      ensures Anchored(g, Close(s, top, parent), x)
    {
      assert Anchored(g, s, x);
    }
  }

  lemma CloseLowComplete(g: Graph, s: State, top: nat, parent: nat)
    requires Sizes(g, s) && LowComplete(g, s) && top < |g| && parent < |g|
    requires s.low[parent] <= s.low[top]
    ensures LowComplete(g, Close(s, top, parent))
  {
    forall x: nat, j: nat
      ensures Accounted(g, Close(s, top, parent), x, j)
    {
      assert Accounted(g, s, x, j);
    }
  }

  /** With the parent's low number already lowered, closing the top keeps everything. */
  lemma CloseInv(g: Graph, s: State, top: nat, parent: nat)
    requires Inv(g, s) && IsParent(s, top, parent)
    requires s.cursor[top] == |g[top]| && s.low[top] < s.disc[top] && s.low[parent] <= s.low[top]
    ensures Inv(g, Close(s, top, parent))
  {
    CloseStacked(s, top, parent);
    CloseLowSound(g, s, top, parent);
    CloseLowComplete(g, s, top, parent);
  }

  /** The state after the walk leaves `top` for `parent`. */
  function Retreat(s: State, top: nat, parent: nat): State
    requires top < |s.reached| && parent < |s.low| == |s.reached| && s.reached[top] < |s.disc|
  {
    Close(Lower(s, parent, s.reached[top]), top, parent)
  }

  lemma RetreatInv(g: Graph, s: State, top: nat, parent: nat)
    requires Inv(g, s) && IsParent(s, top, parent)
    requires s.cursor[top] == |g[top]| && s.low[top] < s.disc[top]
    ensures s.reached[top] < |s.disc| && s.disc[s.reached[top]] == s.low[top]
    ensures Inv(g, Retreat(s, top, parent))
  {
    assert Anchored(g, s, top);
    ReachTransitive(g, parent, top, s.reached[top]);
    LowerInv(g, s, parent, s.reached[top]);
    CloseInv(g, Lower(s, parent, s.reached[top]), top, parent);
  }

  // ---------------------------------------------------------------------------------
  // Retiring the stretch of a node that reaches nothing below itself.

  /** `m` lists the stretch of `top`. */
  ghost predicate IsStretch(s: State, top: nat, m: seq<nat>) {
    && top < |s.disc|
    && (forall i, j :: 0 <= i < j < |m| ==> m[i] != m[j])
    && (forall v: nat :: v in m <==> v in s.live && v < |s.disc| && s.disc[top] <= s.disc[v])
  }

  /** The top has no edge left and reaches nothing below itself. */
  ghost predicate Ripe(g: Graph, s: State, top: nat) {
    && Inv(g, s) && IsTop(s.disc, s.open, top)
    && s.cursor[top] == |g[top]| && s.low[top] == s.disc[top]
  }

  /** Every live node reaches the top. */
  lemma {:induction false} LiveReachesTop(g: Graph, s: State, top: nat, v: nat)
    requires |s.owner| == |s.disc| && Stacked(s.disc, s.owner, s.live, s.open)
    requires Descends(g, s.disc, s.live, s.open)
    requires LowSound(g, s) && IsTop(s.disc, s.open, top) && v in s.live
    ensures Reach(g, v, top)
    decreases s.disc[v]
  {
    if v !in s.open {
      assert Anchored(g, s, v);
      LiveReachesTop(g, s, top, s.reached[v]);
      ReachTransitive(g, v, s.reached[v], top);
    }
  }

  /** No edge leaves the stretch of a ripe top except to finished nodes. */
  lemma StretchClosed(g: Graph, s: State, top: nat, v: nat, j: nat)
    requires Ripe(g, s, top)
    requires v in s.live && s.disc[top] <= s.disc[v] && j < |g[v]|
    ensures Done(s.disc, s.live, g[v][j]) || (g[v][j] in s.live && s.disc[top] <= s.disc[g[v][j]])
  {
    assert s.owner[v] == top;
    assert v != top ==> v !in s.open;
    assert Visited(s.disc, g[v][j]);
    assert Accounted(g, s, v, j);
  }

  lemma StretchIsComponent(g: Graph, s: State, top: nat, m: seq<nat>)
    requires Ripe(g, s, top) && IsStretch(s, top, m)
    ensures IsComponent(g, m)
  {
    assert top in m;
    forall i, w: nat | 0 <= i < |m| && w < |g|
      ensures w in m <==> Mutual(g, m[i], w)
    {
      var u := m[i];
      assert u in m;
      if w in m {
        LiveReachesTop(g, s, top, u);
        LiveReachesTop(g, s, top, w);
        ReachTransitive(g, u, top, w);
        ReachTransitive(g, w, top, u);
      } else if Mutual(g, u, w) {
        StretchMaximal(g, s, top, m, u, w);
      }
    }
  }

  lemma StretchMaximal(g: Graph, s: State, top: nat, m: seq<nat>, u: nat, w: nat)
    requires Ripe(g, s, top) && IsStretch(s, top, m) && u in m && w < |g| && Mutual(g, u, w)
    ensures w in m
  {
    var done := set x: nat | x < |g| && Done(s.disc, s.live, x);
    var inside := done + set x | x in m;
    forall v, j | v in inside && v < |g| && 0 <= j < |g[v]|
      ensures g[v][j] in inside
    {
      if v in m {
        StretchClosed(g, s, top, v, j);
        assert g[v][j] in m || Done(s.disc, s.live, g[v][j]);
      }
    }
    ReachStaysInside(g, inside, u, w);
    if w !in m {
      assert Closed(g, done);
      ReachStaysInside(g, done, w, u);
    }
  }

  /** The state after the stretch `m` of `top` is popped as one component. */
  function Retire(s: State, top: nat, m: seq<nat>): State {
    s.(live := s.live - (set x | x in m),
       open := s.open - {top},
       comp := seq(|s.comp|, i requires 0 <= i < |s.comp| =>
         if i in m then |s.groups| else s.comp[i]),
       groups := s.groups + [m])
  }

  lemma RetireStacked(s: State, top: nat, m: seq<nat>)
    requires |s.owner| == |s.disc| && Numbered(s.disc, s.clock)
    requires Stacked(s.disc, s.owner, s.live, s.open)
    requires IsTop(s.disc, s.open, top) && IsStretch(s, top, m)
    ensures var t := Retire(s, top, m); Stacked(s.disc, s.owner, t.live, t.open)
  {
    var t := Retire(s, top, m);
    forall v | v in t.live
      ensures t.owner[v] in t.open
    {
      assert v !in m;
      assert s.owner[v] != top;
    }
    forall p | p in t.open
      ensures p in t.live
    {
      assert s.disc[p] < s.disc[top];
      assert p !in m;
    }
  }

  lemma RetireFinished(g: Graph, s: State, top: nat, m: seq<nat>)
    requires Ripe(g, s, top) && IsStretch(s, top, m)
    ensures var t := Retire(s, top, m); Finished(g, s.disc, t.live, t.comp, t.groups)
  {
    var t := Retire(s, top, m);
    StretchIsComponent(g, s, top, m);
    assert forall x: nat :: Done(t.disc, t.live, x) <==> Done(s.disc, s.live, x) || x in m;
    forall v: nat, j | Done(t.disc, t.live, v) && 0 <= j < |g[v]|
      ensures Done(t.disc, t.live, g[v][j])
    {
      if v in m {
        StretchClosed(g, s, top, v, j);
        assert g[v][j] in m || Done(s.disc, s.live, g[v][j]);
      }
    }
    forall c, i | 0 <= c < |t.groups| && 0 <= i < |t.groups[c]|
      ensures Done(t.disc, t.live, t.groups[c][i]) && t.comp[t.groups[c][i]] == c
    {
      if c < |s.groups| {
        assert Done(s.disc, s.live, s.groups[c][i]);
      } else {
        assert m[i] in m;
      }
    }
  }

  lemma RetireLowSound(g: Graph, s: State, top: nat, m: seq<nat>)
    requires Sizes(g, s) && LowSound(g, s) && IsStretch(s, top, m)
    ensures LowSound(g, Retire(s, top, m))
  {
    var t := Retire(s, top, m);
    forall x | x in t.live
      ensures Anchored(g, t, x)
    {
      assert Anchored(g, s, x);
      assert x !in m && s.reached[x] !in m;
    }
  }

  lemma RetireLowComplete(g: Graph, s: State, top: nat, m: seq<nat>)
    requires Sizes(g, s) && LowComplete(g, s)
    ensures LowComplete(g, Retire(s, top, m))
  {
    forall x: nat, j: nat
      ensures Accounted(g, Retire(s, top, m), x, j)
    {
      assert Accounted(g, s, x, j);
    }
  }

  lemma RetireInv(g: Graph, s: State, top: nat, m: seq<nat>)
    requires Ripe(g, s, top) && IsStretch(s, top, m)
    ensures Inv(g, Retire(s, top, m))
  {
    RetireStacked(s, top, m);
    RetireFinished(g, s, top, m);
    RetireLowSound(g, s, top, m);
    RetireLowComplete(g, s, top, m);
  }
}
