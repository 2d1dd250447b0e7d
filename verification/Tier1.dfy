/** The Tier 1 simulation: a queue of active states and a bitset of visited ones. */
module Tier1 {
  import opened Wrappers
  import opened Digraph
  import opened Nfa

  // ---------------------------------------------------------------------------------
  // The bitset.

  /** The bit for place `i` of a byte. */
  function Mask(i: nat): bv8
    requires i < 8
  {
    if i == 0 then 1 else if i == 1 then 2 else if i == 2 then 4 else if i == 3 then 8
    else if i == 4 then 16 else if i == 5 then 32 else if i == 6 then 64 else 128
  }

  lemma MaskBits(b: bv8, i: nat, j: nat)
    requires i < 8 && j < 8
    ensures ((b | Mask(i)) & Mask(j)) != 0 <==> i == j || (b & Mask(j)) != 0
  {
  }

  predicate Marked(visited: seq<bv8>, i: nat) {
    i / 8 < |visited| && (visited[i / 8] & Mask(i % 8)) != 0
  }

  function Mark(visited: seq<bv8>, i: nat): (r: seq<bv8>)
    requires i / 8 < |visited|
    ensures |r| == |visited|
  {
    visited[i / 8 := visited[i / 8] | Mask(i % 8)]
  }

  lemma MarkedAfter(visited: seq<bv8>, i: nat, j: nat)
    requires i / 8 < |visited|
    ensures Marked(Mark(visited, i), j) <==> i == j || Marked(visited, j)
  {
    hide Mask;
    if i / 8 == j / 8 {
      MaskBits(visited[i / 8], i % 8, j % 8);
    }
  }

  function MarkedSet(visited: seq<bv8>, n: nat): set<nat> {
    set i: nat | i < n && Marked(visited, i)
  }

  function Unmarked(visited: seq<bv8>, n: nat): set<nat> {
    set i: nat | i < n && !Marked(visited, i)
  }

  lemma UnmarkedShrinks(before: seq<bv8>, after: seq<bv8>, n: nat, i: nat)
    requires i < n && i !in MarkedSet(before, n) && MarkedSet(before, n) + {i} <= MarkedSet(after, n)
    ensures Unmarked(after, n) < Unmarked(before, n)
  {
    assert i in Unmarked(before, n);
    forall j | j in Unmarked(after, n)
      ensures j in Unmarked(before, n) && j != i
    {
      assert j !in MarkedSet(after, n);
    }
  }

  lemma MarkedSetAfter(visited: seq<bv8>, n: nat, i: nat)
    requires i < n && i / 8 < |visited|
    ensures MarkedSet(Mark(visited, i), n) == MarkedSet(visited, n) + {i}
  {
    forall j: nat
      ensures Marked(Mark(visited, i), j) <==> i == j || Marked(visited, j)
    {
      MarkedAfter(visited, i, j);
    }
  }

  lemma MarkedNone(visited: seq<bv8>, n: nat)
    requires forall i :: 0 <= i < |visited| ==> visited[i] == 0
    ensures MarkedSet(visited, n) == {}
  {
    forall i: nat
      ensures !Marked(visited, i)
    {
      if i / 8 < |visited| {
        assert visited[i / 8] == 0;
      }
    }
  }

  // ---------------------------------------------------------------------------------
  // Depth-first growth of the visited set.

  /** All silent successors of `x` are in `v`. */
  ghost predicate Expanded(g: Graph, v: set<nat>, x: nat) {
    x < |g| && forall j :: 0 <= j < |g[x]| ==> g[x][j] in v
  }

  /** From `v` to `w` only states reachable from `root` were added, each fully expanded. */
  ghost predicate Grown(g: Graph, v: set<nat>, w: set<nat>, root: nat) {
    && v <= w && root in w
    && forall x :: x in w - v ==> Reach(g, root, x) && Expanded(g, w, x)
  }

  ghost predicate GrownBy(g: Graph, v: set<nat>, w: set<nat>, next: Option<nat>) {
    match next
    case None => w == v
    case Some(root) => Grown(g, v, w, root)
  }

  lemma GrowLeaf(g: Graph, v: set<nat>, s: nat)
    requires s < |g| && g[s] == []
    ensures Grown(g, v, v + {s}, s)
  {
    ReachSelf(g, s);
  }

  lemma ReachThrough(g: Graph, s: nat, out: Option<nat>, x: nat)
    requires WellFormed(g) && s < |g| && out.Some? && out.value in g[s] && Reach(g, out.value, x)
    ensures Reach(g, s, x)
  {
    ReachEdge(g, s, out.value);
    ReachTransitive(g, s, out.value, x);
  }

  lemma GrowThrough(g: Graph, v: set<nat>, s: nat, u: set<nat>, w: set<nat>, out1: Option<nat>, out2: Option<nat>)
    requires WellFormed(g) && s < |g| && g[s] == ListOf(out1) + ListOf(out2)
    requires GrownBy(g, v + {s}, u, out1) && GrownBy(g, u, w, out2)
    ensures Grown(g, v, w, s)
  {
    ReachSelf(g, s);
    forall x | x in w - v
      ensures Reach(g, s, x) && Expanded(g, w, x)
    {
      if x in w - u {
        assert out2.Some? && out2.value in g[s];
        ReachThrough(g, s, out2, x);
      } else if x in u - (v + {s}) {
        assert out1.Some? && out1.value in g[s];
        ReachThrough(g, s, out1, x);
      }
    }
  }

  /** Fully expanded and reachable from the seeds: the closure. */
  lemma GrownIsClosure(a: Automaton, text: Text, pos: nat, seeds: set<nat>, v: set<nat>)
    requires Valid(a) && pos <= |text| && seeds <= v
    requires forall x :: x in v ==> Reached(SilentGraph(a, text, pos), seeds, x)
    requires forall x :: x in v ==> Expanded(SilentGraph(a, text, pos), v, x)
    ensures v == Closure(a, text, pos, seeds)
  {
    var g := SilentGraph(a, text, pos);
    assert Closed(g, v);
    forall t: nat | t in Closure(a, text, pos, seeds)
      ensures t in v
    {
      var s: nat :| s in seeds && Reach(g, s, t);
      ReachStaysInside(g, v, s, t);
    }
  }

  // ---------------------------------------------------------------------------------
  // The state set.

  class StateSet {
    const n: nat
    const queue: array<nat>
    const visited: array<bv8>
    var count: nat

    constructor (n: nat)
      ensures this.n == n && count == 0 && fresh(queue) && fresh(visited) && Shaped() && Seen() == {}
    {
      this.n := n;
      queue := new nat[n];
      visited := new bv8[(n + 7) / 8](_ => 0);
      count := 0;
      new;
      MarkedNone(visited[..], n);
    }

    ghost predicate Shaped()
      reads this
    {
      && queue.Length == n && visited.Length == (n + 7) / 8 && count <= n
      && queue as object != visited
    }

    ghost function Seen(): set<nat>
      reads visited
    {
      MarkedSet(visited[..], n)
    }

    /** The queue lists, once each, the visited states where a closure stops. */
    ghost predicate Listed(a: Automaton)
      reads this, queue, visited
    {
      Shaped() && |a.states| == n && Lists(a, queue[..count], Seen())
    }

    method Reset(a: Automaton)
      requires Shaped() && |a.states| == n
      modifies this`count, visited
      ensures Listed(a) && Seen() == {}
    {
      count := 0;
      forall i | 0 <= i < visited.Length {
        visited[i] := 0;
      }
      MarkedNone(visited[..], n);
    }

    /** Sets the bit of state `id` and says whether it was clear. */
    method Visit(id: nat) returns (first: bool)
      requires Shaped() && id < n
      modifies visited
      ensures first <==> id !in old(Seen())
      ensures Seen() == old(Seen()) + {id}
      ensures first ==> Unmarked(visited[..], n) < old(Unmarked(visited[..], n))
      ensures !first ==> visited[..] == old(visited[..])
    {
      hide MarkedSet, Mask, Unmarked;
      SeenMeans(visited[..], n, id);
      if visited[id / 8] & Mask(id % 8) != 0 {
        assert Seen() == old(Seen()) + {id};
        return false;
      }
      MarkedSetAfter(visited[..], n, id);
      ghost var was := visited[..];
      visited[id / 8] := visited[id / 8] | Mask(id % 8);
      assert visited[..] == Mark(was, id);
      UnmarkedShrinks(was, visited[..], n, id);
      first := true;
    }

    /** Follows silent moves from `next`, queueing the states where they stop. */
    method Add(a: Automaton, text: Text, pos: nat, next: Option<nat>)
      requires Valid(a) && pos <= |text| && Listed(a) && ValidNext(n, next)
      modifies this`count, queue, visited
      ensures Listed(a) && GrownBy(SilentGraph(a, text, pos), old(Seen()), Seen(), next)
      ensures Unmarked(visited[..], n) <= old(Unmarked(visited[..], n))
      decreases Unmarked(visited[..], n), 1
    {
      hide Lists, GrownBy, MarkedSet, SilentGraph, Unmarked, Grown, Valid;
      ghost var g, v := SilentGraph(a, text, pos), Seen();
      NoGrowth(g, v, next);
      if next.None? {
        return;
      }
      var first := Visit(next.value);
      if first {
        Expand(a, text, pos, next.value, v);
        IsGrown(g, v, Seen(), next);
      } else {
        assert Seen() == v;
      }
    }

    /** A state where the closure stops goes on the queue. */
    method Enqueue(a: Automaton, id: nat, ghost v: set<nat>)
      requires Shaped() && |a.states| == n && id < n && id !in v && Stops(a.states[id].kind)
      requires Seen() == v + {id} && Lists(a, queue[..count], v)
      modifies this`count, queue
      ensures Listed(a)
    {
      hide Lists, MarkedSet;
      ListsPush(a, queue[..count], v, id);
      ghost var q := queue[..count];
      queue[count] := id;
      count := count + 1;
      assert queue[..count] == q + [id];
    }

    /** The state `id`, just visited: its silent successors, or its place in the queue. */
    method Expand(a: Automaton, text: Text, pos: nat, id: nat, ghost v: set<nat>)
      requires Valid(a) && pos <= |text| && Shaped() && |a.states| == n && id < n && id !in v
      requires Seen() == v + {id} && Lists(a, queue[..count], v)
      modifies this`count, queue, visited
      ensures Listed(a) && Grown(SilentGraph(a, text, pos), v, Seen(), id)
      ensures Unmarked(visited[..], n) <= old(Unmarked(visited[..], n))
      decreases Unmarked(visited[..], n), 2
    {
      hide Lists, GrownBy, MarkedSet, SilentGraph, Unmarked, Grown, AnchorHolds;
      ghost var g := SilentGraph(a, text, pos);
      SilentWellFormed(a, text, pos);
      SilentOf(a, text, pos, id);
      var state := a.states[id];
      match state.kind {
        case Split =>
          ListsMore(a, queue[..count], v, id);
          Add(a, text, pos, state.out1);
          ghost var u := Seen();
          Add(a, text, pos, state.out2);
          GrowThrough(g, v, id, u, Seen(), state.out1, state.out2);
        case Save(_) =>
          ListsMore(a, queue[..count], v, id);
          Add(a, text, pos, state.out1);
          NoGrowth(g, Seen(), None);
          GrowThrough(g, v, id, Seen(), Seen(), state.out1, None);
        case Anchor(which) =>
          ListsMore(a, queue[..count], v, id);
          if AnchorHolds(which, text, pos) {
            Add(a, text, pos, state.out1);
            NoGrowth(g, Seen(), None);
            GrowThrough(g, v, id, Seen(), Seen(), state.out1, None);
          } else {
            GrowLeaf(g, v, id);
          }
        case _ =>
          Enqueue(a, id, v);
          GrowLeaf(g, v, id);
      }
    }
  }

  ghost predicate Lists(a: Automaton, q: seq<nat>, v: set<nat>) {
    && (forall k :: 0 <= k < |q| ==> q[k] < |a.states| && q[k] in v && Stops(a.states[q[k]].kind))
    && (forall j, k :: 0 <= j < k < |q| ==> q[j] != q[k])
    && (forall s :: s in v && s < |a.states| && Stops(a.states[s].kind) ==> s in q)
  }

  lemma ListsMore(a: Automaton, q: seq<nat>, v: set<nat>, s: nat)
    requires Lists(a, q, v) && s < |a.states| && !Stops(a.states[s].kind)
    ensures Lists(a, q, v + {s})
  {
  }

  lemma ListsPush(a: Automaton, q: seq<nat>, v: set<nat>, s: nat)
    requires Lists(a, q, v) && s < |a.states| && s !in v && Stops(a.states[s].kind)
    ensures |q| < |a.states| && Lists(a, q + [s], v + {s})
  {
    DistinctBelow(q + [s], |a.states|);
  }

  lemma NoGrowth(g: Graph, v: set<nat>, next: Option<nat>)
    ensures next.None? || next.value in v ==> GrownBy(g, v, v, next)
  {
  }

  lemma IsGrown(g: Graph, v: set<nat>, w: set<nat>, next: Option<nat>)
    requires next.Some? && Grown(g, v, w, next.value)
    ensures GrownBy(g, v, w, next)
  {
  }

  lemma SeenMeans(visited: seq<bv8>, n: nat, id: nat)
    requires id < n && |visited| == (n + 7) / 8
    ensures id / 8 < |visited|
    ensures id in MarkedSet(visited, n) <==> visited[id / 8] & Mask(id % 8) != 0
  {
  }

  lemma SilentOf(a: Automaton, text: Text, pos: nat, s: nat)
    requires s < |a.states| && pos <= |text|
    ensures SilentGraph(a, text, pos)[s] == Silent(a, text, pos, s)
    ensures forall l: seq<nat> :: l + ListOf(None) == l
  {
  }

  // ---------------------------------------------------------------------------------
  // The simulation.

  /** `v` is what is silently reachable from `seeds`. */
  ghost predicate Filled(g: Graph, seeds: set<nat>, v: set<nat>) {
    seeds <= v && forall x :: x in v ==> Reached(g, seeds, x) && Expanded(g, v, x)
  }

  lemma FilledNone(g: Graph)
    ensures Filled(g, {}, {})
  {
  }

  lemma FilledMore(g: Graph, seeds: set<nat>, v: set<nat>, w: set<nat>, next: Option<nat>)
    requires Filled(g, seeds, v) && GrownBy(g, v, w, next)
    ensures next.Some? ==> Filled(g, seeds + {next.value}, w)
    ensures next.None? ==> Filled(g, seeds, w)
  {
    hide Reach;
    if next.Some? {
      forall x | x in w
        ensures Reached(g, seeds + {next.value}, x) && Expanded(g, w, x)
      {
        if x in v {
          var s: nat :| s in seeds && Reach(g, s, x);
          assert s in seeds + {next.value};
          assert Expanded(g, v, x);
        }
      }
    }
  }

  /** The successors over `b` of the states in a queue. */
  ghost function Followed(a: Automaton, q: seq<nat>, b: Byte): set<nat> {
    set k: nat | k < |q| && q[k] < |a.states| && MatchesByte(a.states[q[k]].kind, b) && a.states[q[k]].out1.Some? ::
      a.states[q[k]].out1.value
  }

  lemma FollowedStep(a: Automaton, q: seq<nat>, i: nat, b: Byte)
    requires i < |q| && q[i] < |a.states|
    ensures var state := a.states[q[i]];
            if MatchesByte(state.kind, b) && state.out1.Some?
            then Followed(a, q[..i + 1], b) == Followed(a, q[..i], b) + {state.out1.value}
            else Followed(a, q[..i + 1], b) == Followed(a, q[..i], b)
  {
    hide MatchesByte;
    var p, r := q[..i], q[..i + 1];
    forall x | x in Followed(a, r, b)
      ensures x in Followed(a, p, b) ||
              (MatchesByte(a.states[q[i]].kind, b) && a.states[q[i]].out1 == Some(x))
    {
      var k: nat :| k < |r| && r[k] < |a.states| && MatchesByte(a.states[r[k]].kind, b) && a.states[r[k]].out1 == Some(x);
      if k < i {
        assert p[k] == r[k];
      }
    }
    forall x | x in Followed(a, p, b)
      ensures x in Followed(a, r, b)
    {
      var k: nat :| k < |p| && p[k] < |a.states| && MatchesByte(a.states[p[k]].kind, b) && a.states[p[k]].out1 == Some(x);
      assert r[k] == p[k];
    }
    assert r[i] == q[i];
  }

  /** Only queued states can consume a byte. */
  lemma FollowedAll(a: Automaton, q: seq<nat>, v: set<nat>, b: Byte)
    requires Lists(a, q, v)
    ensures Followed(a, q, b) == Advance(a, b, v)
  {
    forall x | x in Advance(a, b, v)
      ensures x in Followed(a, q, b)
    {
      var s :| s in v && s < |a.states| && MatchesByte(a.states[s].kind, b) && a.states[s].out1 == Some(x);
      assert s in q;
      var k :| 0 <= k < |q| && q[k] == s;
    }
  }

  /** Whether an accepting state is among the active ones. */
  method HasAccept(a: Automaton, cur: StateSet) returns (yes: bool)
    requires cur.Listed(a)
    ensures yes <==> Accepting(a, cur.Seen())
  {
    yes := false;
    var i := 0;
    while i < cur.count
      invariant i <= cur.count
      invariant yes <==> exists k :: 0 <= k < i && a.states[cur.queue[k]].kind.Accept?
    {
      if a.states[cur.queue[i]].kind.Accept? {
        yes := true;
      }
      i := i + 1;
    }
    AcceptListed(a, cur.queue[..cur.count], cur.Seen());
  }

  lemma AcceptListed(a: Automaton, q: seq<nat>, v: set<nat>)
    requires Lists(a, q, v)
    ensures (exists t: nat :: t in v && t < |a.states| && a.states[t].kind.Accept?) <==>
            (exists k :: 0 <= k < |q| && a.states[q[k]].kind.Accept?)
  {
    if t: nat :| t in v && t < |a.states| && a.states[t].kind.Accept? {
      assert t in q;
    }
  }

  /** Two sets that share no storage. */
  ghost predicate Apart(cur: StateSet, nxt: StateSet) {
    && cur != nxt && cur.queue != nxt.queue && cur.visited != nxt.visited
    && cur.queue as object != nxt.visited && nxt.queue as object != cur.visited
  }

  /** The active states after the byte at `pos`. */
  method StepStates(a: Automaton, text: Text, pos: nat, cur: StateSet, nxt: StateSet)
    requires Valid(a) && pos < |text| && cur.Listed(a) && nxt.Shaped() && nxt.n == |a.states|
    requires Apart(cur, nxt)
    modifies nxt`count, nxt.queue, nxt.visited
    ensures nxt.Listed(a)
    ensures nxt.Seen() == Closure(a, text, pos + 1, Advance(a, text[pos], cur.Seen()))
  {
    hide Filled, Lists, MarkedSet, SilentGraph, Unmarked, GrownBy, Followed, MatchesByte;
    ghost var g := SilentGraph(a, text, pos + 1);
    ghost var q, v := cur.queue[..cur.count], cur.Seen();
    nxt.Reset(a);
    FilledNone(g);
    QueueStates(a, q, v, text[pos]);
    var i := 0;
    while i < cur.count
      invariant i <= cur.count == |q| && cur.queue[..cur.count] == q && cur.Seen() == v
      invariant nxt.Listed(a) && Filled(g, Followed(a, q[..i], text[pos]), nxt.Seen())
    {
      var state := a.states[cur.queue[i]];
      FollowedStep(a, q, i, text[pos]);
      if MatchesByte(state.kind, text[pos]) {
        ghost var before := nxt.Seen();
        nxt.Add(a, text, pos + 1, state.out1);
        FilledMore(g, Followed(a, q[..i], text[pos]), before, nxt.Seen(), state.out1);
      }
      i := i + 1;
    }
    assert q[..i] == q;
    FollowedAll(a, q, v, text[pos]);
    FilledIsClosure(a, text, pos + 1, Followed(a, q, text[pos]), nxt.Seen());
  }

  lemma FilledIsClosure(a: Automaton, text: Text, pos: nat, seeds: set<nat>, v: set<nat>)
    requires Valid(a) && pos <= |text| && Filled(SilentGraph(a, text, pos), seeds, v)
    ensures v == Closure(a, text, pos, seeds)
  {
    GrownIsClosure(a, text, pos, seeds, v);
  }

  lemma QueueStates(a: Automaton, q: seq<nat>, v: set<nat>, b: Byte)
    requires Lists(a, q, v)
    ensures forall k :: 0 <= k < |q| ==> q[k] < |a.states|
    ensures Followed(a, q[..0], b) == {}
  {
  }

  ghost predicate Accepting(a: Automaton, v: set<nat>) {
    exists t: nat :: t in v && t < |a.states| && a.states[t].kind.Accept?
  }

  /** No state of `v` consumes or accepts. */
  ghost predicate Stuck(a: Automaton, v: set<nat>) {
    forall t :: t in v && t < |a.states| ==> !Stops(a.states[t].kind)
  }

  /** What is known after looking at the positions before `pos`. */
  ghost predicate Longest(a: Automaton, text: Text, from: nat, pos: nat, found: bool, end: nat) {
    && (found ==> end < pos && Matches(a, text, from, end))
    && (forall e: nat :: e < pos && Matches(a, text, from, e) ==> found && e <= end)
  }

  lemma LongestStep(a: Automaton, text: Text, from: nat, pos: nat, found: bool, end: nat, yes: bool)
    requires Valid(a) && from <= pos <= |text| && Longest(a, text, from, pos, found, end)
    requires yes <==> Accepting(a, At(a, text, from, pos))
    ensures Longest(a, text, from, pos + 1, found || yes, if yes then pos else end)
  {
    MatchesIffAt(a, text, from, pos);
  }

  /** Nothing matches before the start. */
  lemma LongestStart(a: Automaton, text: Text, from: nat)
    requires Valid(a) && from <= |text|
    ensures Longest(a, text, from, from, false, 0)
  {
    forall e: nat | e < from
      ensures !Matches(a, text, from, e)
    {
      MatchesIffAt(a, text, from, e);
    }
  }

  lemma LongestEnd(a: Automaton, text: Text, from: nat, pos: nat, found: bool, end: nat)
    requires Valid(a) && from <= |text| && from <= pos && Longest(a, text, from, pos, found, end)
    requires pos > |text| || Stuck(a, At(a, text, from, pos))
    ensures found ==> Matches(a, text, from, end)
    ensures forall e: nat :: Matches(a, text, from, e) ==> found && e <= end
  {
    hide At, Valid, Matches;
    forall e: nat | Matches(a, text, from, e)
      ensures found && e <= end
    {
      MatchesIffAt(a, text, from, e);
      if e >= pos {
        if e > pos {
          NothingLater(a, text, from, pos, e);
        }
        assert false;
      }
    }
  }

  /** The longest match from `from`, if there is any. */
  method RunTier1(a: Automaton, text: Text, from: nat) returns (found: bool, end: nat)
    requires Valid(a) && from <= |text|
    ensures found ==> Matches(a, text, from, end)
    ensures forall e: nat :: Matches(a, text, from, e) ==> found && e <= end
  {
    hide Longest, Lists, MarkedSet, Matches, Closure, Advance, At, GrownBy, Unmarked, Valid, SilentGraph, Accepting, Stuck;
    hide StateSet.Seen, StateSet.Listed, StateSet.Shaped;
    found, end := false, 0;
    var cur := new StateSet(|a.states|);
    var nxt := new StateSet(|a.states|);
    var pos := from;
    Begin(a, text, from, cur);
    LongestStart(a, text, from);
    while cur.count > 0
      invariant from <= pos <= |text| && cur.Listed(a) && nxt.Shaped() && nxt.n == |a.states|
      invariant fresh(cur) && fresh(cur.queue) && fresh(cur.visited)
      invariant fresh(nxt) && fresh(nxt.queue) && fresh(nxt.visited)
      invariant Apart(cur, nxt) && cur.Seen() == At(a, text, from, pos)
      invariant Longest(a, text, from, pos, found, end)
      decreases |text| - pos
    {
      var yes := HasAccept(a, cur);
      LongestStep(a, text, from, pos, found, end, yes);
      if yes {
        found, end := true, pos;
      }
      if pos >= |text| {
        LongestEnd(a, text, from, pos + 1, found, end);
        return;
      }
      StepStates(a, text, pos, cur, nxt);
      AtNext(a, text, from, pos);
      ListedShaped(a, cur);
      cur, nxt := nxt, cur;
      pos := pos + 1;
    }
    EmptyQueue(a, cur);
    LongestEnd(a, text, from, pos, found, end);
  }

  lemma AtNext(a: Automaton, text: Text, from: nat, pos: nat)
    requires from <= pos < |text|
    ensures At(a, text, from, pos + 1) == Closure(a, text, pos + 1, Advance(a, text[pos], At(a, text, from, pos)))
  {
    hide Closure, Advance;
  }

  lemma EmptyQueue(a: Automaton, states: StateSet)
    requires states.Listed(a) && states.count == 0
    ensures Stuck(a, states.Seen())
  {
  }

  lemma ListedShaped(a: Automaton, states: StateSet)
    requires states.Listed(a)
    ensures states.Shaped() && states.n == |a.states|
  {
  }

  /** The closure of the start state. */
  method Begin(a: Automaton, text: Text, from: nat, cur: StateSet)
    requires Valid(a) && from <= |text| && cur.Shaped() && cur.n == |a.states|
    modifies cur`count, cur.queue, cur.visited
    ensures cur.Listed(a) && cur.Seen() == At(a, text, from, from)
  {
    hide Filled, Lists, MarkedSet, SilentGraph, Unmarked, GrownBy;
    ghost var g := SilentGraph(a, text, from);
    cur.Reset(a);
    FilledNone(g);
    cur.Add(a, text, from, Some(a.start));
    FilledMore(g, {}, {}, cur.Seen(), Some(a.start));
    assert {} + {a.start} == {a.start};
    FilledIsClosure(a, text, from, {a.start}, cur.Seen());
  }
}
