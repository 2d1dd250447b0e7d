/** `rewrite_cyclic_tail_calls`: which recorded tail calls become TAIL_CALL. */
module TailCalls {
  import opened Digraph
  import opened Csr
  import SccWalk

  newtype Byte = b: int | 0 <= b < 256

  const OP_CALL: Byte := 29
  const OP_TAIL_CALL: Byte := 171

  class Function {
    const code: array<Byte>
    const nonlocalLanding: bool

    constructor (code: array<Byte>, nonlocalLanding: bool)
      ensures this.code == code && this.nonlocalLanding == nonlocalLanding
    {
      this.code := code;
      this.nonlocalLanding := nonlocalLanding;
    }
  }

  /** A plain call in tail position to another function. */
  datatype Candidate = Candidate(caller: Function, offset: nat, callee: nat)

  // ---------------------------------------------------------------------------------
  // What the rewrite is for.

  /** The place of `f` in the program, or the number of functions if it has none. */
  function IndexOf(fs: seq<Function>, f: Function): (i: nat)
    ensures i <= |fs| && (i < |fs| <==> f in fs)
    ensures i < |fs| ==> fs[i] == f && f !in fs[..i]
  {
    if |fs| == 0 then 0
    else if fs[0] == f then 0
    else 1 + IndexOf(fs[1..], f)
  }

  /** A candidate counts unless its caller can be the target of a non-local return, is not
      in the program, or names a callee that is not. */
  predicate Counts(fs: seq<Function>, c: Candidate) {
    !c.caller.nonlocalLanding && IndexOf(fs, c.caller) < |fs| && c.callee < |fs|
  }

  /** The positions of the candidates that count. */
  function Counting(fs: seq<Function>, cs: seq<Candidate>): (r: seq<nat>)
    ensures forall e :: 0 <= e < |r| ==> r[e] < |cs| && Counts(fs, cs[r[e]])
    ensures forall i :: 0 <= i < |cs| && Counts(fs, cs[i]) ==> i in r
  {
    if |cs| == 0 then []
    else
      var last := |cs| - 1;
      var r := Counting(fs, cs[..last]);
      if Counts(fs, cs[last]) then r + [last] else r
  }

  function Callers(fs: seq<Function>, cs: seq<Candidate>): (r: seq<nat>)
    ensures |r| == |Counting(fs, cs)|
    ensures forall e :: 0 <= e < |r| ==> r[e] < |fs|
  {
    var kept := Counting(fs, cs);
    seq(|kept|, e requires 0 <= e < |kept| => IndexOf(fs, cs[kept[e]].caller))
  }

  function Callees(fs: seq<Function>, cs: seq<Candidate>): (r: seq<nat>)
    ensures |r| == |Counting(fs, cs)|
    ensures forall e :: 0 <= e < |r| ==> r[e] < |fs|
  {
    var kept := Counting(fs, cs);
    seq(|kept|, e requires 0 <= e < |kept| => cs[kept[e]].callee)
  }

  /** The functions of the program, joined by the candidates that count. */
  function CallGraph(fs: seq<Function>, cs: seq<Candidate>): (g: Graph)
    ensures |g| == |fs|
  {
    Adjacency(|fs|, Callers(fs, cs), Callees(fs, cs))
  }

  /** An edge of the call graph is a candidate that counts. */
  lemma CallGraphEdges(fs: seq<Function>, cs: seq<Candidate>, u: nat, v: nat)
    requires u < |fs|
    ensures v in CallGraph(fs, cs)[u] <==>
            exists i :: 0 <= i < |cs| && Counts(fs, cs[i]) && IndexOf(fs, cs[i].caller) == u && cs[i].callee == v
  {
    var kept := Counting(fs, cs);
    OutMember(Callers(fs, cs), Callees(fs, cs), u, v);
    if i :| 0 <= i < |cs| && Counts(fs, cs[i]) && IndexOf(fs, cs[i].caller) == u && cs[i].callee == v {
      var e :| 0 <= e < |kept| && kept[e] == i;
      assert Callers(fs, cs)[e] == u && Callees(fs, cs)[e] == v;
    }
    if e :| 0 <= e < |kept| && Callers(fs, cs)[e] == u && Callees(fs, cs)[e] == v {
      var i := kept[e];
      assert Counts(fs, cs[i]) && IndexOf(fs, cs[i].caller) == u && cs[i].callee == v;
    }
  }

  /** The edge from `u` to `v` lies on a cycle through at least two nodes: some closed walk
      takes it first and visits a node other than `u`. */
  ghost predicate OnCycle(g: Graph, u: nat, v: nat) {
    exists p, i :: IsWalk(g, p, u, u) && |p| > 1 && p[1] == v && 0 <= i < |p| && p[i] != u
  }

  /** The rewrite of candidate `c` is due. */
  ghost predicate Cyclic(fs: seq<Function>, cs: seq<Candidate>, c: Candidate) {
    Counts(fs, c) && OnCycle(CallGraph(fs, cs), IndexOf(fs, c.caller), c.callee)
  }

  // ---------------------------------------------------------------------------------
  // A cycle through an edge, in terms of components.

  lemma {:induction false} WalkSplit(g: Graph, p: seq<nat>, u: nat, v: nat, i: nat)
    requires IsWalk(g, p, u, v) && i < |p|
    ensures Reach(g, u, p[i]) && Reach(g, p[i], v)
    decreases i
  {
    if i == 0 {
      ReachSelf(g, u);
    } else {
      WalkSplit(g, p[1..], p[1], v, i - 1);
      assert p[1] < |g|;
      ReachEdge(g, u, p[1]);
      ReachTransitive(g, u, p[1], p[i]);
    }
  }

  lemma OnCycleComponent(g: Graph, u: nat, v: nat)
    requires WellFormed(g) && u < |g| && v < |g| && v in g[u]
    ensures OnCycle(g, u, v) <==>
            Mutual(g, u, v) && HasCompany(g, u)
  {
    ReachEdge(g, u, v);
    if p, i :| IsWalk(g, p, u, u) && |p| > 1 && p[1] == v && 0 <= i < |p| && p[i] != u {
      WalkSplit(g, p, u, u, 1);
      WalkSplit(g, p, u, u, i);
      assert Mutual(g, u, p[i]);
      WalkInside(g, p, u, u, i);
    }
    if Reach(g, v, u) {
      if w: nat :| w < |g| && w != u && Mutual(g, u, w) {
        CycleExists(g, u, v, w);
      }
    }
  }

  lemma {:induction false} WalkInside(g: Graph, p: seq<nat>, u: nat, v: nat, i: nat)
    requires IsWalk(g, p, u, v) && i < |p|
    ensures p[i] < |g|
    decreases i
  {
    if i > 0 {
      WalkInside(g, p[1..], p[1], v, i - 1);
    }
  }

  lemma CycleExists(g: Graph, u: nat, v: nat, w: nat)
    requires u < |g| && v < |g| && v in g[u] && Reach(g, v, u) && w != u && Mutual(g, u, w)
    ensures OnCycle(g, u, v)
  {
    if v != u {
      var q :| IsWalk(g, q, v, u);
      var p := [u] + q;
      assert p[1..] == q;
      assert IsWalk(g, p, u, u) && p[1] == v && p[1] != u;
    } else {
      var q :| IsWalk(g, q, u, w);
      var r :| IsWalk(g, r, w, u);
      WalkAppend(g, q, r, u, w, u);
      LastOfWalk(g, q, u, w);
      var t := q + r[1..];
      var p := [u] + t;
      assert p[1..] == t;
      assert IsWalk(g, p, u, u) && p[1] == v && p[|q|] == w;
    }
  }

  lemma {:induction false} LastOfWalk(g: Graph, p: seq<nat>, u: nat, v: nat)
    requires IsWalk(g, p, u, v)
    ensures p[|p| - 1] == v
    decreases |p|
  {
    if |p| > 1 {
      LastOfWalk(g, p[1..], p[1], v);
    }
  }

  /** A recorded candidate never calls its own caller, and for such a candidate to be on a
      cycle is for its callee to reach its caller. */
  lemma RecordedCyclic(fs: seq<Function>, cs: seq<Candidate>, c: Candidate)
    requires c in cs && Counts(fs, c) && fs[c.callee] != c.caller
    ensures Cyclic(fs, cs, c) <==> Reach(CallGraph(fs, cs), c.callee, IndexOf(fs, c.caller))
  {
    var g := CallGraph(fs, cs);
    var u, v := IndexOf(fs, c.caller), c.callee;
    var i :| 0 <= i < |cs| && cs[i] == c;
    CallGraphEdges(fs, cs, u, v);
    AdjacencyWellFormed(|fs|, Callers(fs, cs), Callees(fs, cs));
    OnCycleComponent(g, u, v);
    ReachEdge(g, u, v);
    assert u != v;
    if Reach(g, v, u) {
      assert Mutual(g, u, v);
    }
  }

  // ---------------------------------------------------------------------------------
  // Renumbering the functions that take part.

  /** The edges of one list are those of another, with every node `v` renamed `name[v]`. */
  ghost predicate Renamed(n: nat, from: seq<nat>, to: seq<nat>, name: seq<nat>,
                          from': seq<nat>, to': seq<nat>) {
    && |from| == |to| == |from'| == |to'| && |name| == n
    && (forall a, b :: 0 <= a < b < n ==> name[a] != name[b])
    && (forall e :: 0 <= e < |from| ==>
          from[e] < n && to[e] < n && from'[e] == name[from[e]] && to'[e] == name[to[e]])
  }

  lemma {:induction false} WalkForth(n: nat, from: seq<nat>, to: seq<nat>, name: seq<nat>,
                                     n': nat, from': seq<nat>, to': seq<nat>, p: seq<nat>, a: nat, b: nat)
    requires Renamed(n, from, to, name, from', to') && forall v :: 0 <= v < n ==> name[v] < n'
    requires IsWalk(Adjacency(n, from, to), p, a, b) && a < n
    ensures b < n && Reach(Adjacency(n', from', to'), name[a], name[b])
    decreases |p|
  {
    var g, g' := Adjacency(n, from, to), Adjacency(n', from', to');
    if |p| == 1 {
      ReachSelf(g', name[a]);
    } else {
      OutMember(from, to, a, p[1]);
      var e :| 0 <= e < |from| && from[e] == a && to[e] == p[1];
      OutMember(from', to', name[a], name[p[1]]);
      WalkForth(n, from, to, name, n', from', to', p[1..], p[1], b);
      ReachEdge(g', name[a], name[p[1]]);
      ReachTransitive(g', name[a], name[p[1]], name[b]);
    }
  }

  lemma {:induction false} WalkBack(n: nat, from: seq<nat>, to: seq<nat>, name: seq<nat>,
                                    n': nat, from': seq<nat>, to': seq<nat>, p: seq<nat>, a: nat, y: nat)
    returns (b: nat)
    requires Renamed(n, from, to, name, from', to')
    requires a < n && IsWalk(Adjacency(n', from', to'), p, name[a], y)
    ensures b < n && name[b] == y && Reach(Adjacency(n, from, to), a, b)
    decreases |p|
  {
    var g := Adjacency(n, from, to);
    if |p| == 1 {
      b := a;
      ReachSelf(g, a);
    } else {
      OutMember(from', to', name[a], p[1]);
      var e :| 0 <= e < |from'| && from'[e] == name[a] && to'[e] == p[1];
      OutMember(from, to, a, to[e]);
      assert to[e] in g[a];
      b := WalkBack(n, from, to, name, n', from', to', p[1..], to[e], y);
      ReachEdge(g, a, to[e]);
      ReachTransitive(g, a, to[e], b);
    }
  }

  lemma ReachRenamed(n: nat, from: seq<nat>, to: seq<nat>, name: seq<nat>,
                     n': nat, from': seq<nat>, to': seq<nat>, a: nat, b: nat)
    requires Renamed(n, from, to, name, from', to') && forall v :: 0 <= v < n ==> name[v] < n'
    requires a < n && b < n
    ensures Reach(Adjacency(n, from, to), a, b) <==> Reach(Adjacency(n', from', to'), name[a], name[b])
  {
    if p :| IsWalk(Adjacency(n, from, to), p, a, b) {
      WalkForth(n, from, to, name, n', from', to', p, a, b);
    }
    if p :| IsWalk(Adjacency(n', from', to'), p, name[a], name[b]) {
      var c := WalkBack(n, from, to, name, n', from', to', p, a, name[b]);
      assert c == b;
    }
  }

  /** Components correspond under the renaming, including whether they have a second member. */
  lemma ComponentsRenamed(n: nat, from: seq<nat>, to: seq<nat>, name: seq<nat>,
                          n': nat, from': seq<nat>, to': seq<nat>, a: nat)
    requires Renamed(n, from, to, name, from', to') && forall v :: 0 <= v < n ==> name[v] < n'
    requires a < n
    ensures var g, g' := Adjacency(n, from, to), Adjacency(n', from', to');
            && (forall b: nat :: b < n ==> (Mutual(g, a, b) <==> Mutual(g', name[a], name[b])))
            && (HasCompany(g, a) <==> HasCompany(g', name[a]))
  {
    var g, g' := Adjacency(n, from, to), Adjacency(n', from', to');
    forall b: nat | b < n
      ensures Mutual(g, a, b) <==> Mutual(g', name[a], name[b])
    {
      ReachRenamed(n, from, to, name, n', from', to', a, b);
      ReachRenamed(n, from, to, name, n', from', to', b, a);
    }
    if w: nat :| w < n && w != a && Mutual(g, a, w) {
      assert name[w] != name[a] && Mutual(g', name[a], name[w]);
    }
    if y: nat :| y < n' && y != name[a] && Mutual(g', name[a], y) {
      var p :| IsWalk(g', p, name[a], y);
      var b := WalkBack(n, from, to, name, n', from', to', p, a, y);
      assert Mutual(g, a, b);
    }
  }

  // ---------------------------------------------------------------------------------
  // The rewrite.

  /** `nodeOf` numbers functions from 1 on, 0 for none; `name` is its inverse. */
  ghost predicate Numbering(nodeOf: seq<nat>, name: seq<nat>) {
    && (forall f :: 0 <= f < |nodeOf| ==> nodeOf[f] <= |name|)
    && (forall f :: 0 <= f < |nodeOf| && nodeOf[f] > 0 ==> name[nodeOf[f] - 1] == f)
    && (forall k :: 0 <= k < |name| ==> name[k] < |nodeOf| && nodeOf[name[k]] == k + 1)
  }

  /** Gives function `f` a node if it has none. */
  method NodeFor(nodeOf: array<nat>, f: nat, nodeCount: nat, ghost name: seq<nat>)
    returns (node: nat, newCount: nat, ghost newName: seq<nat>)
    requires f < nodeOf.Length && nodeCount == |name| && Numbering(nodeOf[..], name)
    modifies nodeOf
    ensures newCount == |newName| && Numbering(nodeOf[..], newName) && name <= newName
    ensures node < newCount && newName[node] == f
  {
    newCount, newName := nodeCount, name;
    if nodeOf[f] == 0 {
      newCount := newCount + 1;
      newName := newName + [f];
      ghost var before := nodeOf[..];
      nodeOf[f] := newCount;
      assert nodeOf[..] == before[f := newCount];
    }
    node := nodeOf[f] - 1;
  }

  /** The first place of `f` in the program. */
  method FindFunction(fs: seq<Function>, f: Function) returns (i: nat)
    ensures i == IndexOf(fs, f)
  {
    i := 0;
    while i < |fs| && fs[i] != f
      invariant i <= |fs| && IndexOf(fs, f) == i + IndexOf(fs[i..], f)
    {
      i := i + 1;
    }
  }

  lemma CountingStep(fs: seq<Function>, cs: seq<Candidate>, i: nat)
    requires i < |cs|
    ensures Counts(fs, cs[i]) ==>
      && Counting(fs, cs[..i + 1]) == Counting(fs, cs[..i]) + [i]
      && Callers(fs, cs[..i + 1]) == Callers(fs, cs[..i]) + [IndexOf(fs, cs[i].caller)]
      && Callees(fs, cs[..i + 1]) == Callees(fs, cs[..i]) + [cs[i].callee]
    ensures !Counts(fs, cs[i]) ==>
      && Counting(fs, cs[..i + 1]) == Counting(fs, cs[..i])
      && Callers(fs, cs[..i + 1]) == Callers(fs, cs[..i])
      && Callees(fs, cs[..i + 1]) == Callees(fs, cs[..i])
  {
    assert cs[..i + 1][..i] == cs[..i];
  }

  lemma RenamedAppend(n: nat, from: seq<nat>, to: seq<nat>, name: seq<nat>, from': seq<nat>, to': seq<nat>,
                      name2: seq<nat>, a: nat, b: nat)
    requires Renamed(n, from, to, name, from', to') && name <= name2 && a < |name2| && b < |name2|
    requires forall x, y :: 0 <= x < y < |name2| ==> name2[x] != name2[y]
    ensures Renamed(|name2|, from + [a], to + [b], name2, from' + [name2[a]], to' + [name2[b]])
  {
  }

  lemma NumberingInjective(nodeOf: seq<nat>, name: seq<nat>)
    requires Numbering(nodeOf, name)
    ensures forall x, y :: 0 <= x < y < |name| ==> name[x] != name[y]
    ensures |name| <= |nodeOf| && forall v :: 0 <= v < |name| ==> name[v] < |nodeOf|
  {
    DistinctBelow(name, |nodeOf|);
  }

  /** Records the edge from function `caller` to function `callee`, numbering both. */
  method AddEdge(nodeOf: array<nat>, from: array<nat>, to: array<nat>, edgeCount: nat, caller: nat, callee: nat,
                 nodeCount: nat, ghost name: seq<nat>, ghost from': seq<nat>, ghost to': seq<nat>)
    returns (newCount: nat, ghost newName: seq<nat>)
    requires caller < nodeOf.Length && callee < nodeOf.Length && edgeCount < from.Length == to.Length
    requires nodeOf != from && nodeOf != to && from != to
    requires nodeCount == |name| && Numbering(nodeOf[..], name)
    requires Renamed(nodeCount, from[..edgeCount], to[..edgeCount], name, from', to')
    modifies nodeOf, from, to
    ensures newCount == |newName| && Numbering(nodeOf[..], newName)
    ensures Renamed(newCount, from[..edgeCount + 1], to[..edgeCount + 1], newName, from' + [caller], to' + [callee])
  {
    hide Renamed, Numbering;
    var a, count, named := NodeFor(nodeOf, caller, nodeCount, name);
    var b;
    b, newCount, newName := NodeFor(nodeOf, callee, count, named);
    assert newName[a] == named[a];
    NumberingInjective(nodeOf[..], newName);
    ghost var f, t := from[..edgeCount], to[..edgeCount];
    RenamedAppend(nodeCount, f, t, name, from', to', newName, a, b);
    from[edgeCount] := a;
    assert from[..edgeCount + 1] == f + [a];
    to[edgeCount] := b;
    assert to[..edgeCount + 1] == t + [b];
  }

  /** Numbers the functions that take part and lists the edges between them. */
  method NumberNodes(fs: seq<Function>, cs: seq<Candidate>)
    returns (from: array<nat>, to: array<nat>, which: array<nat>, edgeCount: nat, nodeCount: nat,
             ghost name: seq<nat>)
    ensures from.Length == to.Length == which.Length == |cs| && edgeCount <= |cs|
    ensures fresh(from) && fresh(to) && fresh(which) && from != to
    ensures which[..edgeCount] == Counting(fs, cs)
    ensures Renamed(nodeCount, from[..edgeCount], to[..edgeCount], name, Callers(fs, cs), Callees(fs, cs))
    ensures nodeCount <= |fs| && forall v :: 0 <= v < nodeCount ==> name[v] < |fs|
  {
    hide Counting, Callers, Callees, Renamed, Numbering, IndexOf;
    var nodeOf := new nat[|fs|](_ => 0);
    from := new nat[|cs|];
    to := new nat[|cs|];
    which := new nat[|cs|];
    edgeCount, nodeCount, name := 0, 0, [];
    StartNumbering(fs, cs, nodeOf[..]);
    var index := 0;
    while index < |cs|
      invariant edgeCount <= index <= |cs| && nodeCount == |name|
      invariant Numbering(nodeOf[..], name)
      invariant which[..edgeCount] == Counting(fs, cs[..index])
      invariant Renamed(nodeCount, from[..edgeCount], to[..edgeCount], name,
                        Callers(fs, cs[..index]), Callees(fs, cs[..index]))
    {
      CountingStep(fs, cs, index);
      var c := cs[index];
      if !c.caller.nonlocalLanding {
        var caller := FindFunction(fs, c.caller);
        if caller < |fs| && c.callee < |fs| {
          nodeCount, name := AddEdge(nodeOf, from, to, edgeCount, caller, c.callee, nodeCount, name,
                                     Callers(fs, cs[..index]), Callees(fs, cs[..index]));
          which[edgeCount] := index;
          edgeCount := edgeCount + 1;
        }
      }
      index := index + 1;
    }
    assert cs[..index] == cs;
    NumberingInjective(nodeOf[..], name);
  }

  lemma StartNumbering(fs: seq<Function>, cs: seq<Candidate>, nodeOf: seq<nat>)
    requires forall f :: 0 <= f < |nodeOf| ==> nodeOf[f] == 0
    ensures Numbering(nodeOf, [])
    ensures Counting(fs, cs[..0]) == []
    ensures Renamed(0, [], [], [], Callers(fs, cs[..0]), Callees(fs, cs[..0]))
  {
  }

  /** Some candidate among the first `n` kept ones patches this byte. */
  ghost predicate DueAmong(fs: seq<Function>, cs: seq<Candidate>, n: nat, code: array<Byte>, at: nat)
    requires n <= |Counting(fs, cs)|
  {
    exists e :: 0 <= e < n && var d := cs[Counting(fs, cs)[e]];
      d.caller.code == code && d.offset == at && Cyclic(fs, cs, d)
  }

  /** Some candidate on a cycle names this byte. */
  ghost predicate Due(fs: seq<Function>, cs: seq<Candidate>, code: array<Byte>, at: nat) {
    exists d :: d in cs && d.caller.code == code && d.offset == at && Cyclic(fs, cs, d)
  }

  lemma DueIsDueAmong(fs: seq<Function>, cs: seq<Candidate>, code: array<Byte>, at: nat)
    ensures Due(fs, cs, code, at) <==> DueAmong(fs, cs, |Counting(fs, cs)|, code, at)
  {
    var kept := Counting(fs, cs);
    if d :| d in cs && d.caller.code == code && d.offset == at && Cyclic(fs, cs, d) {
      var i :| 0 <= i < |cs| && cs[i] == d;
      assert Counts(fs, cs[i]);
      var e :| 0 <= e < |kept| && kept[e] == i;
      assert cs[kept[e]] == d;
    }
  }

  lemma DueAmongStep(fs: seq<Function>, cs: seq<Candidate>, e: nat, code: array<Byte>, at: nat)
    requires e < |Counting(fs, cs)|
    ensures DueAmong(fs, cs, e + 1, code, at) <==>
            var d := cs[Counting(fs, cs)[e]];
            DueAmong(fs, cs, e, code, at) || (d.caller.code == code && d.offset == at && Cyclic(fs, cs, d))
  {
  }

  /** What the component tables say about a kept candidate. */
  lemma TablesDecide(fs: seq<Function>, cs: seq<Candidate>, n: nat, from: seq<nat>, to: seq<nat>,
                     name: seq<nat>, e: nat)
    requires Renamed(n, from, to, name, Callers(fs, cs), Callees(fs, cs))
    requires forall v :: 0 <= v < n ==> name[v] < |fs|
    requires e < |from|
    ensures from[e] < n && to[e] < n
    ensures var g := Adjacency(n, from, to);
            Cyclic(fs, cs, cs[Counting(fs, cs)[e]]) <==>
            Mutual(g, from[e], to[e]) && HasCompany(g, from[e])
  {
    var u, v := Callers(fs, cs)[e], Callees(fs, cs)[e];
    ComponentsRenamed(n, from, to, name, |fs|, Callers(fs, cs), Callees(fs, cs), from[e]);
    AdjacencyWellFormed(|fs|, Callers(fs, cs), Callees(fs, cs));
    OutMember(Callers(fs, cs), Callees(fs, cs), u, v);
    OnCycleComponent(CallGraph(fs, cs), u, v);
  }

  /** The byte `now` where `was` stood before, given whether its rewrite is due. */
  predicate Patched(was: Byte, due: bool, now: Byte) {
    now == if was == OP_CALL && due then OP_TAIL_CALL else was
  }

  /** Patches the calls whose ends lie in one component of two or more functions. */
  method PatchCalls(fs: seq<Function>, cs: seq<Candidate>, from: array<nat>, to: array<nat>,
                    which: array<nat>, edgeCount: nat, walk: SccWalk.Walk, ghost name: seq<nat>)
    requires forall c :: c in cs ==> c.offset < c.caller.code.Length
    requires edgeCount <= from.Length == to.Length == which.Length
    requires which[..edgeCount] == Counting(fs, cs)
    requires Renamed(walk.n, from[..edgeCount], to[..edgeCount], name, Callers(fs, cs), Callees(fs, cs))
    requires forall v :: 0 <= v < walk.n ==> name[v] < |fs|
    requires walk.g == Adjacency(walk.n, from[..edgeCount], to[..edgeCount]) && walk.Assigned()
    modifies set c | c in cs :: c.caller.code
    ensures forall c, at: nat :: c in cs && at < c.caller.code.Length ==>
      Patched(old(c.caller.code[at]), Due(fs, cs, c.caller.code, at), c.caller.code[at])
  {
    hide Counting, Renamed, Cyclic, Mutual, HasCompany, Adjacency, DueAmong, Due, Callers, Callees;
    var edge := 0;
    forall c, at: nat | c in cs && at < c.caller.code.Length
      ensures !DueAmong(fs, cs, 0, c.caller.code, at)
    {
      DueAmongNone(fs, cs, c.caller.code, at);
    }
    while edge < edgeCount
      invariant edge <= edgeCount == |Counting(fs, cs)|
      invariant forall c, at: nat :: c in cs && at < c.caller.code.Length ==>
        Patched(old(c.caller.code[at]), DueAmong(fs, cs, edge, c.caller.code, at), c.caller.code[at])
    {
      var candidate := cs[which[edge]];
      assert which[edge] == Counting(fs, cs)[edge];
      TablesDecide(fs, cs, walk.n, from[..edgeCount], to[..edgeCount], name, edge);
      var a, b := from[edge], to[edge];
      forall c, at: nat | c in cs && at < c.caller.code.Length
        ensures DueAmong(fs, cs, edge + 1, c.caller.code, at) <==>
                DueAmong(fs, cs, edge, c.caller.code, at) ||
                (candidate.caller.code == c.caller.code && candidate.offset == at && Cyclic(fs, cs, candidate))
      {
        DueAmongStep(fs, cs, edge, c.caller.code, at);
      }
      if walk.component[a] == walk.component[b] && walk.componentSize[walk.component[a]] >= 2 {
        if candidate.caller.code[candidate.offset] == OP_CALL {
          candidate.caller.code[candidate.offset] := OP_TAIL_CALL;
        }
      }
      edge := edge + 1;
    }
    forall c, at: nat | c in cs && at < c.caller.code.Length
      ensures Due(fs, cs, c.caller.code, at) <==> DueAmong(fs, cs, edge, c.caller.code, at)
    {
      DueIsDueAmong(fs, cs, c.caller.code, at);
    }
  }

  lemma DueAmongNone(fs: seq<Function>, cs: seq<Candidate>, code: array<Byte>, at: nat)
    ensures !DueAmong(fs, cs, 0, code, at)
  {
  }

  /** Rewrites a recorded call to TAIL_CALL exactly when it lies on a cycle of recorded calls
      through more than one function, and changes no other byte. */
  method RewriteCyclicTailCalls(fs: seq<Function>, cs: seq<Candidate>)
    requires forall c :: c in cs ==> c.offset < c.caller.code.Length
    modifies set c | c in cs :: c.caller.code
    ensures forall c, at: nat :: c in cs && at < c.caller.code.Length ==>
      Patched(old(c.caller.code[at]), Due(fs, cs, c.caller.code, at), c.caller.code[at])
  {
    if |cs| == 0 {
      return;
    }
    var from, to, which, edgeCount, nodeCount, name := NumberNodes(fs, cs);
    var walk := FindComponents(nodeCount, from, to, edgeCount);
    PatchCalls(fs, cs, from, to, which, edgeCount, walk, name);
  }

  /** The strongly connected components of the first `edgeCount` edges. */
  method FindComponents(n: nat, from: array<nat>, to: array<nat>, edgeCount: nat) returns (walk: SccWalk.Walk)
    requires edgeCount <= from.Length == to.Length
    requires forall e :: 0 <= e < edgeCount ==> from[e] < n && to[e] < n
    ensures walk.n == n && walk.g == Adjacency(n, from[..edgeCount], to[..edgeCount]) && walk.Assigned()
  {
    hide Adjacency;
    AdjacencyWellFormed(n, from[..edgeCount], to[..edgeCount]);
    var first, targets := BuildCsr(n, from, to, edgeCount);
    walk := new SccWalk.Walk(Adjacency(n, from[..edgeCount], to[..edgeCount]), first, targets);
    walk.Run();
  }
}
