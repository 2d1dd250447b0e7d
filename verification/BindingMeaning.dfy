/** What the check of type bindings accepts, said of the types the bindings spell and of the places
    in them that refer to a node. */
module BindingMeaning {
  import opened BindingCheck
  import opened Bindings
  import opened Digraph
  import opened TypeGraph

  // ---------------------------------------------------------------------------------
  // What a member of a node spells.

  datatype Type =
    | Plain
    | Array
    | Hash
    | Callable
    | Class(index: nat)
    | Native
    | Variable(index: nat)
    | Interface(index: nat)

  /** The number of a type. No type has a number from 0xE000 to 0xF0FF but 0xF000. */
  predicate Spells(id: nat, t: Type) {
    match t
    case Plain => id in {0, 1, 2, 3, 4, 8, 9}
    case Array => id == 5
    case Hash => id == 6
    case Callable => id == 7
    case Class(index) => id == 10 + index && index < 0xDFF6
    case Native => id == 0xF000
    case Variable(index) => id == 0xF100 + index && index < 0x100
    case Interface(index) => id == 0xF200 + index
  }

  /** The member has what its type has and no more. */
  predicate Proper(ctx: Context, b: Binding, variables: nat, m: Member, count: U8, t: Type)
    requires Laid(b)
  {
    match t
    case Plain => m.argument == m.second == 255
    case Array => m.second == 255
    case Hash => true
    case Callable => m.argument == m.second == 255 && (m.signature == 255 || ProperSignature(b, m.signature))
    case Class(index) => index < ctx.classes
    case Native => m.argument == m.second == 255 && m.nativeKind in ctx.natives
    case Variable(index) => index < variables && count == 1 && m.argument == m.second == m.signature == 255
    case Interface(index) => m.argument == m.second == 255 && index < ctx.interfaces
  }

  /** No parameter is left open: none is optional and there is no rest. */
  predicate ProperSignature(b: Binding, index: U8)
    requires Laid(b)
  {
    index < b.signatureCount && index < 16 &&
    match b.signatures[index]
    case Signature(arity, required, variadic, typed, _, _) =>
      required == arity && variadic == 0 && typed in {0, 1} && (typed == 1 ==> arity <= 16)
  }

  ghost predicate SpellsType(ctx: Context, b: Binding, variables: nat, m: Member, count: U8)
    requires Laid(b)
  {
    exists t :: Spells(m.id, t) && Proper(ctx, b, variables, m, count, t)
  }

  function TypeOf(id: U16): Type {
    if id == 5 then Array
    else if id == 6 then Hash
    else if id == 7 then Callable
    else if id < 10 then Plain
    else if id < 0xE000 then Class(id - 10)
    else if id == 0xF000 then Native
    else if 0xF200 <= id then Interface(id - 0xF200)
    else if 0xF100 <= id then Variable(id - 0xF100)
    else Plain
  }

  lemma MemberMeans(ctx: Context, b: Binding, variables: nat, m: Member, count: U8)
    requires Laid(b)
    ensures MemberSound(ctx, b, variables, m, count) <==> SpellsType(ctx, b, variables, m, count)
  {
    if MemberSound(ctx, b, variables, m, count) {
      assert Spells(m.id, TypeOf(m.id)) && Proper(ctx, b, variables, m, count, TypeOf(m.id));
    }
    if SpellsType(ctx, b, variables, m, count) {
      var t :| Spells(m.id, t) && Proper(ctx, b, variables, m, count, t);
    }
  }

  // ---------------------------------------------------------------------------------
  // The places in a binding that refer to a node.

  datatype Place =
    | Argument(node: nat, member: nat)
    | Second(node: nat, member: nat)
    | Parameter(node: nat, member: nat, index: nat)
    | Result(node: nat, member: nat)

  /** There is such a place, and it refers to node `v`. */
  predicate Refers(b: Binding, p: Place, v: nat)
    requires Laid(b)
  {
    && p.node < b.nodeCount && p.node < 16 && p.member < b.nodes[p.node].count && p.member < 8
    && v != 255 && var m := b.nodes[p.node].members[p.member];
    match p
    case Argument(_, _) => m.argument == v
    case Second(_, _) => m.second == v
    case Parameter(_, _, index) =>
      m.id == 7 && m.signature < 16 && var s := b.signatures[m.signature];
      s.typed == 1 && index < s.arity && index < 16 && s.parameters[index] == v
    case Result(_, _) => m.id == 7 && m.signature < 16 && b.signatures[m.signature].result == v
  }

  /** The places of a node in the order of the check. */
  function Rank(p: Place): nat {
    100 * p.member +
    match p
    case Argument(_, _) => 0
    case Second(_, _) => 1
    case Parameter(_, _, index) => 2 + index
    case Result(_, _) => 99
  }

  ghost predicate Rising(ps: seq<Place>) {
    forall i, j :: 0 <= i < j < |ps| ==> Rank(ps[i]) < Rank(ps[j])
  }

  /** `ps` are the places of node `n` from one rank up to another, and `ts` what they refer to. */
  ghost predicate Listed(b: Binding, n: nat, ts: seq<nat>, ps: seq<Place>, lo: nat, hi: nat)
    requires Laid(b)
  {
    && |ts| == |ps| && Rising(ps)
    && (forall i :: 0 <= i < |ps| ==> ps[i].node == n && lo <= Rank(ps[i]) < hi && Refers(b, ps[i], ts[i]))
    && (forall p, v :: Refers(b, p, v) && p.node == n && lo <= Rank(p) < hi ==> p in ps)
  }

  lemma ListedJoin(b: Binding, n: nat, ts: seq<nat>, ps: seq<Place>, us: seq<nat>, qs: seq<Place>, lo: nat,
                   mid: nat, hi: nat)
    requires Laid(b) && lo <= mid <= hi && Listed(b, n, ts, ps, lo, mid) && Listed(b, n, us, qs, mid, hi)
    ensures Listed(b, n, ts + us, ps + qs, lo, hi)
  {
    hide Refers, Rank, Laid;
  }

  /** A rank tells the place. */
  lemma SameRank(p: Place, q: Place)
    requires p.node == q.node && Rank(p) == Rank(q)
    requires (p.Parameter? ==> p.index < 16) && (q.Parameter? ==> q.index < 16)
    ensures p == q
  {
    assert p.member == q.member;
  }

  /** One place. */
  lemma OneListed(b: Binding, p: Place, t: U8) returns (ps: seq<Place>)
    requires Laid(b) && (p.Parameter? ==> p.index < 16)
    requires forall v: nat :: Refers(b, p, v) <==> v == t != 255
    ensures Listed(b, p.node, One(t), ps, Rank(p), Rank(p) + 1)
  {
    hide Rank, Laid;
    ps := if t == NONE then [] else [p];
    assert t != NONE ==> Refers(b, p, t);
    forall q: Place, v: nat | Refers(b, q, v) && q.node == p.node && Rank(q) == Rank(p)
      ensures q == p
    {
      SameRank(p, q);
    }
  }

  /** The parameters of a signature from `k` on. */
  lemma {:induction false} ParametersListed(b: Binding, n: nat, i: nat, k: nat) returns (ps: seq<Place>)
    requires Laid(b) && n < b.nodeCount && n < 16 && i < b.nodes[n].count && i < 8
    requires var m := b.nodes[n].members[i];
             m.id == 7 && m.signature < 16 && var s := b.signatures[m.signature]; s.typed == 1 && k <= Arity(s)
    ensures var s := b.signatures[b.nodes[n].members[i].signature];
            Listed(b, n, ParameterTargets(s.parameters[..Arity(s)][k..]), ps, 100 * i + 2 + k, 100 * i + 2 + Arity(s))
    decreases 16 - k
  {
    var s := b.signatures[b.nodes[n].members[i].signature];
    var params := s.parameters[..Arity(s)];
    var lo := 100 * i + 2 + k;
    if k == Arity(s) {
      assert params[k..] == [];
      ps := [];
      Nowhere(b, n, lo);
    } else {
      var place := Parameter(n, i, k);
      assert params[k] == s.parameters[k];
      ReferredFrom(b, place, s.parameters[k]);
      var head := OneListed(b, place, s.parameters[k]);
      var tail := ParametersListed(b, n, i, k + 1);
      assert params[k..][1..] == params[k + 1..];
      TargetsCons(params[k..]);
      ps := head + tail;
      ListedJoin(b, n, One(params[k]), head, ParameterTargets(params[k + 1..]), tail, lo, lo + 1, 100 * i + 2 + Arity(s));
    }
  }

  function Arity(s: Signature): nat {
    if s.arity <= 16 then s.arity else 16
  }

  lemma TargetsCons(ps: seq<U8>)
    requires ps != []
    ensures ParameterTargets(ps) == One(ps[0]) + ParameterTargets(ps[1..])
  {
  }

  lemma Nowhere(b: Binding, n: nat, lo: nat)
    requires Laid(b)
    ensures Listed(b, n, [], [], lo, lo)
  {
  }

  lemma ReferredFrom(b: Binding, p: Place, t: U8)
    requires Laid(b) && p.node < b.nodeCount && p.node < 16 && p.member < b.nodes[p.node].count && p.member < 8
    requires var m := b.nodes[p.node].members[p.member];
             match p
             case Argument(_, _) => m.argument == t
             case Second(_, _) => m.second == t
             case Parameter(_, _, index) =>
               m.id == 7 && m.signature < 16 && var s := b.signatures[m.signature];
               s.typed == 1 && index < s.arity && index < 16 && s.parameters[index] == t
             case Result(_, _) => m.id == 7 && m.signature < 16 && b.signatures[m.signature].result == t
    ensures forall v: nat :: Refers(b, p, v) <==> v == t != 255
  {
  }

  /** A stretch of ranks that no place has. */
  lemma Unused(b: Binding, n: nat, lo: nat, hi: nat)
    requires Laid(b) && forall p: Place, v: nat :: Refers(b, p, v) && p.node == n ==> !(lo <= Rank(p) < hi)
    ensures Listed(b, n, [], [], lo, hi)
  {
    hide Refers, Rank;
  }

  /** The places of a signature: those of rank 2 and more. */
  lemma SignatureListed(b: Binding, n: nat, i: nat) returns (ps: seq<Place>)
    requires Laid(b) && n < b.nodeCount && n < 16 && i < b.nodes[n].count && i < 8
    requires b.nodes[n].members[i].id == 7 && b.nodes[n].members[i].signature < 16
    ensures Listed(b, n, SignatureTargets(b.signatures[b.nodes[n].members[i].signature]), ps, 100 * i + 2, 100 * i + 100)
  {
    hide ParameterTargets, Listed, Refers;
    var s := b.signatures[b.nodes[n].members[i].signature];
    var params := s.parameters[..Arity(s)];
    var lo, mid, hi := 100 * i + 2, 100 * i + 99, 100 * i + 100;
    var result := Result(n, i);
    ReferredFrom(b, result, s.result);
    var last := OneListed(b, result, s.result);
    if s.typed == 1 {
      var first := ParametersListed(b, n, i, 0);
      assert params[0..] == params;
      PastParameters(b, n, i);
      var ts := ParameterTargets(params);
      ListedJoin(b, n, ts, first, [], [], lo, lo + Arity(s), mid);
      assert ts + [] == ts && first + [] == first;
      ps := first + last;
      ListedJoin(b, n, ts, first, One(s.result), last, lo, mid, hi);
    } else {
      Untyped(b, n, i);
      ps := [] + last;
      ListedJoin(b, n, [], [], One(s.result), last, lo, mid, hi);
    }
  }

  lemma PastParameters(b: Binding, n: nat, i: nat)
    requires Laid(b) && n < b.nodeCount && n < 16 && i < b.nodes[n].count && i < 8
    requires b.nodes[n].members[i].signature < 16
    ensures var lo := 100 * i + 2 + Arity(b.signatures[b.nodes[n].members[i].signature]);
            Listed(b, n, [], [], lo, 100 * i + 99)
  {
    var lo := 100 * i + 2 + Arity(b.signatures[b.nodes[n].members[i].signature]);
    forall p: Place, v: nat | Refers(b, p, v) && p.node == n
      ensures !(lo <= Rank(p) < 100 * i + 99)
    {
    }
    Unused(b, n, lo, 100 * i + 99);
  }

  lemma Untyped(b: Binding, n: nat, i: nat)
    requires Laid(b) && n < b.nodeCount && n < 16 && i < b.nodes[n].count && i < 8
    requires b.nodes[n].members[i].signature < 16 && b.signatures[b.nodes[n].members[i].signature].typed != 1
    ensures Listed(b, n, [], [], 100 * i + 2, 100 * i + 99)
  {
    forall p: Place, v: nat | Refers(b, p, v) && p.node == n
      ensures !(100 * i + 2 <= Rank(p) < 100 * i + 99)
    {
    }
    Unused(b, n, 100 * i + 2, 100 * i + 99);
  }

  lemma NoSignature(b: Binding, n: nat, i: nat)
    requires Laid(b) && n < b.nodeCount && n < 16 && i < b.nodes[n].count && i < 8
    requires b.nodes[n].members[i].id != 7 || b.nodes[n].members[i].signature >= 16
    ensures Listed(b, n, [], [], 100 * i + 2, 100 * i + 100)
  {
    forall p: Place, v: nat | Refers(b, p, v) && p.node == n
      ensures !(100 * i + 2 <= Rank(p) < 100 * i + 100)
    {
    }
    Unused(b, n, 100 * i + 2, 100 * i + 100);
  }

  /** The places of one member. */
  lemma MemberListed(b: Binding, n: nat, i: nat) returns (ps: seq<Place>)
    requires Laid(b) && n < b.nodeCount && n < 16 && i < b.nodes[n].count && i < 8
    ensures Listed(b, n, MemberTargets(b, b.nodes[n].members[i]), ps, 100 * i, 100 * i + 100)
  {
    hide Listed, Refers, SignatureTargets, One;
    var m := b.nodes[n].members[i];
    var lo, hi := 100 * i, 100 * i + 100;
    var argument, second := Argument(n, i), Second(n, i);
    ReferredFrom(b, argument, m.argument);
    ReferredFrom(b, second, m.second);
    var first := OneListed(b, argument, m.argument);
    var next := OneListed(b, second, m.second);
    var last: seq<Place>, ts: seq<nat> := [], [];
    if HasSignature(m) && m.signature < 16 {
      ts := SignatureTargets(b.signatures[m.signature]);
      last := SignatureListed(b, n, i);
    } else {
      NoSignature(b, n, i);
    }
    ListedJoin(b, n, One(m.argument), first, One(m.second), next, lo, lo + 1, lo + 2);
    ps := first + next + last;
    ListedJoin(b, n, One(m.argument) + One(m.second), first + next, ts, last, lo, lo + 2, hi);
  }

  /** The places of the members from `i` on. */
  lemma {:induction false} MembersListed(b: Binding, n: nat, i: nat) returns (ps: seq<Place>)
    requires Laid(b) && n < b.nodeCount && n < 16 && i <= |Used(b.nodes[n])|
    ensures Listed(b, n, MembersTargets(b, Used(b.nodes[n])[i..]), ps, 100 * i, 100 * |Used(b.nodes[n])|)
    decreases 8 - i
  {
    hide Listed, Refers, MemberTargets;
    var ms := Used(b.nodes[n]);
    if i == |ms| {
      assert ms[i..] == [];
      ps := [];
      Nowhere(b, n, 100 * i);
    } else {
      var head := MemberListed(b, n, i);
      var tail := MembersListed(b, n, i + 1);
      assert ms[i] == b.nodes[n].members[i] && ms[i..][1..] == ms[i + 1..];
      ps := head + tail;
      ListedJoin(b, n, MemberTargets(b, ms[i]), head, MembersTargets(b, ms[i + 1..]), tail, 100 * i, 100 * i + 100,
                 100 * |ms|);
    }
  }

  /** The edges from a node, each with its place. */
  lemma PlacesOf(b: Binding, n: nat) returns (ps: seq<Place>)
    requires Laid(b) && n < NONE
    ensures |ps| == |GraphOf(b)[n]| && Rising(ps)
    ensures forall i :: 0 <= i < |ps| ==> ps[i].node == n && Refers(b, ps[i], GraphOf(b)[n][i])
    ensures forall p: Place, v: nat :: Refers(b, p, v) && p.node == n ==> p in ps
  {
    hide Refers, MembersTargets, Used, Rank;
    if n < b.nodeCount && n < MAX_NODES {
      ps := MembersListed(b, n, 0);
      var used := Used(b.nodes[n]);
      assert used[0..] == used;
      forall p: Place, v: nat | Refers(b, p, v) && p.node == n
        ensures p in ps
      {
        RankBelow(b, p, v);
      }
    } else {
      ps := [];
      forall p: Place, v: nat
        ensures !(Refers(b, p, v) && p.node == n)
      {
        NodeBelow(b, p, v);
      }
    }
  }

  lemma RankBelow(b: Binding, p: Place, v: nat)
    requires Laid(b) && Refers(b, p, v)
    ensures Rank(p) < 100 * |Used(b.nodes[p.node])|
  {
    assert p.member < |Used(b.nodes[p.node])|;
  }

  lemma NodeBelow(b: Binding, p: Place, v: nat)
    requires Laid(b)
    ensures Refers(b, p, v) ==> p.node < b.nodeCount && p.node < MAX_NODES
  {
  }

  /** Some place of node `n` refers to node `v`. */
  ghost predicate Joined(b: Binding, n: nat, v: nat)
    requires Laid(b)
  {
    exists p: Place :: p.node == n && Refers(b, p, v)
  }

  lemma EdgeMeans(b: Binding, n: nat, v: nat)
    requires Laid(b) && n < NONE
    ensures v in GraphOf(b)[n] <==> Joined(b, n, v)
  {
    hide Refers, GraphOf, Rank;
    var ps := PlacesOf(b, n);
    var g := GraphOf(b)[n];
    if Joined(b, n, v) {
      var p: Place :| p.node == n && Refers(b, p, v);
      var i :| 0 <= i < |ps| && ps[i] == p;
      OneTarget(b, p, v, g[i]);
    }
  }

  lemma OneTarget(b: Binding, p: Place, v: nat, w: nat)
    requires Laid(b) && Refers(b, p, v) && Refers(b, p, w)
    ensures v == w
  {
  }

  // ---------------------------------------------------------------------------------
  // Whole bindings.

  /** The nodes `path`, each of which refers to the next. */
  ghost predicate Path(b: Binding, path: seq<nat>)
    requires Laid(b)
  {
    path != [] && forall i :: 0 <= i < |path| - 1 ==> Joined(b, path[i], path[i + 1])
  }

  ghost predicate Leads(b: Binding, path: seq<nat>, u: nat, v: nat)
    requires Laid(b)
  {
    Path(b, path) && path[0] == u && path[|path| - 1] == v
  }

  ghost predicate Found(b: Binding, n: nat)
    requires Laid(b)
  {
    exists path :: Leads(b, path, 0, n)
  }

  /** Every node spells a union of types and is reached from the first one. No place refers outside
      the binding and no node refers, over others, to itself. */
  ghost predicate WellFormedBinding(ctx: Context, b: Binding, variables: nat)
    requires Laid(b)
  {
    && (forall n: nat :: n < b.nodeCount && n < 16 ==>
          1 <= b.nodes[n].count <= 8 &&
          forall i :: 0 <= i < b.nodes[n].count ==> SpellsType(ctx, b, variables, b.nodes[n].members[i], b.nodes[n].count))
    && (forall p: Place, v: nat :: Refers(b, p, v) ==> v < b.nodeCount)
    && (forall n: nat :: n < b.nodeCount ==> Found(b, n))
    && (forall n: nat, path :: Leads(b, path, n, n) ==> |path| == 1)
  }

  /** No two places refer to the same node. */
  ghost predicate Apart(b: Binding)
    requires Laid(b)
  {
    forall p: Place, q: Place, v: nat :: Refers(b, p, v) && Refers(b, q, v) ==> p == q
  }

  lemma {:induction false} WalkIsPath(b: Binding, path: seq<nat>, u: nat, v: nat)
    requires Laid(b) && IsWalk(GraphOf(b), path, u, v)
    ensures Leads(b, path, u, v)
    decreases |path|
  {
    hide Joined, GraphOf;
    if |path| > 1 {
      EdgeMeans(b, u, path[1]);
      WalkIsPath(b, path[1..], path[1], v);
      forall i | 0 <= i < |path| - 1
        ensures Joined(b, path[i], path[i + 1])
      {
        if i > 0 {
          assert path[1..][i - 1] == path[i] && path[1..][i] == path[i + 1];
        }
      }
    }
  }

  lemma {:induction false} PathIsWalk(b: Binding, path: seq<nat>, u: nat, v: nat)
    requires Laid(b) && Leads(b, path, u, v) && u < NONE
    ensures IsWalk(GraphOf(b), path, u, v)
    decreases |path|
  {
    hide Joined, GraphOf;
    if |path| > 1 {
      assert Joined(b, path[0], path[0 + 1]);
      EdgeMeans(b, u, path[1]);
      EdgeBelow(b, u, path[1]);
      var rest := path[1..];
      forall i | 0 <= i < |rest| - 1
        ensures Joined(b, rest[i], rest[i + 1])
      {
        assert Joined(b, path[i + 1], path[i + 1 + 1]);
      }
      PathIsWalk(b, rest, path[1], v);
    }
  }

  lemma EdgeBelow(b: Binding, u: nat, v: nat)
    requires Laid(b) && u < NONE && v in GraphOf(b)[u]
    ensures v < NONE && u < b.nodeCount && u < MAX_NODES
  {
    GraphWellFormed(b);
  }

  lemma ReachMeans(b: Binding, u: nat, v: nat)
    requires Laid(b) && u < NONE
    ensures Reach(GraphOf(b), u, v) <==> exists path :: Leads(b, path, u, v)
  {
    hide GraphOf, Leads, IsWalk;
    if Reach(GraphOf(b), u, v) {
      var path :| IsWalk(GraphOf(b), path, u, v);
      WalkIsPath(b, path, u, v);
    }
    if path :| Leads(b, path, u, v) {
      PathIsWalk(b, path, u, v);
    }
  }

  lemma CycleMeans(b: Binding, n: nat)
    requires Laid(b) && n < NONE
    ensures OnCycle(GraphOf(b), n) <==> exists path :: Leads(b, path, n, n) && |path| > 1
  {
    hide GraphOf, Leads;
    var g := GraphOf(b);
    if OnCycle(g, n) {
      var s :| s in g[n] && Reach(g, s, n);
      var p :| IsWalk(g, p, s, n);
      assert ([n] + p)[1..] == p;
      assert IsWalk(g, [n] + p, n, n);
      WalkIsPath(b, [n] + p, n, n);
    }
    if path :| Leads(b, path, n, n) && |path| > 1 {
      PathIsWalk(b, path, n, n);
      assert path[1] in g[n] && Reach(g, path[1], n);
    }
  }

  // ---------------------------------------------------------------------------------
  // References that no two places share.

  lemma {:induction false} TimesAt(s: seq<nat>, m: nat)
    requires forall i, j :: 0 <= i < j < |s| ==> !(s[i] == m == s[j])
    ensures Times(s, m) == if m in s then 1 else 0
  {
    if s != [] {
      TimesAt(s[1..], m);
      if s[0] == m {
        assert m !in s[1..];
      }
    }
  }

  lemma {:induction false} EdgesAt(g: Graph, m: nat, k: nat)
    requires k <= |g|
    requires forall n :: 0 <= n < k ==> Times(g[n], m) == if m in g[n] then 1 else 0
    requires forall a, c :: 0 <= a < c < k ==> !(m in g[a] && m in g[c])
    ensures EdgesInto(g, Nodes(g), m, k) == if exists n :: 0 <= n < k && m in g[n] then 1 else 0
  {
    if k > 0 {
      EdgesAt(g, m, k - 1);
    }
  }

  lemma ApartMeans(b: Binding)
    requires Laid(b)
    ensures OneWayIn(GraphOf(b)) <==> Apart(b)
  {
    hide GraphOf, Refers, EdgesInto, Times;
    GraphWellFormed(b);
    if OneWayIn(GraphOf(b)) {
      forall p: Place, q: Place, v: nat | Refers(b, p, v) && Refers(b, q, v)
        ensures p == q
      {
        SamePlace(b, p, q, v);
      }
    }
    if Apart(b) {
      forall m: nat | m < |GraphOf(b)|
        ensures EdgesTo(GraphOf(b), Nodes(GraphOf(b)), m) <= 1
      {
        OneEdge(b, m);
      }
    }
  }

  lemma SamePlace(b: Binding, p: Place, q: Place, v: nat)
    requires Laid(b) && WellFormed(GraphOf(b)) && OneWayIn(GraphOf(b)) && Refers(b, p, v) && Refers(b, q, v)
    ensures p == q
  {
    hide GraphOf, OneWayIn, Refers, Rank;
    var g := GraphOf(b);
    NodeBelow(b, p, v);
    NodeBelow(b, q, v);
    EdgeMeans(b, p.node, v);
    EdgeMeans(b, q.node, v);
    OneParent(g, p.node, q.node, v);
    var ps := PlacesOf(b, p.node);
    var i :| 0 <= i < |ps| && ps[i] == p;
    var j :| 0 <= j < |ps| && ps[j] == q;
    OneTarget(b, p, v, g[p.node][i]);
    OneTarget(b, q, v, g[p.node][j]);
    if i < j {
      NoTwin(g, p.node, i, j);
    } else if j < i {
      NoTwin(g, p.node, j, i);
    }
  }

  lemma OneEdge(b: Binding, m: nat)
    requires Laid(b) && WellFormed(GraphOf(b)) && Apart(b) && m < |GraphOf(b)|
    ensures EdgesTo(GraphOf(b), Nodes(GraphOf(b)), m) <= 1
  {
    hide GraphOf, Refers, EdgesInto, Times, Rank;
    var g := GraphOf(b);
    forall n | 0 <= n < |g|
      ensures Times(g[n], m) == if m in g[n] then 1 else 0
    {
      OnceIn(b, n, m);
      TimesAt(g[n], m);
    }
    forall a, c | 0 <= a < c < |g|
      ensures !(m in g[a] && m in g[c])
    {
      EdgeMeans(b, a, m);
      EdgeMeans(b, c, m);
    }
    EdgesAt(g, m, |g|);
  }

  lemma OnceIn(b: Binding, n: nat, m: nat)
    requires Laid(b) && Apart(b) && n < NONE
    ensures var s := GraphOf(b)[n]; forall i, j :: 0 <= i < j < |s| ==> !(s[i] == m == s[j])
  {
    hide GraphOf, Refers, Rank;
    var s := GraphOf(b)[n];
    var ps := PlacesOf(b, n);
    forall i, j | 0 <= i < j < |s|
      ensures !(s[i] == m == s[j])
    {
      assert Rank(ps[i]) < Rank(ps[j]);
      assert Refers(b, ps[i], s[i]) && Refers(b, ps[j], s[j]);
    }
  }

  // ---------------------------------------------------------------------------------
  // The check.

  lemma NodeMeans(ctx: Context, b: Binding, variables: nat, n: nat)
    requires Laid(b) && n < b.nodeCount && n < MAX_NODES
    ensures NodeSound(ctx, b, variables, n) <==>
            1 <= b.nodes[n].count <= 8 &&
            forall i :: 0 <= i < b.nodes[n].count ==> SpellsType(ctx, b, variables, b.nodes[n].members[i], b.nodes[n].count)
  {
    hide MemberSound, SpellsType;
    forall i | 0 <= i < b.nodes[n].count && i < MAX_MEMBERS
      ensures MemberSound(ctx, b, variables, b.nodes[n].members[i], b.nodes[n].count) <==>
              SpellsType(ctx, b, variables, b.nodes[n].members[i], b.nodes[n].count)
    {
      MemberMeans(ctx, b, variables, b.nodes[n].members[i], b.nodes[n].count);
    }
  }

  lemma InsideMeans(b: Binding)
    requires Laid(b) && HeaderFits(b)
    ensures (forall n: nat, j :: n < b.nodeCount && n < |GraphOf(b)| && 0 <= j < |GraphOf(b)[n]| ==>
               GraphOf(b)[n][j] < b.nodeCount) <==>
            (forall p: Place, v: nat :: Refers(b, p, v) ==> v < b.nodeCount)
  {
    hide GraphOf, Refers;
    var g := GraphOf(b);
    if forall n: nat, j :: n < b.nodeCount && n < |g| && 0 <= j < |g[n]| ==> g[n][j] < b.nodeCount {
      forall p: Place, v: nat | Refers(b, p, v)
        ensures v < b.nodeCount
      {
        NodeBelow(b, p, v);
        EdgeMeans(b, p.node, v);
      }
    }
    if forall p: Place, v: nat :: Refers(b, p, v) ==> v < b.nodeCount {
      forall n: nat, j | n < b.nodeCount && n < |g| && 0 <= j < |g[n]|
        ensures g[n][j] < b.nodeCount
      {
        EdgeMeans(b, n, g[n][j]);
      }
    }
  }

  lemma CyclesMean(b: Binding)
    requires Laid(b) && HeaderFits(b)
    ensures (forall n: nat :: n < b.nodeCount ==> !OnCycle(GraphOf(b), n)) <==>
            (forall n: nat, path :: Leads(b, path, n, n) ==> |path| == 1)
  {
    hide GraphOf, OnCycle;
    if forall n: nat :: n < b.nodeCount ==> !OnCycle(GraphOf(b), n) {
      forall n: nat, path | Leads(b, path, n, n)
        ensures |path| == 1
      {
        if |path| > 1 {
          assert Joined(b, path[0], path[0 + 1]);
          CycleMeans(b, n);
        }
      }
    }
    if forall n: nat, path :: Leads(b, path, n, n) ==> |path| == 1 {
      forall n: nat | n < b.nodeCount
        ensures !OnCycle(GraphOf(b), n)
      {
        CycleMeans(b, n);
      }
    }
  }

  /** What `CheckBinding` accepts. */
  lemma AcceptedMeans(ctx: Context, b: Binding, variables: nat)
    requires Laid(b) && HeaderFits(b)
    ensures Acceptable(ctx, b, variables) && (variables > 0 ==> OneWayIn(GraphOf(b))) <==>
            WellFormedBinding(ctx, b, variables) && (variables > 0 ==> Apart(b))
  {
    hide GraphOf, OnCycle, OneWayIn, Apart, Refers, NodeSound, SpellsType, Leads, Reach;
    ApartMeans(b);
    InsideMeans(b);
    CyclesMean(b);
    forall n: nat | n < b.nodeCount
      ensures NodeSound(ctx, b, variables, n) <==>
              1 <= b.nodes[n].count <= 8 &&
              forall i :: 0 <= i < b.nodes[n].count ==>
                SpellsType(ctx, b, variables, b.nodes[n].members[i], b.nodes[n].count)
      ensures Reach(GraphOf(b), 0, n) <==> Found(b, n)
    {
      NodeMeans(ctx, b, variables, n);
      ReachMeans(b, 0, n);
    }
  }
}
