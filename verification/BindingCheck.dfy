/** The check of a type binding read from a file. */
module BindingCheck {
  import opened Wrappers
  import opened Digraph
  import opened TypeGraph
  import opened Bindings

  ghost function Walk(ctx: Context, b: Binding, variables: nat, ts: seq<nat>, active: set<nat>, met: set<nat>):
    Option<set<nat>>
    requires Laid(b) && Below(ts)
  {
    GraphWellFormed(b);
    VisitAll(GraphOf(b), Sounds(ctx, b, variables), variables > 0, ts, active, met)
  }

  /** A check of the nodes `ts` came to what the walk over them does. */
  ghost predicate Agrees(r: Option<set<nat>>, ok: bool, now: bv16) {
    if ok then r == Some(Bits(now)) else r.None?
  }

  lemma {:induction false} VisitJoin(g: Graph, sound: seq<bool>, tree: bool, a: seq<nat>, c: seq<nat>, active: set<nat>,
                                     met: set<nat>)
    requires WellFormed(g) && |sound| == |g|
    requires (forall j :: 0 <= j < |a| ==> a[j] < |g|) && (forall j :: 0 <= j < |c| ==> c[j] < |g|)
    ensures var r := VisitAll(g, sound, tree, a, active, met);
            VisitAll(g, sound, tree, a + c, active, met) ==
            if r.None? then None else VisitAll(g, sound, tree, c, active, r.value)
    decreases |a|
  {
    hide Visit;
    if a == [] {
      assert a + c == c;
    } else {
      assert (a + c)[1..] == a[1..] + c;
      var first := Visit(g, sound, tree, a[0], active, met);
      if first.Some? {
        VisitJoin(g, sound, tree, a[1..], c, active, first.value);
      }
    }
  }

  lemma WalkJoin(ctx: Context, b: Binding, variables: nat, a: seq<nat>, c: seq<nat>, active: set<nat>, met: set<nat>)
    requires Laid(b) && Below(a) && Below(c)
    ensures Below(a + c)
    ensures var r := Walk(ctx, b, variables, a, active, met);
            Walk(ctx, b, variables, a + c, active, met) ==
            if r.None? then None else Walk(ctx, b, variables, c, active, r.value)
  {
    hide VisitAll, GraphOf, Sounds;
    GraphWellFormed(b);
    VisitJoin(GraphOf(b), Sounds(ctx, b, variables), variables > 0, a, c, active, met);
  }

  lemma WalkNothing(ctx: Context, b: Binding, variables: nat, active: set<nat>, met: set<nat>)
    requires Laid(b)
    ensures Walk(ctx, b, variables, [], active, met) == Some(met)
  {
  }

  /** One node: its successors, with the node on the path. */
  lemma WalkNode(ctx: Context, b: Binding, variables: nat, node: U8, active: set<nat>, met: set<nat>)
    requires Laid(b) && node != NONE
    ensures Below(Targets(b, node))
    ensures Walk(ctx, b, variables, [node], active, met) ==
            if node in active || !NodeSound(ctx, b, variables, node) || (variables > 0 && node in met) then None
            else Walk(ctx, b, variables, Targets(b, node), active + {node}, met + {node})
  {
    hide NodeSound;
    GraphWellFormed(b);
    var g, sound, tree := GraphOf(b), Sounds(ctx, b, variables), variables > 0;
    assert g[node] == Targets(b, node) && sound[node] == NodeSound(ctx, b, variables, node);
    assert Below(Targets(b, node)) by {
      assert forall j :: 0 <= j < |g[node]| ==> g[node][j] < NONE;
    }
    var none: seq<nat> := [];
    assert [node as nat][1..] == none;
    var r := Visit(g, sound, tree, node, active, met);
    assert r.Some? ==> VisitAll(g, sound, tree, none, active, r.value) == r;
  }

  predicate Lacks(w: bv16, v: nat) {
    !Has(w, v)
  }

  ghost function Free(w: bv16): set<nat> {
    set v: nat | v < MAX_NODES && Lacks(w, v)
  }

  /** How many nodes can still come on the path. */
  ghost function Room(active: bv16): nat {
    |Free(active)|
  }

  lemma RoomShrinks(active: bv16, node: nat)
    requires node < MAX_NODES && !Has(active, node)
    ensures Room(With(active, node)) < Room(active)
  {
    hide With, Has;
    var with := With(active, node);
    forall v: nat | v < MAX_NODES
      ensures Has(with, v) <==> v == node || Has(active, v)
    {
      HasWith(active, node, v);
    }
    assert node in Free(active) && node !in Free(with);
    Smaller(Free(with), Free(active));
  }

  /** Checks the node and all it refers to. `active` holds the nodes on the path to it and
      `met` all nodes met so far; gives the nodes met then. */
  method CheckNode(ctx: Context, b: Binding, variables: nat, node: U8, active: bv16, met: bv16)
    returns (ok: bool, now: bv16)
    requires Laid(b) && b.nodeCount <= MAX_NODES
    ensures Below(One(node)) && Agrees(Walk(ctx, b, variables, One(node), Bits(active), Bits(met)), ok, now)
    decreases Room(active), 3
  {
    hide Walk, NodeSound, Mask, Meets, With, MembersTargets, MemberSound, Used;
    now := met;
    if node == NONE {
      WalkNothing(ctx, b, variables, Bits(active), Bits(met));
      return true, met;
    }
    WalkNode(ctx, b, variables, node, Bits(active), Bits(met));
    if node >= b.nodeCount {
      NotInRange(ctx, b, variables, node);
      return false, met;
    }
    assert Has(active, node) <==> node in Bits(active);
    assert Has(met, node) <==> node in Bits(met);
    if Meets(active, Mask(node)) {
      return false, met;
    }
    if variables > 0 && Meets(met, Mask(node)) {
      return false, met;
    }
    var path := With(active, node);
    now := With(met, node);
    BitsWith(active, node);
    BitsWith(met, node);
    RoomShrinks(active, node);
    var set' := b.nodes[node];
    if set'.count == 0 || set'.count > MAX_MEMBERS {
      CountWrong(ctx, b, variables, node);
      return false, now;
    }
    ok, now := CheckMembers(ctx, b, variables, node, path, now);
    TargetsOf(b, node);
  }

  lemma NotInRange(ctx: Context, b: Binding, variables: nat, node: nat)
    requires Laid(b) && node >= b.nodeCount
    ensures !NodeSound(ctx, b, variables, node)
  {
  }

  lemma CountWrong(ctx: Context, b: Binding, variables: nat, node: nat)
    requires Laid(b) && node < b.nodeCount && node < MAX_NODES
    requires b.nodes[node].count == 0 || b.nodes[node].count > MAX_MEMBERS
    ensures !NodeSound(ctx, b, variables, node)
  {
    hide MemberSound;
  }

  lemma TargetsOf(b: Binding, node: nat)
    requires Laid(b) && node < b.nodeCount && node < MAX_NODES && b.nodes[node].count <= MAX_MEMBERS
    ensures Targets(b, node) == MembersTargets(b, b.nodes[node].members[..b.nodes[node].count])
  {
    hide MembersTargets;
  }

  /** Checks the members of a node, one after the other. */
  method CheckMembers(ctx: Context, b: Binding, variables: nat, node: nat, active: bv16, met: bv16)
    returns (ok: bool, now: bv16)
    requires Laid(b) && b.nodeCount <= MAX_NODES && node < b.nodeCount && 1 <= b.nodes[node].count <= MAX_MEMBERS
    ensures var ts := MembersTargets(b, b.nodes[node].members[..b.nodes[node].count]);
            Below(ts) && Agrees(if NodeSound(ctx, b, variables, node)
                                then Walk(ctx, b, variables, ts, Bits(active), Bits(met)) else None, ok, now)
    decreases Room(active), 5
  {
    hide Walk, MembersTargets, MemberTargets, MemberSound, Bits;
    var members, count := b.nodes[node].members, b.nodes[node].count;
    ghost var ts := MembersTargets(b, members[..count]);
    MembersBelow(b, members[..count]);
    ghost var a, m := Bits(active), Bits(met);
    now := met;
    var i := 0;
    assert members[..count][0..] == members[..count];
    while i < count
      invariant 0 <= i <= count
      invariant forall j :: 0 <= j < i ==> MemberSound(ctx, b, variables, members[j], count)
      invariant Below(MembersTargets(b, members[..count][i..]))
      invariant Walk(ctx, b, variables, ts, a, m) ==
                Walk(ctx, b, variables, MembersTargets(b, members[..count][i..]), a, Bits(now))
    {
      MembersStep(b, members[..count], i);
      var more;
      ok, more := CheckMember(ctx, b, variables, members[i], count, active, now);
      MembersBelow(b, members[..count][i + 1..]);
      WalkJoin(ctx, b, variables, MemberTargets(b, members[i]), MembersTargets(b, members[..count][i + 1..]), a,
               Bits(now));
      if !ok {
        assert !NodeSound(ctx, b, variables, node) || Walk(ctx, b, variables, ts, a, m).None?;
        return;
      }
      now := more;
      i := i + 1;
    }
    assert members[..count][count..] == [];
    MembersEnd(b);
    WalkNothing(ctx, b, variables, a, Bits(now));
    ok := true;
  }

  lemma MembersStep(b: Binding, ms: seq<Member>, i: nat)
    requires Laid(b) && i < |ms|
    ensures MembersTargets(b, ms[i..]) == MemberTargets(b, ms[i]) + MembersTargets(b, ms[i + 1..])
    ensures Below(MemberTargets(b, ms[i]))
  {
    hide MemberTargets;
    MemberBelow(b, ms[i]);
    assert ms[i..][1..] == ms[i + 1..];
  }

  lemma MembersEnd(b: Binding)
    requires Laid(b)
    ensures MembersTargets(b, []) == []
  {
  }

  /** Everything about a member but what it refers to. */
  predicate MemberFits(ctx: Context, b: Binding, variables: nat, m: Member, count: U8) {
    var isClass := CLASS_BASE <= m.id && m.id < CLASS_LIMIT;
    if m.id >= CLASS_LIMIT && m.id < INTERFACE_BASE && m.id != TYPE_NATIVE &&
       !(m.id >= VARIABLE_BASE && m.id < VARIABLE_BASE + variables) then false
    else if m.argument != NONE && !isClass && m.id != TYPE_ARRAY && m.id != TYPE_HASH then false
    else if m.second != NONE && !isClass && m.id != TYPE_HASH then false
    else if m.id >= VARIABLE_BASE && m.id < INTERFACE_BASE &&
            (m.id >= VARIABLE_BASE + variables || count != 1 || m.argument != NONE || m.second != NONE ||
             m.signature != NONE) then false
    else if m.id >= INTERFACE_BASE && m.id - INTERFACE_BASE >= ctx.interfaces then false
    else if isClass && m.id - CLASS_BASE >= ctx.classes then false
    else !(m.id == TYPE_NATIVE && m.nativeKind !in ctx.natives)
  }

  /** Checks one member: itself, its type arguments, its signature. */
  method CheckMember(ctx: Context, b: Binding, variables: nat, m: Member, count: U8, active: bv16, met: bv16)
    returns (ok: bool, now: bv16)
    requires Laid(b) && b.nodeCount <= MAX_NODES
    ensures Below(MemberTargets(b, m))
    ensures Agrees(if MemberSound(ctx, b, variables, m, count)
                   then Walk(ctx, b, variables, MemberTargets(b, m), Bits(active), Bits(met)) else None, ok, now)
    decreases Room(active), 4, 2
  {
    hide Walk, SignatureTargets, MemberFits, MemberSound, Bits;
    MemberBelow(b, m);
    MemberParts(ctx, b, variables, m, count);
    now := met;
    if !MemberFits(ctx, b, variables, m, count) {
      return false, met;
    }
    ghost var a := Bits(active);
    var tail := if HasSignature(m) && m.signature < MAX_SIGNATURES then SignatureTargets(b.signatures[m.signature]) else [];
    SignatureBelow(b, m);
    WalkJoin(ctx, b, variables, One(m.argument), One(m.second), a, Bits(met));
    WalkJoin(ctx, b, variables, One(m.argument) + One(m.second), tail, a, Bits(met));
    ok, now := CheckNode(ctx, b, variables, m.argument, active, now);
    if !ok {
      return;
    }
    ok, now := CheckNode(ctx, b, variables, m.second, active, now);
    if !ok {
      return;
    }
    if HasSignature(m) {
      ok, now := CheckSignature(ctx, b, variables, m.signature, active, now);
    } else {
      WalkNothing(ctx, b, variables, a, Bits(now));
    }
  }

  lemma MemberParts(ctx: Context, b: Binding, variables: nat, m: Member, count: U8)
    requires Laid(b)
    ensures MemberSound(ctx, b, variables, m, count) <==>
            MemberFits(ctx, b, variables, m, count) && (HasSignature(m) ==> SignatureSound(b, m.signature))
  {
    hide SignatureSound;
  }

  lemma SignatureBelow(b: Binding, m: Member)
    requires Laid(b)
    ensures Below(One(m.argument)) && Below(One(m.second))
    ensures HasSignature(m) && m.signature < MAX_SIGNATURES ==> Below(SignatureTargets(b.signatures[m.signature]))
  {
    if HasSignature(m) && m.signature < MAX_SIGNATURES {
      var s := b.signatures[m.signature];
      ParametersBelow(s.parameters[..if s.arity <= MAX_PARAMETERS then s.arity else MAX_PARAMETERS]);
    }
  }

  /** Checks a signature and the nodes of its parameters and result. */
  method CheckSignature(ctx: Context, b: Binding, variables: nat, index: U8, active: bv16, met: bv16)
    returns (ok: bool, now: bv16)
    requires Laid(b) && b.nodeCount <= MAX_NODES
    requires index < MAX_SIGNATURES ==> Below(SignatureTargets(b.signatures[index]))
    ensures Agrees(if SignatureSound(b, index)
                   then Walk(ctx, b, variables, SignatureTargets(b.signatures[index]), Bits(active), Bits(met))
                   else None, ok, now)
    decreases Room(active), 4, 1
  {
    hide Walk, Bits, ParameterTargets;
    now := met;
    if index >= b.signatureCount || index >= MAX_SIGNATURES {
      return false, met;
    }
    var s := b.signatures[index];
    if s.typed > 1 || s.variadic != 0 || s.required != s.arity || (s.typed == 1 && s.arity > MAX_PARAMETERS) {
      return false, met;
    }
    ghost var a := Bits(active);
    var ps := if s.typed == 1 then s.parameters[..s.arity] else [];
    NoParameters();
    assert SignatureTargets(s) == ParameterTargets(ps) + One(s.result);
    ParametersBelow(ps);
    assert Below(One(s.result));
    WalkJoin(ctx, b, variables, ParameterTargets(ps), One(s.result), a, Bits(met));
    ok, now := CheckParameters(ctx, b, variables, ps, active, now);
    if !ok {
      return;
    }
    ok, now := CheckNode(ctx, b, variables, s.result, active, now);
  }

  lemma NoParameters()
    ensures ParameterTargets([]) == []
  {
  }

  method CheckParameters(ctx: Context, b: Binding, variables: nat, ps: seq<U8>, active: bv16, met: bv16)
    returns (ok: bool, now: bv16)
    requires Laid(b) && b.nodeCount <= MAX_NODES
    ensures Below(ParameterTargets(ps))
    ensures Agrees(Walk(ctx, b, variables, ParameterTargets(ps), Bits(active), Bits(met)), ok, now)
    decreases Room(active), 4, 0
  {
    hide Walk, Bits, Laid;
    ghost var a, m := Bits(active), Bits(met);
    ParametersBelow(ps);
    now := met;
    var p := 0;
    assert ps[0..] == ps;
    while p < |ps|
      invariant 0 <= p <= |ps| && Below(ParameterTargets(ps[p..]))
      invariant Walk(ctx, b, variables, ParameterTargets(ps), a, m) ==
                Walk(ctx, b, variables, ParameterTargets(ps[p..]), a, Bits(now))
    {
      assert ps[p..][1..] == ps[p + 1..];
      ParametersBelow(ps[p + 1..]);
      assert Below(One(ps[p]));
      WalkJoin(ctx, b, variables, One(ps[p]), ParameterTargets(ps[p + 1..]), a, Bits(now));
      ok, now := CheckNode(ctx, b, variables, ps[p], active, now);
      if !ok {
        return;
      }
      p := p + 1;
    }
    assert ps[|ps|..] == [];
    NoParameters();
    WalkNothing(ctx, b, variables, a, Bits(now));
    ok := true;
  }

  // ---------------------------------------------------------------------------------
  // The whole binding.

  /** Every node is sound, refers to nodes of the binding and is reached from the first, and no
      reference leads back. */
  ghost predicate Acceptable(ctx: Context, b: Binding, variables: nat)
    requires Laid(b)
  {
    var g := GraphOf(b);
    && (forall n: nat :: n < b.nodeCount && n < |g| ==>
          NodeSound(ctx, b, variables, n) && Reach(g, 0, n) && !OnCycle(g, n))
    && (forall n: nat, j :: n < b.nodeCount && n < |g| && 0 <= j < |g[n]| ==> g[n][j] < b.nodeCount)
  }

  /** The header of the binding is in order. */
  predicate HeaderFits(b: Binding) {
    b.invalid == 0 && b.nodeCount != 0 && b.nodeCount <= MAX_NODES && b.signatureCount <= MAX_SIGNATURES
  }

  /** A binding passes exactly when every node is sound, is reached from the first and is on no
      cycle, and, with type variables, when no node is referred to twice. */
  method CheckBinding(ctx: Context, b: Binding, variables: nat) returns (ok: bool)
    requires Laid(b)
    ensures ok <==> HeaderFits(b) && Acceptable(ctx, b, variables) && (variables > 0 ==> OneWayIn(GraphOf(b)))
  {
    hide Walk, Acceptable, OneWayIn, Full;
    if !HeaderFits(b) {
      return false;
    }
    BitsNone();
    var met;
    ok, met := CheckNode(ctx, b, variables, 0, 0, 0);
    FullBits(b.nodeCount);
    Verdict(ctx, b, variables, ok, met);
    if ok {
      if forall i: nat :: i in Bits(met) <==> i in Bits(Full(b.nodeCount)) {
        SameBits(met, Full(b.nodeCount));
      }
      ok := met == Full(b.nodeCount);
    }
  }

  /** Words with the same bits are the same. */
  lemma SameBits(v: bv16, w: bv16)
    requires forall i: nat :: i in Bits(v) <==> i in Bits(w)
    ensures v == w
  {
    hide Mask, Meets;
    forall i: nat | i < MAX_NODES
      ensures Meets(v, Mask(i)) == Meets(w, Mask(i))
    {
      assert Has(v, i) <==> i in Bits(v);
      assert Has(w, i) <==> i in Bits(w);
    }
    SameWord(v, w);
  }

  ghost predicate SameAt(v: bv16, w: bv16, i: nat)
    requires i < MAX_NODES
  {
    Meets(v, Mask(i)) == Meets(w, Mask(i))
  }

  lemma SameWord(v: bv16, w: bv16)
    requires forall i: nat :: i < MAX_NODES ==> Meets(v, Mask(i)) == Meets(w, Mask(i))
    ensures v == w
  {
    assert forall i: nat :: i < MAX_NODES ==> SameAt(v, w, i);
    hide *;
    Places(v, w);
    Word(v, w);
  }

  lemma Places(v: bv16, w: bv16)
    requires forall i: nat :: i < MAX_NODES ==> SameAt(v, w, i)
    ensures SameMasked(v, w, 1) && SameMasked(v, w, 2) && SameMasked(v, w, 4) && SameMasked(v, w, 8)
    ensures SameMasked(v, w, 16) && SameMasked(v, w, 32) && SameMasked(v, w, 64) && SameMasked(v, w, 128)
    ensures SameMasked(v, w, 256) && SameMasked(v, w, 512) && SameMasked(v, w, 1024) && SameMasked(v, w, 2048)
    ensures SameMasked(v, w, 4096) && SameMasked(v, w, 8192) && SameMasked(v, w, 16384) && SameMasked(v, w, 32768)
  {
    hide And;
    assert SameAt(v, w, 0) && SameAt(v, w, 1) && SameAt(v, w, 2) && SameAt(v, w, 3);
    assert SameAt(v, w, 4) && SameAt(v, w, 5) && SameAt(v, w, 6) && SameAt(v, w, 7);
    assert SameAt(v, w, 8) && SameAt(v, w, 9) && SameAt(v, w, 10) && SameAt(v, w, 11);
    assert SameAt(v, w, 12) && SameAt(v, w, 13) && SameAt(v, w, 14) && SameAt(v, w, 15);
  }

  ghost predicate SameMasked(v: bv16, w: bv16, m: bv16) {
    Meets(v, m) == Meets(w, m)
  }

  lemma Word(v: bv16, w: bv16)
    requires SameMasked(v, w, 1) && SameMasked(v, w, 2) && SameMasked(v, w, 4) && SameMasked(v, w, 8)
    requires SameMasked(v, w, 16) && SameMasked(v, w, 32) && SameMasked(v, w, 64) && SameMasked(v, w, 128)
    requires SameMasked(v, w, 256) && SameMasked(v, w, 512) && SameMasked(v, w, 1024) && SameMasked(v, w, 2048)
    requires SameMasked(v, w, 4096) && SameMasked(v, w, 8192) && SameMasked(v, w, 16384) && SameMasked(v, w, 32768)
    ensures v == w
  {
  }

  lemma WalkFirst(ctx: Context, b: Binding, variables: nat)
    requires Laid(b)
    ensures WellFormed(GraphOf(b))
    ensures Walk(ctx, b, variables, [0], {}, {}) ==
            Visit(GraphOf(b), Sounds(ctx, b, variables), variables > 0, 0, {}, {})
  {
    hide GraphOf, Sounds, Visit;
    GraphWellFormed(b);
    var none: seq<nat> := [];
    assert [0][1..] == none;
    var g, sound := GraphOf(b), Sounds(ctx, b, variables);
    var r := Visit(g, sound, variables > 0, 0, {}, {});
    assert r.Some? ==> VisitAll(g, sound, variables > 0, none, {}, r.value) == r;
  }

  /** What the walk from the first node says about the binding. */
  lemma Verdict(ctx: Context, b: Binding, variables: nat, ok: bool, met: bv16)
    requires Laid(b) && HeaderFits(b) && Below(One(0))
    requires Agrees(Walk(ctx, b, variables, One(0), {}, {}), ok, met)
    ensures ok && (forall n: nat :: n in Bits(met) <==> n < b.nodeCount) <==>
            Acceptable(ctx, b, variables) && (variables > 0 ==> OneWayIn(GraphOf(b)))
  {
    hide Walk, GraphOf, Visit, OneWayIn, Sane, NodeSound, OnCycle, Reach, Bits;
    var g, sound := GraphOf(b), Sounds(ctx, b, variables);
    WalkFirst(ctx, b, variables);
    VisitGraph(g, sound, 0, {}, {});
    AllReached(ctx, b, variables);
    if variables > 0 {
      if ok {
        TreeIsGraph(g, sound, 0, {}, {});
        if forall n: nat :: n in Bits(met) <==> n < b.nodeCount {
          OnlyOnce(ctx, b, variables, Bits(met));
        }
      }
      if OneWayIn(g) && Sane(g, sound, 0, {}) {
        TreeAccepts(g, sound, 0, {}, {});
        TreeIsGraph(g, sound, 0, {}, {});
      }
    }
  }

  /** A sane walk over all the nodes there are is what makes a binding acceptable. */
  lemma AllReached(ctx: Context, b: Binding, variables: nat)
    requires Laid(b) && HeaderFits(b)
    ensures var g, sound := GraphOf(b), Sounds(ctx, b, variables);
            Sane(g, sound, 0, {}) && (forall n: nat :: n in Reached(g, 0) <==> n < b.nodeCount) <==>
            Acceptable(ctx, b, variables)
  {
    hide GraphOf, NodeSound, OnCycle, Reach;
    var g, sound := GraphOf(b), Sounds(ctx, b, variables);
    if Acceptable(ctx, b, variables) {
      forall n: nat | n in Reached(g, 0)
        ensures n < b.nodeCount
      {
        Inside(ctx, b, variables, n);
      }
    }
    if Sane(g, sound, 0, {}) && (forall n: nat :: n in Reached(g, 0) <==> n < b.nodeCount) {
      forall n: nat | n < b.nodeCount
        ensures NodeSound(ctx, b, variables, n) && Reach(g, 0, n) && !OnCycle(g, n)
        ensures forall j :: 0 <= j < |g[n]| ==> g[n][j] < b.nodeCount
      {
        assert n in Reached(g, 0);
        forall j | 0 <= j < |g[n]|
          ensures g[n][j] < b.nodeCount
        {
          GraphWellFormed(b);
          ReachEdge(g, n, g[n][j]);
          ReachTransitive(g, 0, n, g[n][j]);
          assert g[n][j] in Reached(g, 0);
        }
      }
    }
  }

  predicate Named(v: nat) {
    v < NONE
  }

  ghost function Range(n: nat): set<nat> {
    set v: nat | v < n && Named(v)
  }

  lemma Inside(ctx: Context, b: Binding, variables: nat, n: nat)
    requires Laid(b) && HeaderFits(b) && Acceptable(ctx, b, variables) && Reach(GraphOf(b), 0, n)
    ensures n < b.nodeCount
  {
    hide GraphOf, NodeSound, OnCycle, Reach;
    var g := GraphOf(b);
    var c := Range(b.nodeCount);
    assert Closed(g, c);
    ReachStaysInside(g, c, 0, n);
  }

  lemma {:induction false} IdleEdges(g: Graph, from: set<nat>, m: nat, k: nat)
    requires k <= |g| && forall n :: n in from && n < |g| ==> g[n] == []
    ensures EdgesInto(g, from, m, k) == 0
  {
    if k > 0 {
      IdleEdges(g, from, m, k - 1);
    }
  }

  /** In tree mode no node is referred to twice. */
  lemma OnlyOnce(ctx: Context, b: Binding, variables: nat, met: set<nat>)
    requires Laid(b) && HeaderFits(b) && WellFormed(GraphOf(b)) && (forall n: nat :: n in met <==> n < b.nodeCount)
    requires Visit(GraphOf(b), Sounds(ctx, b, variables), true, 0, {}, {}) == Some(met)
    ensures OneWayIn(GraphOf(b))
  {
    hide Visit, EdgesInto, NodeSound, Sounds;
    var g := GraphOf(b);
    forall m | 0 <= m < |g|
      ensures EdgesTo(g, Nodes(g), m) <= 1
    {
      TreeEdges(g, Sounds(ctx, b, variables), 0, {}, {}, m);
      var idle := Nodes(g) - met;
      assert met - {} == met && met + idle == Nodes(g);
      EdgesJoin(g, met, idle, m, |g|);
      IdleEdges(g, idle, m, |g|);
    }
  }
}
