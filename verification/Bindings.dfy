/** Type bindings stored with a class: small graphs of type nodes kept in fixed tables, read
    back from a file and checked before use. */
module Bindings {
  import opened Digraph

  type U8 = n: nat | n < 256
  type U16 = n: nat | n < 65536

  const NONE: U8 := 255
  const MAX_NODES := 16
  const MAX_MEMBERS := 8
  const MAX_SIGNATURES := 16
  const MAX_PARAMETERS := 16

  const TYPE_ARRAY := 5
  const TYPE_HASH := 6
  const TYPE_CALLABLE := 7
  const CLASS_BASE := 10
  const CLASS_LIMIT := 0xE000
  const TYPE_NATIVE := 0xF000
  const VARIABLE_BASE := 0xF100
  const INTERFACE_BASE := 0xF200

  datatype Member = Member(id: U16, argument: U8, second: U8, nativeKind: U8, signature: U8)
  datatype Node = Node(members: seq<Member>, count: U8)

  /** `variadic` and `typed` are the bytes of booleans. */
  datatype Signature = Signature(arity: U8, required: U8, variadic: U8, typed: U8, parameters: seq<U8>, result: U8)
  datatype Binding = Binding(nodes: seq<Node>, nodeCount: U8, signatures: seq<Signature>, signatureCount: U8,
                             invalid: U8)

  /** The tables have their fixed sizes. */
  predicate Laid(b: Binding) {
    && |b.nodes| == MAX_NODES && |b.signatures| == MAX_SIGNATURES
    && (forall n :: 0 <= n < |b.nodes| ==> |b.nodes[n].members| == MAX_MEMBERS)
    && (forall s :: 0 <= s < |b.signatures| ==> |b.signatures[s].parameters| == MAX_PARAMETERS)
  }

  /** The program the binding belongs to: how many classes and interfaces it has, and the
      native object kinds that have a name. */
  datatype Context = Context(classes: nat, interfaces: nat, natives: set<U8>)

  // ---------------------------------------------------------------------------------
  // Sound nodes and the edges between them.

  predicate IsClass(id: U16) {
    CLASS_BASE <= id < CLASS_LIMIT
  }

  predicate IsVariable(id: U16) {
    VARIABLE_BASE <= id < INTERFACE_BASE
  }

  predicate HasSignature(m: Member) {
    m.id == TYPE_CALLABLE && m.signature != NONE
  }

  predicate SignatureSound(b: Binding, index: U8)
    requires Laid(b)
  {
    index < b.signatureCount && index < MAX_SIGNATURES &&
    var s := b.signatures[index];
    s.typed <= 1 && s.variadic == 0 && s.required == s.arity && (s.typed == 1 ==> s.arity <= MAX_PARAMETERS)
  }

  /** A type id means something, names nothing outside the program, and only has the parts its
      kind of type has; a type variable stands alone. */
  predicate MemberSound(ctx: Context, b: Binding, variables: nat, m: Member, count: U8)
    requires Laid(b)
  {
    && (CLASS_LIMIT <= m.id < INTERFACE_BASE ==>
          m.id == TYPE_NATIVE || VARIABLE_BASE <= m.id < VARIABLE_BASE + variables)
    && (m.argument != NONE ==> IsClass(m.id) || m.id == TYPE_ARRAY || m.id == TYPE_HASH)
    && (m.second != NONE ==> IsClass(m.id) || m.id == TYPE_HASH)
    && (IsVariable(m.id) ==>
          m.id < VARIABLE_BASE + variables && count == 1 && m.argument == m.second == m.signature == NONE)
    && (m.id >= INTERFACE_BASE ==> m.id - INTERFACE_BASE < ctx.interfaces)
    && (IsClass(m.id) ==> m.id - CLASS_BASE < ctx.classes)
    && (m.id == TYPE_NATIVE ==> m.nativeKind in ctx.natives)
    && (HasSignature(m) ==> SignatureSound(b, m.signature))
  }

  predicate NodeSound(ctx: Context, b: Binding, variables: nat, n: nat)
    requires Laid(b)
  {
    n < b.nodeCount && n < MAX_NODES && 1 <= b.nodes[n].count <= MAX_MEMBERS &&
    forall i :: 0 <= i < b.nodes[n].count ==> MemberSound(ctx, b, variables, b.nodes[n].members[i], b.nodes[n].count)
  }

  function One(n: U8): seq<nat> {
    if n == NONE then [] else [n]
  }

  function ParameterTargets(ps: seq<U8>): seq<nat> {
    if ps == [] then [] else One(ps[0]) + ParameterTargets(ps[1..])
  }

  function SignatureTargets(s: Signature): seq<nat>
    requires |s.parameters| == MAX_PARAMETERS
  {
    (if s.typed == 1 then ParameterTargets(s.parameters[..if s.arity <= MAX_PARAMETERS then s.arity else MAX_PARAMETERS])
     else []) + One(s.result)
  }

  function MemberTargets(b: Binding, m: Member): seq<nat>
    requires Laid(b)
  {
    One(m.argument) + One(m.second) +
    if HasSignature(m) && m.signature < MAX_SIGNATURES then SignatureTargets(b.signatures[m.signature]) else []
  }

  function MembersTargets(b: Binding, ms: seq<Member>): seq<nat>
    requires Laid(b)
  {
    if ms == [] then [] else MemberTargets(b, ms[0]) + MembersTargets(b, ms[1..])
  }

  function Used(n: Node): seq<Member>
    requires |n.members| == MAX_MEMBERS
  {
    n.members[..if n.count <= MAX_MEMBERS then n.count else MAX_MEMBERS]
  }

  function Targets(b: Binding, n: nat): seq<nat>
    requires Laid(b)
  {
    if n < b.nodeCount && n < MAX_NODES then MembersTargets(b, Used(b.nodes[n])) else []
  }

  /** Node `n` refers to the nodes of its type arguments and signatures. */
  function GraphOf(b: Binding): (g: Graph)
    requires Laid(b)
    ensures |g| == NONE
  {
    seq(NONE, n requires 0 <= n < NONE => Targets(b, n))
  }

  function Sounds(ctx: Context, b: Binding, variables: nat): (s: seq<bool>)
    requires Laid(b)
    ensures |s| == NONE
  {
    seq(NONE, n requires 0 <= n < NONE => NodeSound(ctx, b, variables, n))
  }

  ghost predicate Below(ts: seq<nat>) {
    forall j :: 0 <= j < |ts| ==> ts[j] < NONE
  }

  lemma {:induction false} ParametersBelow(ps: seq<U8>)
    ensures Below(ParameterTargets(ps))
  {
    if ps != [] {
      ParametersBelow(ps[1..]);
    }
  }

  lemma MemberBelow(b: Binding, m: Member)
    requires Laid(b)
    ensures Below(MemberTargets(b, m))
  {
    if HasSignature(m) && m.signature < MAX_SIGNATURES {
      var s := b.signatures[m.signature];
      ParametersBelow(s.parameters[..if s.arity <= MAX_PARAMETERS then s.arity else MAX_PARAMETERS]);
      assert Below(SignatureTargets(s));
    }
  }

  lemma {:induction false} MembersBelow(b: Binding, ms: seq<Member>)
    requires Laid(b)
    ensures Below(MembersTargets(b, ms))
  {
    if ms != [] {
      MemberBelow(b, ms[0]);
      MembersBelow(b, ms[1..]);
    }
  }

  lemma GraphWellFormed(b: Binding)
    requires Laid(b)
    ensures WellFormed(GraphOf(b))
  {
    forall v | 0 <= v < NONE
      ensures Below(Targets(b, v))
    {
      if v < b.nodeCount && v < MAX_NODES {
        MembersBelow(b, Used(b.nodes[v]));
      }
    }
    assert forall v, j :: 0 <= v < NONE && 0 <= j < |GraphOf(b)[v]| ==> GraphOf(b)[v][j] == Targets(b, v)[j];
  }

  // ---------------------------------------------------------------------------------
  // Sets of nodes as words of sixteen bits.

  function Mask(i: nat): bv16
    requires i < MAX_NODES
  {
    if i < 8 then
      if i < 4 then if i < 2 then if i == 0 then 1 else 2 else if i == 2 then 4 else 8
      else if i < 6 then if i == 4 then 16 else 32 else if i == 6 then 64 else 128
    else
      if i < 12 then if i < 10 then if i == 8 then 256 else 512 else if i == 10 then 1024 else 2048
      else if i < 14 then if i == 12 then 4096 else 8192 else if i == 14 then 16384 else 32768
  }

  function And(a: bv16, b: bv16): bv16 {
    a & b
  }

  function Or(a: bv16, b: bv16): bv16 {
    a | b
  }

  predicate Meets(a: bv16, b: bv16) {
    And(a, b) != 0
  }

  lemma Spread(w: bv16, a: bv16, b: bv16)
    ensures And(Or(w, a), b) == Or(And(w, b), And(a, b))
  {
  }

  lemma NoBits(x: bv16, y: bv16)
    ensures Or(x, y) == 0 <==> x == 0 && y == 0
  {
  }

  lemma MeetsEither(w: bv16, a: bv16, b: bv16)
    ensures Meets(Or(w, a), b) <==> Meets(w, b) || Meets(a, b)
  {
    hide And, Or;
    Spread(w, a, b);
    NoBits(And(w, b), And(a, b));
  }

  function With(w: bv16, i: nat): bv16
    requires i < MAX_NODES
  {
    Or(w, Mask(i))
  }

  lemma {:induction false} WithMeets(w: bv16, i: nat, b: bv16)
    requires i < MAX_NODES
    ensures Meets(With(w, i), b) <==> Meets(w, b) || Meets(Mask(i), b)
  {
    hide Mask, Meets, Or;
    MeetsEither(w, Mask(i), b);
  }

  lemma {:induction false} MaskApart(i: nat, j: nat)
    requires i < MAX_NODES && j < MAX_NODES
    ensures Meets(Mask(i), Mask(j)) <==> i == j
  {
  }

  predicate Has(w: bv16, i: nat) {
    i < MAX_NODES && Meets(w, Mask(i))
  }

  lemma {:induction false} HasWith(w: bv16, i: nat, j: nat)
    requires i < MAX_NODES && j < MAX_NODES
    ensures Has(With(w, i), j) <==> i == j || Has(w, j)
  {
    hide Mask, Meets, With;
    WithMeets(w, i, Mask(j));
    MaskApart(i, j);
  }

  ghost function Bits(w: bv16): set<nat> {
    set i: nat | i < MAX_NODES && Has(w, i)
  }

  lemma BitsWith(w: bv16, i: nat)
    requires i < MAX_NODES
    ensures Bits(With(w, i)) == Bits(w) + {i}
  {
    hide Mask, Has, With;
    forall j: nat | j < MAX_NODES
      ensures Has(With(w, i), j) <==> j == i || Has(w, j)
    {
      HasWith(w, i, j);
    }
  }

  lemma BitsNone()
    ensures Bits(0) == {}
  {
  }

  /** The word with the lowest `n` bits. */
  function Full(n: nat): bv16
    requires n <= MAX_NODES
  {
    (((1 as bv32) << n) - 1) as bv16
  }

  lemma FullBits(n: nat)
    requires n <= MAX_NODES
    ensures forall i: nat :: i in Bits(Full(n)) <==> i < n
  {
    hide Full, Mask, Meets;
    forall i: nat | i < MAX_NODES
      ensures Has(Full(n), i) <==> i < n
    {
      FullHas(n, i);
    }
  }

  lemma {:induction false} FullHas(n: nat, i: nat)
    requires n <= MAX_NODES && i < MAX_NODES
    ensures Meets(Full(n), Mask(i)) <==> i < n
  {
  }
}
