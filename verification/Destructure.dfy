/** Destructuring assignment: what a pattern means, the register machine instructions it is
    compiled to, and what those do. */
module Destructure {
  import opened Wrappers

  // ---------------------------------------------------------------------------------
  // Values and patterns.

  datatype Value =
    | Nil
    | Int(i: int)
    | Str(s: string)
    | Array(elements: seq<Value>)
    | Hash(entries: seq<(Value, Value)>)

  /** `Thrown` is what a store raises. */
  datatype Error = TypeError | ArityError | IndexError | InvalidBytecode | Thrown(value: Value)

  datatype Result<T> = Ok(value: T) | Err(error: Error)

  type Register = nat

  /** Where a leaf is stored. Receivers and indices are registers evaluated beforehand. */
  datatype Target =
    | Local(name: string)
    | InstanceVariable(name: string)
    | ClassVariable(name: string)
    | Indexed(receiver: Register, index: Register)
    | Member(receiver: Register, name: string)

  /** `[a, *b, c]` is a group whose child number `rest` is starred; `{k: a, **r}` has the
      keys in registers evaluated beforehand. */
  datatype Pattern =
    | Leaf(target: Target)
    | Group(children: seq<Pattern>, rest: Option<nat>)
    | Keyed(keys: seq<Register>, entries: seq<Pattern>, others: Option<Target>)

  /** What parsing guarantees: at most 16 children, a starred child is a plain target, one
      key for each entry. */
  predicate WellFormed(p: Pattern) {
    match p
    case Leaf(_) => true
    case Group(children, rest) =>
      && 0 < |children| <= 16
      && (rest.Some? ==> rest.value < |children| && children[rest.value].Leaf?)
      && (forall c :: c in children ==> WellFormed(c))
    case Keyed(keys, entries, others) =>
      && |keys| == |entries| && |entries| + (if others.Some? then 1 else 0) <= 16
      && (others.None? ==> |entries| > 0)
      && (forall c :: c in entries ==> WellFormed(c))
  }

  /** Every key register lies below `bound`. */
  predicate KeysBelow(p: Pattern, bound: Register) {
    match p
    case Leaf(_) => true
    case Group(children, _) => forall c :: c in children ==> KeysBelow(c, bound)
    case Keyed(keys, entries, _) =>
      && (forall i :: 0 <= i < |keys| ==> keys[i] < bound)
      && (forall c :: c in entries ==> KeysBelow(c, bound))
  }

  /** The leaf targets from left to right. */
  function Targets(p: Pattern): seq<Target>
    decreases p, 1
  {
    match p
    case Leaf(target) => [target]
    case Group(children, _) => TargetsOf(children)
    case Keyed(_, entries, others) => TargetsOf(entries) + (if others.Some? then [others.value] else [])
  }

  function TargetsOf(ps: seq<Pattern>): seq<Target>
    decreases ps, 0
  {
    if |ps| == 0 then [] else Targets(ps[0]) + TargetsOf(ps[1..])
  }

  // ---------------------------------------------------------------------------------
  // What a pattern means: the value of each leaf, or the first check that fails.

  /** The entry stored under `key`. */
  function Lookup(entries: seq<(Value, Value)>, key: Value): Option<Value> {
    if |entries| == 0 then None
    else if entries[0].0 == key then Some(entries[0].1)
    else Lookup(entries[1..], key)
  }

  /** The entries whose keys are not among `gone`. */
  function Without(entries: seq<(Value, Value)>, gone: seq<Value>): seq<(Value, Value)> {
    if |entries| == 0 then []
    else (if entries[0].0 in gone then [] else [entries[0]]) + Without(entries[1..], gone)
  }

  /** A group of `n` children, starred at `rest` or not at all, accepts this many elements. */
  predicate CountFits(count: nat, n: nat, rest: Option<nat>) {
    if rest.Some? then n <= count + 1 else count == n
  }

  /** The share of child number `j`: one element counted from the front or from the back, or
      for the starred child everything between. */
  function Share(a: seq<Value>, n: nat, rest: Option<nat>, j: nat): Value
    requires j < n && CountFits(|a|, n, rest) && (rest.Some? ==> rest.value < n)
  {
    if rest.None? || j < rest.value then a[j]
    else if j == rest.value then Array(a[j..|a| - (n - j - 1)])
    else a[|a| - (n - j)]
  }

  type Registers = map<Register, Value>

  /** Registers start out nil. */
  function Get(regs: Registers, r: Register): Value {
    if r in regs then regs[r] else Nil
  }

  /** The leaf values of `p` matched against `v`, from left to right. */
  function Denote(p: Pattern, v: Value, regs: Registers): Result<seq<Value>>
    requires WellFormed(p)
    decreases p, 1
  {
    match p
    case Leaf(_) => Ok([v])
    case Group(children, rest) =>
      if !v.Array? then Err(TypeError)
      else if !CountFits(|v.elements|, |children|, rest) then Err(ArityError)
      else DenoteGroup(p, 0, v.elements, regs)
    case Keyed(_, _, _) =>
      if !v.Hash? then Err(TypeError) else DenoteKeyed(p, 0, v.entries, regs)
  }

  function DenoteGroup(p: Pattern, j: nat, a: seq<Value>, regs: Registers): Result<seq<Value>>
    requires p.Group? && WellFormed(p) && j <= |p.children| && CountFits(|a|, |p.children|, p.rest)
    decreases p, 0, |p.children| - j
  {
    if j == |p.children| then Ok([])
    else Both(Denote(p.children[j], Share(a, |p.children|, p.rest, j), regs), DenoteGroup(p, j + 1, a, regs))
  }

  function KeyValues(keys: seq<Register>, regs: Registers): seq<Value> {
    seq(|keys|, i requires 0 <= i < |keys| => Get(regs, keys[i]))
  }

  function DenoteKeyed(p: Pattern, j: nat, h: seq<(Value, Value)>, regs: Registers): Result<seq<Value>>
    requires p.Keyed? && WellFormed(p) && j <= |p.entries|
    decreases p, 0, |p.entries| - j
  {
    if j == |p.entries| then
      Ok(if p.others.Some? then [Hash(Without(h, KeyValues(p.keys, regs)))] else [])
    else
      match Lookup(h, Get(regs, p.keys[j]))
      case None => Err(IndexError)
      case Some(v) => Both(Denote(p.entries[j], v, regs), DenoteKeyed(p, j + 1, h, regs))
  }

  /** Left to right: the first failure wins. */
  function Both(first: Result<seq<Value>>, second: Result<seq<Value>>): Result<seq<Value>> {
    match (first, second)
    case (Ok(a), Ok(b)) => Ok(a + b)
    case (Ok(_), Err(e)) => Err(e)
    case (Err(e), _) => Err(e)
  }

  // ---------------------------------------------------------------------------------
  // The instructions, with the operands the compiler encodes, and the machine.

  datatype Kind = ArrayKind | HashKind

  datatype Instruction =
    | CheckType(source: Register, kind: Kind)
    | CheckDestructureCount(source: Register, expected: nat)
    | CheckHashKey(source: Register, key: Register)
    | Constant(destination: Register, constant: Value)
    | Move(destination: Register, source: Register)
    | NewArray(destination: Register, base: Register, count: nat)
    | IndexGet(destination: Register, source: Register, key: Register)
    | ArrayMiddle(destination: Register, source: Register, bounds: nat)
    | ArraySuffix(destination: Register, source: Register, reverse: nat)
    | HashRest(destination: Register, source: Register, excluded: Register)
    | SetInstanceVariable(name: string, source: Register)
    | SetClassVariable(name: string, source: Register)
    | IndexSet(receiver: Register, key: Register, source: Register)
    | InvokeSetter(receiver: Register, name: string, source: Register)

  /** A store that is seen outside the frame. */
  datatype Effect =
    | InstanceVariableSet(name: string, stored: Value)
    | ClassVariableSet(name: string, stored: Value)
    | ElementSet(receiver: Value, key: Value, stored: Value)
    | MemberSet(receiver: Value, name: string, stored: Value)

  /** What the last of the stores attempted so far raises, if it does. */
  type World = seq<Effect> -> Option<Error>

  /** The registers, and the stores attempted outside the frame. */
  datatype State = State(regs: Registers, effects: seq<Effect>, world: World)

  datatype Outcome = Running(state: State) | Raised(error: Error, state: State)

  function Write(st: State, r: Register, v: Value): Outcome {
    Running(st.(regs := st.regs[r := v]))
  }

  /** A store outside the frame, which may raise. */
  function Commit(st: State, e: Effect): Outcome {
    var next := st.(effects := st.effects + [e]);
    match st.world(next.effects)
    case None => Running(next)
    case Some(error) => Raised(error, next)
  }

  function Window(regs: Registers, base: Register, count: nat): seq<Value> {
    seq(count, i requires 0 <= i < count => Get(regs, base + i))
  }

  function CountCheck(count: nat, expected: nat): bool {
    if expected >= 0x8000 then count >= expected - 0x8000 else count == expected
  }

  function Element(receiver: Value, key: Value): Result<Value> {
    match receiver
    case Array(a) =>
      if !key.Int? then Err(TypeError)
      else if 0 <= key.i < |a| then Ok(a[key.i]) else Err(IndexError)
    case Hash(h) =>
      (match Lookup(h, key)
       case None => Ok(Nil)
       case Some(v) => Ok(v))
    case _ => Err(TypeError)
  }

  function Step(i: Instruction, st: State): Outcome {
    match i
    case CheckType(s, kind) =>
      var v := Get(st.regs, s);
      if (kind.ArrayKind? && v.Array?) || (kind.HashKind? && v.Hash?) then Running(st)
      else Raised(TypeError, st)
    case CheckDestructureCount(s, expected) =>
      var v := Get(st.regs, s);
      if !v.Array? then Raised(TypeError, st)
      else if CountCheck(|v.elements|, expected) then Running(st) else Raised(ArityError, st)
    case CheckHashKey(s, key) =>
      var v := Get(st.regs, s);
      if !v.Hash? then Raised(InvalidBytecode, st)
      else if Lookup(v.entries, Get(st.regs, key)).Some? then Running(st) else Raised(IndexError, st)
    case Constant(d, c) => Write(st, d, c)
    case Move(d, s) => Write(st, d, Get(st.regs, s))
    case NewArray(d, base, count) => Write(st, d, Array(Window(st.regs, base, count)))
    case IndexGet(d, s, key) =>
      (match Element(Get(st.regs, s), Get(st.regs, key))
       case Ok(v) => Write(st, d, v)
       case Err(e) => Raised(e, st))
    case ArrayMiddle(d, s, bounds) =>
      var v := Get(st.regs, s);
      var prefix, suffix := bounds / 256, bounds % 256;
      if !v.Array? || prefix + suffix > |v.elements| then Raised(InvalidBytecode, st)
      else Write(st, d, Array(v.elements[prefix..|v.elements| - suffix]))
    case ArraySuffix(d, s, reverse) =>
      var v := Get(st.regs, s);
      if !v.Array? || reverse == 0 || reverse > |v.elements| then Raised(InvalidBytecode, st)
      else Write(st, d, v.elements[|v.elements| - reverse])
    case HashRest(d, s, excluded) =>
      var v, gone := Get(st.regs, s), Get(st.regs, excluded);
      if !v.Hash? || !gone.Array? then Raised(InvalidBytecode, st)
      else Write(st, d, Hash(Without(v.entries, gone.elements)))
    case SetInstanceVariable(name, s) =>
      Commit(st, InstanceVariableSet(name, Get(st.regs, s)))
    case SetClassVariable(name, s) =>
      Commit(st, ClassVariableSet(name, Get(st.regs, s)))
    case IndexSet(receiver, key, s) =>
      Commit(st, ElementSet(Get(st.regs, receiver), Get(st.regs, key), Get(st.regs, s)))
    case InvokeSetter(receiver, name, s) =>
      Commit(st, MemberSet(Get(st.regs, receiver), name, Get(st.regs, s)))
  }

  /** Runs straight-line code until it ends or raises. */
  function Run(code: seq<Instruction>, st: State): Outcome {
    if |code| == 0 then Running(st)
    else
      match Step(code[0], st)
      case Running(next) => Run(code[1..], next)
      case Raised(e, at) => Raised(e, at)
  }

  lemma {:induction false} RunAppend(a: seq<Instruction>, b: seq<Instruction>, st: State)
    ensures Run(a + b, st) ==
            match Run(a, st) case Running(next) => Run(b, next) case Raised(e, at) => Raised(e, at)
  {
    if |a| == 0 {
      assert a + b == b;
    } else {
      assert (a + b)[0] == a[0] && (a + b)[1..] == a[1..] + b;
      if Step(a[0], st).Running? {
        RunAppend(a[1..], b, Step(a[0], st).state);
      }
    }
  }

  lemma RunOne(i: Instruction, st: State)
    ensures Run([i], st) == Step(i, st)
  {
    assert [i][1..] == [];
  }

  lemma RunCons(i: Instruction, rest: seq<Instruction>, st: State)
    requires Step(i, st).Running?
    ensures Run([i] + rest, st) == Run(rest, Step(i, st).state)
  {
    assert ([i] + rest)[1..] == rest;
  }
}
