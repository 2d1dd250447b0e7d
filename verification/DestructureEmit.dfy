/** The code emitted for a destructuring pattern, and what running it does. */
module DestructureEmit {
  import opened Wrappers
  import opened Destructure

  /** Code, the next free register after it, and the register of each leaf. */
  datatype Emitted = Emitted(code: seq<Instruction>, next: Register, values: seq<Register>)

  /** The operand of the element count check: the high bit means "at least". */
  function CountOperand(p: Pattern): nat
    requires p.Group? && WellFormed(p)
  {
    if p.rest.Some? then |p.children| - 1 + 0x8000 else |p.children|
  }

  function Extract(p: Pattern, value: Register, next: Register): Emitted
    requires WellFormed(p)
    decreases p, 1
  {
    match p
    case Leaf(_) => Emitted([], next, [value])
    case Group(_, _) =>
      var e := ExtractGroup(p, 0, value, next);
      e.(code := [CheckType(value, ArrayKind), CheckDestructureCount(value, CountOperand(p))] + e.code)
    case Keyed(_, _, _) =>
      var e := ExtractKeyed(p, 0, value, next);
      e.(code := [CheckType(value, HashKind)] + e.code)
  }

  /** Loads the share of child `j` of a group. */
  function LoadShare(p: Pattern, j: nat, value: Register, next: Register): (seq<Instruction>, Register)
    requires p.Group? && WellFormed(p) && j < |p.children|
  {
    var n := |p.children|;
    if p.rest == Some(j) then ([ArrayMiddle(next, value, j * 256 + (n - j - 1))], next)
    else if p.rest.Some? && j > p.rest.value then ([ArraySuffix(next, value, n - j)], next)
    else ([Constant(next, Int(j)), IndexGet(next + 1, value, next)], next + 1)
  }

  /** One piece of code after another. */
  function Join(a: Emitted, b: Emitted): Emitted {
    Emitted(a.code + b.code, b.next, a.values + b.values)
  }

  lemma JoinAssociative(a: Emitted, b: Emitted, c: Emitted)
    ensures Join(Join(a, b), c) == Join(a, Join(b, c))
  {
    assert (a.code + b.code) + c.code == a.code + (b.code + c.code);
    assert (a.values + b.values) + c.values == a.values + (b.values + c.values);
  }

  lemma JoinNothing(a: Emitted)
    ensures Join(a, Emitted([], a.next, [])) == a
  {
    assert a.code + [] == a.code && a.values + [] == a.values;
  }

  /** Child `j` of a group. */
  function ExtractChild(p: Pattern, j: nat, value: Register, next: Register): Emitted
    requires p.Group? && WellFormed(p) && j < |p.children|
    decreases p, 0, 0
  {
    var (load, element) := LoadShare(p, j, value, next);
    var child := Extract(p.children[j], element, element + 1);
    child.(code := load + child.code)
  }

  /** The children of a group from number `j` on. */
  function ExtractGroup(p: Pattern, j: nat, value: Register, next: Register): Emitted
    requires p.Group? && WellFormed(p) && j <= |p.children|
    decreases p, 0, 1 + |p.children| - j
  {
    if j == |p.children| then Emitted([], next, [])
    else
      var child := ExtractChild(p, j, value, next);
      Join(child, ExtractGroup(p, j + 1, value, child.next))
  }

  function MoveKeys(keys: seq<Register>, base: Register): seq<Instruction> {
    if |keys| == 0 then []
    else MoveKeys(keys[..|keys| - 1], base) + [Move(base + |keys| - 1, keys[|keys| - 1])]
  }

  /** Builds the rest of a hash; at least one register is set aside for its keys. */
  function RestOfHash(keys: seq<Register>, value: Register, next: Register): Emitted {
    var excluded := next + if |keys| == 0 then 1 else |keys|;
    Emitted(MoveKeys(keys, next) +
            [NewArray(excluded, next, |keys|), HashRest(excluded + 1, value, excluded)],
            excluded + 2, [excluded + 1])
  }

  /** Entry `j` of a hash pattern. */
  function ExtractEntry(p: Pattern, j: nat, value: Register, next: Register): Emitted
    requires p.Keyed? && WellFormed(p) && j < |p.entries|
    decreases p, 0, 0
  {
    var child := Extract(p.entries[j], next, next + 1);
    child.(code := [CheckHashKey(value, p.keys[j]), IndexGet(next, value, p.keys[j])] + child.code)
  }

  /** The entries of a hash pattern from number `j` on, then its rest. */
  function ExtractKeyed(p: Pattern, j: nat, value: Register, next: Register): Emitted
    requires p.Keyed? && WellFormed(p) && j <= |p.entries|
    decreases p, 0, 1 + |p.entries| - j
  {
    if j == |p.entries| then
      if p.others.Some? then RestOfHash(p.keys, value, next) else Emitted([], next, [])
    else
      var entry := ExtractEntry(p, j, value, next);
      Join(entry, ExtractKeyed(p, j + 1, value, entry.next))
  }

  // ---------------------------------------------------------------------------------
  // Extraction touches only fresh registers and stores nothing.

  /** The states differ at most in the registers from `lo` up to but not including `hi`. */
  ghost predicate Same(a: State, b: State, lo: Register, hi: Register) {
    && a.effects == b.effects && a.world == b.world
    && forall r: Register :: r < lo || hi <= r ==> Get(a.regs, r) == Get(b.regs, r)
  }

  ghost predicate Holds(regs: Registers, values: seq<Register>, next: Register, vs: seq<Value>) {
    && |values| == |vs|
    && (forall k :: 0 <= k < |values| ==> values[k] < next && Get(regs, values[k]) == vs[k])
  }

  /** The code of `e`, started in `st`, ended in `out`: with the leaf registers holding the
      values of `d`, or with the failure of `d`; only registers from `bound` up to its next free
      one changed. */
  ghost predicate Extracted(out: Outcome, st: State, bound: Register, e: Emitted, d: Result<seq<Value>>) {
    && bound <= e.next
    && Same(st, out.state, bound, e.next)
    && match d
       case Ok(vs) => out.Running? && Holds(out.state.regs, e.values, e.next, vs)
       case Err(x) => out.Raised? && out.error == x
  }

  /** A pattern's meaning depends only on its key registers. */
  lemma {:induction false} DenoteFrame(p: Pattern, v: Value, a: Registers, b: Registers, bound: Register)
    requires WellFormed(p) && KeysBelow(p, bound)
    requires forall r: Register :: r < bound ==> Get(a, r) == Get(b, r)
    ensures Denote(p, v, a) == Denote(p, v, b)
    decreases p, 1
  {
    match p
    case Leaf(_) =>
    case Group(children, rest) =>
      if v.Array? && CountFits(|v.elements|, |children|, rest) {
        DenoteGroupFrame(p, 0, v.elements, a, b, bound);
      }
    case Keyed(_, _, _) =>
      if v.Hash? {
        DenoteKeyedFrame(p, 0, v.entries, a, b, bound);
      }
  }

  lemma {:induction false} DenoteGroupFrame(p: Pattern, j: nat, e: seq<Value>, a: Registers, b: Registers,
                                            bound: Register)
    requires p.Group? && WellFormed(p) && j <= |p.children| && CountFits(|e|, |p.children|, p.rest)
    requires KeysBelow(p, bound) && forall r: Register :: r < bound ==> Get(a, r) == Get(b, r)
    ensures DenoteGroup(p, j, e, a) == DenoteGroup(p, j, e, b)
    decreases p, 0, |p.children| - j
  {
    if j < |p.children| {
      DenoteFrame(p.children[j], Share(e, |p.children|, p.rest, j), a, b, bound);
      DenoteGroupFrame(p, j + 1, e, a, b, bound);
    }
  }

  lemma {:induction false} DenoteKeyedFrame(p: Pattern, j: nat, h: seq<(Value, Value)>, a: Registers,
                                            b: Registers, bound: Register)
    requires p.Keyed? && WellFormed(p) && j <= |p.entries|
    requires KeysBelow(p, bound) && forall r: Register :: r < bound ==> Get(a, r) == Get(b, r)
    ensures DenoteKeyed(p, j, h, a) == DenoteKeyed(p, j, h, b)
    decreases p, 0, |p.entries| - j
  {
    if j == |p.entries| {
      assert KeyValues(p.keys, a) == KeyValues(p.keys, b);
    } else {
      var found := Lookup(h, Get(a, p.keys[j]));
      if found.Some? {
        DenoteFrame(p.entries[j], found.value, a, b, bound);
      }
      DenoteKeyedFrame(p, j + 1, h, a, b, bound);
    }
  }

  lemma {:induction false} KeysBelowMore(p: Pattern, bound: Register, more: Register)
    requires KeysBelow(p, bound) && bound <= more
    ensures KeysBelow(p, more)
  {
    match p
    case Leaf(_) =>
    case Group(children, _) =>
      forall c | c in children
        ensures KeysBelow(c, more)
      {
        KeysBelowMore(c, bound, more);
      }
    case Keyed(_, entries, _) =>
      forall c | c in entries
        ensures KeysBelow(c, more)
      {
        KeysBelowMore(c, bound, more);
      }
  }

  /** One child loaded and extracted, then the others. */
  lemma ExtractBoth(load: seq<Instruction>, c: Emitted, t: Emitted, st: State, loaded: State,
                    next: Register, element: Register, d1: Result<seq<Value>>, d2: Result<seq<Value>>)
    requires Run(load, st) == Running(loaded) && Same(st, loaded, next, element + 1) && next <= element
    requires Extracted(Run(c.code, loaded), loaded, element + 1, c, d1)
    requires d1.Ok? ==>
      var middle := Run(c.code, loaded).state; Extracted(Run(t.code, middle), middle, c.next, t, d2)
    requires c.next <= t.next
    ensures var code := load + c.code + t.code;
            Extracted(Run(code, st), st, next, Emitted(code, t.next, c.values + t.values), Both(d1, d2))
  {
    RunAppend(load + c.code, t.code, st);
    RunAppend(load, c.code, st);
  }

  lemma BoundsOperand(prefix: nat, suffix: nat)
    requires suffix < 256
    ensures (prefix * 256 + suffix) / 256 == prefix && (prefix * 256 + suffix) % 256 == suffix
  {
  }

  lemma LoadShareRuns(p: Pattern, j: nat, value: Register, next: Register, st: State)
    requires p.Group? && WellFormed(p) && j < |p.children| && value < next
    requires Get(st.regs, value).Array? && CountFits(|Get(st.regs, value).elements|, |p.children|, p.rest)
    ensures var (load, element) := LoadShare(p, j, value, next);
            var out := Run(load, st);
            && next <= element
            && out.Running? && Same(st, out.state, next, element + 1)
            && Get(out.state.regs, element) == Share(Get(st.regs, value).elements, |p.children|, p.rest, j)
  {
    hide Run;
    var (load, element) := LoadShare(p, j, value, next);
    var n := |p.children|;
    if p.rest == Some(j) {
      BoundsOperand(j, n - j - 1);
      RunOne(load[0], st);
    } else if p.rest.Some? && j > p.rest.value {
      RunOne(load[0], st);
    } else {
      var second := IndexGet(next + 1, value, next);
      assert load == [Constant(next, Int(j))] + [second];
      RunCons(load[0], [second], st);
      RunOne(second, Step(load[0], st).state);
    }
  }

  lemma {:induction false} MoveKeysRuns(keys: seq<Register>, base: Register, st: State)
    requires forall i :: 0 <= i < |keys| ==> keys[i] < base
    ensures var out := Run(MoveKeys(keys, base), st);
            && out.Running? && Same(st, out.state, base, base + |keys|)
            && Window(out.state.regs, base, |keys|) == KeyValues(keys, st.regs)
  {
    if |keys| > 0 {
      var last := |keys| - 1;
      var move := Move(base + last, keys[last]);
      MoveKeysRuns(keys[..last], base, st);
      var before := Run(MoveKeys(keys[..last], base), st).state;
      RunAppend(MoveKeys(keys[..last], base), [move], st);
      RunOne(move, before);
      var after := Step(move, before).state;
      forall i | 0 <= i < |keys|
        ensures Get(after.regs, base + i) == Get(st.regs, keys[i])
      {
        if i < last {
          assert Window(before.regs, base, last)[i] == KeyValues(keys[..last], st.regs)[i];
          assert Get(before.regs, base + i) == Get(st.regs, keys[..last][i]);
        } else {
          assert Get(before.regs, keys[last]) == Get(st.regs, keys[last]);
        }
      }
    }
  }

  lemma RestOfHashRuns(keys: seq<Register>, value: Register, next: Register, st: State)
    requires value < next && Get(st.regs, value).Hash? && forall i :: 0 <= i < |keys| ==> keys[i] < next
    ensures var e := RestOfHash(keys, value, next);
            Extracted(Run(e.code, st), st, next, e,
                      Ok([Hash(Without(Get(st.regs, value).entries, KeyValues(keys, st.regs)))]))
  {
    hide Run, Without, MoveKeys, KeyValues;
    var excluded := next + if |keys| == 0 then 1 else |keys|;
    var build, rest := NewArray(excluded, next, |keys|), HashRest(excluded + 1, value, excluded);
    MoveKeysRuns(keys, next, st);
    var moved := Run(MoveKeys(keys, next), st).state;
    RunAppend(MoveKeys(keys, next), [build, rest], st);
    assert [build, rest] == [build] + [rest];
    RunCons(build, [rest], moved);
    RunOne(rest, Step(build, moved).state);
  }

  // ---------------------------------------------------------------------------------
  // Extraction computes what the pattern means.

  lemma {:induction false} ExtractCorrect(p: Pattern, value: Register, next: Register, st: State)
    requires WellFormed(p) && KeysBelow(p, next) && value < next
    ensures var e := Extract(p, value, next);
            Extracted(Run(e.code, st), st, next, e, Denote(p, Get(st.regs, value), st.regs))
    decreases p, 1
  {
    var v := Get(st.regs, value);
    match p
    case Leaf(_) =>
    case Group(children, rest) =>
      var e := ExtractGroup(p, 0, value, next);
      var check, count := CheckType(value, ArrayKind), CheckDestructureCount(value, CountOperand(p));
      assert [check, count] + e.code == [check] + ([count] + e.code);
      ExtractGroupNext(p, 0, value, next);
      if v.Array? {
        RunCons(check, [count] + e.code, st);
        assert CountCheck(|v.elements|, CountOperand(p)) <==> CountFits(|v.elements|, |children|, rest);
        if CountFits(|v.elements|, |children|, rest) {
          RunCons(count, e.code, st);
          ExtractGroupCorrect(p, 0, value, next, st);
        }
      }
    case Keyed(_, _, _) =>
      var e := ExtractKeyed(p, 0, value, next);
      ExtractKeyedNext(p, 0, value, next);
      if v.Hash? {
        RunCons(CheckType(value, HashKind), e.code, st);
        ExtractKeyedCorrect(p, 0, value, next, st);
      }
  }

  lemma {:induction false} ExtractGroupCorrect(p: Pattern, j: nat, value: Register, next: Register, st: State)
    requires p.Group? && WellFormed(p) && KeysBelow(p, next) && value < next && j <= |p.children|
    requires Get(st.regs, value).Array? && CountFits(|Get(st.regs, value).elements|, |p.children|, p.rest)
    ensures var e := ExtractGroup(p, j, value, next);
            Extracted(Run(e.code, st), st, next, e, DenoteGroup(p, j, Get(st.regs, value).elements, st.regs))
    decreases p, 0, |p.children| - j
  {
    hide Run, Step;
    RunNone(st);
    if j < |p.children| {
      var a := Get(st.regs, value).elements;
      var (load, element) := LoadShare(p, j, value, next);
      var c := p.children[j];
      LoadShareRuns(p, j, value, next, st);
      var loaded := Run(load, st).state;
      KeysBelowMore(c, next, element + 1);
      ExtractCorrect(c, element, element + 1, loaded);
      DenoteFrame(c, Share(a, |p.children|, p.rest, j), st.regs, loaded.regs, next);
      var child := Extract(c, element, element + 1);
      var d1 := Denote(c, Share(a, |p.children|, p.rest, j), st.regs);
      ExtractGroupNext(p, j + 1, value, child.next);
      if d1.Ok? {
        var middle := Run(child.code, loaded).state;
        KeysBelowMore(p, next, child.next);
        ExtractGroupCorrect(p, j + 1, value, child.next, middle);
        DenoteGroupFrame(p, j + 1, a, st.regs, middle.regs, next);
      }
      ExtractBoth(load, child, ExtractGroup(p, j + 1, value, child.next), st, loaded, next, element,
                  d1, DenoteGroup(p, j + 1, a, st.regs));
    }
  }

  lemma {:induction false} ExtractKeyedCorrect(p: Pattern, j: nat, value: Register, next: Register, st: State)
    requires p.Keyed? && WellFormed(p) && KeysBelow(p, next) && value < next && j <= |p.entries|
    requires Get(st.regs, value).Hash?
    ensures var e := ExtractKeyed(p, j, value, next);
            Extracted(Run(e.code, st), st, next, e, DenoteKeyed(p, j, Get(st.regs, value).entries, st.regs))
    decreases p, 0, |p.entries| - j
  {
    hide Run, Step;
    var h := Get(st.regs, value).entries;
    if j == |p.entries| {
      RunNone(st);
      if p.others.Some? {
        RestOfHashRuns(p.keys, value, next, st);
      }
    } else {
      var c := p.entries[j];
      var child := Extract(c, next, next + 1);
      var others := ExtractKeyed(p, j + 1, value, child.next);
      ExtractNext(c, next, next + 1);
      ExtractKeyedNext(p, j + 1, value, child.next);
      var load := LoadEntry(p, j, value, next, st);
      var found := Lookup(h, Get(st.regs, p.keys[j]));
      if found.Some? {
        var loaded := Run(load, st).state;
        KeysBelowMore(c, next, next + 1);
        ExtractCorrect(c, next, next + 1, loaded);
        DenoteFrame(c, found.value, st.regs, loaded.regs, next);
        if Denote(c, found.value, st.regs).Ok? {
          var middle := Run(child.code, loaded).state;
          KeysBelowMore(p, next, child.next);
          ExtractKeyedCorrect(p, j + 1, value, child.next, middle);
          DenoteKeyedFrame(p, j + 1, h, st.regs, middle.regs, next);
        }
        ExtractBoth(load, child, others, st, loaded, next, next,
                    Denote(c, found.value, st.regs), DenoteKeyed(p, j + 1, h, st.regs));
      } else {
        RunAppend(load, child.code, st);
        RunAppend(load + child.code, others.code, st);
      }
    }
  }

  lemma RunNone(st: State)
    ensures Run([], st) == Running(st)
  {
  }

  /** The check and the load of entry `j`: the value found, or a missing key. */
  lemma LoadEntry(p: Pattern, j: nat, value: Register, next: Register, st: State)
    returns (load: seq<Instruction>)
    requires p.Keyed? && WellFormed(p) && j < |p.entries| && value < next && p.keys[j] < next
    requires Get(st.regs, value).Hash?
    ensures load == [CheckHashKey(value, p.keys[j]), IndexGet(next, value, p.keys[j])]
    ensures match Lookup(Get(st.regs, value).entries, Get(st.regs, p.keys[j]))
            case None => Run(load, st) == Raised(IndexError, st)
            case Some(v) =>
              Run(load, st).Running? && Same(st, Run(load, st).state, next, next + 1) &&
              Get(Run(load, st).state.regs, next) == v
  {
    var check, get := CheckHashKey(value, p.keys[j]), IndexGet(next, value, p.keys[j]);
    load := [check, get];
    assert load == [check] + [get];
    if Step(check, st).Running? {
      RunCons(check, [get], st);
      RunOne(get, st);
    }
  }

  lemma {:induction false} ExtractNext(p: Pattern, value: Register, next: Register)
    requires WellFormed(p)
    ensures next <= Extract(p, value, next).next
    decreases p, 1
  {
    match p
    case Leaf(_) =>
    case Group(_, _) => ExtractGroupNext(p, 0, value, next);
    case Keyed(_, _, _) => ExtractKeyedNext(p, 0, value, next);
  }

  lemma {:induction false} ExtractGroupNext(p: Pattern, j: nat, value: Register, next: Register)
    requires p.Group? && WellFormed(p) && j <= |p.children|
    ensures next <= ExtractGroup(p, j, value, next).next
    decreases p, 0, |p.children| - j
  {
    if j < |p.children| {
      var (_, element) := LoadShare(p, j, value, next);
      ExtractNext(p.children[j], element, element + 1);
      ExtractGroupNext(p, j + 1, value, Extract(p.children[j], element, element + 1).next);
    }
  }

  lemma {:induction false} ExtractKeyedNext(p: Pattern, j: nat, value: Register, next: Register)
    requires p.Keyed? && WellFormed(p) && j <= |p.entries|
    ensures next <= ExtractKeyed(p, j, value, next).next
    decreases p, 0, |p.entries| - j
  {
    if j < |p.entries| {
      ExtractNext(p.entries[j], next, next + 1);
      ExtractKeyedNext(p, j + 1, value, Extract(p.entries[j], next, next + 1).next);
    }
  }

  // ---------------------------------------------------------------------------------
  // Storing the leaves.

  type Locals = map<string, Register>

  /** Code, the next free register, the registers of the local variables, and the register
      that holds the value of the statement. */
  datatype Stores = Stores(code: seq<Instruction>, next: Register, locals: Locals, last: Register)

  /** A local variable that does not exist yet gets a register of its own. */
  function StoreOne(t: Target, value: Register, next: Register, locals: Locals): Stores {
    match t
    case Local(name) =>
      if name in locals then Stores([Move(locals[name], value)], next, locals, locals[name])
      else Stores([Move(next, value)], next + 1, locals[name := next], next)
    case InstanceVariable(name) => Stores([SetInstanceVariable(name, value)], next, locals, value)
    case ClassVariable(name) => Stores([SetClassVariable(name, value)], next, locals, value)
    case Indexed(receiver, index) => Stores([IndexSet(receiver, index, value)], next, locals, value)
    case Member(receiver, name) => Stores([InvokeSetter(receiver, name, value)], next, locals, value)
  }

  /** The stores `s` made after `before`. */
  function After(before: Stores, s: Stores): Stores {
    s.(code := before.code + s.code)
  }

  /** All the leaves from left to right. */
  function StoreAll(ts: seq<Target>, values: seq<Register>, next: Register, locals: Locals): Stores
    requires |ts| == |values|
  {
    if |ts| == 0 then Stores([], next, locals, 0)
    else
      var n := |ts| - 1;
      var before := StoreAll(ts[..n], values[..n], next, locals);
      After(before, StoreOne(ts[n], values[n], before.next, before.locals))
  }

  /** What it means to assign `v` to the target `t`. */
  function Assign(st: State, t: Target, v: Value, locals: Locals): Outcome
    requires t.Local? ==> t.name in locals
  {
    match t
    case Local(name) => Write(st, locals[name], v)
    case InstanceVariable(name) => Commit(st, InstanceVariableSet(name, v))
    case ClassVariable(name) => Commit(st, ClassVariableSet(name, v))
    case Indexed(receiver, index) => Commit(st, ElementSet(Get(st.regs, receiver), Get(st.regs, index), v))
    case Member(receiver, name) => Commit(st, MemberSet(Get(st.regs, receiver), name, v))
  }

  predicate Declared(ts: seq<Target>, locals: Locals) {
    forall i :: 0 <= i < |ts| && ts[i].Local? ==> ts[i].name in locals
  }

  /** The assignments one after the other, from left to right, until one raises. */
  function AssignAll(st: State, ts: seq<Target>, vs: seq<Value>, locals: Locals): Outcome
    requires |ts| == |vs| && Declared(ts, locals)
  {
    if |ts| == 0 then Running(st)
    else
      var n := |ts| - 1;
      match AssignAll(st, ts[..n], vs[..n], locals)
      case Running(next) => Assign(next, ts[n], vs[n], locals)
      case Raised(e, at) => Raised(e, at)
  }

  /** Both go on or both raise the same. */
  predicate SameEnd(a: Outcome, b: Outcome) {
    a.Running? == b.Running? && (a.Raised? ==> b.Raised? && a.error == b.error)
  }

  /** Receivers and indices were evaluated below `bound`. */
  predicate PlacesBelow(ts: seq<Target>, bound: Register) {
    forall i :: 0 <= i < |ts| ==>
      && (ts[i].Indexed? ==> ts[i].receiver < bound && ts[i].index < bound)
      && (ts[i].Member? ==> ts[i].receiver < bound)
  }

  /** No local variable lives among the temporaries from `lo` to `hi`. */
  predicate LocalsOutside(locals: Locals, lo: Register, hi: Register, next: Register) {
    forall name :: name in locals ==> (locals[name] < lo || hi <= locals[name]) && locals[name] < next
  }

  lemma {:induction false} StoreAllLocals(ts: seq<Target>, values: seq<Register>, next: Register,
                                          locals: Locals, lo: Register, hi: Register)
    requires |ts| == |values| && lo <= hi <= next && LocalsOutside(locals, lo, hi, next)
    ensures var s := StoreAll(ts, values, next, locals);
            && next <= s.next && Declared(ts, s.locals) && LocalsOutside(s.locals, lo, hi, s.next)
            && forall name :: name in locals ==> name in s.locals && s.locals[name] == locals[name]
  {
    if |ts| > 0 {
      var n := |ts| - 1;
      StoreAllLocals(ts[..n], values[..n], next, locals, lo, hi);
      var before := StoreAll(ts[..n], values[..n], next, locals);
      forall i | 0 <= i < |ts| && ts[i].Local?
        ensures ts[i].name in StoreAll(ts, values, next, locals).locals
      {
        if i < n {
          assert ts[..n][i].name in before.locals;
        }
      }
    }
  }

  /** `locals` extended by later declarations assigns the same. */
  lemma {:induction false} AssignAllMoreLocals(st: State, ts: seq<Target>, vs: seq<Value>, locals: Locals, more: Locals)
    requires |ts| == |vs| && Declared(ts, locals) && Declared(ts, more)
    requires forall name :: name in locals ==> name in more && more[name] == locals[name]
    ensures AssignAll(st, ts, vs, locals) == AssignAll(st, ts, vs, more)
  {
    if |ts| > 0 {
      AssignAllMoreLocals(st, ts[..|ts| - 1], vs[..|ts| - 1], locals, more);
    }
  }

  /** The temporaries still hold the leaf values, and elsewhere the machine is where the
      assignments done so far have brought it. */
  ghost predicate InStep(st: State, goal: State, lo: Register, hi: Register, values: seq<Register>, vs: seq<Value>) {
    Same(goal, st, lo, hi) && Holds(st.regs, values, hi, vs)
  }

  lemma StoreOneStep(t: Target, value: Register, next: Register, locals: Locals, lo: Register, hi: Register,
                     st: State, goal: State, values: seq<Register>, vs: seq<Value>, k: nat)
    requires lo <= hi <= next && LocalsOutside(locals, lo, hi, next) && PlacesBelow([t], lo)
    requires InStep(st, goal, lo, hi, values, vs) && k < |values| && values[k] == value
    requires NoneBelow(values, lo)
    ensures var s := StoreOne(t, value, next, locals);
            var out := Run(s.code, st);
            && (t.Local? ==> t.name in s.locals)
            && var want := Assign(goal, t, vs[k], s.locals);
            && SameEnd(out, want) && InStep(out.state, want.state, lo, hi, values, vs)
            && Get(out.state.regs, s.last) == vs[k]
  {
    hide Run;
    var s := StoreOne(t, value, next, locals);
    RunOne(s.code[0], st);
    var after := Run(s.code, st).state;
    var goal' := Assign(goal, t, vs[k], s.locals).state;
    assert [t][0] == t;
    assert Get(st.regs, value) == vs[k];
    match t
    case Local(name) =>
      var home := s.locals[name];
      assert home < lo || hi <= home;
      assert after == st.(regs := st.regs[home := vs[k]]);
      forall r: Register | r < lo || hi <= r
        ensures Get(goal'.regs, r) == Get(after.regs, r)
      {
        assert Get(goal.regs, r) == Get(st.regs, r);
      }
      forall i | 0 <= i < |values|
        ensures Get(after.regs, values[i]) == vs[i]
      {
        assert Get(st.regs, values[i]) == vs[i];
      }
    case InstanceVariable(_) =>
    case ClassVariable(_) =>
    case Indexed(_, _) =>
    case Member(_, _) =>
  }

  lemma PlacesOne(ts: seq<Target>, n: nat, bound: Register)
    requires PlacesBelow(ts, bound) && n < |ts|
    ensures PlacesBelow([ts[n]], bound)
  {
  }

  lemma {:induction false} StoreAllCorrect(ts: seq<Target>, m: nat, values: seq<Register>, vs: seq<Value>,
                                           next: Register, locals: Locals, lo: Register, hi: Register,
                                           st: State, goal: State)
    requires m <= |ts| == |values| == |vs| && lo <= hi <= next && LocalsOutside(locals, lo, hi, next)
    requires PlacesBelow(ts, lo) && NoneBelow(values, lo)
    requires InStep(st, goal, lo, hi, values, vs)
    ensures var s := StoreAll(ts[..m], values[..m], next, locals);
            var out := Run(s.code, st);
            && Declared(ts[..m], s.locals)
            && var want := AssignAll(goal, ts[..m], vs[..m], s.locals);
            && SameEnd(out, want) && InStep(out.state, want.state, lo, hi, values, vs)
            && (m > 0 && out.Running? ==> Get(out.state.regs, s.last) == vs[m - 1])
    decreases m
  {
    hide Run, Holds, Same, LocalsOutside, InStep, NoneBelow, PlacesBelow;
    if m == 0 {
      RunNone(st);
    } else {
      StoreAllCorrect(ts, m - 1, values, vs, next, locals, lo, hi, st, goal);
      StoreAllStep(ts, m - 1, values, vs, next, locals, lo, hi, st, goal);
    }
  }

  /** One more store. */
  lemma StoreAllStep(ts: seq<Target>, n: nat, values: seq<Register>, vs: seq<Value>, next: Register, locals: Locals,
                     lo: Register, hi: Register, st: State, goal: State)
    requires n < |ts| == |values| == |vs| && lo <= hi <= next && LocalsOutside(locals, lo, hi, next)
    requires PlacesBelow(ts, lo) && NoneBelow(values, lo)
    requires var s := StoreAll(ts[..n], values[..n], next, locals);
             var out := Run(s.code, st);
             && Declared(ts[..n], s.locals)
             && var want := AssignAll(goal, ts[..n], vs[..n], s.locals);
             SameEnd(out, want) && InStep(out.state, want.state, lo, hi, values, vs)
    ensures var s := StoreAll(ts[..n + 1], values[..n + 1], next, locals);
            var out := Run(s.code, st);
            && Declared(ts[..n + 1], s.locals)
            && var want := AssignAll(goal, ts[..n + 1], vs[..n + 1], s.locals);
            && SameEnd(out, want) && InStep(out.state, want.state, lo, hi, values, vs)
            && (out.Running? ==> Get(out.state.regs, s.last) == vs[n])
  {
    hide Run, Holds, Same, LocalsOutside, InStep, NoneBelow, PlacesBelow;
    var m := n + 1;
    StoreAllLocals(ts[..m], values[..m], next, locals, lo, hi);
    assert ts[..m][..n] == ts[..n] && values[..m][..n] == values[..n] && vs[..m][..n] == vs[..n];
    StoreAllLocals(ts[..n], values[..n], next, locals, lo, hi);
    var before := StoreAll(ts[..n], values[..n], next, locals);
    var s := StoreOne(ts[n], values[n], before.next, before.locals);
    var done := Run(before.code, st).state;
    RunAppend(before.code, s.code, st);
    PlacesOne(ts, n, lo);
    var so := AssignAll(goal, ts[..n], vs[..n], before.locals);
    if so.Running? {
      StoreOneStep(ts[n], values[n], before.next, before.locals, lo, hi, done, so.state, values, vs, n);
    }
    AssignAllMoreLocals(goal, ts[..n], vs[..n], before.locals, s.locals);
  }

  // ---------------------------------------------------------------------------------
  // The whole statement.

  /** One right-hand value is taken as it is; several are gathered into an array. */
  function Gather(rhs: seq<Register>, next: Register): Emitted
    requires |rhs| > 0
  {
    if |rhs| == 1 then Emitted([], next, [rhs[0]])
    else Emitted(MoveKeys(rhs, next) + [NewArray(next + |rhs|, next, |rhs|)], next + |rhs| + 1, [next + |rhs|])
  }

  function RightHandSide(rhs: seq<Register>, regs: Registers): Value
    requires |rhs| > 0
  {
    if |rhs| == 1 then Get(regs, rhs[0]) else Array(KeyValues(rhs, regs))
  }

  lemma {:induction false} ExtractCount(p: Pattern, value: Register, next: Register)
    requires WellFormed(p)
    ensures |Extract(p, value, next).values| == |Targets(p)|
    decreases p, 1
  {
    match p
    case Leaf(_) =>
    case Group(children, _) =>
      ExtractGroupCount(p, 0, value, next);
      assert children[0..] == children;
    case Keyed(_, entries, _) =>
      ExtractKeyedCount(p, 0, value, next);
      assert entries[0..] == entries;
  }

  lemma {:induction false} ExtractGroupCount(p: Pattern, j: nat, value: Register, next: Register)
    requires p.Group? && WellFormed(p) && j <= |p.children|
    ensures |ExtractGroup(p, j, value, next).values| == |TargetsOf(p.children[j..])|
    decreases p, 0, |p.children| - j
  {
    if j < |p.children| {
      var (_, element) := LoadShare(p, j, value, next);
      ExtractCount(p.children[j], element, element + 1);
      ExtractGroupCount(p, j + 1, value, Extract(p.children[j], element, element + 1).next);
      assert p.children[j..][1..] == p.children[j + 1..];
    }
  }

  lemma {:induction false} ExtractKeyedCount(p: Pattern, j: nat, value: Register, next: Register)
    requires p.Keyed? && WellFormed(p) && j <= |p.entries|
    ensures |ExtractKeyed(p, j, value, next).values| ==
            |TargetsOf(p.entries[j..])| + (if p.others.Some? then 1 else 0)
    decreases p, 0, |p.entries| - j
  {
    if j < |p.entries| {
      ExtractCount(p.entries[j], next, next + 1);
      ExtractKeyedCount(p, j + 1, value, Extract(p.entries[j], next, next + 1).next);
      assert p.entries[j..][1..] == p.entries[j + 1..];
    }
  }

  predicate NoneBelow(values: seq<Register>, lo: Register) {
    forall k :: 0 <= k < |values| ==> lo <= values[k]
  }

  /** Every leaf of a group or hash pattern has a fresh register. */
  lemma {:induction false} ExtractFresh(p: Pattern, value: Register, next: Register, lo: Register)
    requires WellFormed(p) && lo <= next && (p.Leaf? ==> lo <= value)
    ensures NoneBelow(Extract(p, value, next).values, lo)
    decreases p, 1
  {
    match p
    case Leaf(_) =>
    case Group(_, _) => ExtractGroupFresh(p, 0, value, next, lo);
    case Keyed(_, _, _) => ExtractKeyedFresh(p, 0, value, next, lo);
  }

  lemma {:induction false} ExtractGroupFresh(p: Pattern, j: nat, value: Register, next: Register, lo: Register)
    requires p.Group? && WellFormed(p) && j <= |p.children| && lo <= next
    ensures NoneBelow(ExtractGroup(p, j, value, next).values, lo)
    decreases p, 0, |p.children| - j
  {
    if j < |p.children| {
      var (_, element) := LoadShare(p, j, value, next);
      var child := Extract(p.children[j], element, element + 1);
      ExtractFresh(p.children[j], element, element + 1, lo);
      ExtractNext(p.children[j], element, element + 1);
      ExtractGroupFresh(p, j + 1, value, child.next, lo);
      assert ExtractGroup(p, j, value, next).values ==
             child.values + ExtractGroup(p, j + 1, value, child.next).values;
    }
  }

  lemma {:induction false} ExtractKeyedFresh(p: Pattern, j: nat, value: Register, next: Register, lo: Register)
    requires p.Keyed? && WellFormed(p) && j <= |p.entries| && lo <= next
    ensures NoneBelow(ExtractKeyed(p, j, value, next).values, lo)
    decreases p, 0, |p.entries| - j
  {
    if j < |p.entries| {
      var child := Extract(p.entries[j], next, next + 1);
      ExtractFresh(p.entries[j], next, next + 1, lo);
      ExtractNext(p.entries[j], next, next + 1);
      ExtractKeyedFresh(p, j + 1, value, child.next, lo);
      assert ExtractKeyed(p, j, value, next).values ==
             child.values + ExtractKeyed(p, j + 1, value, child.next).values;
    }
  }

  lemma GatherRuns(rhs: seq<Register>, next: Register, st: State)
    requires |rhs| > 0 && forall i :: 0 <= i < |rhs| ==> rhs[i] < next
    ensures var e := Gather(rhs, next);
            Extracted(Run(e.code, st), st, next, e, Ok([RightHandSide(rhs, st.regs)]))
  {
    hide Run, MoveKeys, KeyValues;
    RunNone(st);
    if |rhs| > 1 {
      var build := NewArray(next + |rhs|, next, |rhs|);
      MoveKeysRuns(rhs, next, st);
      RunAppend(MoveKeys(rhs, next), [build], st);
      RunOne(build, Run(MoveKeys(rhs, next), st).state);
    }
  }

  /** `pattern = rhs...`, compiled with `next` the first free register. */
  function Compile(p: Pattern, rhs: seq<Register>, next: Register, locals: Locals): Stores
    requires WellFormed(p) && |rhs| > 0
  {
    var value := Gather(rhs, next);
    var e := Extract(p, value.values[0], value.next);
    ExtractCount(p, value.values[0], value.next);
    var s := StoreAll(Targets(p), e.values, e.next, locals);
    s.(code := value.code + e.code + s.code)
  }

  /** The first register after the temporaries of the statement. */
  function TemporariesEnd(p: Pattern, rhs: seq<Register>, next: Register): Register
    requires WellFormed(p) && |rhs| > 0
  {
    var value := Gather(rhs, next);
    Extract(p, value.values[0], value.next).next
  }

  /** What a compiled statement needs of its surroundings: everything evaluated before it lies
      below the next free register. */
  predicate Placed(p: Pattern, rhs: seq<Register>, next: Register, locals: Locals) {
    && WellFormed(p) && !p.Leaf? && |rhs| > 0
    && KeysBelow(p, next) && PlacesBelow(Targets(p), next)
    && (forall i :: 0 <= i < |rhs| ==> rhs[i] < next)
    && (forall name :: name in locals ==> locals[name] < next)
  }

  /** Running the code of a destructuring statement assigns to each target, from left to
      right, the value the pattern gives it in the state before the statement; if the value
      does not have the pattern's shape, the first failing check is raised and nothing has
      been stored. */
  lemma CompileCorrect(p: Pattern, rhs: seq<Register>, next: Register, locals: Locals, st: State)
    requires Placed(p, rhs, next, locals)
    ensures var c := Compile(p, rhs, next, locals);
            var out := Run(c.code, st);
            var end := TemporariesEnd(p, rhs, next);
            && next <= end && Declared(Targets(p), c.locals)
            && match Denote(p, RightHandSide(rhs, st.regs), st.regs)
               case Err(e) => out.Raised? && out.error == e && Same(st, out.state, next, end)
               case Ok(vs) =>
                 && |vs| == |Targets(p)| > 0
                 && var want := AssignAll(st, Targets(p), vs, c.locals);
                 && SameEnd(out, want) && Same(want.state, out.state, next, end)
                 && (out.Running? ==> Get(out.state.regs, c.last) == vs[|vs| - 1])
  {
    hide Run, Holds, AssignAll, Extract, StoreAll, Targets, Denote, RightHandSide, KeysBelow, WellFormed;
    var value := Gather(rhs, next);
    var v := value.values[0];
    var e := Extract(p, v, value.next);
    var ts := Targets(p);
    GatherRuns(rhs, next, st);
    var gathered := Run(value.code, st).state;
    assert v < value.next && Get(gathered.regs, v) == RightHandSide(rhs, st.regs) by {
      GatheredValue(gathered.regs, value, RightHandSide(rhs, st.regs));
    }
    KeysBelowMore(p, next, value.next);
    ExtractCorrect(p, v, value.next, gathered);
    DenoteFrame(p, RightHandSide(rhs, st.regs), st.regs, gathered.regs, next);
    ExtractCount(p, v, value.next);
    ExtractFresh(p, v, value.next, next);
    TargetsNonEmpty(p);
    var s := StoreAll(ts, e.values, e.next, locals);
    RunAppend(value.code + e.code, s.code, st);
    RunAppend(value.code, e.code, st);
    StoreAllLocals(ts, e.values, e.next, locals, next, e.next);
    var d := Denote(p, RightHandSide(rhs, st.regs), st.regs);
    if d.Ok? {
      var ready := Run(e.code, gathered).state;
      HoldsCount(ready.regs, e.values, e.next, d.value);
      assert ts[..|ts|] == ts && e.values[..|ts|] == e.values && d.value[..|ts|] == d.value;
      StoreAllCorrect(ts, |ts|, e.values, d.value, e.next, locals, next, e.next, ready, st);
    }
  }

  lemma GatheredValue(regs: Registers, e: Emitted, v: Value)
    requires Holds(regs, e.values, e.next, [v])
    ensures |e.values| == 1 && e.values[0] < e.next && Get(regs, e.values[0]) == v
  {
  }

  lemma HoldsCount(regs: Registers, values: seq<Register>, next: Register, vs: seq<Value>)
    requires Holds(regs, values, next, vs)
    ensures |values| == |vs|
  {
  }

  lemma {:induction false} TargetsNonEmpty(p: Pattern)
    requires WellFormed(p)
    ensures |Targets(p)| > 0
  {
    match p
    case Leaf(_) =>
    case Group(children, _) => TargetsNonEmpty(children[0]);
    case Keyed(_, entries, others) =>
      if others.None? {
        TargetsNonEmpty(entries[0]);
      }
  }

  // ---------------------------------------------------------------------------------
  // Parallel assignment of local variables.

  /** `names[0], names[1], ... =` */
  function Plain(names: seq<string>): Pattern {
    Group(seq(|names|, i requires 0 <= i < |names| => Leaf(Local(names[i]))), None)
  }

  function LocalTargets(names: seq<string>): seq<Target> {
    seq(|names|, i requires 0 <= i < |names| => Local(names[i]))
  }

  lemma {:induction false} TargetsPlain(names: seq<string>, j: nat)
    requires j <= |names|
    ensures TargetsOf(Plain(names).children[j..]) == LocalTargets(names)[j..]
    decreases |names| - j
  {
    var children := Plain(names).children;
    if j < |names| {
      TargetsPlain(names, j + 1);
      assert children[j..][1..] == children[j + 1..];
      assert Targets(children[j]) == [Local(names[j])];
      assert LocalTargets(names)[j..] == [Local(names[j])] + LocalTargets(names)[j + 1..];
    }
  }

  lemma {:induction false} DenotePlain(names: seq<string>, j: nat, a: seq<Value>, regs: Registers)
    requires WellFormed(Plain(names)) && j <= |names| == |a|
    ensures DenoteGroup(Plain(names), j, a, regs) == Ok(a[j..])
    decreases |names| - j
  {
    if j < |names| {
      DenotePlain(names, j + 1, a, regs);
      assert a[j..] == [a[j]] + a[j + 1..];
      assert Denote(Plain(names).children[j], a[j], regs) == Ok([a[j]]);
    }
  }

  /** Different local variables live in different registers. */
  predicate Apart(locals: Locals) {
    forall a, b :: a in locals && b in locals && a != b ==> locals[a] != locals[b]
  }

  lemma {:induction false} StoreAllApart(ts: seq<Target>, values: seq<Register>, next: Register, locals: Locals)
    requires |ts| == |values| && Apart(locals) && LocalsOutside(locals, next, next, next)
    ensures var s := StoreAll(ts, values, next, locals);
            Apart(s.locals) && next <= s.next && LocalsOutside(s.locals, next, next, s.next)
  {
    if |ts| > 0 {
      var n := |ts| - 1;
      StoreAllApart(ts[..n], values[..n], next, locals);
    }
  }

  lemma {:induction false} AssignPlain(st: State, names: seq<string>, vs: seq<Value>, locals: Locals, i: nat)
    requires |names| == |vs| && Declared(LocalTargets(names), locals) && Apart(locals) && i < |names|
    requires forall a, b :: 0 <= a < b < |names| ==> names[a] != names[b]
    ensures names[i] in locals
    ensures var out := AssignAll(st, LocalTargets(names), vs, locals);
            out.Running? && Get(out.state.regs, locals[names[i]]) == vs[i]
  {
    var n := |names| - 1;
    var ts := LocalTargets(names);
    assert ts[i].name in locals && ts[n].name in locals;
    assert ts[..n] == LocalTargets(names[..n]);
    if n > 0 {
      AssignPlain(st, names[..n], vs[..n], locals, if i < n then i else 0);
    }
  }

  /** `a, b, ... = x, y, ...` is simultaneous: every local variable ends up with the value its
      right-hand side had before the statement, even if that was another of the variables. */
  lemma ParallelAssignment(names: seq<string>, rhs: seq<Register>, next: Register, locals: Locals, st: State,
                           i: nat)
    requires 2 <= |names| == |rhs| <= 16 && i < |names|
    requires forall a, b :: 0 <= a < b < |names| ==> names[a] != names[b]
    requires forall k :: 0 <= k < |rhs| ==> rhs[k] < next
    requires Apart(locals) && forall name :: name in locals ==> locals[name] < next
    ensures var c := Compile(Plain(names), rhs, next, locals);
            var out := Run(c.code, st);
            && out.Running? && names[i] in c.locals
            && Get(out.state.regs, c.locals[names[i]]) == Get(st.regs, rhs[i])
  {
    hide Run, AssignAll, Extract;
    var p := Plain(names);
    TargetsPlain(names, 0);
    assert p.children[0..] == p.children && LocalTargets(names)[0..] == LocalTargets(names);
    assert Targets(p) == LocalTargets(names);
    var vs := KeyValues(rhs, st.regs);
    DenotePlain(names, 0, vs, st.regs);
    assert vs[0..] == vs;
    assert forall c :: c in p.children ==> c.Leaf? && KeysBelow(c, next);
    assert KeysBelow(p, next) && PlacesBelow(Targets(p), next);
    CompileCorrect(p, rhs, next, locals, st);
    var value := Gather(rhs, next);
    var e := Extract(p, value.values[0], value.next);
    ExtractCount(p, value.values[0], value.next);
    StoreAllApart(Targets(p), e.values, e.next, locals);
    StoreAllLocals(Targets(p), e.values, e.next, locals, next, e.next);
    AssignPlain(st, names, vs, Compile(p, rhs, next, locals).locals, i);
  }
}
