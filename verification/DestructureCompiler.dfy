/** The destructuring emitters as the compiler has them: they append to the code, bump the
    register counter and fill the table of leaf registers as they walk the pattern. */
module DestructureCompiler {
  import opened Wrappers
  import opened Destructure
  import opened DestructureEmit

  class Compiler {
    var code: seq<Instruction>
    var nextRegister: Register
    var values: seq<Register>
    var locals: Locals

    constructor (nextRegister: Register, locals: Locals)
      ensures code == [] && values == [] && this.nextRegister == nextRegister && this.locals == locals
    {
      code, values := [], [];
      this.nextRegister, this.locals := nextRegister, locals;
    }

    method AllocateRegister() returns (r: Register)
      modifies this`nextRegister
      ensures r == old(nextRegister) && nextRegister == r + 1
    {
      r := nextRegister;
      nextRegister := nextRegister + 1;
    }

    method Emit(i: Instruction)
      modifies this`code
      ensures code == old(code) + [i]
    {
      code := code + [i];
    }

    /** What has been emitted so far. */
    ghost function SoFar(): Emitted
      reads this
    {
      Emitted(code, nextRegister, values)
    }

    /** Emits the checks and loads for `p` matched against `value`. */
    method EmitExtract(p: Pattern, value: Register)
      requires WellFormed(p)
      modifies this`code, this`nextRegister, this`values
      ensures SoFar() == Join(old(SoFar()), Extract(p, value, old(nextRegister)))
      decreases p
    {
      match p
      case Leaf(_) =>
        values := values + [value];
      case Keyed(_, _, _) =>
        EmitKeyed(p, value);
      case Group(_, _) =>
        EmitGroup(p, value);
    }

    method EmitGroup(p: Pattern, value: Register)
      requires p.Group? && WellFormed(p)
      modifies this`code, this`nextRegister, this`values
      ensures SoFar() == Join(old(SoFar()), Extract(p, value, old(nextRegister)))
      decreases p, 1
    {
      hide WellFormed, ExtractGroup, ExtractChild, CountOperand;
      ghost var total := ExtractGroup(p, 0, value, nextRegister);
      ghost var checks := Emitted([CheckType(value, ArrayKind), CheckDestructureCount(value, CountOperand(p))],
                                  nextRegister, []);
      GroupParts(p, value, nextRegister);
      Emit(CheckType(value, ArrayKind));
      Emit(CheckDestructureCount(value, if p.rest.Some? then |p.children| - 1 + 0x8000 else |p.children|));
      assert SoFar() == Join(old(SoFar()), checks);
      JoinAssociative(old(SoFar()), checks, total);
      var index := 0;
      while index < |p.children|
        invariant index <= |p.children|
        invariant Join(SoFar(), ExtractGroup(p, index, value, nextRegister)) ==
                  Join(old(SoFar()), Extract(p, value, old(nextRegister)))
      {
        ghost var before := SoFar();
        GroupStep(p, index, value, nextRegister);
        ghost var child := ExtractChild(p, index, value, nextRegister);
        EmitChild(p, index, value);
        index := index + 1;
        JoinAssociative(before, child, ExtractGroup(p, index, value, child.next));
      }
      GroupEnd(p, value, nextRegister);
      JoinNothing(SoFar());
    }

    /** Loads and extracts child `index` of a group. */
    method EmitChild(p: Pattern, index: nat, value: Register)
      requires p.Group? && WellFormed(p) && index < |p.children|
      modifies this`code, this`nextRegister, this`values
      ensures SoFar() == Join(old(SoFar()), ExtractChild(p, index, value, old(nextRegister)))
      decreases p, 0
    {
      var element := EmitLoad(p, index, value);
      EmitExtract(p.children[index], element);
      ghost var e := Extract(p.children[index], element, element + 1);
      ghost var load := LoadShare(p, index, value, old(nextRegister)).0;
      assert (old(code) + load) + e.code == old(code) + (load + e.code);
    }

    /** Loads the share of child `index` of a group into a fresh register. */
    method EmitLoad(p: Pattern, index: nat, value: Register) returns (element: Register)
      requires p.Group? && WellFormed(p) && index < |p.children|
      modifies this`code, this`nextRegister
      ensures var (load, e) := LoadShare(p, index, value, old(nextRegister));
              element == e && code == old(code) + load && nextRegister == element + 1
    {
      var count := |p.children|;
      if p.rest == Some(index) {
        element := AllocateRegister();
        Emit(ArrayMiddle(element, value, index * 256 + (count - index - 1)));
      } else if p.rest.Some? && index > p.rest.value {
        element := AllocateRegister();
        Emit(ArraySuffix(element, value, count - index));
      } else {
        var number := AllocateRegister();
        Emit(Constant(number, Int(index)));
        element := AllocateRegister();
        Emit(IndexGet(element, value, number));
      }
    }

    method EmitKeyed(p: Pattern, value: Register)
      requires p.Keyed? && WellFormed(p)
      modifies this`code, this`nextRegister, this`values
      ensures SoFar() == Join(old(SoFar()), Extract(p, value, old(nextRegister)))
      decreases p, 1
    {
      hide WellFormed, ExtractKeyed, ExtractEntry;
      ghost var total := ExtractKeyed(p, 0, value, nextRegister);
      ghost var check := Emitted([CheckType(value, HashKind)], nextRegister, []);
      KeyedParts(p, value, nextRegister);
      Emit(CheckType(value, HashKind));
      assert SoFar() == Join(old(SoFar()), check);
      JoinAssociative(old(SoFar()), check, total);
      var index := 0;
      while index < |p.entries|
        invariant index <= |p.entries|
        invariant Join(SoFar(), ExtractKeyed(p, index, value, nextRegister)) ==
                  Join(old(SoFar()), Extract(p, value, old(nextRegister)))
      {
        ghost var before := SoFar();
        KeyedStep(p, index, value, nextRegister);
        ghost var entry := ExtractEntry(p, index, value, nextRegister);
        EmitEntry(p, index, value);
        index := index + 1;
        JoinAssociative(before, entry, ExtractKeyed(p, index, value, entry.next));
      }
      KeyedEnd(p, value, nextRegister);
      JoinNothing(SoFar());
      if p.others.Some? {
        EmitRest(p.keys, value);
      }
    }

    /** Checks, loads and extracts entry `index` of a hash pattern. */
    method EmitEntry(p: Pattern, index: nat, value: Register)
      requires p.Keyed? && WellFormed(p) && index < |p.entries|
      modifies this`code, this`nextRegister, this`values
      ensures SoFar() == Join(old(SoFar()), ExtractEntry(p, index, value, old(nextRegister)))
      decreases p, 0
    {
      Emit(CheckHashKey(value, p.keys[index]));
      var element := AllocateRegister();
      Emit(IndexGet(element, value, p.keys[index]));
      ghost var load := [CheckHashKey(value, p.keys[index]), IndexGet(element, value, p.keys[index])];
      assert code == old(code) + load;
      EmitExtract(p.entries[index], element);
      ghost var e := Extract(p.entries[index], element, element + 1);
      assert (old(code) + load) + e.code == old(code) + (load + e.code);
    }

    /** Copies `sources` into fresh consecutive registers, at least one. */
    method EmitMoves(sources: seq<Register>) returns (base: Register)
      modifies this`code, this`nextRegister
      ensures base == old(nextRegister) && code == old(code) + MoveKeys(sources, base)
      ensures nextRegister == base + if |sources| == 0 then 1 else |sources|
    {
      base := AllocateRegister();
      var extra := 1;
      while extra < |sources|
        invariant 1 <= extra && (|sources| > 0 ==> extra <= |sources|) && (|sources| == 0 ==> extra == 1)
        invariant nextRegister == base + extra && code == old(code)
      {
        var _ := AllocateRegister();
        extra := extra + 1;
      }
      var index := 0;
      while index < |sources|
        invariant index <= |sources| && nextRegister == base + extra
        invariant code == old(code) + MoveKeys(sources[..index], base)
      {
        Emit(Move(base + index, sources[index]));
        assert sources[..index + 1][..index] == sources[..index];
        index := index + 1;
      }
      assert sources[..index] == sources;
    }

    /** Gathers what a hash holds besides `keys`. */
    method EmitRest(keys: seq<Register>, value: Register)
      modifies this`code, this`nextRegister, this`values
      ensures SoFar() == Join(old(SoFar()), RestOfHash(keys, value, old(nextRegister)))
    {
      var base := EmitMoves(keys);
      var excluded := AllocateRegister();
      Emit(NewArray(excluded, base, |keys|));
      var rest := AllocateRegister();
      Emit(HashRest(rest, value, excluded));
      values := values + [rest];
    }

    /** Stores one leaf, giving a new local variable a register. */
    method EmitStore(t: Target, value: Register) returns (result: Register)
      modifies this`code, this`nextRegister, this`locals
      ensures var s := StoreOne(t, value, old(nextRegister), old(locals));
              code == old(code) + s.code && nextRegister == s.next && locals == s.locals && result == s.last
    {
      match t
      case Indexed(receiver, index) =>
        Emit(IndexSet(receiver, index, value));
        result := value;
      case Member(receiver, name) =>
        Emit(InvokeSetter(receiver, name, value));
        result := value;
      case InstanceVariable(name) =>
        Emit(SetInstanceVariable(name, value));
        result := value;
      case ClassVariable(name) =>
        Emit(SetClassVariable(name, value));
        result := value;
      case Local(name) =>
        if name !in locals {
          var home := AllocateRegister();
          locals := locals[name := home];
        }
        result := locals[name];
        Emit(Move(result, value));
    }

    /** Since the old state, the targets `ts` have been stored from the registers `from`. */
    twostate predicate Stored(ts: seq<Target>, from: seq<Register>, result: Register)
      requires |ts| == |from|
      reads this
    {
      var s := StoreAll(ts, from, old(nextRegister), old(locals));
      && code == old(code) + s.code && nextRegister == s.next && locals == s.locals
      && (|ts| > 0 ==> result == s.last)
    }

    /** Stores the leaves of `p` in order, from the leaf registers number `done` on. */
    method EmitStores(p: Pattern, done: nat) returns (now: nat, result: Register)
      requires WellFormed(p) && done + |Targets(p)| <= |values|
      modifies this`code, this`nextRegister, this`locals
      ensures now == done + |Targets(p)| && Stored(Targets(p), values[done..now], result)
      decreases p, 1
    {
      match p
      case Leaf(t) =>
        hide StoreAll;
        StoreAllOne(t, values[done], nextRegister, locals);
        result := EmitStore(t, values[done]);
        now := done + 1;
        assert values[done..now] == [values[done]];
      case Group(children, _) =>
        now, result := EmitStoresOf(children, done);
      case Keyed(_, _, _) =>
        now, result := EmitStoresKeyed(p, done);
    }

    method EmitStoresKeyed(p: Pattern, done: nat) returns (now: nat, result: Register)
      requires p.Keyed? && WellFormed(p) && done + |Targets(p)| <= |values|
      modifies this`code, this`nextRegister, this`locals
      ensures now == done + |Targets(p)| && Stored(Targets(p), values[done..now], result)
      decreases p, 0
    {
      hide StoreAll, TargetsOf, StoreOne;
      ghost var inner := TargetsOf(p.entries);
      now, result := EmitStoresOf(p.entries, done);
      if p.others.Some? {
        ghost var middle, from := now, values[done..now];
        StoreAllMore(inner, from, p.others.value, values[now], old(nextRegister), old(locals));
        result := EmitStore(p.others.value, values[now]);
        now := now + 1;
        assert values[done..now] == from + [values[middle]];
        assert Targets(p) == inner + [p.others.value];
      } else {
        assert Targets(p) == inner;
      }
    }

    method EmitStoresOf(ps: seq<Pattern>, done: nat) returns (now: nat, result: Register)
      requires (forall c :: c in ps ==> WellFormed(c)) && done + |TargetsOf(ps)| <= |values|
      modifies this`code, this`nextRegister, this`locals
      ensures now == done + |TargetsOf(ps)| && Stored(TargetsOf(ps), values[done..now], result)
      decreases ps, 0
    {
      hide StoreAll, Targets, TargetsOf;
      now, result := done, 0;
      var index := 0;
      TargetsOfNone(ps, nextRegister, locals);
      assert values[done..now] == [];
      while index < |ps|
        invariant index <= |ps| && now == done + |TargetsOf(ps[..index])| <= done + |TargetsOf(ps)|
        invariant Stored(TargetsOf(ps[..index]), values[done..now], result)
      {
        TargetsOfStep(ps, index);
        ghost var before, middle := now, nextRegister;
        ghost var locals1 := locals;
        ghost var first := result;
        now, result := EmitStores(ps[index], now);
        assert values[done..now] == values[done..before] + values[before..now];
        TargetsNonEmpty(ps[index]);
        StoreAllAppend(TargetsOf(ps[..index]), values[done..before], Targets(ps[index]), values[before..now],
                       old(nextRegister), old(locals));
        index := index + 1;
      }
      assert ps[..index] == ps;
    }

    /** `p = rhs...`: evaluates the shape first, then stores, and returns the register of the
        statement's value. */
    method CompileMultiAssignment(p: Pattern, rhs: seq<Register>) returns (result: Register)
      requires WellFormed(p) && |rhs| > 0 && values == []
      modifies this
      ensures var c := Compile(p, rhs, old(nextRegister), old(locals));
              code == old(code) + c.code && nextRegister == c.next && locals == c.locals && result == c.last
    {
      hide Extract, StoreAll, WellFormed, Targets, MoveKeys;
      var value := EmitRightHandSide(rhs);
      ghost var gathered := Gather(rhs, old(nextRegister));
      EmitExtract(p, value);
      ghost var e := Extract(p, value, gathered.next);
      ExtractCount(p, value, gathered.next);
      TargetsNonEmpty(p);
      assert values == [] + e.values == e.values;
      ghost var s := StoreAll(Targets(p), e.values, e.next, locals);
      var stored;
      stored, result := EmitStores(p, 0);
      assert values[0..stored] == e.values;
      assert code == ((old(code) + gathered.code) + e.code) + s.code;
      assert code == old(code) + (gathered.code + e.code + s.code);
    }

    /** The value to destructure: the one right-hand side, or an array of them. */
    method EmitRightHandSide(rhs: seq<Register>) returns (value: Register)
      requires |rhs| > 0
      modifies this`code, this`nextRegister
      ensures var g := Gather(rhs, old(nextRegister));
              code == old(code) + g.code && nextRegister == g.next && value == g.values[0]
    {
      value := rhs[0];
      if |rhs| > 1 {
        var base := EmitMoves(rhs);
        value := AllocateRegister();
        Emit(NewArray(value, base, |rhs|));
      }
    }
  }

  lemma StoreAllOne(t: Target, value: Register, next: Register, locals: Locals)
    ensures StoreAll([t], [value], next, locals) == StoreOne(t, value, next, locals)
  {
    var s := StoreOne(t, value, next, locals);
    assert [t][..0] == [] && [value][..0] == [];
    assert [] + s.code == s.code;
  }

  lemma StoreAllMore(ts: seq<Target>, from: seq<Register>, t: Target, value: Register, next: Register,
                     locals: Locals)
    requires |ts| == |from|
    ensures var before := StoreAll(ts, from, next, locals);
            StoreAll(ts + [t], from + [value], next, locals) ==
            After(before, StoreOne(t, value, before.next, before.locals))
  {
    assert (ts + [t])[..|ts|] == ts && (from + [value])[..|ts|] == from;
  }

  lemma AfterAssociative(a: Stores, b: Stores, c: Stores)
    ensures After(After(a, b), c) == After(a, After(b, c))
  {
    assert (a.code + b.code) + c.code == a.code + (b.code + c.code);
  }

  /** Storing one list and then another is storing both. */
  lemma {:induction false} StoreAllAppend(ts: seq<Target>, from: seq<Register>, ts': seq<Target>,
                                          from': seq<Register>, next: Register, locals: Locals)
    requires |ts| == |from| && |ts'| == |from'| > 0
    ensures var a := StoreAll(ts, from, next, locals);
            StoreAll(ts + ts', from + from', next, locals) == After(a, StoreAll(ts', from', a.next, a.locals))
    decreases |ts'|
  {
    hide StoreAll, StoreOne, After;
    var n := |ts'| - 1;
    var a := StoreAll(ts, from, next, locals);
    assert ts'[..n] + [ts'[n]] == ts' && from'[..n] + [from'[n]] == from';
    if n == 0 {
      assert ts' == [ts'[0]] && from' == [from'[0]];
      StoreAllOne(ts'[0], from'[0], a.next, a.locals);
      StoreAllMore(ts, from, ts'[0], from'[0], next, locals);
    } else {
      assert (ts + ts'[..n]) + [ts'[n]] == ts + ts' && (from + from'[..n]) + [from'[n]] == from + from';
      StoreAllAppend(ts, from, ts'[..n], from'[..n], next, locals);
      var b := StoreAll(ts'[..n], from'[..n], a.next, a.locals);
      StoreAllMore(ts'[..n], from'[..n], ts'[n], from'[n], a.next, a.locals);
      StoreAllMore(ts + ts'[..n], from + from'[..n], ts'[n], from'[n], next, locals);
      AfterKeeps(a, b);
      AfterAssociative(a, b, StoreOne(ts'[n], from'[n], b.next, b.locals));
    }
  }

  lemma AfterKeeps(a: Stores, b: Stores)
    ensures After(a, b).next == b.next && After(a, b).locals == b.locals
  {
  }

  lemma TargetsOfNone(ps: seq<Pattern>, next: Register, locals: Locals)
    ensures TargetsOf(ps[..0]) == []
    ensures StoreAll([], [], next, locals) == Stores([], next, locals, 0)
  {
  }

  lemma {:induction false} TargetsOfAppend(ps: seq<Pattern>, qs: seq<Pattern>)
    ensures TargetsOf(ps + qs) == TargetsOf(ps) + TargetsOf(qs)
  {
    if |ps| == 0 {
      assert ps + qs == qs;
    } else {
      assert (ps + qs)[1..] == ps[1..] + qs;
      TargetsOfAppend(ps[1..], qs);
    }
  }

  lemma TargetsOfStep(ps: seq<Pattern>, i: nat)
    requires i < |ps|
    ensures TargetsOf(ps[..i + 1]) == TargetsOf(ps[..i]) + Targets(ps[i])
    ensures |TargetsOf(ps[..i])| + |Targets(ps[i])| <= |TargetsOf(ps)|
  {
    assert ps[..i + 1] == ps[..i] + [ps[i]] && ps == ps[..i + 1] + ps[i + 1..];
    TargetsOfAppend(ps[..i], [ps[i]]);
    TargetsOfAppend(ps[..i + 1], ps[i + 1..]);
    assert [ps[i]][1..] == [];
  }

  lemma GroupParts(p: Pattern, value: Register, next: Register)
    requires p.Group? && WellFormed(p)
    ensures CountOperand(p) == if p.rest.Some? then |p.children| - 1 + 0x8000 else |p.children|
    ensures Extract(p, value, next) ==
            Join(Emitted([CheckType(value, ArrayKind), CheckDestructureCount(value, CountOperand(p))], next, []),
                 ExtractGroup(p, 0, value, next))
  {
    var e := ExtractGroup(p, 0, value, next);
    assert [] + e.values == e.values;
  }

  lemma GroupStep(p: Pattern, j: nat, value: Register, next: Register)
    requires p.Group? && WellFormed(p) && j < |p.children|
    ensures ExtractGroup(p, j, value, next) ==
            Join(ExtractChild(p, j, value, next),
                 ExtractGroup(p, j + 1, value, ExtractChild(p, j, value, next).next))
  {
  }

  lemma GroupEnd(p: Pattern, value: Register, next: Register)
    requires p.Group? && WellFormed(p)
    ensures ExtractGroup(p, |p.children|, value, next) == Emitted([], next, [])
  {
  }

  lemma KeyedParts(p: Pattern, value: Register, next: Register)
    requires p.Keyed? && WellFormed(p)
    ensures |p.keys| == |p.entries|
    ensures Extract(p, value, next) ==
            Join(Emitted([CheckType(value, HashKind)], next, []), ExtractKeyed(p, 0, value, next))
  {
    var e := ExtractKeyed(p, 0, value, next);
    assert [] + e.values == e.values;
  }

  lemma KeyedStep(p: Pattern, j: nat, value: Register, next: Register)
    requires p.Keyed? && WellFormed(p) && j < |p.entries|
    ensures ExtractKeyed(p, j, value, next) ==
            Join(ExtractEntry(p, j, value, next),
                 ExtractKeyed(p, j + 1, value, ExtractEntry(p, j, value, next).next))
  {
  }

  lemma KeyedEnd(p: Pattern, value: Register, next: Register)
    requires p.Keyed? && WellFormed(p)
    ensures ExtractKeyed(p, |p.entries|, value, next) ==
            if p.others.Some? then RestOfHash(p.keys, value, next) else Emitted([], next, [])
  {
  }
}
