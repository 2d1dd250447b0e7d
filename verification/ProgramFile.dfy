/** Writing and reading a compiled program: a buffer that grows, and a cursor that moves. */
module ProgramFile {
  import opened Wrappers
  import opened ZeroRuns
  import opened FunctionCodec
  import opened ClassCodec
  import opened ProgramCodec

  // ---------------------------------------------------------------------------------
  // Writing.

  class Writer {
    var bytes: Bytes

    constructor ()
      ensures bytes == []
    {
      bytes := [];
    }

    method Append(b: Bytes)
      modifies this
      ensures bytes == old(bytes) + b
    {
      bytes := bytes + b;
    }

    method AppendStrings(strings: seq<Bytes>)
      modifies this
      ensures bytes == old(bytes) + WriteStrings(strings)
    {
      hide Number;
      var i := 0;
      assert strings[0..] == strings;
      while i < |strings|
        invariant 0 <= i <= |strings|
        invariant old(bytes) + WriteStrings(strings) == bytes + WriteStrings(strings[i..])
      {
        assert strings[i..][1..] == strings[i + 1..];
        Append(Number(|strings[i]|, 8));
        Append(strings[i]);
        i := i + 1;
      }
    }

    method AppendFunction(l: Layout, f: Function)
      requires Fits(l) && |f.image| == l.size
      modifies this
      ensures bytes == old(bytes) + WriteFunction(l, f)
    {
      hide Encode, WriteStrings, Clear;
      var image := WriteImage(Clear(l.cleared, f.image));
      Append(image);
      Append(f.code);
      Append(f.lines);
      Append(f.columns);
      Append(f.constants);
      AppendStrings(f.strings);
      Append(f.typeSets);
    }

    method AppendFunctions(l: Layout, fs: seq<Function>, skip: nat)
      requires Fits(l) && skip <= |fs| && forall i :: 0 <= i < |fs| ==> |fs[i].image| == l.size
      modifies this
      ensures bytes == old(bytes) + WriteFunctions(l, fs[skip..])
    {
      hide WriteFunction, Fits;
      var i := skip;
      while i < |fs|
        invariant skip <= i <= |fs|
        invariant old(bytes) + WriteFunctions(l, fs[skip..]) == bytes + WriteFunctions(l, fs[i..])
      {
        assert fs[i..][1..] == fs[i + 1..];
        AppendFunction(l, fs[i]);
        i := i + 1;
      }
    }

    method AppendRecords(es: seq<Bytes>)
      modifies this
      ensures bytes == old(bytes) + WriteRecords(es)
    {
      var i := 0;
      assert es[0..] == es;
      while i < |es|
        invariant 0 <= i <= |es|
        invariant old(bytes) + WriteRecords(es) == bytes + WriteRecords(es[i..])
      {
        assert es[i..][1..] == es[i + 1..];
        Append(es[i]);
        i := i + 1;
      }
    }

    method AppendTable(es: seq<Bytes>)
      modifies this
      ensures bytes == old(bytes) + WriteTable(es)
    {
      hide Number, WriteRecords;
      Append(Number(|es|, 8));
      AppendRecords(es);
    }

    method AppendPlace(p: Place)
      modifies this
      ensures bytes == old(bytes) + WritePlace(p)
    {
      Append(p.line);
      Append(p.column);
      Append(p.start);
    }

    method AppendMethods(m: Methods)
      modifies this
      ensures bytes == old(bytes) + WriteMethods(m)
    {
      hide Number, WriteRecords;
      Append(Number(|m.instance|, 8));
      Append(Number(|m.singleton|, 8));
      AppendRecords(m.instance);
      AppendRecords(m.singleton);
    }

    method AppendArguments(a: Arguments)
      modifies this
      ensures bytes == old(bytes) + WriteArguments(a)
    {
      hide WriteFlags, Held;
      AppendFlags(a);
      AppendHeld(a.parent);
      AppendHeld(a.fixedOnes);
    }

    method AppendFlags(a: Arguments)
      modifies this
      ensures bytes == old(bytes) + WriteFlags(a)
    {
      hide Flag;
      Append(Flag(a.isStruct));
      Append(Flag(a.fixedOnes.Some?));
      Append(Flag(a.swaps));
      Append(Flag(a.parent.Some?));
    }

    method AppendHeld(b: Option<Bytes>)
      modifies this
      ensures bytes == old(bytes) + Held(b)
    {
      if b.Some? {
        Append(b.value);
      }
    }

    method AppendFields(f: Fields)
      modifies this
      ensures bytes == old(bytes) + WriteFields(f)
    {
      hide Number, WriteRecords;
      Append(Number(|f.names|, 8));
      AppendRecords(f.names);
      AppendRecords(f.statuses);
      AppendRecords(f.classes);
    }

    method AppendClass(c: Class)
      modifies this
      ensures bytes == old(bytes) + WriteClass(c)
    {
      hide WriteArguments, WritePlace, WriteMethods, WriteFields, WriteTable;
      Append(c.heading.name);
      Append(c.heading.parameter);
      Append(c.heading.secondParameter);
      assert bytes == old(bytes) + WriteHeading(c.heading);
      hide WriteHeading;
      AppendArguments(c.arguments);
      AppendPlace(c.place);
      Append(c.superclass);
      AppendMethods(c.methods);
      AppendFields(c.fields);
      AppendTable(c.variables);
      Append(c.discovered);
      ghost var was := old(bytes);
      ClassBytes(c, []);
      assert WriteClass(c) + [] == WriteClass(c);
      assert c.discovered + [] == c.discovered;
      assert bytes == was + (WriteHeading(c.heading) + (WriteArguments(c.arguments) + (WritePlace(c.place) +
        (c.superclass + (WriteMethods(c.methods) + (WriteFields(c.fields) + (WriteTable(c.variables) + c.discovered)))))));
    }

    method AppendModule(m: Module)
      modifies this
      ensures bytes == old(bytes) + WriteModule(m)
    {
      hide WritePlace, WriteMethods, WriteTable;
      Append(m.name);
      AppendPlace(m.place);
      AppendMethods(m.methods);
      Append(m.claim);
      AppendTable(m.fields);
      Append(m.discovered);
    }

    method AppendInterface(i: Interface)
      modifies this
      ensures bytes == old(bytes) + WriteInterface(i)
    {
      hide WritePlace, WriteTable;
      Append(i.name);
      AppendPlace(i.place);
      AppendTable(i.methods);
      Append(i.discovered);
    }

    method AppendClasses(cs: seq<Class>)
      modifies this
      ensures bytes == old(bytes) + WriteMany(ClassWriter(), cs)
    {
      hide WriteClass;
      var i := 0;
      assert cs[0..] == cs;
      while i < |cs|
        invariant 0 <= i <= |cs|
        invariant old(bytes) + WriteMany(ClassWriter(), cs) == bytes + WriteMany(ClassWriter(), cs[i..])
      {
        assert cs[i..][1..] == cs[i + 1..];
        AppendClass(cs[i]);
        i := i + 1;
      }
    }

    method AppendModules(ms: seq<Module>)
      modifies this
      ensures bytes == old(bytes) + WriteMany(ModuleWriter(), ms)
    {
      hide WriteModule;
      var i := 0;
      assert ms[0..] == ms;
      while i < |ms|
        invariant 0 <= i <= |ms|
        invariant old(bytes) + WriteMany(ModuleWriter(), ms) == bytes + WriteMany(ModuleWriter(), ms[i..])
      {
        assert ms[i..][1..] == ms[i + 1..];
        AppendModule(ms[i]);
        i := i + 1;
      }
    }

    method AppendInterfaces(fs: seq<Interface>)
      modifies this
      ensures bytes == old(bytes) + WriteMany(InterfaceWriter(), fs)
    {
      hide WriteInterface;
      var i := 0;
      assert fs[0..] == fs;
      while i < |fs|
        invariant 0 <= i <= |fs|
        invariant old(bytes) + WriteMany(InterfaceWriter(), fs) == bytes + WriteMany(InterfaceWriter(), fs[i..])
      {
        assert fs[i..][1..] == fs[i + 1..];
        AppendInterface(fs[i]);
        i := i + 1;
      }
    }

    /** The program without its first `skip` functions. */
    method AppendProgram(m: Format, p: Program, skip: nat)
      requires Fits(m.layout) && skip <= |p.functions| && |p.entry.image| == m.layout.size
      requires forall i :: 0 <= i < |p.functions| ==> |p.functions[i].image| == m.layout.size
      modifies this
      ensures bytes == old(bytes) + WriteBody(m, p, skip)
    {
      hide WriteFunction, WriteFunctions, Number, WriteMany, WriteRecords, Fits;
      AppendFunction(m.layout, p.entry);
      Append(Number(|p.functions| - skip, 8));
      AppendFunctions(m.layout, p.functions, skip);
      ghost var head := bytes;
      Append(Number(|p.classes|, 8));
      Append(Number(|p.interfaces|, 8));
      Append(Number(|p.modules|, 8));
      Append(Number(|p.constants|, 8));
      AppendClasses(p.classes);
      AppendInterfaces(p.interfaces);
      AppendModules(p.modules);
      AppendRecords(p.constants);
      Append(p.rangeClass);
      assert bytes == head + WriteTables(p);
    }
  }

  /** How many functions the program and the template share. */
  method CountShared(l: Layout, fs: seq<Function>, template: seq<Function>) returns (n: nat)
    ensures n == Shared(l, fs, template)
  {
    hide Identical;
    if |template| == 0 || |fs| < |template| {
      return 0;
    }
    var i := 0;
    while i < |template|
      invariant 0 <= i <= |template| && forall j :: 0 <= j < i ==> Identical(l, fs[j], template[j])
    {
      if !Identical(l, fs[i], template[i]) {
        return 0;
      }
      i := i + 1;
    }
    return |template|;
  }

  // ---------------------------------------------------------------------------------
  // Reading.

  /** The rest of the data is what a read left. */
  ghost predicate Left<T>(r: Option<(T, Bytes)>, ok: bool, value: T, rest: Bytes) {
    if ok then r == Some((value, rest)) else r.None?
  }

  /** The same with an optional value. */
  ghost predicate Read<T>(r: Option<(T, Bytes)>, value: Option<T>, rest: Bytes) {
    if value.Some? then r == Some((value.value, rest)) else r.None?
  }

  class Reader {
    const data: Bytes
    var at: nat

    constructor (data: Bytes)
      ensures this.data == data && at == 0
    {
      this.data := data;
      at := 0;
    }

    ghost predicate Valid()
      reads this
    {
      at <= |data|
    }

    ghost function Rest(): Bytes
      requires Valid()
      reads this
    {
      data[at..]
    }

    method TakeBytes(n: nat) returns (ok: bool, b: Bytes)
      requires Valid()
      modifies this
      ensures Valid() && Left(Chop(old(Rest()), n), ok, b, Rest())
    {
      b := [];
      if n > |data| - at {
        return false, b;
      }
      b := data[at..at + n];
      assert b == Rest()[..n];
      assert Rest()[n..] == data[at + n..];
      at := at + n;
      ok := true;
    }

    method TakeNumber() returns (ok: bool, n: nat)
      requires Valid()
      modifies this
      ensures Valid() && Left(ReadNumber(old(Rest())), ok, n, Rest())
    {
      hide Value;
      var b;
      ok, b := TakeBytes(8);
      n := if ok then Value(b) else 0;
    }

    method TakeStrings(count: nat) returns (ok: bool, strings: seq<Bytes>)
      requires Valid()
      modifies this
      ensures Valid() && Left(ReadStrings(old(Rest()), count), ok, strings, Rest())
    {
      hide ReadNumber, Chop;
      strings := [];
      var i := 0;
      ghost var all := ReadStrings(Rest(), count);
      AddedNone(all);
      while i < count
        invariant 0 <= i <= count && Valid()
        invariant all == Added(strings, ReadStrings(Rest(), count - i))
      {
        ghost var before := Rest();
        var length, b;
        ok, length := TakeNumber();
        if !ok || length > MAX_STRING {
          return false, strings;
        }
        ok, b := TakeBytes(length);
        if !ok {
          return;
        }
        AddedStep(strings, b, ReadStrings(Rest(), count - i - 1));
        strings := strings + [b];
        i := i + 1;
      }
      AddedEnd(strings, Rest());
      ok := true;
    }

    method TakeImage(size: nat) returns (ok: bool, image: Bytes)
      requires Valid()
      modifies this
      ensures Valid()
      ensures var r := Decode(old(Rest()), size);
              if ok then r.Some? && image == r.value.0 && Rest() == old(Rest())[r.value.1..] else r.None?
    {
      hide Decode;
      var view := new Byte[size](_ => 0);
      var cursor;
      ok, cursor := ReadImage(data, at, view);
      image := view[..];
      if ok {
        assert data[cursor..] == data[at..][cursor - at..];
        at := cursor;
      }
    }

    method TakeTables(l: Layout, image: Bytes) returns (ok: bool, f: Function)
      requires Valid() && Fits(l) && |image| == l.size
      modifies this
      ensures Valid() && Left(ReadTables(l, image, old(Rest())), ok, f, Rest())
    {
      hide Chop, ReadStrings, CountAt, Fits;
      f := Function(image, [], [], [], [], [], []);
      FitsParts(l);
      var code, constants, strings, typeSets :=
        CountAt(image, l.codeAt), CountAt(image, l.constantAt), CountAt(image, l.stringAt), CountAt(image, l.typeSetAt);
      var remaining := |data| - at;
      if code > remaining || constants > remaining / l.valueSize || typeSets > remaining / l.typeSetSize {
        return false, f;
      }
      var a, b, c, d, e, s;
      ok, a := TakeBytes(code);
      if !ok {
        return;
      }
      ok, b := TakeBytes(4 * code);
      if !ok {
        return;
      }
      ok, c := TakeBytes(4 * code);
      if !ok {
        return;
      }
      ok, d := TakeBytes(constants * l.valueSize);
      if !ok {
        return;
      }
      if strings > (|data| - at) / 8 {
        return false, f;
      }
      ok, s := TakeStrings(strings);
      if !ok {
        return;
      }
      ok, e := TakeBytes(typeSets * l.typeSetSize);
      if !ok {
        return;
      }
      f := Function(image, a, b, c, d, s, e);
    }

    method TakeFunction(l: Layout) returns (ok: bool, f: Function)
      requires Valid() && Fits(l)
      modifies this
      ensures Valid() && Left(ReadFunction(l, old(Rest())), ok, f, Rest())
    {
      hide Decode, ReadTables, Admissible, Fits;
      f := Function([], [], [], [], [], [], []);
      var image;
      ok, image := TakeImage(l.size);
      if !ok {
        return;
      }
      if !Admissible(l, image) {
        return false, f;
      }
      ok, f := TakeTables(l, image);
    }

    method TakeFunctions(l: Layout, count: nat) returns (ok: bool, fs: seq<Function>)
      requires Valid() && Fits(l)
      modifies this
      ensures Valid() && Left(ReadFunctions(l, old(Rest()), count), ok, fs, Rest())
    {
      hide ReadFunction, Fits;
      fs := [];
      var i := 0;
      ghost var all := ReadFunctions(l, Rest(), count);
      AddedNone(all);
      while i < count
        invariant 0 <= i <= count && Valid()
        invariant all == Added(fs, ReadFunctions(l, Rest(), count - i))
      {
        var f;
        ok, f := TakeFunction(l);
        if !ok {
          return;
        }
        AddedStep(fs, f, ReadFunctions(l, Rest(), count - i - 1));
        fs := fs + [f];
        i := i + 1;
      }
      AddedEnd(fs, Rest());
      ok := true;
    }

    method TakeRecords(size: nat, count: nat) returns (ok: bool, es: seq<Bytes>)
      requires Valid()
      modifies this
      ensures Valid() && Left(ReadRecords(size, old(Rest()), count), ok, es, Rest())
    {
      hide Chop;
      es := [];
      var i := 0;
      ghost var all := ReadRecords(size, Rest(), count);
      AddedNone(all);
      while i < count
        invariant 0 <= i <= count && Valid()
        invariant all == Added(es, ReadRecords(size, Rest(), count - i))
      {
        var e;
        ok, e := TakeBytes(size);
        if !ok {
          return;
        }
        AddedStep(es, e, ReadRecords(size, Rest(), count - i - 1));
        es := es + [e];
        i := i + 1;
      }
      AddedEnd(es, Rest());
      ok := true;
    }

    method TakeTable(size: nat, limit: nat) returns (ok: bool, es: seq<Bytes>)
      requires Valid()
      modifies this
      ensures Valid() && Left(ReadTable(size, limit, old(Rest())), ok, es, Rest())
    {
      hide ReadNumber, ReadRecords;
      es := [];
      var n;
      ok, n := TakeNumber();
      if !ok || n > limit {
        return false, es;
      }
      ok, es := TakeRecords(size, n);
    }

    method TakePlace() returns (ok: bool, p: Place)
      requires Valid()
      modifies this
      ensures Valid() && Left(ReadPlace(old(Rest())), ok, p, Rest())
    {
      hide Chop;
      p := Place([], [], []);
      var line, column, start;
      ok, line := TakeBytes(4);
      if !ok {
        return;
      }
      ok, column := TakeBytes(4);
      if !ok {
        return;
      }
      ok, start := TakeBytes(8);
      p := Place(line, column, start);
    }

    method TakeMethods(s: Sizes) returns (ok: bool, m: Methods)
      requires Valid()
      modifies this
      ensures Valid() && Left(ReadMethods(s, old(Rest())), ok, m, Rest())
    {
      hide ReadNumber, ReadRecords, Cleared;
      m := Methods([], []);
      var a, b, c, d;
      ok, a := TakeNumber();
      if !ok {
        return;
      }
      ok, b := TakeNumber();
      if !ok || a > MAX_METHODS || b > MAX_METHODS {
        return false, m;
      }
      ok, c := TakeRecords(s.methods, a);
      if !ok {
        return;
      }
      ok, d := TakeRecords(s.methods, b);
      m := Methods(Cleared(s, c), Cleared(s, d));
    }

    method TakeHeading() returns (ok: bool, h: Heading)
      requires Valid()
      modifies this
      ensures Valid() && Left(ReadHeading(old(Rest())), ok, h, Rest())
    {
      h := Heading([], [], []);
      var a, b, c;
      ok, a := TakeBytes(NAME);
      if !ok {
        return;
      }
      ok, b := TakeBytes(NAME);
      if !ok || 0 !in b {
        return false, h;
      }
      ok, c := TakeBytes(NAME);
      if !ok || 0 !in c || (c[0] != 0 && b[0] == 0) {
        return false, h;
      }
      h := Heading(a, b, c);
    }

    method TakeFlag() returns (ok: bool, b: bool)
      requires Valid()
      modifies this
      ensures Valid() && Left(ReadFlag(old(Rest())), ok, b, Rest())
    {
      var a;
      ok, a := TakeBytes(1);
      b := false;
      if !ok || a[0] > 1 {
        return false, b;
      }
      b := a[0] == 1;
    }

    method TakeHeld(present: bool, size: nat) returns (ok: bool, b: Option<Bytes>)
      requires Valid()
      modifies this
      ensures Valid() && Left(ReadHeld(present, size, old(Rest())), ok, b, Rest())
    {
      hide Chop;
      b := None;
      ok := true;
      if present {
        var a;
        ok, a := TakeBytes(size);
        b := Some(a);
      }
    }

    method TakeArguments(s: Sizes, generic: bool) returns (ok: bool, r: Arguments)
      requires Valid()
      modifies this
      ensures Valid() && Left(ReadArguments(s, generic, old(Rest())), ok, r, Rest())
    {
      hide ReadFlag, ReadHeld;
      r := Arguments(false, false, None, None);
      var a, b, c, d, e, f;
      ok, a := TakeFlag();
      if !ok {
        return;
      }
      ok, b := TakeFlag();
      if !ok {
        return;
      }
      ok, c := TakeFlag();
      if !ok {
        return;
      }
      ok, d := TakeFlag();
      if !ok {
        return;
      }
      ok, e := TakeHeld(d, s.bindings);
      if !ok {
        return;
      }
      ok, f := TakeHeld(b, s.bindings);
      if !ok || (b && !generic) {
        return false, r;
      }
      r := Arguments(a, c, e, f);
    }

    method TakeFields() returns (ok: bool, f: Fields)
      requires Valid()
      modifies this
      ensures Valid() && Left(ReadFields(old(Rest())), ok, f, Rest())
    {
      hide ReadNumber, ReadRecords;
      f := Fields([], [], []);
      var n, a, b, c;
      ok, n := TakeNumber();
      if !ok || n > MAX_FIELDS {
        return false, f;
      }
      ok, a := TakeRecords(NAME, n);
      if !ok {
        return;
      }
      ok, b := TakeRecords(STATUS, n);
      if !ok {
        return;
      }
      ok, c := TakeRecords(CLASS_NUMBER, n);
      f := Fields(a, b, c);
    }

    method TakeClass(s: Sizes) returns (c: Option<Class>)
      requires Valid()
      modifies this
      ensures Valid() && Read(ReadClass(s, old(Rest())), c, Rest())
    {
      hide ReadHeading, ReadArguments, ReadPlace, ReadMethods, ReadFields, ReadTable, Chop;
      var ok, heading := TakeHeading();
      if !ok {
        return None;
      }
      var arguments, place, superclass, methods, fields, variables, discovered;
      ok, arguments := TakeArguments(s, Generic(heading));
      if !ok {
        return None;
      }
      ok, place := TakePlace();
      if !ok {
        return None;
      }
      ok, superclass := TakeBytes(CLASS_NUMBER);
      if !ok {
        return None;
      }
      ok, methods := TakeMethods(s);
      if !ok {
        return None;
      }
      ok, fields := TakeFields();
      if !ok {
        return None;
      }
      ok, variables := TakeTable(NAME, MAX_CLASS_VARIABLES);
      if !ok {
        return None;
      }
      ok, discovered := TakeBytes(1);
      if !ok {
        return None;
      }
      c := Some(Class(heading, arguments, place, superclass, methods, fields, variables, discovered));
    }

    method TakeModule(s: Sizes) returns (m: Option<Module>)
      requires Valid()
      modifies this
      ensures Valid() && Read(ReadModule(s, old(Rest())), m, Rest())
    {
      hide ReadPlace, ReadMethods, ReadTable, Chop;
      var ok, name := TakeBytes(NAME);
      if !ok {
        return None;
      }
      var place, methods, claim, fields, discovered;
      ok, place := TakePlace();
      if !ok {
        return None;
      }
      ok, methods := TakeMethods(s);
      if !ok {
        return None;
      }
      ok, claim := TakeBytes(8);
      if !ok {
        return None;
      }
      ok, fields := TakeTable(NAME, MAX_FIELDS);
      if !ok {
        return None;
      }
      ok, discovered := TakeBytes(1);
      if !ok {
        return None;
      }
      m := Some(Module(name, place, methods, claim, fields, discovered));
    }

    method TakeInterface(s: Sizes) returns (i: Option<Interface>)
      requires Valid()
      modifies this
      ensures Valid() && Read(ReadInterface(s, old(Rest())), i, Rest())
    {
      hide ReadPlace, ReadTable, Chop;
      var ok, name := TakeBytes(NAME);
      if !ok {
        return None;
      }
      var place, methods, discovered;
      ok, place := TakePlace();
      if !ok {
        return None;
      }
      ok, methods := TakeTable(s.interfaceMethods, MAX_METHODS);
      if !ok {
        return None;
      }
      ok, discovered := TakeBytes(1);
      if !ok {
        return None;
      }
      i := Some(Interface(name, place, methods, discovered));
    }

    method TakeClasses(s: Sizes, count: nat) returns (ok: bool, cs: seq<Class>)
      requires Valid()
      modifies this
      ensures Valid() && Left(ReadMany(ClassReader(s), old(Rest()), count), ok, cs, Rest())
    {
      hide ReadClass;
      cs := [];
      var i := 0;
      ghost var all := ReadMany(ClassReader(s), Rest(), count);
      AddedNone(all);
      while i < count
        invariant 0 <= i <= count && Valid()
        invariant all == Added(cs, ReadMany(ClassReader(s), Rest(), count - i))
      {
        var c := TakeClass(s);
        if c.None? {
          return false, cs;
        }
        AddedStep(cs, c.value, ReadMany(ClassReader(s), Rest(), count - i - 1));
        cs := cs + [c.value];
        i := i + 1;
      }
      AddedEnd(cs, Rest());
      ok := true;
    }

    method TakeModules(s: Sizes, count: nat) returns (ok: bool, ms: seq<Module>)
      requires Valid()
      modifies this
      ensures Valid() && Left(ReadMany(ModuleReader(s), old(Rest()), count), ok, ms, Rest())
    {
      hide ReadModule;
      ms := [];
      var i := 0;
      ghost var all := ReadMany(ModuleReader(s), Rest(), count);
      AddedNone(all);
      while i < count
        invariant 0 <= i <= count && Valid()
        invariant all == Added(ms, ReadMany(ModuleReader(s), Rest(), count - i))
      {
        var m := TakeModule(s);
        if m.None? {
          return false, ms;
        }
        AddedStep(ms, m.value, ReadMany(ModuleReader(s), Rest(), count - i - 1));
        ms := ms + [m.value];
        i := i + 1;
      }
      AddedEnd(ms, Rest());
      ok := true;
    }

    method TakeInterfaces(s: Sizes, count: nat) returns (ok: bool, fs: seq<Interface>)
      requires Valid()
      modifies this
      ensures Valid() && Left(ReadMany(InterfaceReader(s), old(Rest()), count), ok, fs, Rest())
    {
      hide ReadInterface;
      fs := [];
      var i := 0;
      ghost var all := ReadMany(InterfaceReader(s), Rest(), count);
      AddedNone(all);
      while i < count
        invariant 0 <= i <= count && Valid()
        invariant all == Added(fs, ReadMany(InterfaceReader(s), Rest(), count - i))
      {
        var f := TakeInterface(s);
        if f.None? {
          return false, fs;
        }
        AddedStep(fs, f.value, ReadMany(InterfaceReader(s), Rest(), count - i - 1));
        fs := fs + [f.value];
        i := i + 1;
      }
      AddedEnd(fs, Rest());
      ok := true;
    }

    /** Reads a program, with the functions of the template first. */
    method TakeProgram(m: Format, template: seq<Function>) returns (p: Option<Program>)
      requires Valid() && Fits(m.layout)
      modifies this
      ensures Valid() && p == ReadBody(m, old(Rest()), template)
    {
      hide ReadFunction, ReadNumber, ReadFunctions, ReadTail, Fits;
      var ok, entry := TakeFunction(m.layout);
      if !ok {
        return None;
      }
      var count, fs;
      ok, count := TakeNumber();
      if !ok {
        return None;
      }
      ok, fs := TakeFunctions(m.layout, count);
      if !ok {
        return None;
      }
      p := TakeTail(m, entry, template + fs);
    }

    method TakeTail(m: Format, entry: Function, functions: seq<Function>) returns (p: Option<Program>)
      requires Valid()
      modifies this
      ensures Valid() && p == ReadTail(m, entry, functions, old(Rest()))
    {
      hide ReadNumber, ReadMany, ReadRecords, Chop;
      var ok, a := TakeNumber();
      if !ok {
        return None;
      }
      var b, c, d, e, f, g, h, i;
      ok, b := TakeNumber();
      if !ok {
        return None;
      }
      ok, c := TakeNumber();
      if !ok {
        return None;
      }
      ok, d := TakeNumber();
      if !ok || a > MAX_CLASSES || b > MAX_INTERFACES || c > MAX_MODULES || d > MAX_CONSTANTS {
        return None;
      }
      ok, e := TakeClasses(m.sizes, a);
      if !ok {
        return None;
      }
      ok, f := TakeInterfaces(m.sizes, b);
      if !ok {
        return None;
      }
      ok, g := TakeModules(m.sizes, c);
      if !ok {
        return None;
      }
      ok, h := TakeRecords(m.constantSize, d);
      if !ok {
        return None;
      }
      ok, i := TakeBytes(2);
      if !ok {
        return None;
      }
      return Some(Program(entry, functions, e, f, g, h, i));
    }
  }

  lemma FitsParts(l: Layout)
    requires Fits(l)
    ensures l.valueSize > 0 && l.typeSetSize > 0 && l.codeAt + 8 <= l.size && l.constantAt + 8 <= l.size
    ensures l.stringAt + 8 <= l.size && l.typeSetAt + 8 <= l.size
  {
  }

  /** Writing a program into a file, without what it shares with the template, and reading it
      back with the template gives the program again. */
  method SaveAndLoad(m: Format, p: Program, template: seq<Function>) returns (q: Option<Program>)
    requires Fits(m.layout) && WellMade(m, p)
    ensures q.Some? && AlikePrograms(m.layout, p, q.value)
  {
    hide AlikePrograms, ReadBody, WriteBody, Shared, Sized, Admissible, Fits;
    ProgramRoundTrip(m, p, template);
    var skip := CountShared(m.layout, p.functions, template);
    var w := new Writer();
    ImagesSized(m, p);
    w.AppendProgram(m, p, skip);
    var r := new Reader(w.bytes);
    assert r.Rest() == w.bytes;
    q := r.TakeProgram(m, template[..skip]);
  }

  lemma ImagesSized(m: Format, p: Program)
    requires Fits(m.layout) && WellMade(m, p)
    ensures |p.entry.image| == m.layout.size
    ensures forall i :: 0 <= i < |p.functions| ==> |p.functions[i].image| == m.layout.size
  {
    forall i | 0 <= i < |p.functions|
      ensures |p.functions[i].image| == m.layout.size
    {
      assert GoodFunction(m.layout, p.functions[i]);
    }
  }
}
