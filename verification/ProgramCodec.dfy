/** A compiled program as bytes, with its leading functions left out where the reader holds the
    same ones. */
module ProgramCodec {
  import opened Wrappers
  import opened ZeroRuns
  import opened FunctionCodec
  import opened ClassCodec

  const MAX_CLASSES := 1024
  const MAX_INTERFACES := 1024
  const MAX_MODULES := 1024
  const MAX_CONSTANTS := 65535

  /** How the structures are laid out, and the size of a constant. */
  datatype Format = Format(layout: Layout, sizes: Sizes, constantSize: nat)

  datatype Program = Program(entry: Function, functions: seq<Function>, classes: seq<Class>,
                             interfaces: seq<Interface>, modules: seq<Module>, constants: seq<Bytes>,
                             rangeClass: Bytes)

  predicate GoodFunction(l: Layout, f: Function)
    requires Fits(l)
  {
    Sized(l, f) && Admissible(l, f.image)
  }

  predicate GoodFunctions(l: Layout, fs: seq<Function>)
    requires Fits(l)
  {
    forall i :: 0 <= i < |fs| ==> GoodFunction(l, fs[i])
  }

  /** What the compiler makes. */
  predicate WellMade(m: Format, p: Program)
    requires Fits(m.layout)
  {
    && GoodFunction(m.layout, p.entry) && GoodFunctions(m.layout, p.functions) && |p.functions| < U32_LIMIT
    && |p.classes| <= MAX_CLASSES && |p.interfaces| <= MAX_INTERFACES && |p.modules| <= MAX_MODULES
    && |p.constants| <= MAX_CONSTANTS && Records(p.constants, m.constantSize) && |p.rangeClass| == 2
    && GoodTables(m.sizes, p)
  }

  predicate GoodTables(s: Sizes, p: Program) {
    && (forall i :: 0 <= i < |p.classes| ==> GoodClass(s, p.classes[i]))
    && (forall i :: 0 <= i < |p.interfaces| ==> GoodInterface(s, p.interfaces[i]))
    && (forall i :: 0 <= i < |p.modules| ==> GoodModule(s, p.modules[i]))
  }

  function WriteFunctions(l: Layout, fs: seq<Function>): Bytes {
    if fs == [] then [] else WriteFunction(l, fs[0]) + WriteFunctions(l, fs[1..])
  }

  /** The parts after the functions. */
  function WriteTables(p: Program): Bytes {
    Number(|p.classes|, 8) + (Number(|p.interfaces|, 8) + (Number(|p.modules|, 8) + (Number(|p.constants|, 8) +
    (WriteMany(ClassWriter(), p.classes) + (WriteMany(InterfaceWriter(), p.interfaces) +
    (WriteMany(ModuleWriter(), p.modules) + (WriteRecords(p.constants) + p.rangeClass)))))))
  }

  /** The program without its first `skip` functions. */
  function WriteBody(m: Format, p: Program, skip: nat): Bytes
    requires skip <= |p.functions|
  {
    WriteFunction(m.layout, p.entry) + (Number(|p.functions| - skip, 8) +
    (WriteFunctions(m.layout, p.functions[skip..]) + WriteTables(p)))
  }

  function ReadFunctions(l: Layout, data: Bytes, count: nat): Option<(seq<Function>, Bytes)>
    requires Fits(l)
    decreases count
  {
    if count == 0 then Some(([], data))
    else match ReadFunction(l, data)
      case None => None
      case Some(f) =>
        match ReadFunctions(l, f.1, count - 1)
        case None => None
        case Some(rest) => Some(([f.0] + rest.0, rest.1))
  }

  function ReadTail(m: Format, entry: Function, functions: seq<Function>, data: Bytes): Option<Program> {
    match ReadNumber(data) case None => None case Some(a) =>
    match ReadNumber(a.1) case None => None case Some(b) =>
    match ReadNumber(b.1) case None => None case Some(c) =>
    match ReadNumber(c.1) case None => None case Some(d) =>
    if a.0 > MAX_CLASSES || b.0 > MAX_INTERFACES || c.0 > MAX_MODULES || d.0 > MAX_CONSTANTS then None
    else match ReadMany(ClassReader(m.sizes), d.1, a.0) case None => None case Some(e) =>
    match ReadMany(InterfaceReader(m.sizes), e.1, b.0) case None => None case Some(f) =>
    match ReadMany(ModuleReader(m.sizes), f.1, c.0) case None => None case Some(g) =>
    match ReadRecords(m.constantSize, g.1, d.0) case None => None case Some(h) =>
    match Chop(h.1, 2) case None => None case Some(i) =>
    Some(Program(entry, functions, e.0, f.0, g.0, h.0, i.0))
  }

  /** The program, with the functions of the template first. */
  function ReadBody(m: Format, data: Bytes, template: seq<Function>): Option<Program>
    requires Fits(m.layout)
  {
    match ReadFunction(m.layout, data) case None => None case Some(entry) =>
    match ReadNumber(entry.1) case None => None case Some(count) =>
    match ReadFunctions(m.layout, count.1, count.0) case None => None case Some(fs) =>
    ReadTail(m, entry.0, template + fs.0, fs.1)
  }

  lemma {:induction false} ReadFunctionsBack(l: Layout, fs: seq<Function>, rest: Bytes)
    requires Fits(l) && GoodFunctions(l, fs)
    ensures ReadFunctions(l, WriteFunctions(l, fs) + rest, |fs|) == Some((Plains(l, fs), rest))
    decreases |fs|
  {
    hide ReadFunction, WriteFunction, GoodFunction, Plain;
    if fs == [] {
      assert WriteFunctions(l, fs) + rest == rest;
    } else {
      var more := WriteFunctions(l, fs[1..]) + rest;
      assert WriteFunctions(l, fs) + rest == WriteFunction(l, fs[0]) + more;
      FunctionBack(l, fs[0], more);
      ReadFunctionsBack(l, fs[1..], rest);
      assert [Plain(l, fs[0])] + Plains(l, fs[1..]) == Plains(l, fs);
    }
  }

  lemma FunctionBack(l: Layout, f: Function, rest: Bytes)
    requires Fits(l) && GoodFunction(l, f)
    ensures ReadFunction(l, WriteFunction(l, f) + rest) == Some((Plain(l, f), rest))
  {
    FunctionRoundTrip(l, f, rest);
  }

  function Plains(l: Layout, fs: seq<Function>): (r: seq<Function>)
    ensures |r| == |fs|
  {
    seq(|fs|, i requires 0 <= i < |fs| => Plain(l, fs[i]))
  }

  lemma ClassesBack(s: Sizes, p: Program, rest: Bytes)
    requires GoodTables(s, p)
    ensures ReadMany(ClassReader(s), WriteMany(ClassWriter(), p.classes) + rest, |p.classes|) == Some((p.classes, rest))
  {
    hide ReadClass, WriteClass, GoodClass, ReadMany, WriteMany;
    forall i, r: Bytes | 0 <= i < |p.classes|
      ensures ClassReader(s)(ClassWriter()(p.classes[i]) + r) == Some((p.classes[i], r))
    {
      ClassRoundTrip(s, p.classes[i], r);
    }
    ReadManyBack(ClassReader(s), ClassWriter(), p.classes, rest);
  }

  lemma InterfacesBack(s: Sizes, p: Program, rest: Bytes)
    requires GoodTables(s, p)
    ensures ReadMany(InterfaceReader(s), WriteMany(InterfaceWriter(), p.interfaces) + rest, |p.interfaces|) ==
            Some((p.interfaces, rest))
  {
    hide ReadInterface, WriteInterface, GoodInterface, ReadMany, WriteMany;
    forall i, r: Bytes | 0 <= i < |p.interfaces|
      ensures InterfaceReader(s)(InterfaceWriter()(p.interfaces[i]) + r) == Some((p.interfaces[i], r))
    {
      InterfaceRoundTrip(s, p.interfaces[i], r);
    }
    ReadManyBack(InterfaceReader(s), InterfaceWriter(), p.interfaces, rest);
  }

  lemma ModulesBack(s: Sizes, p: Program, rest: Bytes)
    requires GoodTables(s, p)
    ensures ReadMany(ModuleReader(s), WriteMany(ModuleWriter(), p.modules) + rest, |p.modules|) == Some((p.modules, rest))
  {
    hide ReadModule, WriteModule, GoodModule, ReadMany, WriteMany;
    forall i, r: Bytes | 0 <= i < |p.modules|
      ensures ModuleReader(s)(ModuleWriter()(p.modules[i]) + r) == Some((p.modules[i], r))
    {
      ModuleRoundTrip(s, p.modules[i], r);
    }
    ReadManyBack(ModuleReader(s), ModuleWriter(), p.modules, rest);
  }

  lemma ReadTailBack(m: Format, p: Program, entry: Function, functions: seq<Function>)
    requires Fits(m.layout) && WellMade(m, p)
    ensures ReadTail(m, entry, functions, WriteTables(p)) ==
            Some(Program(entry, functions, p.classes, p.interfaces, p.modules, p.constants, p.rangeClass))
  {
    hide ReadNumber, ReadMany, WriteMany, ReadRecords, WriteRecords, Number, Chop, GoodFunction, GoodFunctions, Limit, Fits,
         GoodTables, Records;
    var i := p.rangeClass;
    var h := WriteRecords(p.constants) + i;
    var g := WriteMany(ModuleWriter(), p.modules) + h;
    var f := WriteMany(InterfaceWriter(), p.interfaces) + g;
    var e := WriteMany(ClassWriter(), p.classes) + f;
    var d := Number(|p.constants|, 8) + e;
    var c := Number(|p.modules|, 8) + d;
    var b := Number(|p.interfaces|, 8) + c;
    Large();
    ReadNumberBack(|p.classes|, b);
    ReadNumberBack(|p.interfaces|, c);
    ReadNumberBack(|p.modules|, d);
    ReadNumberBack(|p.constants|, e);
    ClassesBack(m.sizes, p, f);
    InterfacesBack(m.sizes, p, g);
    ModulesBack(m.sizes, p, h);
    RecordsBack(m.constantSize, p.constants, i);
    ChopJoin(i, []);
    assert i + [] == i;
  }

  // ---------------------------------------------------------------------------------
  // Leaving out the template's functions.

  /** The functions are the same but for what does not tell them apart. */
  predicate Identical(l: Layout, f: Function, t: Function) {
    f.(image := []) == t.(image := []) && Clear(l.ignored, f.image) == Clear(l.ignored, t.image)
  }

  /** How many leading functions the template also has: all of its own, or none. */
  function Shared(l: Layout, fs: seq<Function>, template: seq<Function>): (n: nat)
    ensures n == 0 || (n == |template| <= |fs|)
  {
    if |fs| >= |template| && forall i :: 0 <= i < |template| ==> Identical(l, fs[i], template[i]) then |template|
    else 0
  }

  /** The functions differ in nothing but ignored bytes of their images. */
  predicate SameButIgnored(l: Layout, f: Function, t: Function) {
    && f.(image := []) == t.(image := []) && |f.image| == |t.image|
    && forall k :: 0 <= k < |f.image| && f.image[k] != t.image[k] ==> k in l.ignored
  }

  /** The template's functions are left out exactly when the program starts with them. */
  lemma SharedMeans(l: Layout, fs: seq<Function>, template: seq<Function>)
    ensures Shared(l, fs, template) == |template| <==>
            |template| <= |fs| && forall i :: 0 <= i < |template| ==> SameButIgnored(l, fs[i], template[i])
  {
    hide Identical, SameButIgnored;
    forall i | 0 <= i < |template| <= |fs|
      ensures Identical(l, fs[i], template[i]) <==> SameButIgnored(l, fs[i], template[i])
    {
      IdenticalMeans(l, fs[i], template[i]);
    }
  }

  lemma IdenticalMeans(l: Layout, f: Function, t: Function)
    ensures Identical(l, f, t) <==> SameButIgnored(l, f, t)
  {
    var a, b := Clear(l.ignored, f.image), Clear(l.ignored, t.image);
    if a == b {
      assert |f.image| == |a| == |t.image|;
      forall k | 0 <= k < |f.image| && f.image[k] != t.image[k]
        ensures k in l.ignored
      {
        assert a[k] == b[k];
      }
    }
    if SameButIgnored(l, f, t) {
      assert forall k :: 0 <= k < |a| ==> a[k] == b[k];
    }
  }

  /** Equal up to the bytes that are cleared or ignored. */
  predicate Alike(l: Layout, f: Function, t: Function) {
    f.(image := []) == t.(image := []) &&
    Clear(l.cleared + l.ignored, f.image) == Clear(l.cleared + l.ignored, t.image)
  }

  lemma IdenticalAlike(l: Layout, f: Function, t: Function)
    requires Identical(l, f, t)
    ensures Alike(l, f, t)
  {
    var a, b := f.image, t.image;
    assert |Clear(l.ignored, a)| == |Clear(l.ignored, b)|;
    forall i | 0 <= i < |a|
      ensures Clear(l.cleared + l.ignored, a)[i] == Clear(l.cleared + l.ignored, b)[i]
    {
      assert Clear(l.ignored, a)[i] == Clear(l.ignored, b)[i];
    }
  }

  lemma PlainAlike(l: Layout, f: Function)
    ensures Alike(l, f, Plain(l, f))
  {
    assert Clear(l.cleared + l.ignored, f.image) == Clear(l.cleared + l.ignored, Clear(l.cleared, f.image));
  }

  /** The programs are the same up to those bytes of their functions. */
  predicate AlikePrograms(l: Layout, p: Program, q: Program) {
    && Alike(l, p.entry, q.entry) && |p.functions| == |q.functions|
    && (forall i :: 0 <= i < |p.functions| ==> Alike(l, p.functions[i], q.functions[i]))
    && p.classes == q.classes && p.interfaces == q.interfaces && p.modules == q.modules
    && p.constants == q.constants && p.rangeClass == q.rangeClass
  }

  lemma ReadBodyBack(m: Format, p: Program, skip: nat, template: seq<Function>)
    requires Fits(m.layout) && WellMade(m, p) && skip <= |p.functions|
    ensures ReadBody(m, WriteBody(m, p, skip), template) ==
            Some(Program(Plain(m.layout, p.entry), template + Plains(m.layout, p.functions[skip..]), p.classes,
                         p.interfaces, p.modules, p.constants, p.rangeClass))
  {
    hide ReadFunction, WriteFunction, WriteFunctions, ReadFunctions, WriteTables, ReadTail, ReadNumber, Number, Plain,
         Plains, GoodFunction, Limit, Fits, GoodTables, Records;
    var l, fs := m.layout, p.functions[skip..];
    var c := WriteTables(p);
    var b := WriteFunctions(l, fs) + c;
    var a := Number(|fs|, 8) + b;
    FunctionBack(l, p.entry, a);
    Large();
    ReadNumberBack(|fs|, b);
    ReadFunctionsBack(l, fs, c);
    ReadTailBack(m, p, Plain(l, p.entry), template + Plains(l, fs));
  }

  /** A program written without the functions it shares with a template, and read with that
      template, is the program again. */
  lemma ProgramRoundTrip(m: Format, p: Program, template: seq<Function>)
    requires Fits(m.layout) && WellMade(m, p)
    ensures var skip := Shared(m.layout, p.functions, template);
            var q := ReadBody(m, WriteBody(m, p, skip), template[..skip]);
            q.Some? && AlikePrograms(m.layout, p, q.value)
  {
    hide ReadBody, WriteBody, Plain, Alike, Identical, Clear, GoodFunction, GoodTables, Records, Fits;
    var l := m.layout;
    var skip := Shared(l, p.functions, template);
    ReadBodyBack(m, p, skip, template[..skip]);
    PlainAlike(l, p.entry);
    var qs := template[..skip] + Plains(l, p.functions[skip..]);
    forall i | 0 <= i < |p.functions|
      ensures Alike(l, p.functions[i], qs[i])
    {
      if i < skip {
        IdenticalAlike(l, p.functions[i], template[i]);
      } else {
        assert qs[i] == Plain(l, p.functions[i]);
        PlainAlike(l, p.functions[i]);
      }
    }
  }

  /** A program that adds functions to those of the template is written as if it had only the added
      ones. */
  lemma OnlyAdded(m: Format, p: Program, template: seq<Function>, added: seq<Function>)
    requires p.functions == template + added
    ensures WriteBody(m, p, Shared(m.layout, p.functions, template)) == WriteBody(m, p.(functions := added), 0)
  {
    hide WriteFunction, WriteFunctions, Number, Identical;
    var fs := p.functions;
    forall i | 0 <= i < |template|
      ensures Identical(m.layout, fs[i], template[i])
    {
      IdenticalSelf(m.layout, fs[i]);
    }
    assert fs[|template|..] == added && added[0..] == added;
  }

  lemma IdenticalSelf(l: Layout, f: Function)
    ensures Identical(l, f, f)
  {
  }
}
