/** Classes, modules and interfaces as bytes: only the used part of each table, after its count. */
module ClassCodec {
  import opened Wrappers
  import opened ZeroRuns
  import opened FunctionCodec

  const MAX_METHODS := 4096
  const MAX_FIELDS := 255
  const MAX_CLASS_VARIABLES := 64

  /** The size of a name, of what is known of a field's type, and of a class number. */
  const NAME := 64
  const STATUS := 1
  const CLASS_NUMBER := 2

  /** The sizes of the structures for two type bindings, a method and a method of an interface.
      `pointers` are the bytes of a method that only mean something
      in a running process. */
  datatype Sizes = Sizes(bindings: nat, methods: nat, pointers: set<nat>, interfaceMethods: nat)

  // ---------------------------------------------------------------------------------
  // Many of a kind.

  function ReadMany<T>(read: Bytes -> Option<(T, Bytes)>, data: Bytes, count: nat): Option<(seq<T>, Bytes)>
    decreases count
  {
    if count == 0 then Some(([], data))
    else match read(data)
      case None => None
      case Some(x) =>
        match ReadMany(read, x.1, count - 1)
        case None => None
        case Some(rest) => Some(([x.0] + rest.0, rest.1))
  }

  function WriteMany<T>(write: T -> Bytes, xs: seq<T>): Bytes {
    if xs == [] then [] else write(xs[0]) + WriteMany(write, xs[1..])
  }

  lemma {:induction false} ReadManyBack<T(!new)>(read: Bytes -> Option<(T, Bytes)>, write: T -> Bytes, xs: seq<T>,
                                                 rest: Bytes)
    requires forall i, r: Bytes :: 0 <= i < |xs| ==> read(write(xs[i]) + r) == Some((xs[i], r))
    ensures ReadMany(read, WriteMany(write, xs) + rest, |xs|) == Some((xs, rest))
    decreases |xs|
  {
    if xs == [] {
      assert WriteMany(write, xs) + rest == rest;
    } else {
      var more := WriteMany(write, xs[1..]) + rest;
      assert WriteMany(write, xs) + rest == write(xs[0]) + more;
      forall i, r: Bytes | 0 <= i < |xs[1..]|
        ensures read(write(xs[1..][i]) + r) == Some((xs[1..][i], r))
      {
        assert xs[1..][i] == xs[i + 1];
      }
      ReadManyBack(read, write, xs[1..], rest);
      assert [xs[0]] + xs[1..] == xs;
    }
  }

  // ---------------------------------------------------------------------------------
  // Tables of records of one size.

  predicate Records(es: seq<Bytes>, size: nat) {
    forall i :: 0 <= i < |es| ==> |es[i]| == size
  }

  function WriteRecords(es: seq<Bytes>): Bytes {
    if es == [] then [] else es[0] + WriteRecords(es[1..])
  }

  function ReadRecords(size: nat, data: Bytes, count: nat): Option<(seq<Bytes>, Bytes)>
    decreases count
  {
    if count == 0 then Some(([], data))
    else match Chop(data, size)
      case None => None
      case Some(x) =>
        match ReadRecords(size, x.1, count - 1)
        case None => None
        case Some(rest) => Some(([x.0] + rest.0, rest.1))
  }

  lemma {:induction false} RecordsBack(size: nat, es: seq<Bytes>, rest: Bytes)
    requires Records(es, size)
    ensures ReadRecords(size, WriteRecords(es) + rest, |es|) == Some((es, rest))
    decreases |es|
  {
    hide Chop;
    if es == [] {
      assert WriteRecords(es) + rest == rest;
    } else {
      var more := WriteRecords(es[1..]) + rest;
      assert WriteRecords(es) + rest == es[0] + more;
      ChopJoin(es[0], more);
      RecordsBack(size, es[1..], rest);
      assert [es[0]] + es[1..] == es;
    }
  }

  /** What the compiler makes of methods: those pointers are null. */
  predicate PlainMethods(s: Sizes, ms: seq<Bytes>) {
    Records(ms, s.methods) && forall i :: 0 <= i < |ms| ==> Clear(s.pointers, ms[i]) == ms[i]
  }

  function Cleared(s: Sizes, ms: seq<Bytes>): seq<Bytes> {
    seq(|ms|, i requires 0 <= i < |ms| => Clear(s.pointers, ms[i]))
  }

  lemma ClearedPlain(s: Sizes, ms: seq<Bytes>)
    requires PlainMethods(s, ms)
    ensures Cleared(s, ms) == ms
  {
    hide Clear;
  }

  // ---------------------------------------------------------------------------------
  // The parts.

  /** The source position of a declaration. */
  datatype Place = Place(line: Bytes, column: Bytes, start: Bytes)

  predicate GoodPlace(p: Place) {
    |p.line| == 4 && |p.column| == 4 && |p.start| == 8
  }

  function WritePlace(p: Place): Bytes {
    p.line + (p.column + p.start)
  }

  function ReadPlace(data: Bytes): Option<(Place, Bytes)> {
    match Chop(data, 4) case None => None case Some(a) =>
    match Chop(a.1, 4) case None => None case Some(b) =>
    match Chop(b.1, 8) case None => None case Some(c) =>
    Some((Place(a.0, b.0, c.0), c.1))
  }

  lemma PlaceBack(p: Place, rest: Bytes)
    requires GoodPlace(p)
    ensures ReadPlace(WritePlace(p) + rest) == Some((p, rest))
  {
    hide Chop;
    assert WritePlace(p) + rest == p.line + (p.column + (p.start + rest));
    ChopJoin(p.line, p.column + (p.start + rest));
    ChopJoin(p.column, p.start + rest);
    ChopJoin(p.start, rest);
  }

  datatype Methods = Methods(instance: seq<Bytes>, singleton: seq<Bytes>)

  predicate GoodMethods(s: Sizes, m: Methods) {
    && |m.instance| <= MAX_METHODS && PlainMethods(s, m.instance)
    && |m.singleton| <= MAX_METHODS && PlainMethods(s, m.singleton)
  }

  function WriteMethods(m: Methods): Bytes {
    Number(|m.instance|, 8) + (Number(|m.singleton|, 8) + (WriteRecords(m.instance) + WriteRecords(m.singleton)))
  }

  function ReadMethods(s: Sizes, data: Bytes): Option<(Methods, Bytes)> {
    match ReadNumber(data) case None => None case Some(a) =>
    match ReadNumber(a.1) case None => None case Some(b) =>
    if a.0 > MAX_METHODS || b.0 > MAX_METHODS then None
    else match ReadRecords(s.methods, b.1, a.0) case None => None case Some(c) =>
    match ReadRecords(s.methods, c.1, b.0) case None => None case Some(d) =>
    Some((Methods(Cleared(s, c.0), Cleared(s, d.0)), d.1))
  }

  lemma MethodsBack(s: Sizes, m: Methods, rest: Bytes)
    requires GoodMethods(s, m)
    ensures ReadMethods(s, WriteMethods(m) + rest) == Some((m, rest))
  {
    hide ReadNumber, Number, ReadRecords, WriteRecords, Cleared, Limit, Clear;
    var d := WriteRecords(m.singleton) + rest;
    var c := WriteRecords(m.instance) + d;
    var b := Number(|m.singleton|, 8) + c;
    assert WriteMethods(m) + rest == Number(|m.instance|, 8) + b;
    Large();
    ReadNumberBack(|m.instance|, b);
    ReadNumberBack(|m.singleton|, c);
    RecordsBack(s.methods, m.instance, d);
    RecordsBack(s.methods, m.singleton, rest);
    ClearedPlain(s, m.instance);
    ClearedPlain(s, m.singleton);
  }

  // ---------------------------------------------------------------------------------
  // Classes.

  /** Its name and its type parameters, each a fixed buffer. */
  datatype Heading = Heading(name: Bytes, parameter: Bytes, secondParameter: Bytes)

  /** A string ends in its buffer. */
  predicate Terminated(b: Bytes) {
    0 in b
  }

  predicate GoodHeading(h: Heading) {
    && |h.name| == |h.parameter| == |h.secondParameter| == NAME
    && Terminated(h.parameter) && Terminated(h.secondParameter)
    && (h.secondParameter[0] != 0 ==> h.parameter[0] != 0)
  }

  predicate Generic(h: Heading) {
    |h.parameter| > 0 && h.parameter[0] != 0
  }

  function WriteHeading(h: Heading): Bytes {
    h.name + (h.parameter + h.secondParameter)
  }

  function ReadHeading(data: Bytes): Option<(Heading, Bytes)> {
    match Chop(data, NAME) case None => None case Some(a) =>
    match Chop(a.1, NAME) case None => None case Some(b) =>
    match Chop(b.1, NAME) case None => None case Some(c) =>
    var h := Heading(a.0, b.0, c.0);
    if GoodHeading(h) then Some((h, c.1)) else None
  }

  lemma HeadingBack(h: Heading, rest: Bytes)
    requires GoodHeading(h)
    ensures ReadHeading(WriteHeading(h) + rest) == Some((h, rest))
  {
    hide Chop;
    assert WriteHeading(h) + rest == h.name + (h.parameter + (h.secondParameter + rest));
    ChopJoin(h.name, h.parameter + (h.secondParameter + rest));
    ChopJoin(h.parameter, h.secondParameter + rest);
    ChopJoin(h.secondParameter, rest);
  }

  /** How it passes type arguments to its parent: swapped, or as `parent` says, or as the fixed
      ones say. */
  datatype Arguments = Arguments(isStruct: bool, swaps: bool, parent: Option<Bytes>, fixedOnes: Option<Bytes>)

  function Flag(b: bool): Bytes {
    [if b then 1 else 0]
  }

  function Held(b: Option<Bytes>): Bytes {
    if b.Some? then b.value else []
  }

  predicate GoodArguments(s: Sizes, a: Arguments, generic: bool) {
    && (a.parent.Some? ==> |a.parent.value| == s.bindings)
    && (a.fixedOnes.Some? ==> |a.fixedOnes.value| == s.bindings && generic)
  }

  function WriteFlags(a: Arguments): Bytes {
    Flag(a.isStruct) + (Flag(a.fixedOnes.Some?) + (Flag(a.swaps) + Flag(a.parent.Some?)))
  }

  function WriteArguments(a: Arguments): Bytes {
    WriteFlags(a) + (Held(a.parent) + Held(a.fixedOnes))
  }

  function ReadFlag(data: Bytes): Option<(bool, Bytes)> {
    match Chop(data, 1) case None => None case Some(a) =>
    if a.0[0] > 1 then None else Some((a.0[0] == 1, a.1))
  }

  function ReadHeld(present: bool, size: nat, data: Bytes): Option<(Option<Bytes>, Bytes)> {
    if !present then Some((None, data))
    else match Chop(data, size) case None => None case Some(a) => Some((Some(a.0), a.1))
  }

  function ReadArguments(s: Sizes, generic: bool, data: Bytes): Option<(Arguments, Bytes)> {
    match ReadFlag(data) case None => None case Some(a) =>
    match ReadFlag(a.1) case None => None case Some(b) =>
    match ReadFlag(b.1) case None => None case Some(c) =>
    match ReadFlag(c.1) case None => None case Some(d) =>
    match ReadHeld(d.0, s.bindings, d.1) case None => None case Some(e) =>
    match ReadHeld(b.0, s.bindings, e.1) case None => None case Some(f) =>
    if b.0 && !generic then None else Some((Arguments(a.0, c.0, e.0, f.0), f.1))
  }

  lemma FlagBack(b: bool, rest: Bytes)
    ensures ReadFlag(Flag(b) + rest) == Some((b, rest))
  {
    hide Chop;
    ChopJoin(Flag(b), rest);
  }

  lemma HeldBack(b: Option<Bytes>, size: nat, rest: Bytes)
    requires b.Some? ==> |b.value| == size
    ensures ReadHeld(b.Some?, size, Held(b) + rest) == Some((b, rest))
  {
    hide Chop;
    if b.Some? {
      ChopJoin(b.value, rest);
    } else {
      assert [] + rest == rest;
    }
  }

  lemma ArgumentsBack(s: Sizes, a: Arguments, generic: bool, rest: Bytes)
    requires GoodArguments(s, a, generic)
    ensures ReadArguments(s, generic, WriteArguments(a) + rest) == Some((a, rest))
  {
    hide ReadFlag, ReadHeld, Flag, Held;
    var f := Held(a.fixedOnes) + rest;
    var e := Held(a.parent) + f;
    var d := Flag(a.parent.Some?) + e;
    var c := Flag(a.swaps) + d;
    var b := Flag(a.fixedOnes.Some?) + c;
    assert WriteFlags(a) + e == Flag(a.isStruct) + b;
    assert WriteArguments(a) + rest == WriteFlags(a) + e by {
      hide WriteFlags;
      Regroup(WriteFlags(a), Held(a.parent) + Held(a.fixedOnes), rest);
      Regroup(Held(a.parent), Held(a.fixedOnes), rest);
    }
    FlagBack(a.isStruct, b);
    FlagBack(a.fixedOnes.Some?, c);
    FlagBack(a.swaps, d);
    FlagBack(a.parent.Some?, e);
    HeldBack(a.parent, s.bindings, f);
    HeldBack(a.fixedOnes, s.bindings, rest);
  }

  /** The instance variables, and what is known of the type of each. */
  datatype Fields = Fields(names: seq<Bytes>, statuses: seq<Bytes>, classes: seq<Bytes>)

  predicate GoodFields(f: Fields) {
    && |f.names| == |f.statuses| == |f.classes| <= MAX_FIELDS
    && Records(f.names, NAME) && Records(f.statuses, STATUS) && Records(f.classes, CLASS_NUMBER)
  }

  function WriteFields(f: Fields): Bytes {
    Number(|f.names|, 8) + (WriteRecords(f.names) + (WriteRecords(f.statuses) + WriteRecords(f.classes)))
  }

  function ReadFields(data: Bytes): Option<(Fields, Bytes)> {
    match ReadNumber(data) case None => None case Some(a) =>
    if a.0 > MAX_FIELDS then None
    else match ReadRecords(NAME, a.1, a.0) case None => None case Some(b) =>
    match ReadRecords(STATUS, b.1, a.0) case None => None case Some(c) =>
    match ReadRecords(CLASS_NUMBER, c.1, a.0) case None => None case Some(d) =>
    Some((Fields(b.0, c.0, d.0), d.1))
  }

  lemma FieldsBack(f: Fields, rest: Bytes)
    requires GoodFields(f)
    ensures ReadFields(WriteFields(f) + rest) == Some((f, rest))
  {
    hide ReadNumber, Number, ReadRecords, WriteRecords, Limit, Records;
    var d := WriteRecords(f.classes) + rest;
    var c := WriteRecords(f.statuses) + d;
    var b := WriteRecords(f.names) + c;
    assert WriteFields(f) + rest == Number(|f.names|, 8) + b;
    Large();
    ReadNumberBack(|f.names|, b);
    RecordsBack(NAME, f.names, c);
    RecordsBack(STATUS, f.statuses, d);
    RecordsBack(CLASS_NUMBER, f.classes, rest);
  }

  /** A count up to `limit` and that many records. */
  function WriteTable(es: seq<Bytes>): Bytes {
    Number(|es|, 8) + WriteRecords(es)
  }

  function ReadTable(size: nat, limit: nat, data: Bytes): Option<(seq<Bytes>, Bytes)> {
    match ReadNumber(data) case None => None case Some(a) =>
    if a.0 > limit then None else ReadRecords(size, a.1, a.0)
  }

  lemma TableBack(size: nat, limit: nat, es: seq<Bytes>, rest: Bytes)
    requires Records(es, size) && |es| <= limit < U32_LIMIT
    ensures ReadTable(size, limit, WriteTable(es) + rest) == Some((es, rest))
  {
    hide ReadNumber, Number, ReadRecords, WriteRecords, Limit, Records;
    assert WriteTable(es) + rest == Number(|es|, 8) + (WriteRecords(es) + rest);
    Large();
    ReadNumberBack(|es|, WriteRecords(es) + rest);
    RecordsBack(size, es, rest);
  }

  datatype Class = Class(heading: Heading, arguments: Arguments, place: Place, superclass: Bytes, methods: Methods,
                         fields: Fields, variables: seq<Bytes>, discovered: Bytes)

  predicate GoodClass(s: Sizes, c: Class) {
    && GoodHeading(c.heading) && GoodArguments(s, c.arguments, Generic(c.heading)) && GoodPlace(c.place)
    && |c.superclass| == CLASS_NUMBER && GoodMethods(s, c.methods) && GoodFields(c.fields)
    && |c.variables| <= MAX_CLASS_VARIABLES && Records(c.variables, NAME) && |c.discovered| == 1
  }

  function WriteClass(c: Class): Bytes {
    WriteHeading(c.heading) + (WriteArguments(c.arguments) + (WritePlace(c.place) + (c.superclass +
    (WriteMethods(c.methods) + (WriteFields(c.fields) + (WriteTable(c.variables) + c.discovered))))))
  }

  function ReadClass(s: Sizes, data: Bytes): Option<(Class, Bytes)> {
    match ReadHeading(data) case None => None case Some(a) =>
    match ReadArguments(s, Generic(a.0), a.1) case None => None case Some(b) =>
    match ReadPlace(b.1) case None => None case Some(c) =>
    match Chop(c.1, CLASS_NUMBER) case None => None case Some(d) =>
    match ReadMethods(s, d.1) case None => None case Some(e) =>
    match ReadFields(e.1) case None => None case Some(f) =>
    match ReadTable(NAME, MAX_CLASS_VARIABLES, f.1) case None => None case Some(g) =>
    match Chop(g.1, 1) case None => None case Some(h) =>
    Some((Class(a.0, b.0, c.0, d.0, e.0, f.0, g.0, h.0), h.1))
  }

  /** A class comes back, and the reader stops where it ends. */
  lemma ClassRoundTrip(s: Sizes, c: Class, rest: Bytes)
    requires GoodClass(s, c)
    ensures ReadClass(s, WriteClass(c) + rest) == Some((c, rest))
  {
    hide WriteHeading, WriteArguments, WritePlace, WriteMethods, WriteFields, WriteTable, ReadHeading, ReadArguments,
         ReadPlace, ReadMethods, ReadFields, ReadTable, Chop, GoodHeading, GoodArguments, GoodPlace, GoodMethods,
         GoodFields, Records;
    var h := c.discovered + rest;
    var g := WriteTable(c.variables) + h;
    var f := WriteFields(c.fields) + g;
    var e := WriteMethods(c.methods) + f;
    var d := c.superclass + e;
    var b := WritePlace(c.place) + d;
    var a := WriteArguments(c.arguments) + b;
    ClassBytes(c, rest);
    HeadingBack(c.heading, a);
    ArgumentsBack(s, c.arguments, Generic(c.heading), b);
    PlaceBack(c.place, d);
    ChopJoin(c.superclass, e);
    MethodsBack(s, c.methods, f);
    FieldsBack(c.fields, g);
    TableBack(NAME, MAX_CLASS_VARIABLES, c.variables, h);
    ChopJoin(c.discovered, rest);
  }

  lemma ClassBytes(c: Class, rest: Bytes)
    ensures WriteClass(c) + rest ==
            WriteHeading(c.heading) + (WriteArguments(c.arguments) + (WritePlace(c.place) + (c.superclass +
            (WriteMethods(c.methods) + (WriteFields(c.fields) + (WriteTable(c.variables) + (c.discovered + rest)))))))
  {
    hide WriteHeading, WriteArguments, WritePlace, WriteMethods, WriteFields, WriteTable;
    Regroup(WriteTable(c.variables), c.discovered, rest);
    Regroup(WriteFields(c.fields), WriteTable(c.variables) + c.discovered, rest);
    var f := WriteFields(c.fields) + (WriteTable(c.variables) + c.discovered);
    Regroup(WriteMethods(c.methods), f, rest);
    Regroup(c.superclass, WriteMethods(c.methods) + f, rest);
    var d := c.superclass + (WriteMethods(c.methods) + f);
    Regroup(WritePlace(c.place), d, rest);
    Regroup(WriteArguments(c.arguments), WritePlace(c.place) + d, rest);
    Regroup(WriteHeading(c.heading), WriteArguments(c.arguments) + (WritePlace(c.place) + d), rest);
  }

  lemma Regroup(a: Bytes, b: Bytes, c: Bytes)
    ensures a + b + c == a + (b + c)
  {
  }

  // ---------------------------------------------------------------------------------
  // Modules and interfaces.

  datatype Module = Module(name: Bytes, place: Place, methods: Methods, claim: Bytes, fields: seq<Bytes>,
                           discovered: Bytes)

  predicate GoodModule(s: Sizes, m: Module) {
    && |m.name| == NAME && GoodPlace(m.place) && GoodMethods(s, m.methods) && |m.claim| == 8
    && |m.fields| <= MAX_FIELDS && Records(m.fields, NAME) && |m.discovered| == 1
  }

  function WriteModule(m: Module): Bytes {
    m.name + (WritePlace(m.place) + (WriteMethods(m.methods) + (m.claim + (WriteTable(m.fields) + m.discovered))))
  }

  function ReadModule(s: Sizes, data: Bytes): Option<(Module, Bytes)> {
    match Chop(data, NAME) case None => None case Some(a) =>
    match ReadPlace(a.1) case None => None case Some(b) =>
    match ReadMethods(s, b.1) case None => None case Some(c) =>
    match Chop(c.1, 8) case None => None case Some(d) =>
    match ReadTable(NAME, MAX_FIELDS, d.1) case None => None case Some(e) =>
    match Chop(e.1, 1) case None => None case Some(f) =>
    Some((Module(a.0, b.0, c.0, d.0, e.0, f.0), f.1))
  }

  lemma ModuleRoundTrip(s: Sizes, m: Module, rest: Bytes)
    requires GoodModule(s, m)
    ensures ReadModule(s, WriteModule(m) + rest) == Some((m, rest))
  {
    hide WritePlace, WriteMethods, WriteTable, ReadPlace, ReadMethods, ReadTable, Chop, GoodPlace, GoodMethods, Records;
    var f := m.discovered + rest;
    var e := WriteTable(m.fields) + f;
    var d := m.claim + e;
    var c := WriteMethods(m.methods) + d;
    var b := WritePlace(m.place) + c;
    assert WriteModule(m) + rest == m.name + b;
    ChopJoin(m.name, b);
    PlaceBack(m.place, c);
    MethodsBack(s, m.methods, d);
    ChopJoin(m.claim, e);
    TableBack(NAME, MAX_FIELDS, m.fields, f);
    ChopJoin(m.discovered, rest);
  }

  datatype Interface = Interface(name: Bytes, place: Place, methods: seq<Bytes>, discovered: Bytes)

  predicate GoodInterface(s: Sizes, i: Interface) {
    && |i.name| == NAME && GoodPlace(i.place) && |i.methods| <= MAX_METHODS
    && Records(i.methods, s.interfaceMethods) && |i.discovered| == 1
  }

  function WriteInterface(i: Interface): Bytes {
    i.name + (WritePlace(i.place) + (WriteTable(i.methods) + i.discovered))
  }

  function ReadInterface(s: Sizes, data: Bytes): Option<(Interface, Bytes)> {
    match Chop(data, NAME) case None => None case Some(a) =>
    match ReadPlace(a.1) case None => None case Some(b) =>
    match ReadTable(s.interfaceMethods, MAX_METHODS, b.1) case None => None case Some(c) =>
    match Chop(c.1, 1) case None => None case Some(d) =>
    Some((Interface(a.0, b.0, c.0, d.0), d.1))
  }

  lemma InterfaceRoundTrip(s: Sizes, i: Interface, rest: Bytes)
    requires GoodInterface(s, i)
    ensures ReadInterface(s, WriteInterface(i) + rest) == Some((i, rest))
  {
    hide WritePlace, WriteTable, ReadPlace, ReadTable, Chop, GoodPlace, Records;
    var d := i.discovered + rest;
    var c := WriteTable(i.methods) + d;
    var b := WritePlace(i.place) + c;
    assert WriteInterface(i) + rest == i.name + b;
    ChopJoin(i.name, b);
    PlaceBack(i.place, c);
    TableBack(s.interfaceMethods, MAX_METHODS, i.methods, d);
    ChopJoin(i.discovered, rest);
  }

  function ClassReader(s: Sizes): Bytes -> Option<(Class, Bytes)> {
    data => ReadClass(s, data)
  }

  function ModuleReader(s: Sizes): Bytes -> Option<(Module, Bytes)> {
    data => ReadModule(s, data)
  }

  function InterfaceReader(s: Sizes): Bytes -> Option<(Interface, Bytes)> {
    data => ReadInterface(s, data)
  }

  function ClassWriter(): Class -> Bytes {
    c => WriteClass(c)
  }

  function ModuleWriter(): Module -> Bytes {
    m => WriteModule(m)
  }

  function InterfaceWriter(): Interface -> Bytes {
    i => WriteInterface(i)
  }
}
