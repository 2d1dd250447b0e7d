/** What the reader of the cache accepts: on any bytes at all it finds a program exactly when they
    start with a writing of that program. */
module CacheMeaning {
  import opened Wrappers
  import opened ZeroRuns
  import opened FunctionCodec
  import opened ClassCodec
  import opened ProgramCodec

  // ---------------------------------------------------------------------------------
  // Numbers and pieces.

  lemma {:induction false} ValueNumber(b: Bytes)
    ensures Value(b) < Limit(|b|) && Number(Value(b), |b|) == b
  {
    if b != [] {
      ValueNumber(b[1..]);
      assert Value(b) % 256 == b[0] && Value(b) / 256 == Value(b[1..]);
    }
  }

  lemma ChopFound(data: Bytes, n: nat)
    requires Chop(data, n).Some?
    ensures var r := Chop(data, n).value; |r.0| == n && data == r.0 + r.1
  {
  }

  lemma NumberFound(data: Bytes)
    requires ReadNumber(data).Some?
    ensures var r := ReadNumber(data).value; r.0 < Limit(8) && data == Number(r.0, 8) + r.1
  {
    hide Value, Number, Limit, Chop;
    ChopFound(data, 8);
    ValueNumber(Chop(data, 8).value.0);
  }

  // ---------------------------------------------------------------------------------
  // Images.

  /** A record of `z` zeros and `n` other bytes, which the image starts with. */
  ghost predicate RecordAt(data: Bytes, image: Bytes, z: nat, n: nat, next: Bytes) {
    0 < z + n <= |image| && z < U32_LIMIT && n < U32_LIMIT && image[..z] == Blank(z) &&
    data == Record(z, n, image[z..z + n]) + next
  }

  /** Records for all of the image, up to `rest`. A writer may cut it into records in any way. */
  ghost predicate ImageAt(data: Bytes, image: Bytes, rest: Bytes)
    decreases |image|
  {
    if image == [] then data == rest
    else exists z: nat, n: nat, next {:trigger RecordAt(data, image, z, n, next)} ::
           RecordAt(data, image, z, n, next) && ImageAt(next, image[z + n..], rest)
  }

  lemma {:induction false} ImageFound(data: Bytes, need: nat)
    requires Decode(data, need).Some?
    ensures var r := Decode(data, need).value; ImageAt(data, r.0, data[r.1..])
    decreases need
  {
    hide Decode, RecordAt, Value;
    if need > 0 {
      var z, n, next := RecordFound(data, need);
      ImageFound(next, need - z - n);
    } else {
      NothingNeeded(data);
      assert data[0..] == data;
    }
  }

  /** The first record of an image that is read, and the rest of the image. */
  lemma RecordFound(data: Bytes, need: nat) returns (z: nat, n: nat, next: Bytes)
    requires need > 0 && Decode(data, need).Some?
    ensures 0 < z + n <= need && Decode(next, need - z - n).Some?
    ensures var r, q := Decode(data, need).value, Decode(next, need - z - n).value;
            RecordAt(data, r.0, z, n, next) && r.0[z + n..] == q.0 && data[r.1..] == next[q.1..]
  {
    hide Value, Record;
    z, n := Value(data[..4]), Value(data[4..8]);
    next := data[8 + n..];
    HeaderFound(data, z, n);
    ImageParts(Blank(z), data[8..8 + n], Decode(next, need - z - n).value.0);
  }

  lemma ImageParts(a: Bytes, b: Bytes, c: Bytes)
    ensures var s := a + b + c; s[..|a|] == a && s[|a|..|a| + |b|] == b && s[|a| + |b|..] == c
  {
  }

  lemma HeaderFound(data: Bytes, z: nat, n: nat)
    requires |data| >= 8 + n && z == Value(data[..4]) && n == Value(data[4..8])
    ensures z < U32_LIMIT && n < U32_LIMIT && data == Record(z, n, data[8..8 + n]) + data[8 + n..]
  {
    hide Value, Number, Limit;
    U32Limit();
    ValueNumber(data[..4]);
    ValueNumber(data[4..8]);
  }

  lemma {:induction false} ImageRead(data: Bytes, image: Bytes, rest: Bytes)
    requires ImageAt(data, image, rest) && |image| < U32_LIMIT
    ensures |rest| <= |data| && Decode(data, |image|) == Some((image, |data| - |rest|)) && data[|data| - |rest|..] == rest
    decreases |image|
  {
    hide Record, Decode;
    if image == [] {
      NothingNeeded(data);
    } else {
      var z: nat, n: nat, next :| RecordAt(data, image, z, n, next) && ImageAt(next, image[z + n..], rest);
      ImageRead(next, image[z + n..], rest);
      var literal := image[z..z + n];
      DecodeRecord(z, n, literal, next, |image|);
      RecordLength(z, n, literal);
      assert Blank(z) + literal + image[z + n..] == image;
    }
  }

  // ---------------------------------------------------------------------------------
  // Functions.

  function TableBytes(f: Function): Bytes {
    f.code + (f.lines + (f.columns + (f.constants + (WriteStrings(f.strings) + f.typeSets))))
  }

  /** The bytes are those of the function and then `rest`. */
  ghost predicate FunctionAt(l: Layout, data: Bytes, f: Function, rest: Bytes)
    requires Fits(l)
  {
    GoodFunction(l, f) && ImageAt(data, f.image, TableBytes(f) + rest)
  }

  lemma {:induction false} StringsFound(data: Bytes, count: nat)
    requires ReadStrings(data, count).Some?
    ensures var r := ReadStrings(data, count).value;
            && |r.0| == count && data == WriteStrings(r.0) + r.1
            && forall i :: 0 <= i < count ==> |r.0[i]| <= MAX_STRING
    decreases count
  {
    hide ReadNumber, Chop, Number;
    if count > 0 {
      var length := ReadNumber(data).value;
      var head := Chop(length.1, length.0).value;
      NumberFound(data);
      ChopFound(length.1, length.0);
      StringsFound(head.1, count - 1);
      var rest := ReadStrings(head.1, count - 1).value;
      var all := ReadStrings(data, count).value.0;
      assert all[1..] == rest.0;
      assert data == Number(|head.0|, 8) + head.0 + WriteStrings(rest.0) + rest.1;
    } else {
      assert [] + data == data;
    }
  }

  lemma TablesFound(l: Layout, image: Bytes, data: Bytes)
    requires Fits(l) && |image| == l.size && ReadTables(l, image, data).Some?
    ensures var r := ReadTables(l, image, data).value; r.0.image == image && Sized(l, r.0) && data == TableBytes(r.0) + r.1
  {
    hide CountAt, ReadStrings, WriteStrings, Chop;
    var r := ReadTables(l, image, data).value;
    var code := CountAt(image, l.codeAt);
    var a := Chop(data, code).value;
    ChopFound(data, code);
    var b := Chop(a.1, 4 * code).value;
    ChopFound(a.1, 4 * code);
    var c := Chop(b.1, 4 * code).value;
    ChopFound(b.1, 4 * code);
    var constants := CountAt(image, l.constantAt) * l.valueSize;
    var d := Chop(c.1, constants).value;
    ChopFound(c.1, constants);
    StringsFound(d.1, CountAt(image, l.stringAt));
    var e := ReadStrings(d.1, CountAt(image, l.stringAt)).value;
    var typeSets := CountAt(image, l.typeSetAt) * l.typeSetSize;
    ChopFound(e.1, typeSets);
    TablesRegroup(r.0, r.1);
  }

  lemma TablesRegroup(f: Function, rest: Bytes)
    ensures TableBytes(f) + rest ==
            f.code + (f.lines + (f.columns + (f.constants + (WriteStrings(f.strings) + (f.typeSets + rest)))))
  {
  }

  lemma FunctionMeans(l: Layout, data: Bytes, f: Function, rest: Bytes)
    requires Fits(l)
    ensures ReadFunction(l, data) == Some((f, rest)) <==> FunctionAt(l, data, f, rest)
  {
    hide Decode, ReadTables, Admissible, Sized, TableBytes, ImageAt;
    if ReadFunction(l, data) == Some((f, rest)) {
      var image := Decode(data, l.size).value;
      ImageFound(data, l.size);
      TablesFound(l, image.0, data[image.1..]);
    }
    if FunctionAt(l, data, f, rest) {
      SizedImage(l, f);
      ImageRead(data, f.image, TableBytes(f) + rest);
      FunctionTables(l, f, rest);
    }
  }

  lemma SizedImage(l: Layout, f: Function)
    requires Fits(l) && Sized(l, f)
    ensures |f.image| == l.size
  {
  }

  lemma FunctionTables(l: Layout, f: Function, rest: Bytes)
    requires Fits(l) && Sized(l, f)
    ensures ReadTables(l, f.image, TableBytes(f) + rest) == Some((f, rest))
  {
    hide ReadTables, Sized;
    ReadTablesBack(l, f, rest);
  }

  ghost predicate FunctionsAt(l: Layout, data: Bytes, fs: seq<Function>, rest: Bytes)
    requires Fits(l)
    decreases |fs|
  {
    if fs == [] then data == rest
    else exists next {:trigger FunctionAt(l, data, fs[0], next)} ::
           FunctionAt(l, data, fs[0], next) && FunctionsAt(l, next, fs[1..], rest)
  }

  lemma {:induction false} FunctionsMean(l: Layout, data: Bytes, fs: seq<Function>, rest: Bytes)
    requires Fits(l)
    ensures ReadFunctions(l, data, |fs|) == Some((fs, rest)) <==> FunctionsAt(l, data, fs, rest)
    decreases |fs|
  {
    hide ReadFunction, FunctionAt, Fits;
    if fs != [] {
      if ReadFunctions(l, data, |fs|) == Some((fs, rest)) {
        var f := ReadFunction(l, data).value;
        var more := ReadFunctions(l, f.1, |fs| - 1).value;
        assert fs[1..] == more.0;
        FunctionsMean(l, f.1, fs[1..], rest);
        FunctionMeans(l, data, fs[0], f.1);
      }
      if FunctionsAt(l, data, fs, rest) {
        var next :| FunctionAt(l, data, fs[0], next) && FunctionsAt(l, next, fs[1..], rest);
        FunctionMeans(l, data, fs[0], next);
        FunctionsMean(l, next, fs[1..], rest);
        assert [fs[0]] + fs[1..] == fs;
      }
    }
  }

  // ---------------------------------------------------------------------------------
  // The parts of classes, modules and interfaces.

  lemma {:induction false} RecordsFound(size: nat, data: Bytes, count: nat)
    requires ReadRecords(size, data, count).Some?
    ensures var r := ReadRecords(size, data, count).value;
            |r.0| == count && Records(r.0, size) && data == WriteRecords(r.0) + r.1
    decreases count
  {
    hide Chop;
    if count > 0 {
      var x := Chop(data, size).value;
      ChopFound(data, size);
      RecordsFound(size, x.1, count - 1);
      var rest := ReadRecords(size, x.1, count - 1).value;
      assert ReadRecords(size, data, count).value.0[1..] == rest.0;
      assert data == x.0 + WriteRecords(rest.0) + rest.1;
    } else {
      assert [] + data == data;
    }
  }

  lemma PlaceFound(data: Bytes)
    requires ReadPlace(data).Some?
    ensures var r := ReadPlace(data).value; GoodPlace(r.0) && data == WritePlace(r.0) + r.1
  {
  }

  /** `m` is `raw` without the bytes of pointers. */
  ghost predicate RawOf(s: Sizes, raw: Methods, m: Methods) {
    && Records(raw.instance, s.methods) && Records(raw.singleton, s.methods)
    && m == Methods(Cleared(s, raw.instance), Cleared(s, raw.singleton))
  }

  lemma ClearedGood(s: Sizes, ms: seq<Bytes>)
    requires Records(ms, s.methods)
    ensures PlainMethods(s, Cleared(s, ms))
  {
    var cs := Cleared(s, ms);
    forall i | 0 <= i < |cs|
      ensures |cs[i]| == s.methods && Clear(s.pointers, cs[i]) == cs[i]
    {
      assert cs[i] == Clear(s.pointers, ms[i]);
    }
  }

  lemma MethodsFound(s: Sizes, data: Bytes) returns (raw: Methods)
    requires ReadMethods(s, data).Some?
    ensures var r := ReadMethods(s, data).value;
            RawOf(s, raw, r.0) && GoodMethods(s, r.0) && data == WriteMethods(raw) + r.1
  {
    hide ReadNumber, Number, ReadRecords, WriteRecords, Records, Cleared, PlainMethods;
    var a := ReadNumber(data).value;
    NumberFound(data);
    var b := ReadNumber(a.1).value;
    NumberFound(a.1);
    var c := ReadRecords(s.methods, b.1, a.0).value;
    RecordsFound(s.methods, b.1, a.0);
    var d := ReadRecords(s.methods, c.1, b.0).value;
    RecordsFound(s.methods, c.1, b.0);
    raw := Methods(c.0, d.0);
    ClearedGood(s, c.0);
    ClearedGood(s, d.0);
    CountCleared(s, c.0);
    CountCleared(s, d.0);
    MethodsRegroup(raw, d.1);
  }

  lemma CountCleared(s: Sizes, ms: seq<Bytes>)
    ensures |Cleared(s, ms)| == |ms|
  {
  }

  lemma MethodsRegroup(m: Methods, rest: Bytes)
    ensures WriteMethods(m) + rest ==
            Number(|m.instance|, 8) + (Number(|m.singleton|, 8) + (WriteRecords(m.instance) +
            (WriteRecords(m.singleton) + rest)))
  {
    hide Number, WriteRecords;
  }

  lemma MethodsRead(s: Sizes, raw: Methods, m: Methods, rest: Bytes)
    requires RawOf(s, raw, m) && GoodMethods(s, m)
    ensures ReadMethods(s, WriteMethods(raw) + rest) == Some((m, rest))
  {
    hide ReadNumber, Number, ReadRecords, WriteRecords, Cleared, Limit, Records, PlainMethods;
    CountCleared(s, raw.instance);
    CountCleared(s, raw.singleton);
    var d := WriteRecords(raw.singleton) + rest;
    var c := WriteRecords(raw.instance) + d;
    MethodsRegroup(raw, rest);
    Large();
    ReadNumberBack(|raw.instance|, Number(|raw.singleton|, 8) + c);
    ReadNumberBack(|raw.singleton|, c);
    RecordsBack(s.methods, raw.instance, d);
    RecordsBack(s.methods, raw.singleton, rest);
  }

  lemma HeadingFound(data: Bytes)
    requires ReadHeading(data).Some?
    ensures var r := ReadHeading(data).value; GoodHeading(r.0) && data == WriteHeading(r.0) + r.1
  {
    hide Chop, GoodHeading;
    var a := Chop(data, NAME).value;
    ChopFound(data, NAME);
    var b := Chop(a.1, NAME).value;
    ChopFound(a.1, NAME);
    ChopFound(b.1, NAME);
  }

  lemma FlagFound(data: Bytes)
    requires ReadFlag(data).Some?
    ensures var r := ReadFlag(data).value; data == Flag(r.0) + r.1
  {
  }

  lemma HeldFound(present: bool, size: nat, data: Bytes)
    requires ReadHeld(present, size, data).Some?
    ensures var r := ReadHeld(present, size, data).value;
            && r.0.Some? == present && (present ==> |r.0.value| == size) && data == Held(r.0) + r.1
  {
    if !present {
      assert [] + data == data;
    }
  }

  lemma ArgumentsFound(s: Sizes, generic: bool, data: Bytes)
    requires ReadArguments(s, generic, data).Some?
    ensures var r := ReadArguments(s, generic, data).value;
            GoodArguments(s, r.0, generic) && data == WriteArguments(r.0) + r.1
  {
    hide ReadFlag, ReadHeld, Flag, Held;
    var a := ReadFlag(data).value;
    FlagFound(data);
    var b := ReadFlag(a.1).value;
    FlagFound(a.1);
    var c := ReadFlag(b.1).value;
    FlagFound(b.1);
    var d := ReadFlag(c.1).value;
    FlagFound(c.1);
    var e := ReadHeld(d.0, s.bindings, d.1).value;
    HeldFound(d.0, s.bindings, d.1);
    var f := ReadHeld(b.0, s.bindings, e.1).value;
    HeldFound(b.0, s.bindings, e.1);
    ArgumentsRegroup(Arguments(a.0, c.0, e.0, f.0), f.1);
  }

  lemma ArgumentsRegroup(a: Arguments, rest: Bytes)
    ensures WriteArguments(a) + rest ==
            Flag(a.isStruct) + (Flag(a.fixedOnes.Some?) + (Flag(a.swaps) + (Flag(a.parent.Some?) +
            (Held(a.parent) + (Held(a.fixedOnes) + rest)))))
  {
    hide Flag, Held;
  }

  lemma FieldsFound(data: Bytes)
    requires ReadFields(data).Some?
    ensures var r := ReadFields(data).value; GoodFields(r.0) && data == WriteFields(r.0) + r.1
  {
    hide ReadNumber, Number, ReadRecords, WriteRecords, Records;
    var a := ReadNumber(data).value;
    NumberFound(data);
    var b := ReadRecords(NAME, a.1, a.0).value;
    RecordsFound(NAME, a.1, a.0);
    var c := ReadRecords(STATUS, b.1, a.0).value;
    RecordsFound(STATUS, b.1, a.0);
    var d := ReadRecords(CLASS_NUMBER, c.1, a.0).value;
    RecordsFound(CLASS_NUMBER, c.1, a.0);
    FieldsRegroup(Fields(b.0, c.0, d.0), d.1);
  }

  lemma FieldsRegroup(f: Fields, rest: Bytes)
    ensures WriteFields(f) + rest ==
            Number(|f.names|, 8) + (WriteRecords(f.names) + (WriteRecords(f.statuses) + (WriteRecords(f.classes) + rest)))
  {
    hide Number, WriteRecords;
  }

  lemma TableFound(size: nat, limit: nat, data: Bytes)
    requires ReadTable(size, limit, data).Some?
    ensures var r := ReadTable(size, limit, data).value;
            |r.0| <= limit && Records(r.0, size) && data == WriteTable(r.0) + r.1
  {
    hide ReadNumber, Number, ReadRecords, WriteRecords, Records;
    var a := ReadNumber(data).value;
    NumberFound(data);
    RecordsFound(size, a.1, a.0);
    var r := ReadRecords(size, a.1, a.0).value;
    assert Number(a.0, 8) + (WriteRecords(r.0) + r.1) == Number(a.0, 8) + WriteRecords(r.0) + r.1;
  }

  // ---------------------------------------------------------------------------------
  // Classes, modules and interfaces.

  /** The bytes are those of the class, whatever pointers its methods had, and then `rest`. */
  ghost predicate ClassAt(s: Sizes, data: Bytes, c: Class, rest: Bytes) {
    GoodClass(s, c) && exists raw :: RawOf(s, raw, c.methods) && data == WriteClass(c.(methods := raw)) + rest
  }

  lemma ClassMeans(s: Sizes, data: Bytes, c: Class, rest: Bytes)
    ensures ReadClass(s, data) == Some((c, rest)) <==> ClassAt(s, data, c, rest)
  {
    if ReadClass(s, data) == Some((c, rest)) {
      ClassFound(s, data);
    }
    if ClassAt(s, data, c, rest) {
      var raw :| RawOf(s, raw, c.methods) && data == WriteClass(c.(methods := raw)) + rest;
      ClassRead(s, raw, c, rest);
    }
  }

  lemma ClassFound(s: Sizes, data: Bytes)
    requires ReadClass(s, data).Some?
    ensures var r := ReadClass(s, data).value; ClassAt(s, data, r.0, r.1)
  {
    hide ReadHeading, ReadArguments, ReadPlace, ReadMethods, ReadFields, ReadTable, Chop, WriteClass, GoodHeading,
         GoodArguments, GoodPlace, GoodMethods, GoodFields, Records, RawOf, WriteHeading, WriteArguments, WritePlace,
         WriteMethods, WriteFields, WriteTable;
    var a := ReadHeading(data).value;
    HeadingFound(data);
    var b := ReadArguments(s, Generic(a.0), a.1).value;
    ArgumentsFound(s, Generic(a.0), a.1);
    var c := ReadPlace(b.1).value;
    PlaceFound(b.1);
    var d := Chop(c.1, CLASS_NUMBER).value;
    ChopFound(c.1, CLASS_NUMBER);
    var e := ReadMethods(s, d.1).value;
    var raw := MethodsFound(s, d.1);
    var f := ReadFields(e.1).value;
    FieldsFound(e.1);
    var g := ReadTable(NAME, MAX_CLASS_VARIABLES, f.1).value;
    TableFound(NAME, MAX_CLASS_VARIABLES, f.1);
    var h := Chop(g.1, 1).value;
    ChopFound(g.1, 1);
    ClassBytes(Class(a.0, b.0, c.0, d.0, raw, f.0, g.0, h.0), h.1);
  }

  lemma ClassRead(s: Sizes, raw: Methods, c: Class, rest: Bytes)
    requires GoodClass(s, c) && RawOf(s, raw, c.methods)
    ensures ReadClass(s, WriteClass(c.(methods := raw)) + rest) == Some((c, rest))
  {
    hide WriteHeading, WriteArguments, WritePlace, WriteMethods, WriteFields, WriteTable, ReadHeading, ReadArguments,
         ReadPlace, ReadMethods, ReadFields, ReadTable, Chop, GoodHeading, GoodArguments, GoodPlace, GoodMethods,
         GoodFields, Records, RawOf;
    var h := c.discovered + rest;
    var g := WriteTable(c.variables) + h;
    var f := WriteFields(c.fields) + g;
    var e := WriteMethods(raw) + f;
    var d := c.superclass + e;
    var b := WritePlace(c.place) + d;
    var a := WriteArguments(c.arguments) + b;
    ClassBytes(c.(methods := raw), rest);
    HeadingBack(c.heading, a);
    ArgumentsBack(s, c.arguments, Generic(c.heading), b);
    PlaceBack(c.place, d);
    ChopJoin(c.superclass, e);
    MethodsRead(s, raw, c.methods, f);
    FieldsBack(c.fields, g);
    TableBack(NAME, MAX_CLASS_VARIABLES, c.variables, h);
    ChopJoin(c.discovered, rest);
  }

  ghost predicate ModuleAt(s: Sizes, data: Bytes, m: Module, rest: Bytes) {
    GoodModule(s, m) && exists raw :: RawOf(s, raw, m.methods) && data == WriteModule(m.(methods := raw)) + rest
  }

  lemma ModuleMeans(s: Sizes, data: Bytes, m: Module, rest: Bytes)
    ensures ReadModule(s, data) == Some((m, rest)) <==> ModuleAt(s, data, m, rest)
  {
    if ReadModule(s, data) == Some((m, rest)) {
      ModuleFound(s, data);
    }
    if ModuleAt(s, data, m, rest) {
      var raw :| RawOf(s, raw, m.methods) && data == WriteModule(m.(methods := raw)) + rest;
      ModuleRead(s, raw, m, rest);
    }
  }

  lemma ModuleRegroup(m: Module, rest: Bytes)
    ensures WriteModule(m) + rest ==
            m.name + (WritePlace(m.place) + (WriteMethods(m.methods) + (m.claim + (WriteTable(m.fields) +
            (m.discovered + rest)))))
  {
    hide WritePlace, WriteMethods, WriteTable;
  }

  lemma ModuleFound(s: Sizes, data: Bytes)
    requires ReadModule(s, data).Some?
    ensures var r := ReadModule(s, data).value; ModuleAt(s, data, r.0, r.1)
  {
    hide ReadPlace, ReadMethods, ReadTable, Chop, WriteModule, GoodPlace, GoodMethods, Records, RawOf, WritePlace,
         WriteMethods, WriteTable;
    var a := Chop(data, NAME).value;
    ChopFound(data, NAME);
    var b := ReadPlace(a.1).value;
    PlaceFound(a.1);
    var c := ReadMethods(s, b.1).value;
    var raw := MethodsFound(s, b.1);
    var d := Chop(c.1, 8).value;
    ChopFound(c.1, 8);
    var e := ReadTable(NAME, MAX_FIELDS, d.1).value;
    TableFound(NAME, MAX_FIELDS, d.1);
    var f := Chop(e.1, 1).value;
    ChopFound(e.1, 1);
    ModuleRegroup(Module(a.0, b.0, raw, d.0, e.0, f.0), f.1);
  }

  lemma ModuleRead(s: Sizes, raw: Methods, m: Module, rest: Bytes)
    requires GoodModule(s, m) && RawOf(s, raw, m.methods)
    ensures ReadModule(s, WriteModule(m.(methods := raw)) + rest) == Some((m, rest))
  {
    hide WritePlace, WriteMethods, WriteTable, ReadPlace, ReadMethods, ReadTable, Chop, GoodPlace, GoodMethods, Records,
         RawOf, WriteModule;
    var f := m.discovered + rest;
    var e := WriteTable(m.fields) + f;
    var d := m.claim + e;
    var c := WriteMethods(raw) + d;
    var b := WritePlace(m.place) + c;
    ModuleRegroup(m.(methods := raw), rest);
    ChopJoin(m.name, b);
    PlaceBack(m.place, c);
    MethodsRead(s, raw, m.methods, d);
    ChopJoin(m.claim, e);
    TableBack(NAME, MAX_FIELDS, m.fields, f);
    ChopJoin(m.discovered, rest);
  }

  ghost predicate InterfaceAt(s: Sizes, data: Bytes, i: Interface, rest: Bytes) {
    GoodInterface(s, i) && data == WriteInterface(i) + rest
  }

  lemma InterfaceMeans(s: Sizes, data: Bytes, i: Interface, rest: Bytes)
    ensures ReadInterface(s, data) == Some((i, rest)) <==> InterfaceAt(s, data, i, rest)
  {
    hide ReadInterface, WriteInterface;
    if ReadInterface(s, data) == Some((i, rest)) {
      InterfaceFound(s, data);
    }
    if InterfaceAt(s, data, i, rest) {
      InterfaceRoundTrip(s, i, rest);
    }
  }

  lemma InterfaceFound(s: Sizes, data: Bytes)
    requires ReadInterface(s, data).Some?
    ensures var r := ReadInterface(s, data).value; InterfaceAt(s, data, r.0, r.1)
  {
    hide ReadPlace, ReadTable, Chop, GoodPlace, Records, WritePlace, WriteTable;
    var a := Chop(data, NAME).value;
    ChopFound(data, NAME);
    var b := ReadPlace(a.1).value;
    PlaceFound(a.1);
    var c := ReadTable(s.interfaceMethods, MAX_METHODS, b.1).value;
    TableFound(s.interfaceMethods, MAX_METHODS, b.1);
    ChopFound(c.1, 1);
  }

  // ---------------------------------------------------------------------------------
  // Many of a kind.

  ghost predicate ManyAt<T(!new)>(one: (Bytes, T, Bytes) -> bool, data: Bytes, xs: seq<T>, rest: Bytes)
    decreases |xs|
  {
    if xs == [] then data == rest
    else exists next {:trigger one(data, xs[0], next)} :: one(data, xs[0], next) && ManyAt(one, next, xs[1..], rest)
  }

  lemma {:induction false} ManyMean<T(!new)>(read: Bytes -> Option<(T, Bytes)>, one: (Bytes, T, Bytes) -> bool,
                                             data: Bytes, xs: seq<T>, rest: Bytes)
    requires forall d: Bytes, x: T, r: Bytes :: one(d, x, r) <==> read(d) == Some((x, r))
    ensures ReadMany(read, data, |xs|) == Some((xs, rest)) <==> ManyAt(one, data, xs, rest)
    decreases |xs|
  {
    if xs != [] {
      if ReadMany(read, data, |xs|) == Some((xs, rest)) {
        var x := read(data).value;
        var more := ReadMany(read, x.1, |xs| - 1).value;
        assert xs[1..] == more.0;
        ManyMean(read, one, x.1, xs[1..], rest);
        assert one(data, xs[0], x.1);
      }
      if ManyAt(one, data, xs, rest) {
        var next :| one(data, xs[0], next) && ManyAt(one, next, xs[1..], rest);
        ManyMean(read, one, next, xs[1..], rest);
        assert [xs[0]] + xs[1..] == xs;
      }
    }
  }

  // ---------------------------------------------------------------------------------
  // Programs.

  ghost function ClassBy(s: Sizes): (Bytes, Class, Bytes) -> bool {
    (data, c, rest) => ClassAt(s, data, c, rest)
  }

  ghost function InterfaceBy(s: Sizes): (Bytes, Interface, Bytes) -> bool {
    (data, i, rest) => InterfaceAt(s, data, i, rest)
  }

  ghost function ModuleBy(s: Sizes): (Bytes, Module, Bytes) -> bool {
    (data, m, rest) => ModuleAt(s, data, m, rest)
  }

  function CountBytes(p: Program): Bytes {
    Number(|p.classes|, 8) + (Number(|p.interfaces|, 8) + (Number(|p.modules|, 8) + Number(|p.constants|, 8)))
  }

  /** The parts after the functions, and then `rest`. */
  ghost predicate TailAt(m: Format, data: Bytes, p: Program, rest: Bytes) {
    && |p.classes| <= MAX_CLASSES && |p.interfaces| <= MAX_INTERFACES && |p.modules| <= MAX_MODULES
    && |p.constants| <= MAX_CONSTANTS && Records(p.constants, m.constantSize) && |p.rangeClass| == 2
    && exists a, b, c :: data == CountBytes(p) + a && ManyAt(ClassBy(m.sizes), a, p.classes, b) &&
         ManyAt(InterfaceBy(m.sizes), b, p.interfaces, c) &&
         ManyAt(ModuleBy(m.sizes), c, p.modules, WriteRecords(p.constants) + (p.rangeClass + rest))
  }

  /** The entry, the functions after those of the template, and the tail. */
  ghost predicate ProgramAt(m: Format, data: Bytes, template: seq<Function>, p: Program, rest: Bytes)
    requires Fits(m.layout)
  {
    template <= p.functions &&
    var added := p.functions[|template|..];
    |added| < Limit(8) &&
    exists a, b :: FunctionAt(m.layout, data, p.entry, Number(|added|, 8) + a) && FunctionsAt(m.layout, a, added, b) &&
                   TailAt(m, b, p, rest)
  }

  lemma ClassesMean(s: Sizes, data: Bytes, cs: seq<Class>, rest: Bytes)
    ensures ReadMany(ClassReader(s), data, |cs|) == Some((cs, rest)) <==> ManyAt(ClassBy(s), data, cs, rest)
  {
    hide ReadMany, ManyAt, ReadClass, ClassAt;
    forall d: Bytes, c: Class, r: Bytes
      ensures ClassBy(s)(d, c, r) <==> ClassReader(s)(d) == Some((c, r))
    {
      ClassMeans(s, d, c, r);
    }
    ManyMean(ClassReader(s), ClassBy(s), data, cs, rest);
  }

  lemma InterfacesMean(s: Sizes, data: Bytes, xs: seq<Interface>, rest: Bytes)
    ensures ReadMany(InterfaceReader(s), data, |xs|) == Some((xs, rest)) <==> ManyAt(InterfaceBy(s), data, xs, rest)
  {
    hide ReadMany, ManyAt, ReadInterface, InterfaceAt;
    forall d: Bytes, i: Interface, r: Bytes
      ensures InterfaceBy(s)(d, i, r) <==> InterfaceReader(s)(d) == Some((i, r))
    {
      InterfaceMeans(s, d, i, r);
    }
    ManyMean(InterfaceReader(s), InterfaceBy(s), data, xs, rest);
  }

  lemma ModulesMean(s: Sizes, data: Bytes, xs: seq<Module>, rest: Bytes)
    ensures ReadMany(ModuleReader(s), data, |xs|) == Some((xs, rest)) <==> ManyAt(ModuleBy(s), data, xs, rest)
  {
    hide ReadMany, ManyAt, ReadModule, ModuleAt;
    forall d: Bytes, x: Module, r: Bytes
      ensures ModuleBy(s)(d, x, r) <==> ModuleReader(s)(d) == Some((x, r))
    {
      ModuleMeans(s, d, x, r);
    }
    ManyMean(ModuleReader(s), ModuleBy(s), data, xs, rest);
  }

  /** A reader of many finds as many. */
  lemma {:induction false} ManyCount<T>(read: Bytes -> Option<(T, Bytes)>, data: Bytes, count: nat)
    ensures var r := ReadMany(read, data, count); r.Some? ==> |r.value.0| == count
    decreases count
  {
    if count > 0 && read(data).Some? {
      ManyCount(read, read(data).value.1, count - 1);
    }
  }

  /** Four numbers are read, with `x`, `y` and `z` between them. */
  predicate Counts(data: Bytes, a: nat, x: Bytes, b: nat, y: Bytes, c: nat, z: Bytes, d: nat, rest: Bytes) {
    && ReadNumber(data) == Some((a, x)) && ReadNumber(x) == Some((b, y))
    && ReadNumber(y) == Some((c, z)) && ReadNumber(z) == Some((d, rest))
  }

  lemma CountsFound(data: Bytes, a: nat, x: Bytes, b: nat, y: Bytes, c: nat, z: Bytes, d: nat, rest: Bytes)
    requires Counts(data, a, x, b, y, c, z, d, rest)
    ensures data == Number(a, 8) + (Number(b, 8) + (Number(c, 8) + Number(d, 8))) + rest
  {
    hide ReadNumber, Number;
    NumberFound(data);
    NumberFound(x);
    NumberFound(y);
    NumberFound(z);
  }

  lemma CountsRead(a: nat, b: nat, c: nat, d: nat, rest: Bytes) returns (x: Bytes, y: Bytes, z: Bytes)
    requires a < Limit(8) && b < Limit(8) && c < Limit(8) && d < Limit(8)
    ensures Counts(Number(a, 8) + (Number(b, 8) + (Number(c, 8) + Number(d, 8))) + rest, a, x, b, y, c, z, d, rest)
  {
    hide ReadNumber, Number, Limit;
    z := Number(d, 8) + rest;
    y := Number(c, 8) + z;
    x := Number(b, 8) + y;
    assert Number(a, 8) + (Number(b, 8) + (Number(c, 8) + Number(d, 8))) + rest == Number(a, 8) + x;
    ReadNumberBack(a, x);
    ReadNumberBack(b, y);
    ReadNumberBack(c, z);
    ReadNumberBack(d, rest);
  }

  lemma TailFound(m: Format, entry: Function, functions: seq<Function>, data: Bytes) returns (rest: Bytes)
    requires ReadTail(m, entry, functions, data).Some?
    ensures var p := ReadTail(m, entry, functions, data).value;
            p.entry == entry && p.functions == functions && TailAt(m, data, p, rest)
  {
    hide ReadNumber, ReadMany, ReadRecords, Chop, ManyAt, WriteRecords, Records, Number;
    var p := ReadTail(m, entry, functions, data).value;
    var a := ReadNumber(data).value;
    var b := ReadNumber(a.1).value;
    var c := ReadNumber(b.1).value;
    var d := ReadNumber(c.1).value;
    CountsFound(data, a.0, a.1, b.0, b.1, c.0, c.1, d.0, d.1);
    var e := ReadMany(ClassReader(m.sizes), d.1, a.0).value;
    ManyCount(ClassReader(m.sizes), d.1, a.0);
    ClassesMean(m.sizes, d.1, e.0, e.1);
    var f := ReadMany(InterfaceReader(m.sizes), e.1, b.0).value;
    ManyCount(InterfaceReader(m.sizes), e.1, b.0);
    InterfacesMean(m.sizes, e.1, f.0, f.1);
    var g := ReadMany(ModuleReader(m.sizes), f.1, c.0).value;
    ManyCount(ModuleReader(m.sizes), f.1, c.0);
    ModulesMean(m.sizes, f.1, g.0, g.1);
    var h := ReadRecords(m.constantSize, g.1, d.0).value;
    RecordsFound(m.constantSize, g.1, d.0);
    rest := Chop(h.1, 2).value.1;
    ChopFound(h.1, 2);
    assert data == CountBytes(p) + d.1;
  }

  lemma TailRead(m: Format, data: Bytes, p: Program, rest: Bytes)
    requires TailAt(m, data, p, rest)
    ensures ReadTail(m, p.entry, p.functions, data) == Some(p)
  {
    hide ReadNumber, ReadMany, ReadRecords, Chop, ManyAt, WriteRecords, Records, Number, Limit;
    var last := p.rangeClass + rest;
    var a, b, c :| data == CountBytes(p) + a && ManyAt(ClassBy(m.sizes), a, p.classes, b) &&
                   ManyAt(InterfaceBy(m.sizes), b, p.interfaces, c) &&
                   ManyAt(ModuleBy(m.sizes), c, p.modules, WriteRecords(p.constants) + last);
    Large();
    var x, y, z := CountsRead(|p.classes|, |p.interfaces|, |p.modules|, |p.constants|, a);
    ClassesMean(m.sizes, a, p.classes, b);
    InterfacesMean(m.sizes, b, p.interfaces, c);
    ModulesMean(m.sizes, c, p.modules, WriteRecords(p.constants) + last);
    RecordsBack(m.constantSize, p.constants, last);
    ChopJoin(p.rangeClass, rest);
  }

  lemma {:induction false} FunctionsCount(l: Layout, data: Bytes, count: nat)
    requires Fits(l)
    ensures var r := ReadFunctions(l, data, count); r.Some? ==> |r.value.0| == count
    decreases count
  {
    hide ReadFunction, Fits;
    if count > 0 && ReadFunction(l, data).Some? {
      FunctionsCount(l, ReadFunction(l, data).value.1, count - 1);
    }
  }

  /** What the reader makes of any bytes. */
  lemma BodyMeans(m: Format, data: Bytes, template: seq<Function>, p: Program)
    requires Fits(m.layout)
    ensures ReadBody(m, data, template) == Some(p) <==> exists rest :: ProgramAt(m, data, template, p, rest)
  {
    hide ReadBody, ProgramAt, Fits;
    if ReadBody(m, data, template) == Some(p) {
      var rest := BodyFound(m, data, template);
    }
    if rest :| ProgramAt(m, data, template, p, rest) {
      BodyRead(m, data, template, p, rest);
    }
  }

  lemma BodyFound(m: Format, data: Bytes, template: seq<Function>) returns (rest: Bytes)
    requires Fits(m.layout) && ReadBody(m, data, template).Some?
    ensures ProgramAt(m, data, template, ReadBody(m, data, template).value, rest)
  {
    hide ReadFunction, ReadFunctions, ReadNumber, ReadTail, FunctionAt, FunctionsAt, TailAt, Fits, Number, Limit;
    var l := m.layout;
    var entry := ReadFunction(l, data).value;
    var count := ReadNumber(entry.1).value;
    NumberFound(entry.1);
    var fs := ReadFunctions(l, count.1, count.0).value;
    FunctionsCount(l, count.1, count.0);
    FunctionMeans(l, data, entry.0, entry.1);
    FunctionsMean(l, count.1, fs.0, fs.1);
    rest := TailFound(m, entry.0, template + fs.0, fs.1);
    assert (template + fs.0)[|template|..] == fs.0;
  }

  lemma BodyRead(m: Format, data: Bytes, template: seq<Function>, p: Program, rest: Bytes)
    requires Fits(m.layout) && ProgramAt(m, data, template, p, rest)
    ensures ReadBody(m, data, template) == Some(p)
  {
    hide ReadFunction, ReadFunctions, ReadNumber, ReadTail, FunctionAt, FunctionsAt, TailAt, Fits, Number, Limit;
    var l, added := m.layout, p.functions[|template|..];
    var a, b :| FunctionAt(l, data, p.entry, Number(|added|, 8) + a) && FunctionsAt(l, a, added, b) &&
                TailAt(m, b, p, rest);
    FunctionMeans(l, data, p.entry, Number(|added|, 8) + a);
    ReadNumberBack(|added|, a);
    FunctionsMean(l, a, added, b);
    assert template + added == p.functions;
    TailRead(m, b, p, rest);
  }
}
