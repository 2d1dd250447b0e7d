/** A compiled function as bytes. */
module FunctionCodec {
  import opened Wrappers
  import opened ZeroRuns

  const MAX_STRING := 4095

  /** Where the fields of a function's structure are, and how large the parts it counts. A count
      takes eight bytes, the other fields one. `cleared` are the bytes of pointers and of what
      the just-in-time compiler keeps; `ignored` are those that do not tell functions apart. */
  datatype Layout = Layout(size: nat, codeAt: nat, constantAt: nat, stringAt: nat, typeSetAt: nat, valueSize: nat,
                           typeSetSize: nat, variablesAt: nat, classVariableAt: nat, capturesAt: nat, nestedAt: nat,
                           cleared: set<nat>, ignored: set<nat>)

  predicate Free(mask: set<nat>, at: nat, n: nat) {
    forall i :: at <= i < at + n ==> i !in mask
  }

  /** A count at `at` is inside the structure, and no part of a mask. */
  predicate CountFits(l: Layout, at: nat) {
    at + 8 <= l.size && Free(l.cleared, at, 8) && Free(l.ignored, at, 8)
  }

  predicate ByteFits(l: Layout, at: nat) {
    at < l.size && at !in l.cleared
  }

  predicate Fits(l: Layout) {
    && l.size < U32_LIMIT && l.valueSize > 0 && l.typeSetSize > 0
    && CountFits(l, l.codeAt) && CountFits(l, l.constantAt) && CountFits(l, l.stringAt) && CountFits(l, l.typeSetAt)
    && ByteFits(l, l.variablesAt) && ByteFits(l, l.classVariableAt) && ByteFits(l, l.capturesAt)
    && ByteFits(l, l.nestedAt)
  }

  /** The structure of a function and the tables it points to. */
  datatype Function = Function(image: Bytes, code: Bytes, lines: Bytes, columns: Bytes, constants: Bytes,
                               strings: seq<Bytes>, typeSets: Bytes)

  function CountAt(image: Bytes, at: nat): nat
    requires at + 8 <= |image|
  {
    Value(image[at..at + 8])
  }

  /** The tables are as long as the structure says. */
  predicate Sized(l: Layout, f: Function)
    requires Fits(l)
  {
    && |f.image| == l.size
    && |f.code| == CountAt(f.image, l.codeAt) && |f.lines| == |f.columns| == 4 * |f.code|
    && |f.constants| == CountAt(f.image, l.constantAt) * l.valueSize
    && |f.strings| == CountAt(f.image, l.stringAt)
    && |f.typeSets| == CountAt(f.image, l.typeSetAt) * l.typeSetSize
    && forall i :: 0 <= i < |f.strings| ==> |f.strings[i]| <= MAX_STRING
  }

  /** What the reader demands of the generic type fields. */
  predicate Admissible(l: Layout, image: Bytes)
    requires Fits(l) && |image| == l.size
  {
    var variables, classVariable := image[l.variablesAt], image[l.classVariableAt];
    && variables <= 8 && classVariable <= 2 && classVariable <= variables && image[l.capturesAt] <= 1
    && (image[l.capturesAt] == 1 ==> image[l.nestedAt] != 0 && variables != 0 && classVariable == 0)
  }

  function Clear(mask: set<nat>, image: Bytes): (r: Bytes)
    ensures |r| == |image|
  {
    seq(|image|, i requires 0 <= i < |image| => if i in mask then 0 else image[i])
  }

  function WriteStrings(strings: seq<Bytes>): Bytes {
    if strings == [] then [] else Number(|strings[0]|, 8) + strings[0] + WriteStrings(strings[1..])
  }

  function WriteFunction(l: Layout, f: Function): Bytes {
    Encode(Clear(l.cleared, f.image)) +
    (f.code + (f.lines + (f.columns + (f.constants + (WriteStrings(f.strings) + f.typeSets)))))
  }

  /** The first `n` bytes and the rest, if there are as many. */
  function Chop(data: Bytes, n: nat): Option<(Bytes, Bytes)> {
    if n <= |data| then Some((data[..n], data[n..])) else None
  }

  function ReadNumber(data: Bytes): Option<(nat, Bytes)> {
    match Chop(data, 8)
    case None => None
    case Some(head) => Some((Value(head.0), head.1))
  }

  function ReadStrings(data: Bytes, count: nat): Option<(seq<Bytes>, Bytes)> {
    if count == 0 then Some(([], data))
    else match ReadNumber(data)
      case None => None
      case Some(length) =>
        if length.0 > MAX_STRING then None
        else match Chop(length.1, length.0)
          case None => None
          case Some(head) =>
            match ReadStrings(head.1, count - 1)
            case None => None
            case Some(rest) => Some(([head.0] + rest.0, rest.1))
  }

  /** The tables of a function, once its structure is read. */
  function ReadTables(l: Layout, image: Bytes, data: Bytes): Option<(Function, Bytes)>
    requires Fits(l) && |image| == l.size
  {
    var code, constants, strings, typeSets :=
      CountAt(image, l.codeAt), CountAt(image, l.constantAt), CountAt(image, l.stringAt), CountAt(image, l.typeSetAt);
    if code > |data| || constants > |data| / l.valueSize || typeSets > |data| / l.typeSetSize then None
    else match Chop(data, code) case None => None case Some(a) =>
    match Chop(a.1, 4 * code) case None => None case Some(b) =>
    match Chop(b.1, 4 * code) case None => None case Some(c) =>
    match Chop(c.1, constants * l.valueSize) case None => None case Some(d) =>
    if strings > |d.1| / 8 then None
    else match ReadStrings(d.1, strings) case None => None case Some(e) =>
    match Chop(e.1, typeSets * l.typeSetSize) case None => None case Some(f) =>
    Some((Function(image, a.0, b.0, c.0, d.0, e.0, f.0), f.1))
  }

  function ReadFunction(l: Layout, data: Bytes): Option<(Function, Bytes)>
    requires Fits(l)
  {
    match Decode(data, l.size)
    case None => None
    case Some(image) => if Admissible(l, image.0) then ReadTables(l, image.0, data[image.1..]) else None
  }

  // ---------------------------------------------------------------------------------
  // Reading back what was written.

  lemma ChopJoin(a: Bytes, b: Bytes)
    ensures Chop(a + b, |a|) == Some((a, b))
  {
    assert (a + b)[..|a|] == a && (a + b)[|a|..] == b;
  }

  lemma ReadNumberBack(n: nat, rest: Bytes)
    requires n < Limit(8)
    ensures ReadNumber(Number(n, 8) + rest) == Some((n, rest))
  {
    hide Number, Value, Limit, Chop;
    ChopJoin(Number(n, 8), rest);
    NumberValue(n, 8);
  }

  lemma Large()
    ensures Limit(8) == 0x1_0000_0000 * 0x1_0000_0000
  {
    assert Limit(1) == 256;
    assert Limit(2) == 0x1_0000;
    assert Limit(3) == 0x100_0000;
    assert Limit(4) == 0x1_0000_0000;
    assert Limit(5) == 0x100_0000_0000;
    assert Limit(6) == 0x1_0000_0000_0000;
    assert Limit(7) == 0x100_0000_0000_0000;
  }

  lemma {:induction false} ReadStringsBack(strings: seq<Bytes>, rest: Bytes)
    requires forall i :: 0 <= i < |strings| ==> |strings[i]| <= MAX_STRING
    ensures ReadStrings(WriteStrings(strings) + rest, |strings|) == Some((strings, rest))
    ensures |WriteStrings(strings)| >= 8 * |strings|
    decreases |strings|
  {
    hide Number, Value, Limit, Chop, ReadNumber;
    if strings == [] {
      assert WriteStrings(strings) + rest == rest;
    } else {
      var s, more := strings[0], WriteStrings(strings[1..]);
      ReadStringsBack(strings[1..], rest);
      assert WriteStrings(strings) + rest == Number(|s|, 8) + (s + (more + rest));
      Large();
      ReadNumberBack(|s|, s + (more + rest));
      ChopJoin(s, more + rest);
      assert [s] + strings[1..] == strings;
    }
  }

  lemma {:induction false} DivideBound(n: nat, size: nat, total: nat)
    requires size > 0 && n * size <= total
    ensures n <= total / size
  {
    if n > total / size {
      assert (total / size + 1) * size > total;
      Grows(total / size + 1, n, size);
    }
  }

  lemma Grows(a: nat, b: nat, size: nat)
    requires a <= b
    ensures a * size <= b * size
  {
  }

  lemma ReadTablesBack(l: Layout, f: Function, rest: Bytes)
    requires Fits(l) && Sized(l, f)
    ensures var data := f.code + (f.lines + (f.columns + (f.constants + (WriteStrings(f.strings) + f.typeSets))));
            ReadTables(l, f.image, data + rest) == Some((f, rest))
  {
    hide WriteStrings, ReadStrings, Chop, CountAt, Value;
    var strings := WriteStrings(f.strings);
    var e := f.typeSets + rest;
    var d := strings + e;
    var c := f.constants + d;
    var b := f.columns + c;
    var a := f.lines + b;
    var data := f.code + (f.lines + (f.columns + (f.constants + (strings + f.typeSets))));
    assert data + rest == f.code + a;
    ReadStringsBack(f.strings, e);
    ChopJoin(f.code, a);
    ChopJoin(f.lines, b);
    ChopJoin(f.columns, c);
    ChopJoin(f.constants, d);
    ChopJoin(f.typeSets, rest);
    DivideBound(CountAt(f.image, l.constantAt), l.valueSize, |data + rest|);
    DivideBound(CountAt(f.image, l.typeSetAt), l.typeSetSize, |data + rest|);
    DivideBound(|f.strings|, 8, |d|);
  }

  lemma ClearKeeps(mask: set<nat>, image: Bytes, at: nat)
    requires at + 8 <= |image| && Free(mask, at, 8)
    ensures CountAt(Clear(mask, image), at) == CountAt(image, at)
  {
    hide Value;
    assert Clear(mask, image)[at..at + 8] == image[at..at + 8];
  }

  /** The function as it comes back: without pointers. */
  function Plain(l: Layout, f: Function): Function {
    f.(image := Clear(l.cleared, f.image))
  }

  lemma PlainSized(l: Layout, f: Function)
    requires Fits(l) && Sized(l, f) && Admissible(l, f.image)
    ensures Sized(l, Plain(l, f)) && Admissible(l, Plain(l, f).image)
  {
    hide CountAt, Clear, Free;
    ClearKeeps(l.cleared, f.image, l.codeAt);
    ClearKeeps(l.cleared, f.image, l.constantAt);
    ClearKeeps(l.cleared, f.image, l.stringAt);
    ClearKeeps(l.cleared, f.image, l.typeSetAt);
    ClearByte(l.cleared, f.image, l.variablesAt);
    ClearByte(l.cleared, f.image, l.classVariableAt);
    ClearByte(l.cleared, f.image, l.capturesAt);
    ClearByte(l.cleared, f.image, l.nestedAt);
  }

  lemma ClearByte(mask: set<nat>, image: Bytes, at: nat)
    requires at < |image| && at !in mask
    ensures Clear(mask, image)[at] == image[at]
  {
  }

  /** A function comes back without its pointers, and the reader stops where it ends. */
  lemma FunctionRoundTrip(l: Layout, f: Function, rest: Bytes)
    requires Fits(l) && Sized(l, f) && Admissible(l, f.image)
    ensures ReadFunction(l, WriteFunction(l, f) + rest) == Some((Plain(l, f), rest))
  {
    hide Decode, Encode, Clear, ReadTables, WriteStrings, CountAt, Fits, Admissible;
    PlainSized(l, f);
    var image := Clear(l.cleared, f.image);
    var tables := f.code + (f.lines + (f.columns + (f.constants + (WriteStrings(f.strings) + f.typeSets))));
    assert WriteFunction(l, f) + rest == Encode(image) + (tables + rest);
    ImageBack(l, image, tables + rest);
    ReadTablesBack(l, Plain(l, f), rest);
  }

  lemma ImageBack(l: Layout, image: Bytes, rest: Bytes)
    requires Fits(l) && |image| == l.size
    ensures Decode(Encode(image) + rest, l.size) == Some((image, |Encode(image)|))
    ensures (Encode(image) + rest)[|Encode(image)|..] == rest
  {
    hide Decode, Encode;
    RoundTrip(image, rest);
  }
}
