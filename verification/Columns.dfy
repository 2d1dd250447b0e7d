/** Columns of a line counted in bytes of UTF-8 and in UTF-16 code units. */
module Columns {
  import opened Utf8

  // ---------------------------------------------------------------------------------
  // Counting.

  /** What a byte adds: nothing for a continuation, a surrogate pair for the first of four. */
  function UnitsOf(c: char): nat {
    if IsContinuation(c) then 0 else if c as int >= 0xF0 then 2 else 1
  }

  /** The units in the first `n` bytes. */
  function Units(line: string, n: nat): nat
    requires n <= |line|
  {
    if n == 0 then 0 else Units(line, n - 1) + UnitsOf(line[n - 1])
  }

  /** Past the end of the line, each byte counts as a unit. */
  function Utf16FromBytes(line: string, n: nat): nat {
    if n <= |line| then Units(line, n) else Units(line, |line|) + (n - |line|)
  }

  /** How many bytes the character has, by its first one. */
  function SequenceLength(c: char): nat {
    var n := c as int;
    if n >= 0xF0 then 4 else if n >= 0xE0 then 3 else if n >= 0xC0 then 2 else 1
  }

  function PairWidth(c: char): nat {
    if c as int >= 0xF0 then 2 else 1
  }

  /** From byte `i`, with `units` counted, as far as `utf16` units go. */
  function BytesFrom(line: string, i: nat, units: nat, utf16: nat): nat
    decreases |line| - i
  {
    if i >= |line| then |line|
    else if units + PairWidth(line[i]) > utf16 then i
    else BytesFrom(line, i + SequenceLength(line[i]), units + PairWidth(line[i]), utf16)
  }

  function BytesFromUtf16(line: string, utf16: nat): nat {
    BytesFrom(line, 0, 0, utf16)
  }

  method CountUnits(line: string, n: nat) returns (units: nat)
    ensures units == Utf16FromBytes(line, n)
  {
    units := 0;
    var limit := if n < |line| then n else |line|;
    var i := 0;
    while i < limit
      invariant 0 <= i <= limit && units == Units(line, i)
    {
      if !IsContinuation(line[i]) {
        units := units + if line[i] as int >= 0xF0 then 2 else 1;
      }
      i := i + 1;
    }
    units := units + if n > |line| then n - |line| else 0;
  }

  method CountBytes(line: string, utf16: nat) returns (n: nat)
    ensures n == BytesFromUtf16(line, utf16)
  {
    var units: nat, i: nat := 0, 0;
    while i < |line|
      invariant BytesFromUtf16(line, utf16) == BytesFrom(line, i, units, utf16)
      decreases |line| - i
    {
      var width := PairWidth(line[i]);
      if units + width > utf16 {
        break;
      }
      units := units + width;
      i := i + SequenceLength(line[i]);
    }
    return if i < |line| then i else |line|;
  }

  // ---------------------------------------------------------------------------------
  // Any line: both counts grow with what they count.

  lemma {:induction false} UnitsGrow(line: string, m: nat, n: nat)
    requires m <= n
    ensures Utf16FromBytes(line, m) <= Utf16FromBytes(line, n)
    decreases n - m
  {
    if m < n {
      UnitsGrow(line, m, n - 1);
    }
  }

  lemma {:induction false} BytesReach(line: string, i: nat, units: nat, u: nat)
    ensures i <= |line| ==> i <= BytesFrom(line, i, units, u)
    ensures BytesFrom(line, i, units, u) <= |line|
    decreases |line| - i
  {
    if i < |line| && units + PairWidth(line[i]) <= u {
      BytesReach(line, i + SequenceLength(line[i]), units + PairWidth(line[i]), u);
    }
  }

  lemma {:induction false} BytesGrow(line: string, i: nat, units: nat, u: nat, v: nat)
    requires u <= v
    ensures BytesFrom(line, i, units, u) <= BytesFrom(line, i, units, v)
    decreases |line| - i
  {
    if i < |line| {
      if units + PairWidth(line[i]) <= u {
        BytesGrow(line, i + SequenceLength(line[i]), units + PairWidth(line[i]), u, v);
      } else {
        BytesReach(line, i, units, v);
      }
    }
  }

  lemma BytesMonotone(line: string, u: nat, v: nat)
    requires u <= v
    ensures BytesFromUtf16(line, u) <= BytesFromUtf16(line, v)
  {
    BytesGrow(line, 0, 0, u, v);
  }

  // ---------------------------------------------------------------------------------
  // A line of valid UTF-8.

  ghost predicate Scalars(us: seq<nat>) {
    forall k :: 0 <= k < |us| ==> IsScalar(us[k])
  }

  /** The byte at which character `j` starts. */
  ghost function Boundary(us: seq<nat>, j: nat): nat
    requires Scalars(us) && j <= |us|
  {
    |EncodeAll(us[..j])|
  }

  /** The unit at which it starts. */
  ghost function UnitAt(us: seq<nat>, j: nat): nat
    requires j <= |us|
  {
    if j == 0 then 0 else UnitAt(us, j - 1) + if us[j - 1] >= 0x10000 then 2 else 1
  }

  lemma {:induction false} EncodeSplit(us: seq<nat>, j: nat)
    requires Scalars(us) && j <= |us|
    ensures EncodeAll(us) == EncodeAll(us[..j]) + EncodeAll(us[j..])
    decreases |us|
  {
    hide Encode;
    if j == 0 {
      assert us[..0] == [] && us[0..] == us;
    } else {
      EncodeSplit(us[1..], j - 1);
      assert us[..j][1..] == us[1..][..j - 1];
      assert us[1..][j - 1..] == us[j..];
    }
  }

  lemma EncodeStep(us: seq<nat>, j: nat)
    requires Scalars(us) && j < |us|
    ensures IsScalar(us[j])
    ensures Boundary(us, j + 1) == Boundary(us, j) + |Encode(us[j])|
    ensures EncodeAll(us) == EncodeAll(us[..j]) + (Encode(us[j]) + EncodeAll(us[j + 1..]))
  {
    hide Encode;
    EncodeSplit(us, j);
    EncodeSplit(us[..j + 1], j);
    assert us[..j + 1][..j] == us[..j] && us[..j + 1][j..] == [us[j]];
    assert us[j..][1..] == us[j + 1..];
    assert [us[j]][1..] == [];
    assert EncodeAll([us[j]]) == Encode(us[j]) + "";
  }

  /** The first byte of a character says how long it is in bytes and in units. */
  lemma {:induction false} LeadByte(u: nat)
    requires IsScalar(u)
    ensures SequenceLength(Encode(u)[0]) == |Encode(u)|
    ensures PairWidth(Encode(u)[0]) == UnitsOf(Encode(u)[0]) == if u >= 0x10000 then 2 else 1
    ensures forall k :: 1 <= k < |Encode(u)| ==> UnitsOf(Encode(u)[k]) == 0
  {
    RoundTrip(u, "");
    assert Encode(u) + "" == Encode(u);
  }

  lemma {:induction false} UnitsPrefix(a: string, b: string, n: nat)
    requires n <= |a|
    ensures Units(a + b, n) == Units(a, n)
  {
    if n > 0 {
      UnitsPrefix(a, b, n - 1);
    }
  }

  lemma {:induction false} UnitsThrough(a: string, b: string, n: nat)
    requires 0 < n <= |b| && forall k :: 1 <= k < |b| ==> UnitsOf(b[k]) == 0
    ensures Units(a + b, |a| + n) == Units(a, |a|) + UnitsOf(b[0])
  {
    if n == 1 {
      UnitsPrefix(a, b, |a|);
      assert (a + b)[|a|] == b[0];
    } else {
      UnitsThrough(a, b, n - 1);
      assert (a + b)[|a| + n - 1] == b[n - 1];
    }
  }

  /** A character between other text. */
  lemma UnitsPast(a: string, b: string, c: string)
    requires |b| > 0 && forall k :: 1 <= k < |b| ==> UnitsOf(b[k]) == 0
    ensures Units(a + (b + c), |a| + |b|) == Units(a + (b + c), |a|) + UnitsOf(b[0])
  {
    hide UnitsOf;
    UnitsThrough(a, b, |b|);
    assert a + (b + c) == (a + b) + c;
    UnitsPrefix(a + b, c, |a + b|);
    UnitsPrefix(a, b + c, |a|);
  }

  /** At every character boundary the units are those of the characters before it. */
  lemma {:induction false} UnitsAtBoundary(us: seq<nat>, j: nat)
    requires Scalars(us) && j <= |us|
    ensures Boundary(us, j) <= |EncodeAll(us)| && Utf16FromBytes(EncodeAll(us), Boundary(us, j)) == UnitAt(us, j)
  {
    hide Encode, UnitsOf, EncodeAll, Units, PairWidth, SequenceLength;
    if j == 0 {
      UnitsNone(us);
    } else {
      UnitsAtBoundary(us, j - 1);
      EncodeStep(us, j - 1);
      LeadByte(us[j - 1]);
      UnitsPast(EncodeAll(us[..j - 1]), Encode(us[j - 1]), EncodeAll(us[j..]));
    }
  }

  lemma UnitsNone(us: seq<nat>)
    requires Scalars(us)
    ensures Boundary(us, 0) == 0 && Units(EncodeAll(us), 0) == 0
  {
    assert us[..0] == [];
  }

  /** From a boundary on, the count of bytes goes from boundary to boundary. */
  lemma {:induction false} BytesStep(us: seq<nat>, j: nat, u: nat)
    requires Scalars(us) && j <= |us|
    ensures BytesFrom(EncodeAll(us), Boundary(us, j), UnitAt(us, j), u) ==
            if j == |us| || UnitAt(us, j + 1) > u then Boundary(us, j)
            else BytesFrom(EncodeAll(us), Boundary(us, j + 1), UnitAt(us, j + 1), u)
  {
    hide Encode;
    if j == |us| {
      assert us[..j] == us;
    } else {
      EncodeStep(us, j);
      LeadByte(us[j]);
      var a, b := EncodeAll(us[..j]), Encode(us[j]);
      assert EncodeAll(us)[|a|] == b[0];
    }
  }

  /** The last character boundary that is no further than `u` units. */
  ghost function LastWithin(us: seq<nat>, j: nat, u: nat): (k: nat)
    requires j <= |us|
    ensures j <= k <= |us| && (k < |us| ==> UnitAt(us, k + 1) > u) && (UnitAt(us, j) <= u ==> UnitAt(us, k) <= u)
    decreases |us| - j
  {
    if j == |us| || UnitAt(us, j + 1) > u then j else LastWithin(us, j + 1, u)
  }

  lemma {:induction false} BytesAre(us: seq<nat>, j: nat, u: nat)
    requires Scalars(us) && j <= |us|
    ensures BytesFrom(EncodeAll(us), Boundary(us, j), UnitAt(us, j), u) == Boundary(us, LastWithin(us, j, u))
    decreases |us| - j
  {
    BytesStep(us, j, u);
    if j < |us| && UnitAt(us, j + 1) <= u {
      BytesAre(us, j + 1, u);
    }
  }

  lemma BytesFromStart(us: seq<nat>, u: nat)
    requires Scalars(us)
    ensures BytesFromUtf16(EncodeAll(us), u) == Boundary(us, LastWithin(us, 0, u))
  {
    assert us[..0] == [];
    BytesAre(us, 0, u);
  }

  lemma {:induction false} LastWithinIs(us: seq<nat>, i: nat, j: nat)
    requires i <= j <= |us|
    ensures LastWithin(us, i, UnitAt(us, j)) == j && UnitAt(us, i) <= UnitAt(us, j)
    decreases j - i
  {
    if i < j {
      LastWithinIs(us, i + 1, j);
    }
  }

  /** At every character boundary, bytes to units and back is where it started. */
  lemma BoundaryRoundTrip(us: seq<nat>, j: nat)
    requires Scalars(us) && j <= |us|
    ensures var line := EncodeAll(us);
            BytesFromUtf16(line, Utf16FromBytes(line, Boundary(us, j))) == Boundary(us, j)
  {
    UnitsAtBoundary(us, j);
    BytesFromStart(us, UnitAt(us, j));
    LastWithinIs(us, 0, j);
  }

  /** Units to bytes and back loses at most one unit, and that only inside a surrogate pair;
      past the end of the line it gives the end. */
  lemma UnitsRoundTrip(us: seq<nat>, u: nat)
    requires Scalars(us)
    ensures var line := EncodeAll(us);
            var back := Utf16FromBytes(line, BytesFromUtf16(line, u));
            if u >= UnitAt(us, |us|) then back == UnitAt(us, |us|)
            else back == u || (back == u - 1 && exists j: nat :: j < |us| && us[j] >= 0x10000 && u == UnitAt(us, j) + 1)
  {
    var k := LastWithin(us, 0, u);
    BytesFromStart(us, u);
    UnitsAtBoundary(us, k);
    if k < |us| {
      LastWithinIs(us, k + 1, |us|);
      assert us[k] >= 0x10000 ==> UnitAt(us, k + 1) == UnitAt(us, k) + 2;
    } else {
      assert UnitAt(us, |us|) <= u;
    }
  }

  // ---------------------------------------------------------------------------------
  // The lines of a text.

  /** The pieces between newlines. */
  function Lines(text: string): (ls: seq<string>)
    ensures |ls| > 0
  {
    if text == "" then [""]
    else
      var rest := Lines(text[1..]);
      if text[0] == '\n' then [""] + rest else [[text[0]] + rest[0]] + rest[1..]
  }

  function LineEnd(text: string, i: nat): (j: nat)
    requires i <= |text|
    ensures i <= j <= |text| && (j < |text| ==> text[j] == '\n') && forall k :: i <= k < j ==> text[k] != '\n'
    decreases |text| - i
  {
    if i < |text| && text[i] != '\n' then LineEnd(text, i + 1) else i
  }

  lemma {:induction false} FirstLine(text: string)
    ensures var e := LineEnd(text, 0);
            && Lines(text)[0] == text[..e]
            && Lines(text)[1..] == if e == |text| then [] else Lines(text[e + 1..])
    decreases |text|
  {
    if text != "" && text[0] != '\n' {
      FirstLine(text[1..]);
      LineEndShift(text, 1);
      OneMore(text, LineEnd(text[1..], 0));
    }
  }

  lemma OneMore(text: string, e: nat)
    requires text != "" && text[0] != '\n' && e < |text| && Lines(text[1..])[0] == text[1..][..e]
    requires Lines(text[1..])[1..] == if e == |text| - 1 then [] else Lines(text[1..][e + 1..])
    ensures Lines(text)[0] == text[..e + 1]
    ensures Lines(text)[1..] == if e + 1 == |text| then [] else Lines(text[e + 2..])
  {
    hide Lines;
    LinesStep(text);
    assert text[..e + 1] == [text[0]] + text[1..][..e];
    assert e + 1 < |text| ==> text[e + 2..] == text[1..][e + 1..];
  }

  lemma LinesStep(text: string)
    requires text != "" && text[0] != '\n'
    ensures var rest := Lines(text[1..]);
            Lines(text)[0] == [text[0]] + rest[0] && Lines(text)[1..] == rest[1..]
  {
  }

  lemma {:induction false} LineEndShift(text: string, i: nat)
    requires i <= |text|
    ensures LineEnd(text, i) == i + LineEnd(text[i..], 0)
  {
    var e := i + LineEnd(text[i..], 0);
    var f := LineEnd(text, i);
    assert forall k :: 0 <= k < |text| - i ==> text[i..][k] == text[i + k];
  }

  /** Line `line` (from 1) of the text: where it starts and how long it is. */
  method FindLine(text: string, line: nat) returns (found: bool, start: nat, length: nat)
    ensures found <==> 1 <= line <= |Lines(text)|
    ensures found ==> start + length <= |text| && text[start..start + length] == Lines(text)[line - 1]
  {
    hide Lines;
    start, length := 0, 0;
    if line == 0 {
      return false, 0, 0;
    }
    var offset: nat, current: nat := 0, 1;
    assert text[0..] == text;
    while current < line
      invariant 1 <= current <= line && offset <= |text|
      invariant |Lines(text)| >= current && Lines(text)[current - 1..] == Lines(text[offset..])
    {
      ghost var rest := text[offset..];
      var newline := FindNewline(text, offset);
      FirstLine(rest);
      LineEndShift(text, offset);
      if newline >= |text| {
        assert |Lines(rest)[1..]| == 0;
        return false, 0, 0;
      }
      assert Lines(text)[current..] == Lines(rest)[1..];
      assert rest[newline - offset + 1..] == text[newline + 1..];
      offset := newline + 1;
      current := current + 1;
    }
    var end := FindNewline(text, offset);
    FirstLine(text[offset..]);
    LineEndShift(text, offset);
    assert Lines(text)[line - 1] == Lines(text[offset..])[0];
    assert text[offset..end] == text[offset..][..end - offset];
    return true, offset, end - offset;
  }

  method FindNewline(text: string, from: nat) returns (i: nat)
    requires from <= |text|
    ensures i == LineEnd(text, from)
  {
    i := from;
    while i < |text| && text[i] != '\n'
      invariant from <= i <= |text| && LineEnd(text, from) == LineEnd(text, i)
    {
      i := i + 1;
    }
  }

  /** The column of the protocol for a byte column; unchanged when there is no such line. */
  method CharacterFor(text: string, line: nat, column: nat) returns (character: nat)
    ensures character == if 1 <= line <= |Lines(text)| then Utf16FromBytes(Lines(text)[line - 1], column) else column
  {
    var found, start, length := FindLine(text, line);
    if !found {
      return column;
    }
    character := CountUnits(text[start..start + length], column);
  }

  /** The byte column for a column of the protocol. */
  method ByteColumnFor(text: string, line: nat, character: nat) returns (column: nat)
    ensures column ==
            if 1 <= line <= |Lines(text)| then BytesFromUtf16(Lines(text)[line - 1], character) else character
  {
    var found, start, length := FindLine(text, line);
    if !found {
      return character;
    }
    column := CountBytes(text[start..start + length], character);
  }

  /** A byte column at a character boundary of any line of a text survives the trip to the
      protocol and back. */
  method ThereAndBack(text: string, line: nat, ghost us: seq<nat>, ghost j: nat, column: nat) returns (back: nat)
    requires 1 <= line <= |Lines(text)| && Scalars(us) && j <= |us|
    requires Lines(text)[line - 1] == EncodeAll(us) && column == Boundary(us, j)
    ensures back == column
  {
    var character := CharacterFor(text, line, column);
    back := ByteColumnFor(text, line, character);
    BoundaryRoundTrip(us, j);
  }
}
