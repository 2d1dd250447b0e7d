/** The translator at work. */
module TemplateRun {
  import CString
  import opened Template

  // ---------------------------------------------------------------------------------
  // Scanning.

  method FindDelimiter(s: string, from: nat, a: char, b: char) returns (j: nat)
    requires from <= |s|
    ensures j == FindPair(s, from, a, b)
  {
    j := from;
    while j + 2 <= |s|
      invariant from <= j <= |s| && FindPair(s, from, a, b) == FindPair(s, j, a, b)
    {
      if s[j..j + 2] == [a, b] {
        assert PairAt(s, j, a, b);
        return;
      }
      assert !PairAt(s, j, a, b) by {
        assert s[j..j + 2] == [s[j], s[j + 1]];
      }
      j := j + 1;
    }
    NoneAtEnd(s, j, a, b);
    j := |s|;
  }

  lemma NoneAtEnd(s: string, j: nat, a: char, b: char)
    requires j <= |s| < j + 2
    ensures FindPair(s, j, a, b) == |s|
  {
  }

  method ScanTokens(s: string) returns (r: Scanned)
    ensures r == Scan(s, 0)
  {
    hide FindPair, Scan, Preceded;
    var pos: nat, tokens: seq<Token> := 0, [];
    PrecededNothing(Scan(s, 0));
    while pos < |s|
      invariant pos <= |s| && Scan(s, 0) == Preceded(tokens, Scan(s, pos))
      decreases |s| - pos
    {
      ScanStep(s, pos);
      var j := FindDelimiter(s, pos, '<', '%');
      ghost var before := tokens;
      ghost var head := if j > pos then [Text(pos, j - pos)] else [];
      if j > pos {
        tokens := tokens + [Text(pos, j - pos)];
      }
      assert tokens == before + head;
      if j == |s| {
        PrecededEnd(before, head);
        return Tokens(tokens);
      }
      var k := FindDelimiter(s, j + 2, '%', '>');
      if k == |s| {
        PrecededFails(before, j);
        return Unterminated(j);
      }
      PrecededTwice(before, head + [Tag(j + 2, k - j - 2)], Scan(s, k + 2));
      tokens := tokens + [Tag(j + 2, k - j - 2)];
      assert tokens == before + (head + [Tag(j + 2, k - j - 2)]);
      pos := k + 2;
    }
    ScanEnd(s);
    PrecededEnd(tokens, []);
    assert tokens + [] == tokens;
    return Tokens(tokens);
  }

  lemma ScanStep(s: string, pos: nat)
    requires pos < |s|
    ensures var j := FindPair(s, pos, '<', '%');
            var head := if j > pos then [Text(pos, j - pos)] else [];
            && (j == |s| ==> Scan(s, pos) == Tokens(head))
            && (j < |s| ==>
                 && j + 2 <= |s|
                 && var k := FindPair(s, j + 2, '%', '>');
                 && (k == |s| ==> Scan(s, pos) == Unterminated(j))
                 && (k < |s| ==>
                      k + 2 <= |s| && Scan(s, pos) == Preceded(head + [Tag(j + 2, k - j - 2)], Scan(s, k + 2))))
  {
    hide FindPair, Preceded;
  }

  lemma ScanEnd(s: string)
    ensures Scan(s, |s|) == Tokens([])
  {
  }

  lemma PrecededEnd(a: seq<Token>, b: seq<Token>)
    ensures Preceded(a, Tokens(b)) == Tokens(a + b)
  {
  }

  lemma PrecededFails(a: seq<Token>, at: nat)
    ensures Preceded(a, Unterminated(at)) == Unterminated(at)
  {
  }

  lemma PrecededNothing(r: Scanned)
    ensures Preceded([], r) == r
  {
    if r.Tokens? {
      assert [] + r.tokens == r.tokens;
    }
  }

  lemma PrecededTwice(a: seq<Token>, b: seq<Token>, r: Scanned)
    ensures Preceded(a, Preceded(b, r)) == Preceded(a + b, r)
  {
    if r.Tokens? {
      assert a + (b + r.tokens) == a + b + r.tokens;
    }
  }

  // ---------------------------------------------------------------------------------
  // Positions by binary search.

  predicate IsStart(s: string, n: nat) {
    n <= |s| && (n == 0 || s[n - 1] == '\n')
  }

  /** Entry `k` is where line `k`, counted from 0, starts. */
  ghost predicate Index(s: string, starts: seq<nat>, n: nat)
    requires n <= |s|
  {
    && |starts| == Newlines(s, n) + 1
    && forall k :: 0 <= k < |starts| ==> IsStart(s, starts[k]) && starts[k] <= n && Newlines(s, starts[k]) == k
  }

  lemma {:induction false} NewlinesGrow(s: string, m: nat, n: nat)
    requires m <= n <= |s|
    ensures Newlines(s, m) <= Newlines(s, n)
    ensures m < n && s[n - 1] == '\n' ==> Newlines(s, m) < Newlines(s, n)
  {
    if m < n {
      NewlinesGrow(s, m, n - 1);
    }
  }

  lemma {:induction false} StartCounts(s: string, n: nat)
    requires n <= |s|
    ensures IsStart(s, LineStart(s, n)) && Newlines(s, LineStart(s, n)) == Newlines(s, n)
  {
    if n > 0 && s[n - 1] != '\n' {
      StartCounts(s, n - 1);
    }
  }

  lemma SameStart(s: string, a: nat, b: nat)
    requires IsStart(s, a) && IsStart(s, b) && Newlines(s, a) == Newlines(s, b)
    ensures a == b
  {
    if a < b {
      NewlinesGrow(s, a, b);
    } else if b < a {
      NewlinesGrow(s, b, a);
    }
  }

  method BuildIndex(s: string) returns (starts: seq<nat>)
    ensures Index(s, starts, |s|)
  {
    starts := [0];
    var offset := 0;
    while offset < |s|
      invariant 0 <= offset <= |s| && Index(s, starts, offset)
    {
      if s[offset] == '\n' {
        starts := starts + [offset + 1];
      }
      offset := offset + 1;
    }
  }

  /** A start is at or before `n` exactly when no more newlines come before it. */
  lemma StartBefore(s: string, a: nat, n: nat)
    requires IsStart(s, a) && n <= |s|
    ensures a <= n <==> Newlines(s, a) <= Newlines(s, n)
  {
    if a <= n {
      NewlinesGrow(s, a, n);
    } else {
      NewlinesGrow(s, n, a);
    }
  }

  method FindPosition(starts: seq<nat>, offset: nat, ghost s: string) returns (p: Position)
    requires offset <= |s| && Index(s, starts, |s|)
    ensures p == PositionOf(s, offset)
  {
    hide Newlines, LineStart;
    ghost var target := Newlines(s, offset);
    NewlinesGrow(s, offset, |s|);
    var low, high := 0, |starts| - 1;
    while low < high
      invariant 0 <= low <= target <= high < |starts|
    {
      var mid := low + (high - low + 1) / 2;
      StartBefore(s, starts[mid], offset);
      if starts[mid] <= offset {
        low := mid;
      } else {
        high := mid - 1;
      }
    }
    StartCounts(s, offset);
    SameStart(s, starts[low], LineStart(s, offset));
    p := Position(low + 1, offset - starts[low] + 1);
  }

  // ---------------------------------------------------------------------------------
  // Writing.

  method TrimSlice(s: string, start: nat, end: nat) returns (a: nat, b: nat)
    requires start <= end <= |s|
    ensures a == TrimFront(s, start, end) && b == TrimBack(s, a, end) && start <= a <= b <= end
  {
    a, b := start, end;
    while a < end && IsSpace(s[a])
      invariant start <= a <= end && TrimFront(s, start, end) == TrimFront(s, a, end)
    {
      a := a + 1;
    }
    while b > a && IsSpace(s[b - 1])
      invariant a <= b <= end && TrimBack(s, a, end) == TrimBack(s, a, b)
    {
      b := b - 1;
    }
  }

  lemma {:induction false} OutputJoin(a: seq<OutLine>, b: seq<OutLine>)
    ensures Output(a + b) == Output(a) + Output(b)
  {
    if a == [] {
      assert a + b == b;
    } else {
      OutputJoin(a[1..], b);
      assert (a + b)[1..] == a[1..] + b;
    }
  }

  /** The text written so far and the positions of its lines; `lines` is what they make up. */
  class Translator {
    const source: string
    const starts: seq<nat>
    var out: string
    var positions: seq<Position>
    ghost var lines: seq<OutLine>

    constructor (source: string, starts: seq<nat>)
      requires Index(source, starts, |source|)
      ensures Valid() && lines == [] && this.source == source
    {
      this.source := source;
      this.starts := starts;
      out, positions, lines := "", [], [];
    }

    ghost predicate Valid()
      reads this
    {
      Index(source, starts, |source|) && out == Output(lines) && positions == Positions(lines)
    }

    /** One line, and its position. */
    method Emit(text: string, p: Position)
      requires Valid()
      modifies this
      ensures Valid() && lines == old(lines) + [OutLine(text, p)]
    {
      hide Index;
      ghost var one := [OutLine(text, p)];
      OutputJoin(lines, one);
      assert one[1..] == [];
      assert Output(one) == text + "\n" + Output([]);
      assert Positions(lines + one) == Positions(lines) + [p];
      positions := positions + [p];
      out := out + text + "\n";
      lines := lines + one;
    }

    method EmitFixed(texts: seq<string>)
      requires Valid()
      modifies this
      ensures Valid() && lines == old(lines) + FixedLines(texts)
    {
      var i := 0;
      assert texts[0..] == texts;
      while i < |texts|
        invariant 0 <= i <= |texts| && Valid()
        invariant old(lines) + FixedLines(texts) == lines + FixedLines(texts[i..])
      {
        assert texts[i..][1..] == texts[i + 1..];
        Emit(texts[i], NOWHERE);
        i := i + 1;
      }
    }

    /** Code copied from the source, one line of output for each of its lines. */
    method EmitWrapped(start: nat, end: nat, prefix: string, suffix: string)
      requires Valid() && start <= end <= |source|
      modifies this
      ensures Valid() && lines == old(lines) + Wrapped(source, start, end, prefix, suffix)
    {
      hide PositionOf, Index, Wrapped, Output, Positions;
      var from, lead := start, prefix;
      ghost var all := lines + Wrapped(source, start, end, prefix, suffix);
      while true
        invariant Valid() && start <= from <= end && all == lines + Wrapped(source, from, end, lead, suffix)
        decreases end - from
      {
        var e := FindNewline(source, from, end);
        var p := FindPosition(starts, from, source);
        WrappedStep(source, from, end, lead, suffix);
        if e == end {
          Emit(lead + source[from..end] + suffix, p);
          return;
        }
        ghost var rest := Wrapped(source, e + 1, end, "", suffix);
        ghost var before := lines;
        Emit(lead + source[from..e], p);
        assert before + ([OutLine(lead + source[from..e], p)] + rest) == lines + rest;
        from, lead := e + 1, "";
      }
    }

    /** Text, as calls that append it piece by piece. */
    method EmitLiteral(start: nat, end: nat)
      requires Valid() && start <= end <= |source|
      modifies this
      ensures Valid() && lines == old(lines) + Literals(source, start, end)
    {
      hide PositionOf, Escaped, Index, Output, Positions;
      var pos := start;
      while pos < end
        invariant Valid() && start <= pos <= end
        invariant old(lines) + Literals(source, start, end) == lines + Literals(source, pos, end)
      {
        var next := if end - pos > CHUNK then pos + CHUNK else end;
        var p := FindPosition(starts, pos, source);
        var text := EscapeText(source[pos..next]);
        ghost var rest := Literals(source, next, end);
        ghost var before := lines;
        Emit(APPEND + text + APPENDED, p);
        assert before + ([OutLine(APPEND + text + APPENDED, p)] + rest) == lines + rest;
        pos := next;
      }
    }

    method EmitTag(start: nat, end: nat)
      requires Valid() && start <= end <= |source|
      modifies this
      ensures Valid() && lines == old(lines) + TagLines(source, start, end)
    {
      hide Wrapped, TrimFront, TrimBack, Index, Output, Positions;
      var a, b := TrimSlice(source, start, end);
      if a == b || source[a] == '#' {
        return;
      }
      if b - a >= 2 && source[a] == '=' && source[a + 1] == '=' {
        var c, d := TrimSlice(source, a + 2, b);
        EmitWrapped(c, d, "  sb.append(", ")");
      } else if source[a] == '=' {
        var c, d := TrimSlice(source, a + 1, b);
        EmitWrapped(c, d, "  sb.append(__div_escape_html__(", "))");
      } else {
        EmitWrapped(a, b, "", "");
      }
    }

    method EmitBody(tokens: seq<Token>)
      requires Valid() && forall i :: 0 <= i < |tokens| ==> Inside(source, tokens[i])
      modifies this
      ensures Valid() && lines == old(lines) + BodyLines(source, tokens)
    {
      hide TagLines, Literals, Index, Output, Positions;
      var i := 0;
      assert tokens[0..] == tokens;
      while i < |tokens|
        invariant 0 <= i <= |tokens| && Valid()
        invariant old(lines) + BodyLines(source, tokens) == lines + BodyLines(source, tokens[i..])
      {
        assert tokens[i..][1..] == tokens[i + 1..];
        var t := tokens[i];
        ghost var before := lines;
        if t.Tag? {
          EmitTag(t.start, t.start + t.length);
        } else {
          EmitLiteral(t.start, t.start + t.length);
        }
        assert lines == before + TokenLines(source, t);
        i := i + 1;
      }
    }
  }

  lemma WrappedStep(s: string, start: nat, end: nat, prefix: string, suffix: string)
    requires start <= end <= |s|
    ensures var e := NewlineFrom(s, start, end);
            Wrapped(s, start, end, prefix, suffix) ==
            if e == end then [OutLine(prefix + s[start..end] + suffix, PositionOf(s, start))]
            else [OutLine(prefix + s[start..e], PositionOf(s, start))] + Wrapped(s, e + 1, end, "", suffix)
  {
    hide PositionOf;
  }

  method FindNewline(s: string, from: nat, end: nat) returns (j: nat)
    requires from <= end <= |s|
    ensures j == NewlineFrom(s, from, end)
  {
    j := from;
    while j < end && s[j] != '\n'
      invariant from <= j <= end && NewlineFrom(s, from, end) == NewlineFrom(s, j, end)
    {
      j := j + 1;
    }
  }

  method EscapeText(t: string) returns (e: string)
    ensures e == Escaped(t)
  {
    hide EscapedChar;
    e := "";
    var i := 0;
    assert t[0..] == t;
    while i < |t|
      invariant 0 <= i <= |t| && Escaped(t) == e + Escaped(t[i..])
    {
      assert t[i..][1..] == t[i + 1..];
      e := e + EscapedChar(t[i]);
      i := i + 1;
    }
  }

  // ---------------------------------------------------------------------------------
  // Names.

  method SplitNames(s: string, start: nat, end: nat) returns (names: seq<string>)
    requires start <= end <= |s|
    ensures names == NamesFrom(s, start, start, end)
  {
    hide TrimFront, TrimBack, CString.Cut;
    names := [];
    var part, pos := start, start;
    while true
      invariant start <= part <= pos <= end
      invariant NamesFrom(s, start, start, end) == names + NamesFrom(s, part, pos, end)
      decreases end - pos
    {
      if pos == end || s[pos] == ',' {
        var a, b := TrimSlice(s, part, pos);
        if b > a {
          var name := CString.CopyString(s[a..b]);
          names := names + [name];
        }
        if pos == end {
          return;
        }
        part := pos + 1;
      }
      pos := pos + 1;
    }
  }

  method ExtractLocals(s: string, tokens: seq<Token>) returns (names: seq<string>)
    requires forall i :: 0 <= i < |tokens| ==> Inside(s, tokens[i])
    ensures names == Names(s, tokens)
  {
    hide TrimFront, TrimBack, NamesFrom;
    names := [];
    var i := 0;
    assert tokens[0..] == tokens;
    while i < |tokens|
      invariant 0 <= i <= |tokens| && Names(s, tokens) == names + Names(s, tokens[i..])
    {
      assert tokens[i..][1..] == tokens[i + 1..];
      var t := tokens[i];
      var some := LocalsOf(s, t);
      names := names + some;
      i := i + 1;
    }
  }

  method LocalsOf(s: string, t: Token) returns (names: seq<string>)
    requires Inside(s, t)
    ensures names == TokenNames(s, t)
  {
    hide TrimFront, TrimBack, NamesFrom;
    if t.Text? {
      return [];
    }
    var a, b := TrimSlice(s, t.start, t.start + t.length);
    if a == b || s[a] != '#' {
      return [];
    }
    var c, d := TrimSlice(s, a + 1, b);
    if d - c < |DIRECTIVE| || s[c..c + |DIRECTIVE|] != DIRECTIVE {
      return [];
    }
    names := SplitNames(s, c + |DIRECTIVE|, d);
  }

  method ListNames(names: seq<string>) returns (t: string)
    ensures t == Listed(names)
  {
    t := "";
    var i := 0;
    assert names[0..] == names;
    while i < |names|
      invariant 0 <= i <= |names|
      invariant Listed(names) == t + (if 0 < i < |names| then ", " else "") + Listed(names[i..])
    {
      assert names[i..][1..] == names[i + 1..];
      if i > 0 {
        t := t + ", ";
      }
      t := t + names[i];
      i := i + 1;
    }
  }

  // ---------------------------------------------------------------------------------
  // The translation.

  datatype Translated = Code(text: string, positions: seq<Position>) | Failed(at: Position)

  lemma {:induction false} ScanInside(s: string, pos: nat)
    requires pos <= |s|
    ensures var r := Scan(s, pos);
            if r.Tokens? then forall i :: 0 <= i < |r.tokens| ==> Inside(s, r.tokens[i]) else r.at <= |s|
  {
    ScanFails(s, pos);
    ScanRestores(s, pos);
  }

  /** `r` is the code for the tokens of the template and the position of each of its lines, or
      where the tag is that nothing closes. */
  ghost predicate Translates(s: string, helper: seq<string>, r: Translated) {
    match Scan(s, 0)
    case Unterminated(at) => at <= |s| && r == Failed(PositionOf(s, at))
    case Tokens(ts) =>
      && (forall i :: 0 <= i < |ts| ==> Inside(s, ts[i]))
      && r == Code(Output(Translation(s, ts, helper)), Positions(Translation(s, ts, helper)))
  }

  /** Translates a template; `helper` are the lines of the function that escapes HTML. */
  method Translate(s: string, helper: seq<string>) returns (r: Translated)
    ensures Translates(s, helper, r)
  {
    hide Scan, PositionOf, Names, BodyLines, FixedLines, Index, Listed, Output, Positions;
    var scanned := ScanTokens(s);
    ScanInside(s, 0);
    var starts := BuildIndex(s);
    if scanned.Unterminated? {
      var p := FindPosition(starts, scanned.at, s);
      return Failed(p);
    }
    var ts := scanned.tokens;
    var names := ExtractLocals(s, ts);
    var t := new Translator(s, starts);
    t.EmitFixed(helper);
    var list := ListNames(names);
    t.Emit("def __div_template__(" + list + ")", NOWHERE);
    t.Emit("  sb = StringBuilder.new()", NOWHERE);
    t.EmitBody(ts);
    t.Emit("  sb.to_s()", NOWHERE);
    t.Emit("end", NOWHERE);
    assert t.lines == Translation(s, ts, helper);
    return Code(t.out, t.positions);
  }
}
