/** What a translated template does, statement by statement, against what the template says. */
module TemplateMeaning {
  import CString
  import opened Wrappers
  import opened Template
  import opened TemplateFacts
  import opened TemplateRun

  // ---------------------------------------------------------------------------------
  // What a template says.

  /** What a template asks for: to append a text, the value of an expression, that value with HTML
      escaped, or to run code. */
  datatype Act = AppendText(text: string) | AppendValue(code: string) | AppendEscaped(code: string) | RunCode(code: string)

  const SPACES: set<char> := {' ', '\t', '\n', '\r'}

  /** `core` is `t` without the white space at its ends. */
  ghost predicate Trimmed(t: string, core: string) {
    exists a, b :: Around(t, a, core, b)
  }

  ghost predicate Around(t: string, a: string, core: string, b: string) {
    && t == a + core + b && (forall c :: c in a ==> c in SPACES) && (forall c :: c in b ==> c in SPACES)
    && (core != "" ==> core[0] !in SPACES && core[|core| - 1] !in SPACES)
  }

  /** There is one way to trim a text. */
  lemma TrimmedOnce(t: string, x: string, y: string)
    requires Trimmed(t, x) && Trimmed(t, y)
    ensures x == y
  {
    var a, b :| Around(t, a, x, b);
    var c, d :| Around(t, c, y, d);
    TrimmedWithin(t, a, x, b, c, y, d);
    TrimmedWithin(t, c, y, d, a, x, b);
    if x != "" {
      assert t[|a|..|a| + |x|] == x && t[|c|..|c| + |y|] == y;
    }
  }

  lemma TrimmedWithin(t: string, a: string, x: string, b: string, c: string, y: string, d: string)
    requires Around(t, a, x, b) && Around(t, c, y, d)
    ensures x != "" ==> y != "" && |c| <= |a| && |a| + |x| <= |c| + |y|
  {
    SpacesAround(t, c, y, d);
    if x != "" {
      var i, j := |a|, |a| + |x| - 1;
      assert t[i] == x[0] && t[j] == x[|x| - 1];
    }
  }

  lemma SpacesAround(t: string, a: string, x: string, b: string)
    requires Around(t, a, x, b)
    ensures forall i :: 0 <= i < |a| || |a| + |x| <= i < |t| ==> t[i] in SPACES
  {
    forall i | 0 <= i < |a| || |a| + |x| <= i < |t|
      ensures t[i] in SPACES
    {
      assert t[i] in a || t[i] in b;
    }
  }

  /** What a tag with the content `t` asks for: `=` appends an expression escaped and `==` as it is,
      `#` is a comment, and anything else is code. */
  ghost predicate TagAsks(t: string, acts: seq<Act>) {
    exists core :: Trimmed(t, core) && CoreAsks(core, acts)
  }

  ghost predicate CoreAsks(core: string, acts: seq<Act>) {
    if core == "" || core[0] == '#' then acts == []
    else if "==" <= core then exists code :: Trimmed(core[2..], code) && acts == [AppendValue(code)]
    else if "=" <= core then exists code :: Trimmed(core[1..], code) && acts == [AppendEscaped(code)]
    else acts == [RunCode(core)]
  }

  /** A text is appended, in one piece or several. */
  ghost predicate TextAsks(t: string, acts: seq<Act>) {
    if acts == [] then t == ""
    else acts[0].AppendText? && acts[0].text <= t && TextAsks(t[|acts[0].text|..], acts[1..])
  }

  ghost predicate Asks(s: string, ts: seq<Token>, acts: seq<Act>)
    requires forall i :: 0 <= i < |ts| ==> Inside(s, ts[i])
    decreases |ts|
  {
    if ts == [] then acts == []
    else exists n: nat {:trigger acts[..n]} :: n <= |acts| && TokenAsks(s, ts[0], acts[..n]) && Asks(s, ts[1..], acts[n..])
  }

  ghost predicate TokenAsks(s: string, t: Token, acts: seq<Act>)
    requires Inside(s, t)
  {
    if t.Text? then TextAsks(Content(s, t), acts) else TagAsks(Content(s, t), acts)
  }

  // ---------------------------------------------------------------------------------
  // What the output says.

  /** The statement does what `act` asks for. The literal of a text that has a zero byte cannot be
      read, because the lexer stops there. */
  ghost predicate Says(statement: string, act: Act) {
    match act
    case AppendText(t) =>
      exists literal :: statement == "  sb.append(\"" + literal &&
        ReadLiteral(literal) == if '\0' in t then None else Some((t, ")"))
    case AppendValue(code) => statement == "  sb.append(" + code + ")"
    case AppendEscaped(code) => statement == "  sb.append(__div_escape_html__(" + code + "))"
    case RunCode(code) => statement == code
  }

  ghost predicate AllSay(statements: seq<string>, acts: seq<Act>) {
    |statements| == |acts| && forall i :: 0 <= i < |acts| ==> Says(statements[i], acts[i])
  }

  /** Statements one after the other, each ended by a newline. */
  function Written(statements: seq<string>): string {
    if statements == [] then "" else statements[0] + "\n" + Written(statements[1..])
  }

  lemma {:induction false} WrittenJoin(a: seq<string>, b: seq<string>)
    ensures Written(a + b) == Written(a) + Written(b)
  {
    if a == [] {
      assert a + b == b;
    } else {
      WrittenJoin(a[1..], b);
      assert (a + b)[1..] == a[1..] + b;
    }
  }

  lemma {:induction false} OutputJoined(a: seq<OutLine>, b: seq<OutLine>)
    ensures Output(a + b) == Output(a) + Output(b)
  {
    if a == [] {
      assert a + b == b;
    } else {
      OutputJoined(a[1..], b);
      assert (a + b)[1..] == a[1..] + b;
    }
  }

  lemma {:induction false} OutputLines(ls: seq<OutLine>)
    requires ls != []
    ensures Output(ls) == Joined(ls) + "\n"
  {
    if |ls| == 1 {
      assert ls[1..] == [];
      assert Output(ls) == ls[0].text + "\n" + "";
    } else {
      OutputLines(ls[1..]);
    }
  }

  // ---------------------------------------------------------------------------------
  // Tags.

  lemma {:induction false} FrontMeans(s: string, start: nat, end: nat)
    requires start <= end <= |s|
    ensures var a := TrimFront(s, start, end);
            (forall i :: start <= i < a ==> s[i] in SPACES) && (a < end ==> s[a] !in SPACES)
    decreases end - start
  {
    if start < end && Template.IsSpace(s[start]) {
      FrontMeans(s, start + 1, end);
    }
  }

  lemma {:induction false} BackMeans(s: string, start: nat, end: nat)
    requires start <= end <= |s|
    ensures var b := TrimBack(s, start, end);
            (forall i :: b <= i < end ==> s[i] in SPACES) && (start < b ==> s[b - 1] !in SPACES)
    decreases end
  {
    if start < end && Template.IsSpace(s[end - 1]) {
      BackMeans(s, start, end - 1);
    }
  }

  lemma TrimMeans(s: string, start: nat, end: nat)
    requires start <= end <= |s|
    ensures var a := TrimFront(s, start, end); Trimmed(s[start..end], s[a..TrimBack(s, a, end)])
  {
    hide TrimFront, TrimBack;
    var a := TrimFront(s, start, end);
    var b := TrimBack(s, a, end);
    FrontMeans(s, start, end);
    BackMeans(s, a, end);
    assert s[start..end] == s[start..a] + s[a..b] + s[b..end];
    assert Around(s[start..end], s[start..a], s[a..b], s[b..end]);
  }

  lemma OneStatement(statement: string, act: Act)
    requires Says(statement, act)
    ensures AllSay([statement], [act]) && Written([statement]) == statement + "\n"
  {
    assert [statement][1..] == [];
  }

  lemma WrappedSays(s: string, start: nat, end: nat, prefix: string, suffix: string, act: Act)
    requires start <= end <= |s| && Says(prefix + s[start..end] + suffix, act)
    ensures var statements := [prefix + s[start..end] + suffix];
            AllSay(statements, [act]) && Output(Wrapped(s, start, end, prefix, suffix)) == Written(statements)
  {
    hide Wrapped, Joined, Output, Written, Says, AllSay;
    WrappedJoins(s, start, end, prefix, suffix);
    OutputLines(Wrapped(s, start, end, prefix, suffix));
    OneStatement(prefix + s[start..end] + suffix, act);
  }

  lemma TagMeans(s: string, start: nat, end: nat) returns (statements: seq<string>, acts: seq<Act>)
    requires start <= end <= |s|
    ensures TagAsks(s[start..end], acts) && AllSay(statements, acts)
    ensures Output(TagLines(s, start, end)) == Written(statements)
  {
    hide TrimFront, TrimBack, Trimmed, Wrapped, Output, Written, AllSay;
    var a := TrimFront(s, start, end);
    var b := TrimBack(s, a, end);
    TrimMeans(s, start, end);
    var core := s[a..b];
    if a == b || s[a] == '#' {
      statements, acts := [], [];
      NothingSaid();
      assert CoreAsks(core, acts);
    } else if b - a >= 2 && s[a] == '=' && s[a + 1] == '=' {
      var c := TrimFront(s, a + 2, b);
      var d := TrimBack(s, c, b);
      TrimMeans(s, a + 2, b);
      assert core[2..] == s[a + 2..b];
      statements, acts := ["  sb.append(" + s[c..d] + ")"], [AppendValue(s[c..d])];
      WrappedSays(s, c, d, "  sb.append(", ")", acts[0]);
      assert "==" <= core && CoreAsks(core, acts);
    } else if s[a] == '=' {
      var c := TrimFront(s, a + 1, b);
      var d := TrimBack(s, c, b);
      TrimMeans(s, a + 1, b);
      assert core[1..] == s[a + 1..b];
      statements, acts := ["  sb.append(__div_escape_html__(" + s[c..d] + "))"], [AppendEscaped(s[c..d])];
      WrappedSays(s, c, d, "  sb.append(__div_escape_html__(", "))", acts[0]);
      assert |core| >= 2 ==> core[1] == s[a + 1];
      assert "=" <= core && CoreAsks(core, acts);
    } else {
      assert "" + core + "" == core;
      statements, acts := [core], [RunCode(core)];
      WrappedSays(s, a, b, "", "", acts[0]);
      assert core[0] == s[a] && CoreAsks(core, acts);
    }
  }

  lemma NothingSaid()
    ensures AllSay([], []) && Written([]) == "" == Output([])
  {
  }

  // ---------------------------------------------------------------------------------
  // Text.

  lemma LiteralSays(t: string)
    ensures Says(APPEND + Escaped(t) + APPENDED, AppendText(t))
  {
    hide Escaped, ReadLiteral;
    var literal := Escaped(t) + "\"" + ")";
    EscapedBack(t, ")");
    assert APPEND + Escaped(t) + APPENDED == "  sb.append(\"" + literal;
  }

  lemma {:induction false} TextMeans(s: string, start: nat, end: nat) returns (statements: seq<string>, acts: seq<Act>)
    requires start <= end <= |s|
    ensures TextAsks(s[start..end], acts) && AllSay(statements, acts)
    ensures Output(Literals(s, start, end)) == Written(statements)
    decreases end - start
  {
    hide Escaped, Says, PositionOf;
    if start == end {
      statements, acts := [], [];
    } else {
      var next := if end - start > CHUNK then start + CHUNK else end;
      var t, rest := s[start..next], Literals(s, next, end);
      var statement := APPEND + Escaped(t) + APPENDED;
      var ss, more := TextMeans(s, next, end);
      LiteralSays(t);
      statements, acts := [statement] + ss, [AppendText(t)] + more;
      assert statements[1..] == ss && acts[1..] == more;
      assert t == s[start..end][..next - start] && s[start..end][next - start..] == s[next..end];
      assert ([OutLine(statement, PositionOf(s, start))] + rest)[1..] == rest;
    }
  }

  // ---------------------------------------------------------------------------------
  // The body.

  lemma AllSayJoin(a: seq<string>, x: seq<Act>, b: seq<string>, y: seq<Act>)
    requires AllSay(a, x) && AllSay(b, y)
    ensures AllSay(a + b, x + y)
  {
    hide Says;
  }

  lemma TokenMeans(s: string, t: Token) returns (statements: seq<string>, acts: seq<Act>)
    requires Inside(s, t)
    ensures TokenAsks(s, t, acts) && AllSay(statements, acts) && Output(TokenLines(s, t)) == Written(statements)
  {
    hide TextAsks, TagAsks, AllSay, Output, Written, TagLines, Literals;
    if t.Text? {
      statements, acts := TextMeans(s, t.start, t.start + t.length);
    } else {
      statements, acts := TagMeans(s, t.start, t.start + t.length);
    }
  }

  lemma {:induction false} BodyMeans(s: string, ts: seq<Token>) returns (statements: seq<string>, acts: seq<Act>)
    requires forall i :: 0 <= i < |ts| ==> Inside(s, ts[i])
    ensures Asks(s, ts, acts) && AllSay(statements, acts) && Output(BodyLines(s, ts)) == Written(statements)
    decreases |ts|
  {
    hide TokenAsks, AllSay, TokenLines, Output, Written;
    if ts == [] {
      statements, acts := [], [];
      NothingSaid();
    } else {
      var a, x := TokenMeans(s, ts[0]);
      var b, y := BodyMeans(s, ts[1..]);
      statements, acts := a + b, x + y;
      AllSayJoin(a, x, b, y);
      WrittenJoin(a, b);
      OutputJoined(TokenLines(s, ts[0]), BodyLines(s, ts[1..]));
      assert acts[..|x|] == x && acts[|x|..] == y;
    }
  }

  // ---------------------------------------------------------------------------------
  // Declared names.

  function CommaJoined(parts: seq<string>): string {
    if parts == [] then "" else if |parts| == 1 then parts[0] else parts[0] + "," + CommaJoined(parts[1..])
  }

  /** The names among the parts: each that is not blank, without the white space at its ends and up to
      its first zero byte. */
  ghost predicate PartNames(parts: seq<string>, names: seq<string>) {
    if parts == [] then names == []
    else exists core :: Trimmed(parts[0], core) &&
           if core == "" then PartNames(parts[1..], names)
           else names != [] && CString.UpToZero(core, names[0]) && PartNames(parts[1..], names[1..])
  }

  /** The text between commas. */
  ghost predicate Divides(t: string, parts: seq<string>) {
    parts != [] && t == CommaJoined(parts) && forall i :: 0 <= i < |parts| ==> ',' !in parts[i]
  }

  ghost predicate ListNames(t: string, names: seq<string>) {
    exists parts :: Divides(t, parts) && PartNames(parts, names)
  }

  /** A tag declares the names after `locals:` in a comment. */
  ghost predicate TagNames(t: string, names: seq<string>) {
    exists core :: Trimmed(t, core) && if "#" <= core then CommentNames(core[1..], names) else names == []
  }

  ghost predicate CommentNames(t: string, names: seq<string>) {
    exists core :: Trimmed(t, core) && if "locals:" <= core then ListNames(core[7..], names) else names == []
  }

  ghost predicate Declares(s: string, ts: seq<Token>, names: seq<string>)
    requires forall i :: 0 <= i < |ts| ==> Inside(s, ts[i])
    decreases |ts|
  {
    if ts == [] then names == []
    else if ts[0].Text? then Declares(s, ts[1..], names)
    else exists n: nat {:trigger names[..n]} ::
           n <= |names| && TagNames(Content(s, ts[0]), names[..n]) && Declares(s, ts[1..], names[n..])
  }

  lemma NameMeans(s: string, start: nat, end: nat, rest: seq<string>, more: seq<string>)
    requires start <= end <= |s| && PartNames(rest, more)
    ensures PartNames([s[start..end]] + rest, NameIn(s, start, end) + more)
  {
    hide TrimFront, TrimBack, Trimmed, CString.Cut;
    var a := TrimFront(s, start, end);
    var b := TrimBack(s, a, end);
    TrimMeans(s, start, end);
    var parts, core := [s[start..end]] + rest, s[a..b];
    assert parts[1..] == rest;
    CString.CutMeans(core, CString.Cut(core));
    if a == b {
      assert [] + more == more;
    } else {
      assert ([CString.Cut(core)] + more)[1..] == more;
    }
    assert Trimmed(parts[0], core);
  }

  lemma {:induction false} ListMeans(s: string, part: nat, pos: nat, end: nat) returns (parts: seq<string>)
    requires part <= pos <= end <= |s| && ',' !in s[part..pos]
    ensures Divides(s[part..end], parts) && PartNames(parts, NamesFrom(s, part, pos, end))
    decreases end - pos
  {
    hide NameIn, PartNames;
    if pos == end {
      parts := [s[part..end]];
      NoParts();
      NameMeans(s, part, end, [], []);
      assert parts == [s[part..end]] + [] && NameIn(s, part, end) + [] == NameIn(s, part, end);
    } else if s[pos] == ',' {
      var rest := ListMeans(s, pos + 1, pos + 1, end);
      parts := [s[part..pos]] + rest;
      NameMeans(s, part, pos, rest, NamesFrom(s, pos + 1, pos + 1, end));
      CommaDivides(s, part, pos, end, rest);
    } else {
      assert s[part..pos + 1] == s[part..pos] + [s[pos]];
      parts := ListMeans(s, part, pos + 1, end);
    }
  }

  lemma NoParts()
    ensures PartNames([], [])
  {
  }

  lemma CommaDivides(s: string, part: nat, pos: nat, end: nat, rest: seq<string>)
    requires part <= pos < end <= |s| && s[pos] == ',' && ',' !in s[part..pos] && Divides(s[pos + 1..end], rest)
    ensures Divides(s[part..end], [s[part..pos]] + rest)
  {
    var parts := [s[part..pos]] + rest;
    assert parts[1..] == rest;
    assert s[part..end] == s[part..pos] + "," + s[pos + 1..end];
  }

  lemma TagDeclares(s: string, t: Token)
    requires Inside(s, t) && t.Tag?
    ensures TagNames(Content(s, t), TokenNames(s, t))
  {
    hide TrimFront, TrimBack, Trimmed, NamesFrom, ListNames;
    var end := t.start + t.length;
    var a := TrimFront(s, t.start, end);
    var b := TrimBack(s, a, end);
    TrimMeans(s, t.start, end);
    var core := s[a..b];
    if a < b && s[a] == '#' {
      var c := TrimFront(s, a + 1, b);
      var d := TrimBack(s, c, b);
      TrimMeans(s, a + 1, b);
      assert core[1..] == s[a + 1..b];
      var inner := s[c..d];
      if "locals:" <= inner {
        assert inner[7..] == s[c + 7..d] && s[c..c + 7] == inner[..7];
        ListDeclares(s, c + 7, d);
      } else if d - c >= 7 {
        assert s[c..c + 7] == inner[..7];
      }
      assert CommentNames(core[1..], TokenNames(s, t));
    }
  }

  lemma ListDeclares(s: string, start: nat, end: nat)
    requires start <= end <= |s|
    ensures ListNames(s[start..end], NamesFrom(s, start, start, end))
  {
    hide Divides, PartNames, NamesFrom;
    assert s[start..start] == "";
    var parts := ListMeans(s, start, start, end);
  }

  lemma {:induction false} NamesMean(s: string, ts: seq<Token>)
    requires forall i :: 0 <= i < |ts| ==> Inside(s, ts[i])
    ensures Declares(s, ts, Names(s, ts))
    decreases |ts|
  {
    hide TagNames, TokenNames;
    if ts != [] {
      NamesMean(s, ts[1..]);
      var x, y := TokenNames(s, ts[0]), Names(s, ts[1..]);
      if ts[0].Tag? {
        TagDeclares(s, ts[0]);
        assert (x + y)[..|x|] == x && (x + y)[|x|..] == y;
      } else {
        TextDeclares(s, ts[0]);
        assert [] + y == y;
      }
    }
  }

  lemma TextDeclares(s: string, t: Token)
    requires Inside(s, t) && t.Text?
    ensures TokenNames(s, t) == []
  {
  }

  // ---------------------------------------------------------------------------------
  // The whole translation.

  /** Names with a comma and a blank between them. */
  function Parameters(names: seq<string>): string {
    if names == [] then "" else Parameters(names[..|names| - 1]) + (if |names| == 1 then "" else ", ") + names[|names| - 1]
  }

  lemma {:induction false} ParametersFront(names: seq<string>)
    requires |names| > 1
    ensures Parameters(names) == names[0] + ", " + Parameters(names[1..])
  {
    var n := |names| - 1;
    if n > 1 {
      ParametersFront(names[..n]);
      assert names[..n][1..] == names[1..][..n - 1];
    } else {
      assert names[1..] == [names[1]] && names[..1] == [names[0]];
      assert [names[1]][..0] == [] && [names[0]][..0] == [];
    }
  }

  lemma {:induction false} ListedMeans(names: seq<string>)
    ensures Listed(names) == Parameters(names)
  {
    if |names| == 1 {
      assert names[..0] == [];
    } else if |names| > 1 {
      ListedMeans(names[1..]);
      ParametersFront(names);
    }
  }

  /** The output defines a function of the declared names that builds a string from the statements, which
      do in order what the template asks for. */
  ghost predicate Does(output: string, helper: seq<string>, names: seq<string>, statements: seq<string>) {
    output == Written(helper) + "def __div_template__(" + Parameters(names) + ")\n" + "  sb = StringBuilder.new()\n" +
              Written(statements) + "  sb.to_s()\n" + "end\n"
  }

  lemma {:induction false} HelperWritten(helper: seq<string>)
    ensures Output(FixedLines(helper)) == Written(helper)
  {
    if helper != [] {
      HelperWritten(helper[1..]);
      var ls := [Fixed(helper[0])] + FixedLines(helper[1..]);
      assert ls[1..] == FixedLines(helper[1..]);
    }
  }

  lemma TwoWritten(a: OutLine, b: OutLine)
    ensures Output([a, b]) == a.text + "\n" + (b.text + "\n")
  {
    assert [a, b][1..] == [b] && [b][1..] == [];
    assert Output([b]) == b.text + "\n" + "";
  }

  lemma TranslationMeans(s: string, ts: seq<Token>, helper: seq<string>)
    returns (names: seq<string>, statements: seq<string>, acts: seq<Act>)
    requires forall i :: 0 <= i < |ts| ==> Inside(s, ts[i])
    ensures Does(Output(Translation(s, ts, helper)), helper, names, statements)
    ensures Declares(s, ts, names) && Asks(s, ts, acts) && AllSay(statements, acts)
  {
    hide Output, Written, FixedLines, BodyLines, Names, Listed, Parameters, Asks, Declares, AllSay;
    names := Names(s, ts);
    NamesMean(s, ts);
    statements, acts := BodyMeans(s, ts);
    var a, b := FixedLines(helper), [Header(names), Fixed("  sb = StringBuilder.new()")];
    var c, d := BodyLines(s, ts), [Fixed("  sb.to_s()"), Fixed("end")];
    OutputJoined(a + b + c, d);
    OutputJoined(a + b, c);
    OutputJoined(a, b);
    HelperWritten(helper);
    TwoWritten(b[0], b[1]);
    TwoWritten(d[0], d[1]);
    ListedMeans(names);
    Assembled(Written(helper), Parameters(names), Written(statements));
  }

  lemma Assembled(h: string, p: string, body: string)
    ensures h + (("def __div_template__(" + p + ")") + "\n" + ("  sb = StringBuilder.new()" + "\n")) + body +
              ("  sb.to_s()" + "\n" + ("end" + "\n")) ==
            h + "def __div_template__(" + p + ")\n" + "  sb = StringBuilder.new()\n" + body + "  sb.to_s()\n" + "end\n"
  {
  }

  /** What `Translate` makes of a template that it accepts. */
  lemma TranslateMeans(s: string, helper: seq<string>, r: Translated)
    returns (ts: seq<Token>, names: seq<string>, statements: seq<string>, acts: seq<Act>)
    requires Translates(s, helper, r) && r.Code?
    ensures Scan(s, 0) == Tokens(ts) && forall i :: 0 <= i < |ts| ==> Inside(s, ts[i])
    ensures Does(r.text, helper, names, statements)
    ensures Declares(s, ts, names) && Asks(s, ts, acts) && AllSay(statements, acts)
  {
    hide Scan, Translation, Output, Positions, Does, Declares, Asks, AllSay;
    ts := Scan(s, 0).tokens;
    names, statements, acts := TranslationMeans(s, ts, helper);
  }

  // ---------------------------------------------------------------------------------
  // Positions.

  function NewlineJoined(lines: seq<string>): string
    requires lines != []
  {
    if |lines| == 1 then lines[0] else NewlineJoined(lines[..|lines| - 1]) + "\n" + lines[|lines| - 1]
  }

  /** The text before a position is so many lines, the last of them as long as the column says. */
  lemma {:induction false} PositionMeans(s: string, n: nat) returns (lines: seq<string>)
    requires n <= |s|
    ensures lines != [] && s[..n] == NewlineJoined(lines) && forall i :: 0 <= i < |lines| ==> '\n' !in lines[i]
    ensures PositionOf(s, n) == Position(|lines|, |lines[|lines| - 1]| + 1)
  {
    if n == 0 {
      lines := [""];
    } else {
      var before := PositionMeans(s, n - 1);
      var k := |before| - 1;
      assert s[..n] == s[..n - 1] + [s[n - 1]];
      if s[n - 1] == '\n' {
        lines := before + [""];
        assert lines[..k + 1] == before;
      } else {
        lines := before[k := before[k] + [s[n - 1]]];
        assert lines[..k] == before[..k];
        LineStartBefore(s, n);
      }
    }
  }

  lemma LineStartBefore(s: string, n: nat)
    requires 0 < n <= |s| && s[n - 1] != '\n'
    ensures LineStart(s, n) == LineStart(s, n - 1)
  {
  }
}
