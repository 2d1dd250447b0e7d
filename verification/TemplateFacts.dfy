/** What the lines of a translation are, and where they say they come from. */
module TemplateFacts {
  import CString
  import opened Template
  import opened Wrappers

  // ---------------------------------------------------------------------------------
  // Copied code.

  /** Lines joined by newlines. */
  function Joined(ls: seq<OutLine>): string {
    if ls == [] then "" else if |ls| == 1 then ls[0].text else ls[0].text + "\n" + Joined(ls[1..])
  }

  /** The line is `prefix`, source text up to a newline or the end of the code, and `suffix`; the
      source text starts where the line says. */
  ghost predicate CopiedFrom(s: string, l: OutLine, prefix: string, suffix: string) {
    exists a: nat, b: nat :: a <= b <= |s| && l.text == prefix + s[a..b] + suffix && l.position == PositionOf(s, a)
  }

  /** All lines are copied; the prefix is on the first one only, the suffix on the last. */
  ghost predicate Copied(s: string, ls: seq<OutLine>, prefix: string, suffix: string) {
    forall i :: 0 <= i < |ls| ==>
      CopiedFrom(s, ls[i], if i == 0 then prefix else "", if i == |ls| - 1 then suffix else "")
  }

  lemma {:induction false} WrappedCopies(s: string, start: nat, end: nat, prefix: string, suffix: string)
    requires start <= end <= |s|
    ensures var ls := Wrapped(s, start, end, prefix, suffix);
            ls != [] && Copied(s, ls, prefix, suffix) && ls[0].position == PositionOf(s, start)
    decreases end - start
  {
    hide NewlineFrom, PositionOf, CopiedFrom;
    var e := NewlineFrom(s, start, end);
    if e == end {
      LineCopied(s, start, end, prefix, suffix);
    } else {
      WrappedCopies(s, e + 1, end, "", suffix);
      var first := OutLine(prefix + s[start..e], PositionOf(s, start));
      assert first.text == prefix + s[start..e] + "";
      LineCopied(s, start, e, prefix, "");
      CopiedCons(s, first, Wrapped(s, e + 1, end, "", suffix), prefix, suffix);
    }
  }

  lemma LineCopied(s: string, a: nat, b: nat, prefix: string, suffix: string)
    requires a <= b <= |s|
    ensures CopiedFrom(s, OutLine(prefix + s[a..b] + suffix, PositionOf(s, a)), prefix, suffix)
  {
  }

  lemma CopiedCons(s: string, first: OutLine, rest: seq<OutLine>, prefix: string, suffix: string)
    requires CopiedFrom(s, first, prefix, "") && rest != [] && Copied(s, rest, "", suffix)
    ensures Copied(s, [first] + rest, prefix, suffix)
  {
    hide CopiedFrom;
    var ls := [first] + rest;
    forall i | 0 <= i < |ls|
      ensures CopiedFrom(s, ls[i], if i == 0 then prefix else "", if i == |ls| - 1 then suffix else "")
    {
      if i > 0 {
        assert ls[i] == rest[i - 1];
        assert CopiedFrom(s, rest[i - 1], "", if i - 1 == |rest| - 1 then suffix else "");
      }
    }
  }

  /** Together they are the code, between the prefix and the suffix. */
  lemma {:induction false} WrappedJoins(s: string, start: nat, end: nat, prefix: string, suffix: string)
    requires start <= end <= |s|
    ensures Joined(Wrapped(s, start, end, prefix, suffix)) == prefix + s[start..end] + suffix
    ensures Wrapped(s, start, end, prefix, suffix) != []
    decreases end - start
  {
    hide NewlineFrom, PositionOf, Joined;
    var e := NewlineFrom(s, start, end);
    if e == end {
      JoinedOne(OutLine(prefix + s[start..end] + suffix, PositionOf(s, start)));
    } else {
      WrappedJoins(s, e + 1, end, "", suffix);
      var first := OutLine(prefix + s[start..e], PositionOf(s, start));
      var rest := Wrapped(s, e + 1, end, "", suffix);
      AtNewline(s, start, e, end);
      Regrouped(prefix, s[start..e], s[e + 1..end], suffix);
      JoinedCons(first, rest);
    }
  }

  lemma Regrouped(prefix: string, x: string, y: string, suffix: string)
    ensures prefix + x + "\n" + ("" + y + suffix) == prefix + (x + "\n" + y) + suffix
  {
  }

  lemma JoinedOne(l: OutLine)
    ensures Joined([l]) == l.text
  {
  }

  lemma JoinedCons(l: OutLine, rest: seq<OutLine>)
    requires rest != []
    ensures Joined([l] + rest) == l.text + "\n" + Joined(rest)
  {
    assert ([l] + rest)[1..] == rest;
  }

  lemma AtNewline(s: string, start: nat, e: nat, end: nat)
    requires start <= e < end <= |s| && s[e] == '\n'
    ensures s[start..e] + "\n" + s[e + 1..end] == s[start..end]
  {
  }

  // ---------------------------------------------------------------------------------
  // Text.

  /** What a character after a backslash stands for; hexadecimal and Unicode escapes are not
      among those the translator writes. */
  function Unescape(c: char): Option<char> {
    match c
    case 'n' => Some('\n')
    case 'r' => Some('\r')
    case 't' => Some('\t')
    case '0' => Some('\0')
    case 'e' => Some(27 as char)
    case '"' | '\\' | '#' => Some(c)
    case _ => None
  }

  function WithChar(c: char, r: Option<(string, string)>): Option<(string, string)> {
    if r.None? then None else Some(([c] + r.value.0, r.value.1))
  }

  /** Reads a string literal, after its opening quote: its text, and what follows its closing
      quote. Nothing where it does not end on this line, or holds an interpolation or an
      unknown escape. */
  function ReadLiteral(s: string): Option<(string, string)> {
    if s == "" || s[0] == '\0' || s[0] == '\n' then None
    else if s[0] == '"' then Some(("", s[1..]))
    else if s[0] == '#' && |s| > 1 && s[1] == '{' then None
    else if s[0] != '\\' then WithChar(s[0], ReadLiteral(s[1..]))
    else if |s| == 1 || Unescape(s[1]).None? then None
    else WithChar(Unescape(s[1]).value, ReadLiteral(s[2..]))
  }

  lemma EscapedCharRead(c: char, rest: string)
    ensures ReadLiteral(EscapedChar(c) + rest) == if c == '\0' then None else WithChar(c, ReadLiteral(rest))
  {
    var e := EscapedChar(c);
    if |e| == 2 {
      assert (e + rest)[2..] == rest;
    } else {
      assert (e + rest)[1..] == rest;
    }
  }

  /** A text written as a literal reads back as that text, and the literal ends at its own quote;
      a text with a zero byte does not read at all. */
  lemma {:induction false} EscapedBack(t: string, rest: string)
    ensures ReadLiteral(Escaped(t) + "\"" + rest) == if '\0' in t then None else Some((t, rest))
  {
    hide ReadLiteral, EscapedChar;
    if t == "" {
      NothingEscaped(rest);
    } else {
      EscapedBack(t[1..], rest);
      EscapedCharRead(t[0], Escaped(t[1..]) + "\"" + rest);
      assert Escaped(t) + "\"" + rest == EscapedChar(t[0]) + (Escaped(t[1..]) + "\"" + rest);
      assert [t[0]] + t[1..] == t;
    }
  }

  lemma NothingEscaped(rest: string)
    ensures ReadLiteral("" + "\"" + rest) == Some(("", rest))
  {
    assert ("" + "\"" + rest)[1..] == rest;
  }

  /** No line of text is broken. */
  lemma {:induction false} EscapedOneLine(t: string)
    ensures '\n' !in Escaped(t)
  {
    if t != "" {
      EscapedOneLine(t[1..]);
    }
  }

  /** The text that a line of the translation appends, if it is such a line. */
  function Appended(l: OutLine): Option<string> {
    if !(APPEND <= l.text) then None
    else
      var r := ReadLiteral(l.text[|APPEND|..]);
      if r.Some? && r.value.1 == ")" then Some(r.value.0) else None
  }

  function AppendedAll(ls: seq<OutLine>): Option<string> {
    if ls == [] then Some("")
    else
      var first, rest := Appended(ls[0]), AppendedAll(ls[1..]);
      if first.Some? && rest.Some? then Some(first.value + rest.value) else None
  }

  lemma AppendedBack(t: string, p: Position)
    ensures Appended(OutLine(APPEND + Escaped(t) + APPENDED, p)) == if '\0' in t then None else Some(t)
  {
    hide Escaped, ReadLiteral;
    EscapedBack(t, ")");
    var text := APPEND + Escaped(t) + APPENDED;
    assert text[|APPEND|..] == Escaped(t) + "\"" + ")";
  }

  /** Read as string literals, the lines for a text append the text, unless it has a zero
      byte, at which the lexer stops. */
  lemma {:induction false} LiteralsBack(s: string, start: nat, end: nat)
    requires start <= end <= |s|
    ensures AppendedAll(Literals(s, start, end)) ==
            if '\0' in s[start..end] then None else Some(s[start..end])
    decreases end - start
  {
    hide Escaped, PositionOf, Appended;
    if start < end {
      var next := if end - start > CHUNK then start + CHUNK else end;
      LiteralsBack(s, next, end);
      var l := OutLine(APPEND + Escaped(s[start..next]) + APPENDED, PositionOf(s, start));
      AppendedBack(s[start..next], PositionOf(s, start));
      assert ([l] + Literals(s, next, end))[1..] == Literals(s, next, end);
      assert s[start..next] + s[next..end] == s[start..end];
    } else {
      assert s[start..end] == "";
    }
  }

  // ---------------------------------------------------------------------------------
  // One position for each line.

  function CountNewlines(t: string): nat {
    if t == "" then 0 else (if t[0] == '\n' then 1 else 0) + CountNewlines(t[1..])
  }

  lemma {:induction false} CountJoin(a: string, b: string)
    ensures CountNewlines(a + b) == CountNewlines(a) + CountNewlines(b)
  {
    if a == "" {
      assert a + b == b;
    } else {
      CountJoin(a[1..], b);
      assert (a + b)[1..] == a[1..] + b;
    }
  }

  lemma {:induction false} CountNone(t: string)
    ensures CountNewlines(t) == 0 <==> '\n' !in t
  {
    if t != "" {
      CountNone(t[1..]);
      assert t == [t[0]] + t[1..];
    }
  }

  /** Newlines inside the lines themselves. */
  function Extra(ls: seq<OutLine>): nat {
    if ls == [] then 0 else CountNewlines(ls[0].text) + Extra(ls[1..])
  }

  lemma {:induction false} OutputNewlines(ls: seq<OutLine>)
    ensures CountNewlines(Output(ls)) == |ls| + Extra(ls)
  {
    if ls != [] {
      OutputNewlines(ls[1..]);
      CountJoin(ls[0].text + "\n", Output(ls[1..]));
      CountJoin(ls[0].text, "\n");
      assert CountNewlines("\n") == 1 by {
        assert "\n"[1..] == "";
      }
    }
  }

  lemma {:induction false} ExtraJoin(a: seq<OutLine>, b: seq<OutLine>)
    ensures Extra(a + b) == Extra(a) + Extra(b)
  {
    if a == [] {
      assert a + b == b;
    } else {
      ExtraJoin(a[1..], b);
      assert (a + b)[1..] == a[1..] + b;
    }
  }

  lemma {:induction false} WrappedSingle(s: string, start: nat, end: nat, prefix: string, suffix: string)
    requires start <= end <= |s| && '\n' !in prefix && '\n' !in suffix
    ensures Extra(Wrapped(s, start, end, prefix, suffix)) == 0
    decreases end - start
  {
    hide PositionOf;
    var e := NewlineFrom(s, start, end);
    var first := if e == end then prefix + s[start..end] + suffix else prefix + s[start..e];
    CountNone(first);
    assert '\n' !in s[start..e];
    if e < end {
      WrappedSingle(s, e + 1, end, "", suffix);
      var rest := Wrapped(s, e + 1, end, "", suffix);
      assert ([OutLine(first, PositionOf(s, start))] + rest)[1..] == rest;
    } else {
      var one := [OutLine(first, PositionOf(s, start))];
      assert one[1..] == [];
    }
  }

  lemma {:induction false} LiteralsSingle(s: string, start: nat, end: nat)
    requires start <= end <= |s|
    ensures Extra(Literals(s, start, end)) == 0
    decreases end - start
  {
    hide Escaped, PositionOf;
    if start < end {
      var next := if end - start > CHUNK then start + CHUNK else end;
      LiteralsSingle(s, next, end);
      EscapedOneLine(s[start..next]);
      var l := OutLine(APPEND + Escaped(s[start..next]) + APPENDED, PositionOf(s, start));
      CountNone(l.text);
      assert ([l] + Literals(s, next, end))[1..] == Literals(s, next, end);
    }
  }

  lemma TagSingle(s: string, start: nat, end: nat)
    requires start <= end <= |s|
    ensures Extra(TagLines(s, start, end)) == 0
  {
    hide Wrapped, TrimFront, TrimBack;
    var a := TrimFront(s, start, end);
    var b := TrimBack(s, a, end);
    if a < b {
      if b - a >= 2 {
        var c := TrimFront(s, a + 2, b);
        WrappedSingle(s, c, TrimBack(s, c, b), "  sb.append(", ")");
      }
      var c := TrimFront(s, a + 1, b);
      WrappedSingle(s, c, TrimBack(s, c, b), "  sb.append(__div_escape_html__(", "))");
      WrappedSingle(s, a, b, "", "");
    }
  }

  lemma {:induction false} BodySingle(s: string, ts: seq<Token>)
    requires forall i :: 0 <= i < |ts| ==> Inside(s, ts[i])
    ensures Extra(BodyLines(s, ts)) == 0
  {
    hide TagLines, Literals;
    if ts != [] {
      BodySingle(s, ts[1..]);
      ExtraJoin(TokenLines(s, ts[0]), BodyLines(s, ts[1..]));
      if ts[0].Tag? {
        TagSingle(s, ts[0].start, ts[0].start + ts[0].length);
      } else {
        LiteralsSingle(s, ts[0].start, ts[0].start + ts[0].length);
      }
    }
  }

  lemma {:induction false} FixedSingle(texts: seq<string>)
    requires forall i :: 0 <= i < |texts| ==> '\n' !in texts[i]
    ensures Extra(FixedLines(texts)) == 0
  {
    if texts != [] {
      FixedSingle(texts[1..]);
      CountNone(texts[0]);
      assert ([Fixed(texts[0])] + FixedLines(texts[1..]))[1..] == FixedLines(texts[1..]);
    }
  }

  function NamesNewlines(names: seq<string>): nat {
    if names == [] then 0 else CountNewlines(names[0]) + NamesNewlines(names[1..])
  }

  lemma {:induction false} ListedNewlines(names: seq<string>)
    ensures CountNewlines(Listed(names)) == NamesNewlines(names)
  {
    if names != [] {
      ListedNewlines(names[1..]);
      var rest := if |names| == 1 then "" else ", " + Listed(names[1..]);
      CountJoin(names[0], rest);
      CountJoin(", ", Listed(names[1..]));
      CountNone(", ");
      if |names| == 1 {
        assert names[1..] == [];
      }
    }
  }

  lemma {:induction false} NamesClean(names: seq<string>)
    ensures NamesNewlines(names) == 0 <==> forall i :: 0 <= i < |names| ==> '\n' !in names[i]
  {
    if names != [] {
      NamesClean(names[1..]);
      CountNone(names[0]);
      assert forall i :: 1 <= i < |names| ==> names[i] == names[1..][i - 1];
    }
  }

  lemma HeaderNewlines(names: seq<string>)
    ensures CountNewlines(Header(names).text) == NamesNewlines(names)
  {
    hide Listed, CountNewlines;
    CountJoin("def __div_template__(" + Listed(names), ")");
    CountJoin("def __div_template__(", Listed(names));
    CountNone("def __div_template__(");
    CountNone(")");
    ListedNewlines(names);
  }

  lemma {:induction false} TwoLines(a: OutLine, b: OutLine)
    ensures Extra([a, b]) == CountNewlines(a.text) + CountNewlines(b.text)
  {
    assert [a, b][1..] == [b];
    assert [b][1..] == [];
    assert Extra([b]) == CountNewlines(b.text) + Extra([]);
  }

  lemma TranslationExtra(s: string, ts: seq<Token>, helper: seq<string>)
    requires forall i :: 0 <= i < |ts| ==> Inside(s, ts[i])
    requires forall i :: 0 <= i < |helper| ==> '\n' !in helper[i]
    ensures Extra(Translation(s, ts, helper)) == NamesNewlines(Names(s, ts))
  {
    hide BodyLines, Names, FixedLines, Header, CountNewlines, Extra;
    var a, b := FixedLines(helper), [Header(Names(s, ts)), Fixed("  sb = StringBuilder.new()")];
    var c, d := BodyLines(s, ts), [Fixed("  sb.to_s()"), Fixed("end")];
    ExtraJoin(a + b + c, d);
    ExtraJoin(a + b, c);
    ExtraJoin(a, b);
    FixedSingle(helper);
    BodySingle(s, ts);
    HeaderNewlines(Names(s, ts));
    TwoLines(b[0], b[1]);
    TwoLines(d[0], d[1]);
    CountNone("  sb = StringBuilder.new()");
    CountNone("  sb.to_s()");
    CountNone("end");
  }

  /** There is one position for each line of the output exactly when no declared name has a
      newline in it. */
  lemma OnePositionPerLine(s: string, ts: seq<Token>, helper: seq<string>)
    requires forall i :: 0 <= i < |ts| ==> Inside(s, ts[i])
    requires forall i :: 0 <= i < |helper| ==> '\n' !in helper[i]
    ensures var ls := Translation(s, ts, helper);
            CountNewlines(Output(ls)) == |Positions(ls)| <==>
            forall i :: 0 <= i < |Names(s, ts)| ==> '\n' !in Names(s, ts)[i]
  {
    hide Translation, Names, Output, Extra, CountNewlines;
    OutputNewlines(Translation(s, ts, helper));
    TranslationExtra(s, ts, helper);
    NamesClean(Names(s, ts));
  }

  const SAMPLE := "<%#locals:a\nb%>"

  lemma SampleScan()
    ensures Scan(SAMPLE, 0) == Tokens([Tag(2, 11)])
  {
    hide FindPair;
    assert PairAt(SAMPLE, 0, '<', '%');
    FindIs(SAMPLE, 0, 0, '<', '%');
    FindIs(SAMPLE, 2, 13, '%', '>');
    assert Scan(SAMPLE, 15) == Tokens([]);
    var head: seq<Token> := [];
    assert head + [Tag(2, 11)] == [Tag(2, 11)] && [Tag(2, 11)] + [] == [Tag(2, 11)];
  }

  lemma SampleName()
    ensures NamesFrom(SAMPLE, 10, 10, 13) == ["a\nb"]
  {
    hide TrimFront, TrimBack, CString.Cut;
    TrimNone(SAMPLE, 10, 13);
    assert SAMPLE[10..13] == "a\nb";
    CString.CutKeeps("a\nb");
    assert NameIn(SAMPLE, 10, 13) == ["a\nb"];
    assert NamesFrom(SAMPLE, 10, 13, 13) == ["a\nb"];
    assert NamesFrom(SAMPLE, 10, 12, 13) == ["a\nb"];
    assert NamesFrom(SAMPLE, 10, 11, 13) == ["a\nb"];
  }

  /** `<%#locals:a b%>` with a newline between `a` and `b`: one position too few. */
  lemma NewlineInName(helper: seq<string>)
    requires forall i :: 0 <= i < |helper| ==> '\n' !in helper[i]
    ensures Scan(SAMPLE, 0) == Tokens([Tag(2, 11)])
    ensures var ls := Translation(SAMPLE, [Tag(2, 11)], helper); CountNewlines(Output(ls)) != |Positions(ls)|
  {
    hide TrimFront, TrimBack, NamesFrom, Translation, Output, CountNewlines, Scan;
    SampleScan();
    SampleName();
    TrimNone(SAMPLE, 2, 13);
    TrimNone(SAMPLE, 3, 13);
    assert SAMPLE[3..10] == DIRECTIVE;
    assert TokenNames(SAMPLE, Tag(2, 11)) == ["a\nb"];
    assert [Tag(2, 11)][1..] == [];
    assert Names(SAMPLE, [Tag(2, 11)]) == ["a\nb"] + [] == ["a\nb"];
    assert "a\nb"[1] == '\n';
    OnePositionPerLine(SAMPLE, [Tag(2, 11)], helper);
    assert '\n' in Names(SAMPLE, [Tag(2, 11)])[0];
  }

  lemma {:induction false} FindIs(s: string, i: nat, j: nat, a: char, b: char)
    requires i <= j && PairAt(s, j, a, b) && forall k :: i <= k < j ==> !PairAt(s, k, a, b)
    ensures FindPair(s, i, a, b) == j
  {
  }

  lemma TrimNone(s: string, a: nat, b: nat)
    requires a < b <= |s| && !IsSpace(s[a]) && !IsSpace(s[b - 1])
    ensures TrimFront(s, a, b) == a && TrimBack(s, a, b) == b
  {
  }
}
