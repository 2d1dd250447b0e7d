/** The formatter at work: on the text, the tokens of the lexer, and what it keeps of them. The
    ghost `doc` is the document that they are the text and the tokens of. */
module FormatRun {
  import opened Wrappers
  import opened Layout
  import opened Depth
  import opened Spacing
  import opened Format
  import opened FormatText

  // ---------------------------------------------------------------------------------
  // The indentation pass.

  /** Scans the header of the definition at `def`. */
  method ScanDefinition(ts: seq<Token>, def: nat) returns (endless: bool)
    requires def < |ts|
    ensures endless <==> DefIsEndless(ts, def)
  {
    var k := def + 1;
    while k < |ts| && !ts[k].kind.LeftParen? && !ts[k].kind.Eof?
      invariant k <= |ts| && FindParen(ts, def + 1) == FindParen(ts, k)
    {
      k := k + 1;
    }
    if k >= |ts| || !ts[k].kind.LeftParen? {
      return false;
    }
    var past := SkipParameters(ts, k);
    match past
    case None => return false;
    case Some(j) =>
      if j < |ts| && ts[j].kind.Arrow? {
        var e := SkipReturnType(ts, j + 1, ts[j].line);
        return e.Some? && EqualAt(ts, e.value);
      }
      return EqualAt(ts, j);
  }

  method SkipParameters(ts: seq<Token>, from: nat) returns (r: Option<nat>)
    requires from <= |ts|
    ensures r == SkipParens(ts, from, 0)
  {
    var k, depth := from, 0;
    while k < |ts|
      invariant k <= |ts| && SkipParens(ts, from, 0) == SkipParens(ts, k, depth)
    {
      if ts[k].kind.LeftParen? {
        depth := depth + 1;
      } else if ts[k].kind.RightParen? {
        depth := depth - 1;
        if depth == 0 {
          return Some(k + 1);
        }
      } else if ts[k].kind.Eof? {
        return None;
      }
      k := k + 1;
    }
    return Some(k);
  }

  method SkipReturnType(ts: seq<Token>, from: nat, line: nat) returns (r: Option<nat>)
    requires from <= |ts|
    ensures r == SkipType(ts, from, line, 0)
  {
    var k, depth := from, 0;
    while k < |ts|
      invariant k <= |ts| && SkipType(ts, from, line, 0) == SkipType(ts, k, line, depth)
    {
      if ts[k].kind.LeftBracket? {
        depth := depth + 1;
      } else if ts[k].kind.RightBracket? {
        depth := depth - 1;
      } else if depth <= 0 {
        if ts[k].kind.Equal? || ts[k].kind.Eof? {
          return Some(k);
        }
        if ts[k].line != line {
          return None;
        }
      }
      k := k + 1;
    }
    return Some(k);
  }

  /** What the start of a line with tokens does, up to its first token that closes nothing. */
  method BeginTokenLine(ts: seq<Token>, line: nat, k: nat, st: State) returns (r: Option<(State, nat)>)
    requires OnLine(ts, k, line)
    ensures r == CloseLeading(ts, line, k, EndChain(EndBody(st, ts[k].kind), ts[k].kind))
  {
    hide EndChain, EndBody;
    ghost var from := EndChain(EndBody(st, ts[k].kind), ts[k].kind);
    var state, j := EndChain(EndBody(st, ts[k].kind), ts[k].kind), k;
    while OnLine(ts, j, line) && IsLeadingDedent(ts[j].kind)
      invariant j <= |ts| && CloseLeading(ts, line, k, from) == CloseLeading(ts, line, j, state)
      decreases |ts| - j
    {
      if state.levels == [] {
        return None;
      }
      state := state.(levels := state.levels[..|state.levels| - 1], prev := ts[j].kind);
      j := j + 1;
    }
    return Some((state, j));
  }

  method ApplyTokens(ts: seq<Token>, line: nat, from: nat, st: State, ls: LineState)
    returns (r: Option<(State, LineState, nat)>)
    requires from <= |ts|
    ensures r == ApplyLine(ts, line, from, st, ls)
  {
    hide ApplyToken, DefIsEndless;
    var k, state, lineState := from, st, ls;
    while OnLine(ts, k, line)
      invariant k <= |ts| && ApplyLine(ts, line, from, st, ls) == ApplyLine(ts, line, k, state, lineState)
      decreases |ts| - k
    {
      var endless := false;
      if ts[k].kind.Def? || ts[k].kind.Closure? {
        endless := ScanDefinition(ts, k);
      } else {
        OnlyDefinitions(ts[k].kind, DefIsEndless(ts, k), endless, state, lineState);
      }
      var next := ApplyToken(ts[k].kind, endless, state, lineState);
      if next.None? {
        return None;
      }
      state, lineState := next.value.0.(prev := ts[k].kind), next.value.1.(first := false);
      k := k + 1;
    }
    return Some((state, lineState, k));
  }

  lemma OnlyDefinitions(kind: Kind, a: bool, b: bool, st: State, ls: LineState)
    requires !kind.Def? && !kind.Closure?
    ensures ApplyToken(kind, a, st, ls) == ApplyToken(kind, b, st, ls)
  {
  }

  method StepLine(ts: seq<Token>, line: nat, k: nat, st: State) returns (r: Option<Step>)
    requires OnLine(ts, k, line)
    ensures r == LineStep(ts, line, k, st)
  {
    hide EndChain, EndBody, CloseLeading, ApplyLine, BeginBody;
    var opening := BeginTokenLine(ts, line, k, st);
    if opening.None? {
      return None;
    }
    var (now, j) := opening.value;
    CloseBound(ts, line, k, EndChain(EndBody(st, ts[k].kind), ts[k].kind));
    var chainLine := OnLine(ts, j, line) && ts[j].kind.Dot? && now.chain < 0;
    var branch := OnLine(ts, j, line) && IsBranch(ts[j].kind);
    var depth := |now.levels| - (if branch then 1 else 0) + (if chainLine then 1 else 0);
    if depth < 0 {
      return None;
    }
    var done := ApplyTokens(ts, line, j, now, LineState(chainLine, true, false, false));
    if done.None? {
      return None;
    }
    var after := BeginBody(done.value.0, done.value.1);
    return if after.None? then None else Some(Step(depth, after.value, done.value.2));
  }

  lemma {:induction false} CloseBound(ts: seq<Token>, line: nat, k: nat, st: State)
    requires k <= |ts|
    ensures var r := CloseLeading(ts, line, k, st); r.Some? ==> r.value.1 <= |ts|
    decreases |ts| - k
  {
    if OnLine(ts, k, line) && Pop(st).Some? {
      CloseBound(ts, line, k + 1, Pop(st).value.(prev := ts[k].kind));
    }
  }

  ghost function After(done: seq<nat>, r: Option<seq<nat>>): Option<seq<nat>> {
    match r
    case None => None
    case Some(s) => Some(done + s)
  }

  lemma AfterStep(done: seq<nat>, d: nat, r: Option<seq<nat>>)
    ensures After(done, Preceded(d, r)) == After(done + [d], r)
  {
    if r.Some? {
      assert done + ([d] + r.value) == done + [d] + r.value;
    }
  }

  /** The depth of every line, in place; false when the levels do not balance. */
  method ComputeLineDepths(ts: seq<Token>, lines: array<nat>) returns (ok: bool)
    modifies lines
    ensures ok <==> Depths(ts, lines.Length).Some?
    ensures ok ==> Depths(ts, lines.Length) == Some(lines[..])
  {
    hide LineStep, Settle, After, Preceded, OnLine;
    var count := lines.Length;
    var line, k, st := 1, 0, INITIAL;
    AfterNothing(Depths(ts, count));
    assert lines[..0] == [];
    while line <= count
      invariant 1 <= line <= count + 1
      invariant Depths(ts, count) == After(lines[..line - 1], DepthsFrom(ts, count, line, k, st))
    {
      if Starts(ts, k, line) {
        var step := StepLine(ts, line, k, st);
        if step.None? {
          AfterNone(lines[..line - 1]);
          return false;
        }
        AfterStep(lines[..line - 1], step.value.depth,
                  DepthsFrom(ts, count, line + 1, step.value.next, step.value.state));
        lines[line - 1] := step.value.depth;
        k, st := step.value.next, step.value.state;
      } else {
        AfterStep(lines[..line - 1], |st.levels|, DepthsFrom(ts, count, line + 1, k, st));
        lines[line - 1] := |st.levels|;
      }
      line := line + 1;
      assert lines[..line - 1] == lines[..line - 2] + [lines[line - 2]];
    }
    assert lines[..count] == lines[..];
    AfterEnd(lines[..]);
    AfterNone(lines[..]);
    return Settle(st) == 0;
  }

  lemma AfterNothing(r: Option<seq<nat>>)
    ensures After([], r) == r
  {
    if r.Some? {
      assert [] + r.value == r.value;
    }
  }

  lemma AfterEnd(s: seq<nat>)
    ensures After(s, Some([])) == Some(s)
  {
    assert s + [] == s;
  }

  lemma AfterNone(s: seq<nat>)
    ensures After(s, None) == None
  {
  }

  // ---------------------------------------------------------------------------------
  // The text.

  /** A physical line: where its text starts, and how long it is without the terminator. */
  datatype TextLine = TextLine(start: nat, length: nat)

  ghost predicate LinesOf(doc: Document, lines: seq<TextLine>) {
    |lines| <= |doc| &&
    forall i :: 0 <= i < |lines| ==> lines[i] == TextLine(Offset(doc, i), |LineText(doc[i])|)
  }

  /** Where the newline after line `i` is, or the end of the text. */
  ghost function Stop(doc: Document, i: nat): int
    requires i < |doc|
  {
    Offset(doc, i) + |LineText(doc[i])| + |doc[i].ending| - if i + 1 < |doc| then 1 else 0
  }

  lemma StopIs(doc: Document, i: nat)
    requires Lexed(doc) && i < |doc|
    ensures Offset(doc, i) <= Stop(doc, i) <= |Render(doc)|
    ensures if i + 1 < |doc| then Stop(doc, i) < |Render(doc)| && Render(doc)[Stop(doc, i)] == '\n'
            else Stop(doc, i) == |Render(doc)|
    ensures forall j :: Offset(doc, i) <= j < Stop(doc, i) ==> Render(doc)[j] != '\n'
    ensures var s, e := Render(doc), Stop(doc, i);
            |LineText(doc[i])| ==
            if e > Offset(doc, i) && s[e - 1] == '\r' then e - Offset(doc, i) - 1 else e - Offset(doc, i)
  {
    hide Offset, Render, CellsText, LineText, Lexed;
    var s, o, l := Render(doc), Offset(doc, i), doc[i];
    var n := |LineText(l)|;
    LineAt(doc, i);
    LineShape(doc, i);
    assert forall j :: o <= j < o + n ==> s[j] == s[o..o + n][j - o];
    assert forall j :: o + n <= j < o + n + |l.ending| ==> s[j] == s[o + n..o + n + |l.ending|][j - o - n];
  }

  lemma LineShape(doc: Document, i: nat)
    requires Lexed(doc) && i < |doc|
    ensures forall j :: 0 <= j < |LineText(doc[i])| ==> LineText(doc[i])[j] != '\n'
    ensures SplitEnding(doc[i], i == |doc| - 1)
  {
    hide LineText;
  }

  /** Splits the text into physical lines. */
  method SplitLines(text: string, ghost doc: Document) returns (lines: seq<TextLine>)
    requires Lexed(doc) && text == Render(doc)
    ensures |lines| == |doc| && LinesOf(doc, lines)
  {
    hide Offset, Render, LineText, Lexed;
    lines := [];
    var start, index := 0, 0;
    OffsetZero(doc);
    while index <= |text|
      invariant 0 <= index <= |text| + 1 && LinesOf(doc, lines)
      invariant if index <= |text| then |lines| < |doc| && start == Offset(doc, |lines|) <= index <= Stop(doc, |lines|)
                else |lines| == |doc|
    {
      StopIs(doc, |lines|);
      if index == |text| || text[index] == '\n' {
        assert index == Stop(doc, |lines|);
        var end := index;
        if end > start && text[end - 1] == '\r' {
          end := end - 1;
        }
        OffsetNext(doc, |lines|);
        lines := lines + [TextLine(start, end - start)];
        start := index + 1;
        if |lines| < |doc| {
          StopIs(doc, |lines|);
        }
      }
      index := index + 1;
    }
  }

  lemma OffsetZero(doc: Document)
    requires Lexed(doc)
    ensures |doc| > 0 && Offset(doc, 0) == 0 <= Stop(doc, 0)
  {
    StopIs(doc, 0);
  }

  lemma OffsetNext(doc: Document, i: nat)
    requires Lexed(doc) && i < |doc|
    ensures i + 1 < |doc| ==> Offset(doc, i + 1) == Stop(doc, i) + 1
  {
    hide LineText;
  }

  /** Whether a position falls strictly inside a string token. */
  method InsideStringToken(ts: seq<Token>, position: nat) returns (inside: bool)
    ensures inside <==> InsideString(ts, position)
  {
    var k := 0;
    while k < |ts|
      invariant k <= |ts| && forall j :: 0 <= j < k ==> !Covers(ts[j], position)
    {
      if ts[k].kind.Str? && ts[k].start < position && position < ts[k].start + ts[k].length {
        return true;
      }
      k := k + 1;
    }
    return false;
  }

  /** Whether the text from `from` to `to` is only blanks. */
  method AllBlank(text: string, from: nat, to: nat) returns (blank: bool)
    requires from <= to <= |text|
    ensures blank <==> Blanks(text[from..to])
  {
    hide Blank;
    var i := from;
    while i < to
      invariant from <= i <= to && BlankFrom(text, from, i)
    {
      if !Blank(text[i]) {
        assert text[from..to][i - from] == text[i];
        return false;
      }
      i := i + 1;
    }
    return true;
  }

  method CountLeading(s: string) returns (n: nat)
    ensures n == Lead(s)
  {
    n := 0;
    while n < |s| && Blank(s[n])
      invariant n <= |s| && BlankFrom(s, 0, n)
    {
      n := n + 1;
    }
    LeadIs(s, n);
  }

  /** Where the trailing blanks start; no further back than the leading ones end. */
  method FindTrailing(s: string, leading: nat) returns (n: nat)
    requires leading == Lead(s)
    ensures n == if Blanks(s) then |s| else ChopLength(s)
    ensures n == leading <==> Blanks(s)
  {
    LeadBlanks(s);
    n := |s|;
    while n > leading && Blank(s[n - 1])
      invariant leading <= n <= |s| && BlankFrom(s, n, |s|)
    {
      n := n - 1;
    }
    if !Blanks(s) {
      assert n > leading by {
        assert !Blank(s[leading]);
      }
      ChopIs(s, n);
    }
  }

  /** The line is blank and no part of a literal. */
  method IsBlankFree(text: string, ts: seq<Token>, lines: seq<TextLine>, i: nat, ghost doc: Document)
    returns (blank: bool)
    requires Lexed(doc) && text == Render(doc) && ts == Tokens(doc) && i < |doc| == |lines| && LinesOf(doc, lines)
    ensures blank <==> BlankFree(doc[i])
  {
    hide Lexed, Offset, Render, LineText, Tokens, InsideString, Blanks;
    var line := lines[i];
    LineAt(doc, i);
    StartsInside(doc, i);
    EndsInside(doc, i);
    blank := AllBlank(text, line.start, line.start + line.length);
    if blank {
      var start := InsideStringToken(ts, line.start);
      var end := InsideStringToken(ts, line.start + line.length);
      blank := !start && !end;
    }
  }

  // ---------------------------------------------------------------------------------
  // Runs of blank lines.

  /** A line can be in a run when it is not the empty one after a final newline. */
  lemma RunLimit(doc: Document)
    requires Lexed(doc)
    ensures var text, n := Render(doc), |doc|;
            (|text| > 0 && text[|text| - 1] == '\n') <==> n > 1 && !Counted(doc, n - 1)
  {
    hide Offset, Render, LineText, Lexed;
    var text, n := Render(doc), |doc|;
    OffsetZero(doc);
    StopIs(doc, n - 1);
    if n > 1 {
      StopIs(doc, n - 2);
      OffsetNext(doc, n - 2);
    }
    LastStop(doc);
  }

  lemma LastStop(doc: Document)
    requires Lexed(doc)
    ensures Offset(doc, |doc| - 1) == Stop(doc, |doc| - 1) <==> LineText(doc[|doc| - 1]) + doc[|doc| - 1].ending == ""
  {
    hide LineText, Offset;
  }

  lemma {:induction false} RunEndIs(doc: Document, i: nat, e: nat)
    requires i <= e < |doc| && !Surplus(doc, e + 1) && forall k :: i < k <= e ==> Surplus(doc, k)
    ensures RunEnd(doc, i) == e
    decreases e - i
  {
    hide BlankFree, Counted;
    if i < e {
      RunEndIs(doc, i + 1, e);
    }
  }

  /** Inside a run nothing more is deleted. */
  lemma {:induction false} RunSkips(doc: Document, i: nat, e: nat, first: nat, last: nat)
    requires i <= e < |doc| && Surplus(doc, i) && forall k :: i < k <= e ==> Surplus(doc, k)
    ensures Removals(doc, i + 1, first, last) == Removals(doc, e + 1, first, last)
    decreases e - i
  {
    hide BlankFree, Counted, RunEnd;
    if i < e {
      RunSkips(doc, i + 1, e, first, last);
    }
  }

  /** The second line of a run to its end. */
  lemma RunStep(doc: Document, i: nat, e: nat, first: nat, last: nat)
    requires i <= e < |doc| && !Surplus(doc, i) && !Surplus(doc, e + 1) && forall k :: i < k <= e ==> Surplus(doc, k)
    ensures Removals(doc, i, first, last) ==
            (if i < e && InRange(i + 1, first, last) then [Removal(doc, i + 1, e)] else []) +
            Removals(doc, e + 1, first, last)
  {
    hide BlankFree, Counted, RunEnd, Surplus, Removal, InRange;
    if i < e {
      assert Surplus(doc, i + 1);
      RunEndIs(doc, i + 1, e);
      RunSkips(doc, i + 1, e, first, last);
      assert Removals(doc, i, first, last) == RemovalAt(doc, i + 1, first, last) + Removals(doc, i + 2, first, last);
    }
  }

  /** `limit` bounds the lines that a run can include. */
  ghost predicate IsLimit(doc: Document, limit: nat) {
    && |doc| - 1 <= limit <= |doc| && (limit < |doc| ==> |doc| > 1)
    && forall k: nat :: 0 < k < |doc| ==> (k < limit <==> Counted(doc, k))
  }

  /** Line `i` is blank and starts a run: where the run ends. */
  method FindRunEnd(text: string, ts: seq<Token>, lines: seq<TextLine>, i: nat, limit: nat, ghost doc: Document)
    returns (end: nat)
    requires Lexed(doc) && text == Render(doc) && ts == Tokens(doc) && |doc| == |lines| && LinesOf(doc, lines)
    requires IsLimit(doc, limit) && i < limit && BlankFree(doc[i])
    ensures i <= end < limit && !Surplus(doc, end + 1) && forall k :: i < k <= end ==> Surplus(doc, k)
  {
    hide Lexed, Offset, Render, LineText, Tokens, BlankFree, LinesOf, Counted;
    end := i;
    while end + 1 < limit
      invariant i <= end < limit && BlankFree(doc[end])
      invariant forall k :: i < k <= end ==> Surplus(doc, k)
    {
      var blank := IsBlankFree(text, ts, lines, end + 1, doc);
      if !blank {
        return;
      }
      end := end + 1;
    }
  }

  lemma NoRun(doc: Document, i: nat)
    requires i < |doc| && !BlankFree(doc[i])
    ensures !Surplus(doc, i + 1)
  {
  }

  method MarkRemoved(removed: array<bool>, from: nat, to: nat)
    requires from <= to < removed.Length
    modifies removed
    ensures forall k: nat :: k < removed.Length ==> removed[k] == (from <= k <= to || old(removed[k]))
  {
    var line := from;
    while line <= to
      invariant from <= line <= to + 1
      invariant forall k: nat :: k < removed.Length ==> removed[k] == (from <= k < line || old(removed[k]))
    {
      removed[line] := true;
      line := line + 1;
    }
  }

  /** The deletion of the lines `i` to `e`. */
  function LineRemoval(lines: seq<TextLine>, i: nat, e: nat, ghost doc: Document): (r: Edit)
    requires i <= e < |lines| == |doc| && LinesOf(doc, lines)
    ensures r == Removal(doc, i, e)
  {
    if e + 1 < |lines| then Edit(i, 0, e + 1, 0, "") else Edit(i, 0, e, lines[e].length, "")
  }

  /** Marks all but the first line of every run and collects the deletions. */
  method CollapseBlankLines(text: string, ts: seq<Token>, lines: seq<TextLine>, removed: array<bool>, first: nat,
                            last: nat, ghost doc: Document) returns (result: seq<Edit>)
    requires Lexed(doc) && text == Render(doc) && ts == Tokens(doc) && |doc| == |lines| && LinesOf(doc, lines)
    requires removed.Length == |doc| && forall k :: 0 <= k < |doc| ==> !removed[k]
    modifies removed
    ensures result == Removals(doc, 0, first, last)
    ensures forall k: nat :: k < |doc| ==> removed[k] == Surplus(doc, k)
  {
    hide Lexed, Offset, Render, LineText, Tokens, BlankFree, Removals, Surplus, LinesOf, IsLimit, Removal;
    var limit := Limit(text, |lines|, doc);
    result := [];
    var index := 0;
    NotFirst(doc);
    while index < limit
      invariant 0 <= index <= limit && !Surplus(doc, index)
      invariant result + Removals(doc, index, first, last) == Removals(doc, 0, first, last)
      invariant forall k: nat :: k < |doc| ==> removed[k] == (k < index && Surplus(doc, k))
    {
      var blank := IsBlankFree(text, ts, lines, index, doc);
      var end := index;
      if blank {
        end := FindRunEnd(text, ts, lines, index, limit, doc);
      } else {
        NoRun(doc, index);
      }
      RunStep(doc, index, end, first, last);
      if end > index {
        MarkRemoved(removed, index + 1, end);
        if first <= index + 2 && index + 2 <= last {
          result := result + [LineRemoval(lines, index + 1, end, doc)];
        }
      }
      index := end + 1;
    }
    NoneLeft(doc, limit, first, last);
  }

  /** A final newline leaves an empty last line that no run includes. */
  method Limit(text: string, count: nat, ghost doc: Document) returns (limit: nat)
    requires Lexed(doc) && text == Render(doc) && count == |doc|
    ensures IsLimit(doc, limit) && limit <= |doc|
  {
    hide Lexed, Render;
    RunLimit(doc);
    OffsetZero(doc);
    limit := if |text| > 0 && text[|text| - 1] == '\n' then count - 1 else count;
  }

  lemma NotFirst(doc: Document)
    ensures !Surplus(doc, 0)
  {
  }

  lemma NoneLeft(doc: Document, limit: nat, first: nat, last: nat)
    requires IsLimit(doc, limit) && !Surplus(doc, limit)
    ensures Removals(doc, limit, first, last) == []
    ensures forall k: nat :: limit <= k < |doc| ==> !Surplus(doc, k)
  {
    hide Surplus, Counted;
  }

  // ---------------------------------------------------------------------------------
  // The edits inside lines.

  method LooksBackToDef(ts: seq<Token>, k: nat) returns (found: bool)
    requires k < |ts|
    ensures found <==> DefBefore(ts, k, ts[k].line)
  {
    var back := k;
    while back > 0
      invariant 0 <= back <= k && DefBefore(ts, k, ts[k].line) == DefBefore(ts, back, ts[k].line)
    {
      var t := ts[back - 1];
      if t.line != ts[k].line {
        return false;
      }
      match t.kind {
        case Def => return true;
        case Identifier | Self | Dot | LeftBracket | RightBracket | DoubleColon =>
        case _ => return false;
      }
      back := back - 1;
    }
    return false;
  }

  method IsMethodName(ts: seq<Token>, k: nat) returns (yes: bool)
    requires k < |ts|
    ensures yes <==> OperatorIsMethodName(ts, k)
  {
    if k == 0 {
      return false;
    }
    var before := ts[k - 1].kind;
    if before.Def? || before.Dot? || before.DoubleColon? {
      return true;
    }
    if !ts[k].kind.Equal? {
      return false;
    }
    yes := LooksBackToDef(ts, k);
  }

  method ChooseGap(ts: seq<Token>, k: nat) returns (want: Want)
    requires k + 1 < |ts|
    ensures want == WantedGap(ts, k)
  {
    hide OperatorIsMethodName, IsSpacedOperator;
    var left, right := ts[k].kind, ts[k + 1].kind;
    if right.Comma? {
      return Nothing;
    }
    if left.Comma? {
      return if IsClosingBracket(right) then Anything else AtLeastOne;
    }
    if IsSpacedOperator(left) {
      var name := IsMethodName(ts, k);
      if !name {
        return AtLeastOne;
      }
    }
    if IsSpacedOperator(right) {
      var name := IsMethodName(ts, k + 1);
      if !name {
        return AtLeastOne;
      }
    }
    return Anything;
  }

  /** The text between two tokens, when both are on one line and it is blank. */
  method TokenGap(text: string, ts: seq<Token>, k: nat) returns (gap: Option<(nat, nat)>)
    requires k + 1 < |ts| && forall j :: k <= j <= k + 1 ==> ts[j].start + ts[j].length <= |text|
    ensures var left, right := ts[k], ts[k + 1];
            var start, end := left.start + left.length, right.start;
            gap == if left.kind.Eof? || right.kind.Eof? || left.line != right.line || end < start ||
                      !Blanks(text[start..end]) then None
                   else Some((start, end))
  {
    hide Blanks;
    var left, right := ts[k], ts[k + 1];
    if left.kind.Eof? || right.kind.Eof? || left.line != right.line {
      return None;
    }
    var start, end := left.start + left.length, right.start;
    if end < start {
      return None;
    }
    var blank := AllBlank(text, start, end);
    return if blank then Some((start, end)) else None;
  }

  /** The column where cell `j` of a line ends. */
  ghost function CellEnd(l: Line, j: nat): nat
    requires j < |l.cells|
  {
    |l.carried| + |CellsText(l.cells[..j + 1])|
  }

  /** The token at `k` is cell `j` of the line `i`, which starts at `o`, and the gap after it is that
      before cell `j + 1`. */
  ghost predicate GapPlaced(text: string, ts: seq<Token>, l: Line, i: nat, k: nat, o: nat, j: nat)
    requires j + 1 < |l.cells|
  {
    && k + 2 < |ts|
    && var left, right := ts[k], ts[k + 1];
       var start, end := left.start + left.length, right.start;
       && !left.kind.Eof? && !right.kind.Eof? && left.line == right.line == i + 1
       && start == o + CellEnd(l, j) && end == start + |l.cells[j + 1].gap|
       && end <= o + |LineText(l)| <= |text| && text[start..end] == l.cells[j + 1].gap
  }

  /** What the gap before cell `j + 1` is, in the text and in the tokens. */
  lemma GapAt(doc: Document, i: nat, j: nat)
    requires Lexed(doc) && i < |doc| && j + 1 < |doc[i].cells|
    ensures GapPlaced(Render(doc), Tokens(doc), doc[i], i, TokenIndex(doc, i) + j, Offset(doc, i), j)
  {
    hide Offset, Render, TokenIndex, Tokens, Lexed, CellTokens, CellsText, LineText, Past, CellEnd;
    var l, o := doc[i], Offset(doc, i);
    TokenAt(doc, i, j + 1);
    GapSpan(doc, i, j);
    GapText(l, j);
    LineAt(doc, i);
    var from, to := CellEnd(l, j), CellEnd(l, j) + |l.cells[j + 1].gap|;
    SliceOfSlice(Render(doc), o, |LineText(l)|, from, to);
  }

  lemma SliceOfSlice(s: string, o: nat, n: nat, from: nat, to: nat)
    requires o + n <= |s| && from <= to <= n
    ensures s[o + from..o + to] == s[o..o + n][from..to]
  {
    var a, b := s[o + from..o + to], s[o..o + n][from..to];
    assert |a| == |b|;
    forall k | 0 <= k < |a|
      ensures a[k] == b[k]
    {
      assert b[k] == s[o..o + n][from + k];
    }
  }

  lemma GapSpan(doc: Document, i: nat, j: nat)
    requires Lexed(doc) && i < |doc| && j + 1 < |doc[i].cells|
    ensures TokenIndex(doc, i) + j + 1 < |Tokens(doc)|
    ensures var l, k, o := doc[i], TokenIndex(doc, i) + j, Offset(doc, i);
            var left, right := Tokens(doc)[k], Tokens(doc)[k + 1];
            && !left.kind.Eof? && !right.kind.Eof? && left.line == right.line == i + 1
            && left.start + left.length == o + CellEnd(l, j)
            && right.start == o + CellEnd(l, j) + |l.cells[j + 1].gap|
  {
    hide Offset, TokenIndex, Tokens, Lexed, CellTokens, CellsText, Past;
    var l, o := doc[i], Offset(doc, i);
    TokenAt(doc, i, j);
    TokenAt(doc, i, j + 1);
    CellToken(l.cells, i + 1, o + |l.carried|, Past(doc, i), j);
    CellToken(l.cells, i + 1, o + |l.carried|, Past(doc, i), j + 1);
    LexedLineAt(doc, i);
    assert LexedCell(l.cells[j], false);
    assert LexedCell(l.cells[j + 1], l.unclosed && j + 1 == |l.cells| - 1);
    CellsPrefix(l.cells, j);
  }

  lemma {:induction false} CellsSlice(cells: seq<Cell>, j: nat)
    requires j < |cells|
    ensures var n := |CellsText(cells[..j])|;
            n + |cells[j].gap| <= |CellsText(cells)| && CellsText(cells)[n..n + |cells[j].gap|] == cells[j].gap
  {
    if j > 0 {
      CellsSlice(cells[1..], j - 1);
      assert cells[..j][1..] == cells[1..][..j - 1];
      var n := |CellsText(cells[1..][..j - 1])|;
      SliceAfter(cells[0].gap + cells[0].text, CellsText(cells[1..]), n, |cells[j].gap|);
    }
  }

  lemma SliceAfter(a: string, b: string, n: nat, g: nat)
    requires n + g <= |b|
    ensures (a + b)[|a| + n..|a| + n + g] == b[n..n + g]
  {
  }

  lemma GapText(l: Line, j: nat)
    requires j + 1 < |l.cells|
    ensures var n, g := CellEnd(l, j), l.cells[j + 1].gap;
            n + |g| <= |LineText(l)| && LineText(l)[n..n + |g|] == g
  {
    hide CellsText;
    CellsSlice(l.cells, j + 1);
    var n, g, c, t := |CellsText(l.cells[..j + 1])|, |l.cells[j + 1].gap|, |l.carried|, CellsText(l.cells);
    assert LineText(l)[c + n..c + n + g] == t[n..n + g];
  }

  /** After the last cell of a line there is no gap on it. */
  lemma NoGapAt(doc: Document, i: nat)
    requires Lexed(doc) && i < |doc| && doc[i].cells != []
    ensures var k := TokenIndex(doc, i) + |doc[i].cells| - 1;
            k + 1 < |Tokens(doc)| && (Tokens(doc)[k + 1].kind.Eof? || Tokens(doc)[k + 1].line != i + 1)
  {
    hide Tokens, Offset, CellTokens, LineText;
    NextToken(doc, i + 1);
    TokensSplit(doc, i + 1);
    TokenCount(doc);
  }

  /** The token at the index of a line is the last, or on that line or a later one. */
  lemma {:induction false} NextToken(doc: Document, i: nat)
    requires i <= |doc|
    ensures var k := TokenIndex(doc, i);
            k < |Tokens(doc)| && (k + 1 == |Tokens(doc)| || Tokens(doc)[k].line > i)
    decreases |doc| - i
  {
    hide Tokens;
    if i == |doc| {
      TokenCount(doc);
    } else if doc[i].cells != [] {
      TokenAt(doc, i, 0);
    } else {
      NextToken(doc, i + 1);
    }
  }

  lemma TokensFit(doc: Document, k: nat)
    requires Lexed(doc) && k < |Tokens(doc)|
    ensures Tokens(doc)[k].start + Tokens(doc)[k].length <= |Render(doc)|
  {
    hide Lexed, Tokens, TokenIndex, Offset, LineText, Overhang, CloseLine, Render, PatternOver, OpensPattern;
    TokenCount(doc);
    if k < TokenIndex(doc, |doc|) {
      var i, j := TokenOwner(doc, |doc|, k);
      TokenSpan(doc, i, j);
      LineAt(doc, i);
      if j + 1 == |doc[i].cells| && doc[i].unclosed {
        CloseOffset(doc, i);
        var m := CloseLine(doc, i);
        LineAt(doc, m);
        CarriedWithin(doc, m);
      } else if j + 1 == |doc[i].cells| && OpensPattern(doc[i]) {
        PatternFits(doc, i);
      }
    } else {
      LastToken(doc);
    }
  }

  /** A regex literal that goes on ends inside the document. */
  lemma PatternFits(doc: Document, i: nat)
    requires i < |doc|
    ensures Offset(doc, i) + |LineText(doc[i])| + PatternOver(doc, i) <= |Render(doc)|
  {
    hide Offset, Render, PatternOver;
    PatternInside(doc, i);
    OffsetRender(doc, |doc|);
  }

  lemma {:induction false} PatternInside(doc: Document, i: nat)
    requires i < |doc|
    ensures Offset(doc, i) + |LineText(doc[i])| + PatternOver(doc, i) <= Offset(doc, |doc|)
    decreases |doc| - i
  {
    hide ScanPattern, LineText, Loose;
    OffsetOrder(doc, i, |doc|);
    if i + 1 < |doc| {
      PatternInside(doc, i + 1);
      LooseWithin(doc[i + 1]);
    }
  }

  lemma LooseWithin(l: Line)
    ensures |Loose(l)| <= |LineText(l)|
  {
  }

  lemma LastToken(doc: Document)
    requires Lexed(doc)
    ensures |Tokens(doc)| == TokenIndex(doc, |doc|) + 1
    ensures var t := Tokens(doc)[TokenIndex(doc, |doc|)]; t.start + t.length <= |Render(doc)|
  {
    hide Lexed, Tokens, TokenIndex, Offset, Render;
    TokenCount(doc);
    TokensSplit(doc, |doc|);
    OffsetRender(doc, |doc|);
    var n := TokenIndex(doc, |doc|);
    assert Tokens(doc)[n] == Tokens(doc)[n..][0];
  }

  lemma GapEditsStep(ts: seq<Token>, k: nat, cells: seq<Cell>, line: nat, column: nat)
    requires k + |cells| < |ts| && cells != []
    ensures GapEdits(ts, k, cells, line, column) ==
            GapEdit(WantedGap(ts, k), cells[0].gap, line, column) +
            GapEdits(ts, k + 1, cells[1..], line, column + |cells[0].gap| + |cells[0].text|)
  {
  }

  ghost function EditsBefore(doc: Document, i: nat, j: nat): seq<Edit>
    requires i < |doc| && j < |doc[i].cells| && TokenIndex(doc, i) + |doc[i].cells| < |Tokens(doc)|
  {
    GapEdits(Tokens(doc), TokenIndex(doc, i) + j, doc[i].cells[j + 1..], i, CellEnd(doc[i], j))
  }

  lemma EditsBeforeStep(doc: Document, i: nat, j: nat)
    requires i < |doc| && j + 1 < |doc[i].cells| && TokenIndex(doc, i) + |doc[i].cells| < |Tokens(doc)|
    ensures EditsBefore(doc, i, j) ==
            GapEdit(WantedGap(Tokens(doc), TokenIndex(doc, i) + j), doc[i].cells[j + 1].gap, i, CellEnd(doc[i], j)) +
            EditsBefore(doc, i, j + 1)
  {
    hide Tokens, TokenIndex, GapEdit, WantedGap, GapEdits;
    var l := doc[i];
    GapEditsStep(Tokens(doc), TokenIndex(doc, i) + j, l.cells[j + 1..], i, CellEnd(l, j));
    assert l.cells[j + 1..][1..] == l.cells[j + 2..];
    CellsPrefix(l.cells, j + 1);
  }

  lemma {:induction false} InnerIs(doc: Document, i: nat)
    requires i < |doc| && TokenIndex(doc, i) + |doc[i].cells| < |Tokens(doc)|
    ensures InnerEdits(Tokens(doc), TokenIndex(doc, i), doc[i], i) ==
            if doc[i].cells == [] then [] else EditsBefore(doc, i, 0)
  {
    hide Tokens, TokenIndex, GapEdits;
    var l := doc[i];
    if l.cells != [] {
      CellsPrefix(l.cells, 0);
      assert l.cells[..0] == [];
    }
  }

  /** The edit for the gap after one token of a line. */
  method SpacePair(text: string, ts: seq<Token>, k: nat, line: TextLine, i: nat, ghost doc: Document, ghost j: nat)
    returns (es: seq<Edit>)
    requires Lexed(doc) && text == Render(doc) && ts == Tokens(doc) && i < |doc| && j < |doc[i].cells|
    requires k == TokenIndex(doc, i) + j && k + 1 < |ts| && ts[k].line == i + 1
    requires line == TextLine(Offset(doc, i), |LineText(doc[i])|)
    ensures es == if j + 1 == |doc[i].cells| then []
                  else GapEdit(WantedGap(ts, k), doc[i].cells[j + 1].gap, i, CellEnd(doc[i], j))
  {
    hide Lexed, Tokens, TokenIndex, Offset, LineText, Render, WantedGap, CellEnd, Blanks;
    TokensFit(doc, k);
    TokensFit(doc, k + 1);
    var gap := TokenGap(text, ts, k);
    if j + 1 == |doc[i].cells| {
      NoGapAt(doc, i);
    } else {
      GapAt(doc, i, j);
    }
    if gap.Some? && line.start <= gap.value.0 && gap.value.1 <= line.start + line.length {
      var start, end := gap.value.0, gap.value.1;
      var want := ChooseGap(ts, k);
      var column := start - line.start;
      if want == Nothing && end > start {
        return [Within(i, column, column + (end - start), "")];
      } else if want == AtLeastOne && end == start {
        return [Within(i, column, column, " ")];
      }
    }
    return [];
  }

  /** The edits for the gaps of a line, token pair by token pair. */
  method SpaceTokens(text: string, ts: seq<Token>, cursor: nat, line: TextLine, i: nat, ghost doc: Document)
    returns (es: seq<Edit>)
    requires Lexed(doc) && text == Render(doc) && ts == Tokens(doc) && i < |doc| && cursor == TokenIndex(doc, i)
    requires line == TextLine(Offset(doc, i), |LineText(doc[i])|)
    requires cursor + |doc[i].cells| < |ts|
    ensures es == InnerEdits(ts, cursor, doc[i], i)
  {
    hide *;
    es := [];
    InnerIs(doc, i);
    ghost var n := |doc[i].cells|;
    var k := cursor;
    LineTokens(doc, i);
    while k + 1 < |ts| && ts[k].line == i + 1
      invariant cursor <= k <= cursor + n
      invariant k < cursor + n ==> es + EditsBefore(doc, i, k - cursor) == InnerEdits(ts, cursor, doc[i], i)
      invariant k == cursor + n ==> es == InnerEdits(ts, cursor, doc[i], i)
    {
      ghost var j: nat := k - cursor;
      var more := SpacePair(text, ts, k, line, i, doc, j);
      if j + 1 == n {
        LastEdits(doc, i);
      } else {
        EditsBeforeStep(doc, i, j);
      }
      es := es + more;
      k := k + 1;
    }
    assert k == cursor + n;
  }

  /** The tokens of line `i` are those from its index on. */
  lemma LineTokens(doc: Document, i: nat)
    requires i < |doc|
    ensures var k, n := TokenIndex(doc, i), |doc[i].cells|;
            && k + n < |Tokens(doc)|
            && (forall j :: k <= j < k + n ==> Tokens(doc)[j].line == i + 1)
            && (k + n + 1 == |Tokens(doc)| || Tokens(doc)[k + n].line > i + 1)
  {
    hide Tokens;
    NextToken(doc, i + 1);
    var k, n := TokenIndex(doc, i), |doc[i].cells|;
    forall j | k <= j < k + n
      ensures Tokens(doc)[j].line == i + 1
    {
      TokenAt(doc, i, j - k);
    }
  }

  lemma LastEdits(doc: Document, i: nat)
    requires i < |doc| && doc[i].cells != [] && TokenIndex(doc, i) + |doc[i].cells| < |Tokens(doc)|
    ensures EditsBefore(doc, i, |doc[i].cells| - 1) == []
  {
  }

  /** The edits of one line. */
  method EditLine(text: string, ts: seq<Token>, cursor: nat, line: TextLine, i: nat, depth: nat, ghost doc: Document)
    returns (es: seq<Edit>)
    requires Lexed(doc) && text == Render(doc) && ts == Tokens(doc) && i < |doc| && cursor == TokenIndex(doc, i)
    requires line == TextLine(Offset(doc, i), |LineText(doc[i])|)
    requires cursor + |doc[i].cells| < |ts|
    ensures es == LineEdits(ts, cursor, doc[i], depth, i)
  {
    hide Lexed, Tokens, TokenIndex, Offset, LineText, Render, GapEdits, WantedGap, InnerEdits, Lead, ChopLength,
         InsideString, Blanks, Spaces;
    LineAt(doc, i);
    StartsInside(doc, i);
    EndsInside(doc, i);
    var content := text[line.start..line.start + line.length];
    var leading := CountLeading(content);
    var trailing := FindTrailing(content, leading);
    var startsInString := InsideStringToken(ts, line.start);
    var endsInString := InsideStringToken(ts, line.start + line.length);
    LeadBlanks(content);
    es := [];
    if startsInString && endsInString {
      return;
    }
    if trailing == leading {
      if leading > 0 {
        es := [Within(i, 0, leading, "")];
      }
      return;
    }
    if !startsInString {
      if !Indented(content, 2 * depth) {
        es := [Within(i, 0, leading, Spaces(2 * depth))];
      }
    }
    var inner := SpaceTokens(text, ts, cursor, line, i, doc);
    es := es + inner;
    if !endsInString && trailing < |content| {
      es := es + [Within(i, trailing, |content|, "")];
    }
  }

  /** The edits inside the lines that are left, in order. */
  method EditLines(text: string, ts: seq<Token>, lines: seq<TextLine>, depths: seq<nat>, removed: array<bool>,
                   first: nat, last: nat, ghost doc: Document) returns (result: seq<Edit>)
    requires Lexed(doc) && text == Render(doc) && ts == Tokens(doc) && LinesOf(doc, lines)
    requires |doc| == |lines| == |depths| == removed.Length
    requires forall k: nat :: k < |doc| ==> removed[k] == Surplus(doc, k)
    ensures result == AllLineEdits(doc, depths, 0, first, last)
  {
    hide Lexed, Tokens, TokenIndex, Offset, LineText, Render, LineEdits, Surplus;
    result := [];
    var index, cursor := 0, 0;
    IndexZero(doc);
    while index < |lines|
      invariant 0 <= index <= |doc|
      invariant index == 0 ==> cursor == TokenIndex(doc, 0)
      invariant index > 0 ==> cursor == TokenIndex(doc, index - 1)
      invariant result + AllLineEdits(doc, depths, index, first, last) == AllLineEdits(doc, depths, 0, first, last)
    {
      cursor := MoveCursor(ts, cursor, index, doc);
      IndexBound(doc, index);
      if !removed[index] && first <= index + 1 && index + 1 <= last {
        var es := EditLine(text, ts, cursor, lines[index], index, depths[index], doc);
        result := result + es;
      }
      index := index + 1;
    }
  }

  lemma IndexZero(doc: Document)
    ensures TokenIndex(doc, 0) == 0
  {
  }

  /** Moves the cursor on to the tokens of line `index`. */
  method MoveCursor(ts: seq<Token>, from: nat, index: nat, ghost doc: Document) returns (cursor: nat)
    requires Lexed(doc) && ts == Tokens(doc) && index < |doc|
    requires from == TokenIndex(doc, if index == 0 then 0 else index - 1)
    ensures cursor == TokenIndex(doc, index)
  {
    hide Lexed, Tokens;
    cursor := from;
    NextToken(doc, index);
    NoEndBefore(doc);
    if index > 0 {
      LineTokens(doc, index - 1);
    }
    while cursor < |ts| && !ts[cursor].kind.Eof? && ts[cursor].line < index + 1
      invariant from <= cursor <= TokenIndex(doc, index)
    {
      cursor := cursor + 1;
    }
  }

  /** Only the last token is the end. */
  lemma NoEndBefore(doc: Document)
    requires Lexed(doc)
    ensures var ts := Tokens(doc); forall k :: 0 <= k < |ts| ==> (ts[k].kind.Eof? <==> k + 1 == |ts|)
  {
    hide Lexed, Tokens, TokenIndex;
    var ts := Tokens(doc);
    TokenCount(doc);
    forall k: nat | k + 1 < |ts|
      ensures !ts[k].kind.Eof?
    {
      var i, j := TokenOwner(doc, |doc|, k);
      TokenAt(doc, i, j);
      LexedLineAt(doc, i);
      assert LexedCell(doc[i].cells[j], doc[i].unclosed && j == |doc[i].cells| - 1);
    }
  }

  method AnyError(ts: seq<Token>) returns (found: bool)
    ensures found <==> HasError(ts)
  {
    var k := 0;
    while k < |ts|
      invariant k <= |ts| && forall j :: 0 <= j < k ==> !ts[j].kind.Error?
    {
      if ts[k].kind.Error? {
        return true;
      }
      k := k + 1;
    }
    return false;
  }

  /** Formats the lines `first` to `last` of a text: the edits, or nothing when the text does
      not lex or its levels do not balance. Where the lexer found an error nothing is asked of
      its tokens. */
  method FormatRange(text: string, ts: seq<Token>, first: nat, last: nat, ghost doc: Document)
    returns (r: Option<seq<Edit>>)
    requires HasError(ts) || (Lexed(doc) && text == Render(doc) && ts == Tokens(doc))
    ensures r == if HasError(ts) then None else Edits(doc, first, last)
  {
    hide Lexed, Tokens, Render, Removals, AllLineEdits, HasError, Depths, Surplus, LinesOf;
    var error := AnyError(ts);
    if error {
      return None;
    }
    var lines := SplitLines(text, doc);
    var depths := new nat[|lines|];
    var balanced := ComputeLineDepths(ts, depths);
    if !balanced {
      return None;
    }
    var removed := new bool[|lines|](_ => false);
    var removals := CollapseBlankLines(text, ts, lines, removed, first, last, doc);
    var edits := EditLines(text, ts, lines, depths[..], removed, first, last, doc);
    return Some(removals + edits);
  }
}
