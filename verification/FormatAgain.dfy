/** Formatting the formatted document: when nothing is left to do. */
module FormatAgain {
  import opened Wrappers
  import opened Layout
  import opened Depth
  import opened Spacing
  import opened Format
  import opened FormatLine
  import opened FormatText
  import opened FormatApply
  import opened FormatMeaning
  import opened FormatTwice
  import opened Patterns

  // ---------------------------------------------------------------------------------
  // The entries that are kept.

  lemma {:induction false} RankHead(keep: seq<bool>, n: nat)
    requires 0 < n <= |keep|
    ensures Rank(keep, n) == (if keep[0] then 1 else 0) + Rank(keep[1..], n - 1)
  {
    if n > 1 {
      RankHead(keep, n - 1);
    }
  }

  lemma {:induction false} FilterAt<T>(keep: seq<bool>, s: seq<T>, i: nat)
    requires |s| == |keep| && i <= |s|
    ensures |Filter(keep, s)| == Rank(keep, |keep|)
    ensures i < |s| && keep[i] ==> Rank(keep, i) < |Filter(keep, s)| && Filter(keep, s)[Rank(keep, i)] == s[i]
    decreases |s|
  {
    if s != [] {
      RankHead(keep, |keep|);
      FilterAt(keep[1..], s[1..], if i == 0 then 0 else i - 1);
      if i > 0 {
        RankHead(keep, i);
      }
    }
  }

  lemma {:induction false} Unrank(keep: seq<bool>, n: nat, r: nat) returns (i: nat)
    requires n <= |keep| && r < Rank(keep, n)
    ensures i < n && keep[i] && Rank(keep, i) == r
  {
    if keep[n - 1] && Rank(keep, n - 1) == r {
      i := n - 1;
    } else {
      i := Unrank(keep, n - 1, r);
    }
  }

  // ---------------------------------------------------------------------------------
  // The document the edited text is split and lexed into.

  function Kept(doc: Document, first: nat, last: nat): (r: seq<bool>)
    ensures |r| == |doc|
  {
    seq(|doc|, i requires 0 <= i < |doc| => Keeps(doc, i, first, last))
  }

  function Fresh(doc: Document, depths: seq<nat>, first: nat, last: nat): (r: Document)
    requires |doc| == |depths|
    ensures |r| == |doc|
  {
    seq(|doc|, i requires 0 <= i < |doc| => Resplit(NewLine(doc, depths, i, first, last)))
  }

  function Again(doc: Document, depths: seq<nat>, first: nat, last: nat): Document
    requires |doc| == |depths|
  {
    Filter(Kept(doc, first, last), Fresh(doc, depths, first, last))
  }

  /** Line `i` is deleted or in range for edits of its own. */
  predicate Touched(doc: Document, i: nat, first: nat, last: nat) {
    Doomed(doc, i, first, last) || (InRange(i, first, last) && !Surplus(doc, i))
  }

  /** Each line that is touched is tidied, and the others stay. */
  lemma FreshLine(doc: Document, depths: seq<nat>, i: nat, first: nat, last: nat)
    requires Lexed(doc) && i < |doc| == |depths|
    ensures TokenIndex(doc, i) + |doc[i].cells| < |Tokens(doc)|
    ensures Fresh(doc, depths, first, last)[i] ==
            if Touched(doc, i, first, last) then Resplit(TidyLine(Tokens(doc), TokenIndex(doc, i), doc[i], depths[i])) else doc[i]
  {
    hide BlankFree, Counted, LexedLine, SplitEnding, Resplit, TidyCells, Chop, Reindent, Doomed, Lexed;
    IndexBound(doc, i);
    LexedAt(doc, i);
    SplitAlready(doc[i], i == |doc| - 1);
    if Doomed(doc, i, first, last) {
      DoomedIsSurplus(doc, i, first, last);
      SurplusBlank(doc, i);
    }
  }

  lemma DoomedIsSurplus(doc: Document, i: nat, first: nat, last: nat)
    requires Doomed(doc, i, first, last)
    ensures Surplus(doc, i)
  {
  }

  lemma LexedAt(doc: Document, i: nat)
    requires Lexed(doc) && i < |doc|
    ensures LexedLine(doc[i]) && SplitEnding(doc[i], i == |doc| - 1)
  {
  }

  lemma DroppedSurplus(doc: Document, i: nat, first: nat, last: nat)
    requires i < |doc| && !Kept(doc, first, last)[i]
    ensures Surplus(doc, i) && i > 0 && Doomed(doc, i, first, last)
  {
    hide BlankFree, Counted;
  }

  /** Line `i` is the last line left exactly when it is the last. */
  lemma LastRank(doc: Document, first: nat, last: nat, i: nat)
    requires Lexed(doc) && i < |doc| && Kept(doc, first, last)[i]
    ensures var keep := Kept(doc, first, last); i + 1 == |doc| <==> Rank(keep, i) + 1 == Rank(keep, |doc|)
  {
    hide Lexed, Kept, Rank;
    var keep := Kept(doc, first, last);
    RankStep(keep, i);
    if i + 1 < |doc| {
      KeptLast(doc, |doc| - 1, first, last);
      RankLess(keep, i, |doc| - 1);
      RankStep(keep, |doc| - 1);
    }
  }

  lemma SplitAlready(l: Line, last: bool)
    requires SplitEnding(l, last)
    ensures Resplit(l) == l
  {
    hide CellsText;
  }

  lemma SurplusBlank(doc: Document, i: nat)
    requires Surplus(doc, i)
    ensures Blanks(LineText(doc[i])) && !doc[i].inString && !doc[i].unclosed
    ensures Blanks(LineText(doc[i - 1])) && !doc[i - 1].inString && !doc[i - 1].unclosed
  {
  }

  lemma {:induction false} RenderFiltered(doc: Document, depths: seq<nat>, i: nat, first: nat, last: nat)
    requires i <= |doc| == |depths| && Lexed(doc)
    ensures Render(Filter(Kept(doc, first, last)[i..], Fresh(doc, depths, first, last)[i..])) ==
            Render(Formatted(doc, depths, i, first, last))
    decreases |doc| - i
  {
    hide Keeps, NewLine, Resplit, LineText, Lexed;
    var keep, lines := Kept(doc, first, last), Fresh(doc, depths, first, last);
    if i < |doc| {
      RenderFiltered(doc, depths, i + 1, first, last);
      assert keep[i..][1..] == keep[i + 1..] && lines[i..][1..] == lines[i + 1..];
      if keep[i] {
        var l := NewLine(doc, depths, i, first, last);
        RenderCons(l, Formatted(doc, depths, i + 1, first, last));
        RenderCons(Resplit(l), Filter(keep[i + 1..], lines[i + 1..]));
        ResplitText(l);
      } else {
        assert Formatted(doc, depths, i, first, last) == Formatted(doc, depths, i + 1, first, last);
      }
    }
  }

  lemma ResplitText(l: Line)
    ensures LineText(Resplit(l)) + Resplit(l).ending == LineText(l) + l.ending
  {
    hide CellsText;
    var m := Resplit(l);
    if m != l {
      assert l.tail == m.tail + "\r";
      assert LineText(l) == LineText(m) + "\r";
    }
  }

  /** It has the text the edits make. */
  lemma AgainText(doc: Document, depths: seq<nat>, first: nat, last: nat)
    requires Lexed(doc) && |doc| == |depths|
    ensures Render(Again(doc, depths, first, last)) == Render(Formatted(doc, depths, 0, first, last))
  {
    hide Formatted, Render, Filter;
    RenderFiltered(doc, depths, 0, first, last);
    var keep, lines := Kept(doc, first, last), Fresh(doc, depths, first, last);
    assert keep[0..] == keep && lines[0..] == lines;
  }

  // ---------------------------------------------------------------------------------
  // Its tokens are those of the document, with the lines renumbered.

  lemma KeptLast(doc: Document, i: nat, first: nat, last: nat)
    requires Lexed(doc) && i < |doc|
    ensures i + 1 == |doc| ==> Kept(doc, first, last)[i]
    ensures !Kept(doc, first, last)[i] ==> BlankFree(doc[i]) && doc[i].cells == []
  {
    hide LexedLine, SplitEnding;
    if !Kept(doc, first, last)[i] {
      SurplusBlank(doc, i);
      BlankLine(doc[i]);
    }
  }

  /** `us` is `ts` with the lines renumbered. */
  ghost predicate Follows(ts: seq<Token>, us: seq<Token>, keep: seq<bool>) {
    |ts| == |us| && forall j :: 0 <= j < |ts| ==>
      && ts[j].kind == us[j].kind && 1 <= ts[j].line <= |keep| && keep[ts[j].line - 1]
      && us[j].line == Rank(keep, ts[j].line - 1) + 1
  }

  lemma FollowsJoin(a: seq<Token>, b: seq<Token>, ts: seq<Token>, us: seq<Token>, keep: seq<bool>)
    requires Follows(a, b, keep) && Follows(ts, us, keep)
    ensures Follows(a + ts, b + us, keep)
  {
    hide Rank;
  }

  lemma FollowsCells(a: seq<Cell>, b: seq<Cell>, line: nat, keep: seq<bool>, at: nat, over: nat, at': nat, over': nat)
    requires |a| == |b| && forall j :: 0 <= j < |a| ==> a[j].kind == b[j].kind
    requires 1 <= line <= |keep| && keep[line - 1]
    ensures Follows(CellTokens(a, line, at, over), CellTokens(b, Rank(keep, line - 1) + 1, at', over'), keep)
  {
    hide Rank, CellTokens;
    forall j | 0 <= j < |a|
      ensures CellTokens(a, line, at, over)[j].kind == CellTokens(b, Rank(keep, line - 1) + 1, at', over')[j].kind
      ensures CellTokens(a, line, at, over)[j].line == line
      ensures CellTokens(b, Rank(keep, line - 1) + 1, at', over')[j].line == Rank(keep, line - 1) + 1
    {
      CellToken(a, line, at, over, j);
      CellToken(b, Rank(keep, line - 1) + 1, at', over', j);
    }
  }

  lemma FreshCells(doc: Document, depths: seq<nat>, i: nat, first: nat, last: nat)
    requires Lexed(doc) && i < |doc| == |depths|
    ensures var m := Fresh(doc, depths, first, last)[i];
            && |m.cells| == |doc[i].cells|
            && forall j :: 0 <= j < |m.cells| ==>
                 m.cells[j].kind == doc[i].cells[j].kind && m.cells[j].text == doc[i].cells[j].text
  {
    hide LexedLine, SplitEnding, Fresh, TidyCells, Chop, Reindent, Tokens, TokenIndex, Blanks;
    var l := doc[i];
    FreshLine(doc, depths, i, first, last);
    LexedAt(doc, i);
    TidyCount(Tokens(doc), TokenIndex(doc, i), l, depths[i]);
    forall j | 0 <= j < |l.cells|
      ensures var t := TidyCells(Tokens(doc), TokenIndex(doc, i), l, depths[i])[j];
              t.kind == l.cells[j].kind && t.text == l.cells[j].text
    {
      TidyCell(Tokens(doc), TokenIndex(doc, i), l, depths[i], j);
    }
  }

  lemma {:induction false} AgainTokensFrom(doc: Document, depths: seq<nat>, first: nat, last: nat, i: nat, at: nat, at': nat)
    requires Lexed(doc) && i <= |doc| == |depths|
    ensures var keep, d := Kept(doc, first, last), Again(doc, depths, first, last);
            && Rank(keep, i) <= |d|
            && Follows(TokensFrom(doc, i, at), TokensFrom(d, Rank(keep, i), at'), keep)
    decreases |doc| - i
  {
    hide Lexed, Follows, Kept, Again, Rank, TokensFrom, LineText, Past;
    var keep, d := Kept(doc, first, last), Again(doc, depths, first, last);
    AgainLength(doc, depths, first, last);
    if i == |doc| {
      FollowsEnd(doc, depths, first, last, at, at');
    } else {
      RankStep(keep, i);
      RankLess(keep, i, |keep|);
      KeptLast(doc, i, first, last);
      var after := at + |LineText(doc[i])| + |doc[i].ending|;
      if keep[i] {
        var r := Rank(keep, i);
        AgainLine(doc, depths, first, last, i);
        FreshCells(doc, depths, i, first, last);
        AgainTokensFrom(doc, depths, first, last, i + 1, after, at' + |LineText(d[r])| + |d[r].ending|);
        FollowsLine(doc, d, i, r, at, at', keep);
      } else {
        AgainTokensFrom(doc, depths, first, last, i + 1, after, at');
        SkippedLine(doc, i, at);
      }
    }
  }

  lemma FollowsLine(doc: Document, d: Document, i: nat, r: nat, at: nat, at': nat, keep: seq<bool>)
    requires i < |doc| == |keep| && r < |d| && r == Rank(keep, i) && keep[i] && |doc[i].cells| == |d[r].cells|
    requires forall j :: 0 <= j < |d[r].cells| ==> d[r].cells[j].kind == doc[i].cells[j].kind
    requires Follows(TokensFrom(doc, i + 1, at + |LineText(doc[i])| + |doc[i].ending|),
                     TokensFrom(d, r + 1, at' + |LineText(d[r])| + |d[r].ending|), keep)
    ensures Follows(TokensFrom(doc, i, at), TokensFrom(d, r, at'), keep)
  {
    hide Follows, Rank, CellTokens, LineText, Past;
    var from, from' := at + |doc[i].carried|, at' + |d[r].carried|;
    FollowsCells(doc[i].cells, d[r].cells, i + 1, keep, from, Past(doc, i), from', Past(d, r));
    FollowsJoin(CellTokens(doc[i].cells, i + 1, from, Past(doc, i)),
                CellTokens(d[r].cells, r + 1, from', Past(d, r)),
                TokensFrom(doc, i + 1, at + |LineText(doc[i])| + |doc[i].ending|),
                TokensFrom(d, r + 1, at' + |LineText(d[r])| + |d[r].ending|), keep);
  }

  lemma SkippedLine(doc: Document, i: nat, at: nat)
    requires i < |doc| && doc[i].cells == []
    ensures TokensFrom(doc, i, at) == TokensFrom(doc, i + 1, at + |LineText(doc[i])| + |doc[i].ending|)
  {
    hide LineText;
  }

  lemma AgainLength(doc: Document, depths: seq<nat>, first: nat, last: nat)
    requires |doc| == |depths|
    ensures |Again(doc, depths, first, last)| == Rank(Kept(doc, first, last), |doc|)
  {
    FilterAt(Kept(doc, first, last), Fresh(doc, depths, first, last), |doc|);
  }

  lemma AgainLine(doc: Document, depths: seq<nat>, first: nat, last: nat, i: nat)
    requires i < |doc| == |depths| && Kept(doc, first, last)[i]
    ensures var r := Rank(Kept(doc, first, last), i);
            r < |Again(doc, depths, first, last)| && Again(doc, depths, first, last)[r] == Fresh(doc, depths, first, last)[i]
  {
    hide Fresh, Kept, Filter, Rank;
    FilterAt(Kept(doc, first, last), Fresh(doc, depths, first, last), i);
  }

  lemma FollowsEnd(doc: Document, depths: seq<nat>, first: nat, last: nat, at: nat, at': nat)
    requires Lexed(doc) && |doc| == |depths|
    ensures var keep, d := Kept(doc, first, last), Again(doc, depths, first, last);
            Rank(keep, |doc|) <= |d| &&
            Follows(TokensFrom(doc, |doc|, at), TokensFrom(d, Rank(keep, |doc|), at'), keep)
  {
    hide Again, Kept, Lexed;
    NotEmpty(doc);
    AgainLength(doc, depths, first, last);
    KeptLast(doc, |doc| - 1, first, last);
    RankStep(Kept(doc, first, last), |doc| - 1);
  }

  lemma AgainTokens(doc: Document, depths: seq<nat>, first: nat, last: nat)
    requires Lexed(doc) && |doc| == |depths|
    ensures Renumbered(Tokens(doc), Tokens(Again(doc, depths, first, last)), Kept(doc, first, last))
  {
    hide Lexed, Again, Kept;
    AgainTokensFrom(doc, depths, first, last, 0, 0, 0);
  }

  lemma {:induction false} AgainIndex(doc: Document, depths: seq<nat>, first: nat, last: nat, i: nat)
    requires Lexed(doc) && i <= |doc| == |depths|
    ensures var r := Rank(Kept(doc, first, last), i);
            r <= |Again(doc, depths, first, last)| && TokenIndex(Again(doc, depths, first, last), r) == TokenIndex(doc, i)
  {
    hide Lexed, Again, Kept, Rank, Fresh, BlankFree;
    AgainLength(doc, depths, first, last);
    if i > 0 {
      AgainIndex(doc, depths, first, last, i - 1);
      RankStep(Kept(doc, first, last), i - 1);
      KeptLast(doc, i - 1, first, last);
      if Kept(doc, first, last)[i - 1] {
        AgainLine(doc, depths, first, last, i - 1);
        FreshCells(doc, depths, i - 1, first, last);
      }
    } else {
      RankNone(Kept(doc, first, last));
    }
  }

  lemma RankNone(keep: seq<bool>)
    ensures Rank(keep, 0) == 0
  {
  }

  /** Its depths are those of the lines that are left. */
  lemma AgainDepths(doc: Document, depths: seq<nat>, first: nat, last: nat)
    requires Lexed(doc) && Depths(Tokens(doc), |doc|) == Some(depths)
    ensures var d := Again(doc, depths, first, last);
            Depths(Tokens(d), |d|) == Some(Filter(Kept(doc, first, last), depths))
  {
    hide Lexed, Again, Kept, Rank, DepthsFrom, Renumbered, Filter;
    var keep, d := Kept(doc, first, last), Again(doc, depths, first, last);
    AgainTokens(doc, depths, first, last);
    AgainLength(doc, depths, first, last);
    RankNone(keep);
    DepthsFiltered(Tokens(doc), Tokens(d), keep, 1, 0, INITIAL);
    assert keep[0..] == keep;
  }

  // ---------------------------------------------------------------------------------
  // The edited text is one the lexer can have made again.

  predicate OneLine(s: string) {
    forall i :: 0 <= i < |s| ==> s[i] != '\n'
  }

  lemma OneLineJoin(a: string, b: string)
    ensures OneLine(a + b) <==> OneLine(a) && OneLine(b)
  {
    assert forall i :: 0 <= i < |a| ==> a[i] == (a + b)[i];
    assert forall i :: 0 <= i < |b| ==> b[i] == (a + b)[|a| + i];
  }

  lemma {:induction false} OneLineCells(cells: seq<Cell>)
    ensures OneLine(CellsText(cells)) <==>
            forall j :: 0 <= j < |cells| ==> OneLine(cells[j].gap) && OneLine(cells[j].text)
  {
    hide OneLine;
    if cells == [] {
      OneLineNone();
    } else {
      OneLineCells(cells[1..]);
      OneLineJoin(cells[0].gap + cells[0].text, CellsText(cells[1..]));
      OneLineJoin(cells[0].gap, cells[0].text);
      assert forall j :: 0 < j < |cells| ==> cells[j] == cells[1..][j - 1];
      assert forall j :: 0 <= j < |cells[1..]| ==> cells[1..][j] == cells[j + 1];
    }
  }

  lemma OneLineNone()
    ensures OneLine("")
  {
  }

  lemma OneLineParts(l: Line)
    ensures OneLine(LineText(l)) <==> OneLine(l.carried) && OneLine(CellsText(l.cells)) && OneLine(l.tail)
  {
    hide OneLine, CellsText;
    OneLineJoin(l.carried + CellsText(l.cells), l.tail);
    OneLineJoin(l.carried, CellsText(l.cells));
  }

  lemma OneLineReindent(s: string, depth: nat)
    requires OneLine(s)
    ensures OneLine(Reindent(s, depth)) && OneLine(Chop(s))
  {
    hide Lead, ChopLength;
  }

  lemma {:induction false} RestOneLine(ts: seq<Token>, k: nat, cells: seq<Cell>, j: nat)
    requires k + |cells| < |ts| && j < |cells| && OneLine(cells[j].gap)
    ensures OneLine(TidyRest(ts, k, cells)[j].gap)
    decreases j
  {
    hide WantedGap;
    if j > 0 {
      RestOneLine(ts, k + 1, cells[1..], j - 1);
    }
  }

  lemma TidyOneLine(ts: seq<Token>, k: nat, l: Line, depth: nat)
    requires LexedLine(l) && k + |l.cells| < |ts|
    ensures OneLine(LineText(TidyLine(ts, k, l, depth)))
  {
    hide Reindent, Chop, TidyCells, Blanks, CellsText, LineText, OneLine;
    var t := TidyLine(ts, k, l, depth);
    assert OneLine(LineText(l)) by {
      LexedOneLine(l);
    }
    if l.inString && l.unclosed {
    } else if Blanks(LineText(l)) {
      OneLineNone();
      BlankText(t);
    } else {
      OneLineParts(l);
      OneLineParts(t);
      OneLineCells(l.cells);
      OneLineCells(t.cells);
      OneLineReindent(l.tail, depth);
      OneLineReindent(Reindent(l.tail, depth), depth);
      forall j | 0 <= j < |l.cells|
        ensures OneLine(t.cells[j].gap) && OneLine(t.cells[j].text)
      {
        TidyCell(ts, k, l, depth, j);
        TidyGap(ts, k, l, depth, j);
      }
    }
  }

  lemma LexedOneLine(l: Line)
    requires LexedLine(l)
    ensures OneLine(LineText(l))
  {
  }

  lemma TidyGap(ts: seq<Token>, k: nat, l: Line, depth: nat, j: nat)
    requires k + |l.cells| < |ts| && j < |l.cells| && OneLine(l.cells[j].gap)
    ensures OneLine(TidyCells(ts, k, l, depth)[j].gap)
  {
    hide OneLine, Reindent, TidyRest;
    if j > 0 {
      RestOneLine(ts, k, l.cells[1..], j - 1);
    } else {
      OneLineReindent(l.cells[0].gap, depth);
    }
  }

  lemma TidyLexed(ts: seq<Token>, k: nat, l: Line, depth: nat)
    requires LexedLine(l) && k + |l.cells| < |ts|
    ensures LexedLine(TidyLine(ts, k, l, depth))
  {
    hide LineText, TidyCells, Blanks, Reindent;
    var t := TidyLine(ts, k, l, depth);
    TidyOneLine(ts, k, l, depth);
    if l.inString && l.unclosed {
    } else if Blanks(LineText(l)) {
      BlankLine(l);
    } else {
      forall j | 0 <= j < |t.cells|
        ensures LexedCell(t.cells[j], t.unclosed && j == |t.cells| - 1)
      {
        TidyCell(ts, k, l, depth, j);
        assert LexedCell(l.cells[j], l.unclosed && j == |l.cells| - 1);
      }
    }
  }

  lemma ResplitLexed(l: Line)
    requires LexedLine(l)
    ensures LexedLine(Resplit(l))
  {
    hide CellsText, LexedCell;
    ResplitText(l);
    var m := Resplit(l);
    if m != l {
      assert LineText(l) == LineText(m) + "\r" by {
        assert l.tail == m.tail + "\r";
      }
      OneLineJoin(LineText(m), "\r");
      assert OneLine(LineText(l));
      assert forall i :: 0 <= i < |LineText(m)| ==> LineText(m)[i] != '\n';
    }
  }

  /** The last character of a line left open is that of the literal. */
  lemma OpenEnd(l: Line)
    requires LexedLine(l) && l.unclosed && l.cells != []
    ensures var s, t := LineText(l), l.cells[|l.cells| - 1].text;
            |t| > 0 && |s| > 0 && s[|s| - 1] == t[|t| - 1]
  {
    assert LexedCell(l.cells[|l.cells| - 1], true);
    CellsEnd(l.cells);
  }

  lemma SplitTwice(ts: seq<Token>, k: nat, l: Line, depth: nat, last: bool)
    requires LexedLine(l) && k + |l.cells| < |ts| && SplitEnding(l, last)
    ensures SplitEnding(Resplit(TidyLine(ts, k, l, depth)), last)
  {
    hide TidyCells, Blanks, Reindent, ChopLength, LexedLine, CellsText, LineText, Plain;
    var t := TidyLine(ts, k, l, depth);
    if l.inString && l.unclosed {
    } else if Blanks(LineText(l)) {
      BlankText(l);
    } else if l.cells == [] && !l.inString {
      LooseFlags(l);
      LooseText(t);
    } else {
      SplitTokenLine(ts, k, l, depth, last);
    }
  }

  lemma SplitTokenLine(ts: seq<Token>, k: nat, l: Line, depth: nat, last: bool)
    requires LexedLine(l) && k + |l.cells| < |ts| && SplitEnding(l, last)
    requires (l.cells != [] || l.inString) && !(l.inString && l.unclosed) && !Blanks(LineText(l))
    ensures SplitEnding(Resplit(TidyLine(ts, k, l, depth)), last)
  {
    hide TidyCells, Blanks, Reindent, Chop, LexedLine, CellsText, LineText, Plain, Front, Rest;
    var t := TidyLine(ts, k, l, depth);
    if l.unclosed {
      OpenLine(l);
      TidyLexed(ts, k, l, depth);
      OpenEnd(l);
      OpenEnd(t);
      TidyCell(ts, k, l, depth, |l.cells| - 1);
    } else {
      TidyBody(ts, k, l, depth, t);
      var b := Front(t) + CellsText(Rest(t));
      PlainEnd(b);
      LineParts(t);
      EndsIn(b, t.tail);
    }
  }

  lemma OpenLine(l: Line)
    requires LexedLine(l) && l.unclosed && !l.inString
    ensures l.cells != []
  {
  }

  lemma EndsIn(b: string, tail: string)
    ensures EndsInReturn(b + tail) <==> if tail == "" then EndsInReturn(b) else EndsInReturn(tail)
  {
  }

  lemma LooseFlags(l: Line)
    requires LexedLine(l) && l.cells == [] && !l.inString
    ensures l.carried == "" && !l.unclosed
  {
  }

  lemma PlainEnd(s: string)
    requires |s| > 0 && Plain(s[|s| - 1])
    ensures !EndsInReturn(s)
  {
  }

  lemma FreshFlags(doc: Document, depths: seq<nat>, first: nat, last: nat, i: nat)
    requires Lexed(doc) && i < |doc| == |depths|
    ensures var m := Fresh(doc, depths, first, last)[i]; m.inString == doc[i].inString && m.unclosed == doc[i].unclosed
    ensures LexedLine(Fresh(doc, depths, first, last)[i]) && SplitEnding(Fresh(doc, depths, first, last)[i], i + 1 == |doc|)
  {
    hide Lexed, Fresh, Tokens, TokenIndex, TidyCells, Chop, Reindent, LexedLine, SplitEnding, LineText;
    FreshLine(doc, depths, i, first, last);
    LexedAt(doc, i);
    var ts, k := Tokens(doc), TokenIndex(doc, i);
    TidyLexed(ts, k, doc[i], depths[i]);
    ResplitLexed(TidyLine(ts, k, doc[i], depths[i]));
    SplitTwice(ts, k, doc[i], depths[i], i + 1 == |doc|);
  }

  lemma {:induction false} FlagBefore(doc: Document, depths: seq<nat>, first: nat, last: nat, i: nat)
    requires Lexed(doc) && 0 < i < |doc| == |depths|
    ensures var d, r := Again(doc, depths, first, last), Rank(Kept(doc, first, last), i);
            0 < r <= |d| && d[r - 1].unclosed == doc[i].inString
  {
    hide Lexed, Again, Kept, Rank, Fresh, LexedLine;
    var keep := Kept(doc, first, last);
    RankStep(keep, i - 1);
    LexedLineAt(doc, i);
    if keep[i - 1] {
      AgainLine(doc, depths, first, last, i - 1);
      FreshFlags(doc, depths, first, last, i - 1);
    } else {
      DroppedSurplus(doc, i - 1, first, last);
      SurplusBlank(doc, i - 1);
      FlagBefore(doc, depths, first, last, i - 1);
    }
  }

  lemma AgainLexedLine(doc: Document, depths: seq<nat>, first: nat, last: nat, r: nat)
    requires Lexed(doc) && |doc| == |depths| && r < |Again(doc, depths, first, last)|
    ensures var d := Again(doc, depths, first, last);
            && LexedLine(d[r]) && SplitEnding(d[r], r == |d| - 1)
            && (if r == 0 then !d[0].inString else d[r].inString == d[r - 1].unclosed)
            && (r == |d| - 1 ==> !d[r].unclosed)
  {
    hide Lexed, Again, Kept, Rank, Fresh, LexedLine, SplitEnding;
    var keep, d := Kept(doc, first, last), Again(doc, depths, first, last);
    AgainLength(doc, depths, first, last);
    RankNone(keep);
    var i := Unrank(keep, |keep|, r);
    AgainLine(doc, depths, first, last, i);
    FreshFlags(doc, depths, first, last, i);
    LastRank(doc, first, last, i);
    if i > 0 {
      FlagBefore(doc, depths, first, last, i);
    } else {
      FirstNotInside(doc);
    }
    LastLine(doc);
  }

  lemma ResplitPattern(l: Line, inside: bool)
    requires LexedPattern(l, inside)
    ensures LexedPattern(Resplit(l), inside) && LeavesPattern(Resplit(l), inside) == LeavesPattern(l, inside)
  {
    hide ScanPattern, LexedRegex;
    var m := Resplit(l);
    if m != l && l.cells == [] && inside {
      var r := ScanPattern(l.tail, 0);
      if r.Closed? {
        ScanPrefix(l.tail, 0, |l.tail| - 1);
      }
    }
  }

  lemma FreshPattern(doc: Document, depths: seq<nat>, first: nat, last: nat, i: nat)
    requires Lexed(doc) && i < |doc| == |depths|
    ensures var m, inside := Fresh(doc, depths, first, last)[i], InPattern(doc, i);
            LexedPattern(m, inside) && LeavesPattern(m, inside) == LeavesPattern(doc[i], inside)
  {
    hide Lexed, Fresh, Tokens, TokenIndex, TidyLine, LexedLine, LexedPattern, LeavesPattern, InPattern, Resplit, LineText;
    FreshLine(doc, depths, i, first, last);
    LexedPatternAt(doc, i);
    var ts, k, inside := Tokens(doc), TokenIndex(doc, i), InPattern(doc, i);
    BlankHasNone(doc[i]);
    TidyPattern(ts, k, doc[i], depths[i], inside);
    ResplitPattern(TidyLine(ts, k, doc[i], depths[i]), inside);
  }

  /** A line that is left starts inside a regex literal exactly when it did. */
  lemma {:induction false} AgainInPattern(doc: Document, depths: seq<nat>, first: nat, last: nat, i: nat)
    requires Lexed(doc) && i <= |doc| == |depths|
    ensures var d, r := Again(doc, depths, first, last), Rank(Kept(doc, first, last), i);
            r <= |d| && InPattern(d, r) == InPattern(doc, i)
  {
    hide Lexed, Again, Kept, Rank, Fresh, LeavesPattern, LexedPattern;
    var keep, d := Kept(doc, first, last), Again(doc, depths, first, last);
    AgainLength(doc, depths, first, last);
    if i == 0 {
      RankNone(keep);
    } else {
      RankStep(keep, i - 1);
      AgainInPattern(doc, depths, first, last, i - 1);
      InPatternStep(doc, i - 1);
      if keep[i - 1] {
        AgainLine(doc, depths, first, last, i - 1);
        FreshPattern(doc, depths, first, last, i - 1);
      } else {
        KeptLast(doc, i - 1, first, last);
        BlankOutside(doc, i - 1);
        NotLeaving(doc[i - 1]);
      }
    }
  }

  lemma NotLeaving(l: Line)
    requires l.cells == []
    ensures !LeavesPattern(l, false)
  {
  }

  lemma AgainPatterns(doc: Document, depths: seq<nat>, first: nat, last: nat)
    requires Lexed(doc) && |doc| == |depths|
    ensures LexedPatterns(Again(doc, depths, first, last))
  {
    hide Lexed, Again, Kept, Rank, Fresh, LexedPattern, InPattern;
    var keep, d := Kept(doc, first, last), Again(doc, depths, first, last);
    AgainLength(doc, depths, first, last);
    AgainInPattern(doc, depths, first, last, |doc|);
    NoneLeftOpen(doc);
    forall r: nat | r < |d|
      ensures LexedPattern(d[r], InPattern(d, r))
    {
      var i := Unrank(keep, |keep|, r);
      AgainLine(doc, depths, first, last, i);
      AgainInPattern(doc, depths, first, last, i);
      FreshPattern(doc, depths, first, last, i);
    }
  }

  lemma NoneLeftOpen(doc: Document)
    requires Lexed(doc)
    ensures !InPattern(doc, |doc|)
  {
  }

  lemma AgainLexed(doc: Document, depths: seq<nat>, first: nat, last: nat)
    requires Lexed(doc) && |doc| == |depths|
    ensures Lexed(Again(doc, depths, first, last))
  {
    hide Again, Kept, Rank, Fresh, LexedLine, SplitEnding, LexedPatterns;
    AgainPatterns(doc, depths, first, last);
    var d := Again(doc, depths, first, last);
    AgainLength(doc, depths, first, last);
    KeptLast(doc, |doc| - 1, first, last);
    RankLess(Kept(doc, first, last), |doc| - 1, |doc|);
    AgainLexedLine(doc, depths, first, last, 0);
    AgainLexedLine(doc, depths, first, last, |d| - 1);
    forall r | 0 <= r < |d|
      ensures LexedLine(d[r]) && SplitEnding(d[r], r == |d| - 1)
    {
      AgainLexedLine(doc, depths, first, last, r);
    }
    forall r | 0 < r < |d|
      ensures d[r].inString == d[r - 1].unclosed
    {
      AgainLexedLine(doc, depths, first, last, r);
    }
  }

  lemma LastLine(doc: Document)
    requires Lexed(doc)
    ensures !doc[|doc| - 1].unclosed
  {
  }
}
