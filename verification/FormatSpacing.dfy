/** What the lines of a formatted document look like: gaps between tokens, indentation and ends,
    told by the tokens of the line and those before it. */
module FormatSpacing {
  import opened Layout
  import opened Depth
  import opened Spacing
  import opened Format
  import opened FormatLine
  import opened FormatText
  import opened FormatApply
  import opened FormatMeaning
  import opened FormatTwice
  import opened FormatAgain

  // ---------------------------------------------------------------------------------
  // The rules.

  /** The sixteen operators that stand between blanks. */
  const OPERATORS: set<Kind> :=
    {Equal, EqualEqual, FatArrow, BangEqual, LessEqual, GreaterEqual, Spaceship, AndAnd, OrOr,
     PlusEqual, MinusEqual, StarEqual, SlashEqual, PercentEqual, OrOrEqual, AndAndEqual}

  const CLOSERS: set<Kind> := {RightParen, RightBracket, RightBrace}

  /** What the name of a method is made of, with `def` before it. */
  const NAME_PARTS: set<Kind> := {Identifier, Self, Dot, LeftBracket, RightBracket, DoubleColon}

  /** The token before cell `j` of line `i`, be it on an earlier line, is of this kind. */
  ghost predicate Precedes(doc: Document, i: nat, j: nat, kind: Kind)
    requires i < |doc| && j < |doc[i].cells|
  {
    if j > 0 then doc[i].cells[j - 1].kind == kind
    else exists h: nat :: h < i && LastOf(doc, h, i) && doc[h].cells[|doc[h].cells| - 1].kind == kind
  }

  /** Line `h` is the last line before line `i` that has a token. */
  ghost predicate LastOf(doc: Document, h: nat, i: nat)
    requires h < i <= |doc|
  {
    doc[h].cells != [] && forall g: nat :: h < g < i ==> doc[g].cells == []
  }

  /** Cell `j` stands for the name of a method: it comes after `def`, `.` or `::`, or it is the `=` of
      a setter, with a `def` before it on the line and only parts of a name between. */
  ghost predicate NamesMethod(doc: Document, i: nat, j: nat)
    requires i < |doc| && j < |doc[i].cells|
  {
    || Precedes(doc, i, j, Def) || Precedes(doc, i, j, Dot) || Precedes(doc, i, j, DoubleColon)
    || (doc[i].cells[j].kind == Equal && SetterName(doc[i].cells, j))
  }

  ghost predicate SetterName(cells: seq<Cell>, j: nat)
    requires j <= |cells|
  {
    exists d: nat :: d < j && cells[d].kind == Def && forall e: nat :: d < e < j ==> cells[e].kind in NAME_PARTS
  }

  /** Cell `j` is an operator that takes a blank on each side. */
  ghost predicate StandsApart(doc: Document, i: nat, j: nat)
    requires i < |doc| && j < |doc[i].cells|
  {
    doc[i].cells[j].kind in OPERATORS && !NamesMethod(doc, i, j)
  }

  /** The gap between cells `j` and `j + 1` of line `i`, which was `gap`, is now `made`. A gap that is
      not blank stays. There is none before a comma. After a comma, unless a closing bracket follows,
      and on both sides of an operator there is a blank. All other gaps stay. */
  ghost predicate Spaced(doc: Document, i: nat, j: nat, gap: string, made: string)
    requires i < |doc| && j + 1 < |doc[i].cells|
  {
    var left, right := doc[i].cells[j].kind, doc[i].cells[j + 1].kind;
    if !Blanks(gap) then made == gap
    else if right == Comma then made == ""
    else if (left == Comma && right !in CLOSERS) || StandsApart(doc, i, j) || StandsApart(doc, i, j + 1) then
      if gap == "" then made == " " else made == gap
    else made == gap
  }

  // ---------------------------------------------------------------------------------
  // What is wanted of a gap.

  lemma {:induction false} LastLineWith(doc: Document, i: nat) returns (h: nat)
    requires i <= |doc| && TokenIndex(doc, i) > 0
    ensures h < i && LastOf(doc, h, i) && TokenIndex(doc, h) + |doc[h].cells| == TokenIndex(doc, i)
  {
    if doc[i - 1].cells != [] {
      h := i - 1;
    } else {
      h := LastLineWith(doc, i - 1);
    }
  }

  lemma {:induction false} NoneBefore(doc: Document, h: nat, i: nat)
    requires h < i <= |doc| && TokenIndex(doc, i) == 0
    ensures doc[h].cells == []
  {
    if h < i - 1 {
      NoneBefore(doc, h, i - 1);
    }
  }

  /** The token before a cell, among all tokens. */
  lemma PrecedesMeans(doc: Document, i: nat, j: nat, kind: Kind)
    requires i < |doc| && j < |doc[i].cells|
    ensures TokenIndex(doc, i) + j < |Tokens(doc)|
    ensures Precedes(doc, i, j, kind) <==>
            TokenIndex(doc, i) + j > 0 && Tokens(doc)[TokenIndex(doc, i) + j - 1].kind == kind
  {
    hide Tokens, TokenIndex, Offset, CellTokens, Past, LastOf;
    TokenAt(doc, i, j);
    if j > 0 {
      TokenAt(doc, i, j - 1);
    } else if TokenIndex(doc, i) > 0 {
      PrecedesFirst(doc, i, kind);
    } else {
      forall h: nat | h < i
        ensures !LastOf(doc, h, i)
      {
        NoneBefore(doc, h, i);
        LastHas(doc, h, i);
      }
    }
  }

  /** The first cell of a line comes after the last one of an earlier line. */
  lemma PrecedesFirst(doc: Document, i: nat, kind: Kind)
    requires i < |doc| && doc[i].cells != [] && 0 < TokenIndex(doc, i) < |Tokens(doc)|
    ensures Precedes(doc, i, 0, kind) <==> Tokens(doc)[TokenIndex(doc, i) - 1].kind == kind
  {
    hide Tokens, TokenIndex, Offset, CellTokens, Past, LastOf;
    var h := LastLineWith(doc, i);
    TokenAt(doc, h, |doc[h].cells| - 1);
    forall g: nat | g < i && LastOf(doc, g, i)
      ensures g == h
    {
      OneLast(doc, g, h, i);
    }
  }

  lemma OneLast(doc: Document, g: nat, h: nat, i: nat)
    requires g < i <= |doc| && h < i && LastOf(doc, g, i) && LastOf(doc, h, i)
    ensures g == h
  {
  }

  lemma LastHas(doc: Document, h: nat, i: nat)
    requires h < i <= |doc|
    ensures LastOf(doc, h, i) ==> doc[h].cells != []
  {
  }

  lemma {:induction false} SetterMeans(doc: Document, i: nat, j: nat)
    requires Lexed(doc) && i < |doc| && j <= |doc[i].cells|
    ensures TokenIndex(doc, i) + j < |Tokens(doc)|
    ensures DefBefore(Tokens(doc), TokenIndex(doc, i) + j, i + 1) <==> SetterName(doc[i].cells, j)
    decreases j
  {
    hide Tokens, TokenIndex, Offset, CellTokens, Past, Lexed, SetterName;
    IndexBound(doc, i);
    var ts, k := Tokens(doc), TokenIndex(doc, i) + j;
    SetterStep(doc[i].cells, j);
    if j > 0 {
      TokenAt(doc, i, j - 1);
      SetterMeans(doc, i, j - 1);
    } else if k > 0 {
      var h := LastLineWith(doc, i);
      TokenAt(doc, h, |doc[h].cells| - 1);
    }
  }

  lemma SetterStep(cells: seq<Cell>, j: nat)
    requires j <= |cells|
    ensures SetterName(cells, j) <==>
            j > 0 && (cells[j - 1].kind == Def || (cells[j - 1].kind in NAME_PARTS && SetterName(cells, j - 1)))
  {
    if j > 0 {
      if cells[j - 1].kind in NAME_PARTS && SetterName(cells, j - 1) {
        var d: nat :| d < j - 1 && cells[d].kind == Def && forall e: nat :: d < e < j - 1 ==> cells[e].kind in NAME_PARTS;
        assert forall e: nat :: d < e < j ==> cells[e].kind in NAME_PARTS;
      }
    }
  }

  lemma NameMeans(doc: Document, i: nat, j: nat)
    requires Lexed(doc) && i < |doc| && j < |doc[i].cells|
    ensures TokenIndex(doc, i) + j < |Tokens(doc)|
    ensures OperatorIsMethodName(Tokens(doc), TokenIndex(doc, i) + j) <==> NamesMethod(doc, i, j)
  {
    hide Tokens, TokenIndex, Offset, CellTokens, Past, Lexed, SetterName, DefBefore, Precedes;
    TokenAt(doc, i, j);
    SetterMeans(doc, i, j);
    PrecedesMeans(doc, i, j, Def);
    PrecedesMeans(doc, i, j, Dot);
    PrecedesMeans(doc, i, j, DoubleColon);
    if TokenIndex(doc, i) + j == 0 {
      SetterStep(doc[i].cells, j);
    }
  }

  lemma ApartMeans(doc: Document, i: nat, j: nat)
    requires Lexed(doc) && i < |doc| && j < |doc[i].cells|
    ensures TokenIndex(doc, i) + j < |Tokens(doc)|
    ensures var ts, k := Tokens(doc), TokenIndex(doc, i) + j;
            IsSpacedOperator(ts[k].kind) && !OperatorIsMethodName(ts, k) <==> StandsApart(doc, i, j)
  {
    hide Tokens, TokenIndex, Offset, CellTokens, Past, Lexed, OperatorIsMethodName, NamesMethod;
    TokenAt(doc, i, j);
    NameMeans(doc, i, j);
  }

  /** The gap the formatter makes is the one the rules ask for. */
  lemma GapMeans(doc: Document, i: nat, j: nat, gap: string)
    requires Lexed(doc) && i < |doc| && j + 1 < |doc[i].cells|
    ensures TokenIndex(doc, i) + j + 1 < |Tokens(doc)|
    ensures Spaced(doc, i, j, gap, NewGap(WantedGap(Tokens(doc), TokenIndex(doc, i) + j), gap))
  {
    hide Tokens, TokenIndex, Offset, CellTokens, Past, Lexed, OperatorIsMethodName, StandsApart, Blanks;
    TokenAt(doc, i, j);
    TokenAt(doc, i, j + 1);
    ApartMeans(doc, i, j);
    ApartMeans(doc, i, j + 1);
    assert Blanks("") by { NoBlanks(); }
  }

  // ---------------------------------------------------------------------------------
  // The formatted document, line by line.

  function NewLines(doc: Document, depths: seq<nat>, first: nat, last: nat): (r: Document)
    requires |doc| == |depths|
    ensures |r| == |doc|
  {
    seq(|doc|, i requires 0 <= i < |doc| => NewLine(doc, depths, i, first, last))
  }

  lemma {:induction false} FormattedFrom(doc: Document, depths: seq<nat>, i: nat, first: nat, last: nat)
    requires i <= |doc| == |depths|
    ensures Formatted(doc, depths, i, first, last) ==
            Filter(Kept(doc, first, last)[i..], NewLines(doc, depths, first, last)[i..])
    decreases |doc| - i
  {
    hide Keeps, NewLine;
    if i < |doc| {
      FormattedFrom(doc, depths, i + 1, first, last);
      var keep, lines := Kept(doc, first, last), NewLines(doc, depths, first, last);
      assert keep[i..][1..] == keep[i + 1..] && lines[i..][1..] == lines[i + 1..];
    }
  }

  /** Where a line that is kept comes to be. */
  lemma FormattedAt(doc: Document, depths: seq<nat>, i: nat, first: nat, last: nat)
    requires i < |doc| == |depths| && Kept(doc, first, last)[i]
    ensures var f, r := Formatted(doc, depths, 0, first, last), Rank(Kept(doc, first, last), i);
            r < |f| && f[r] == NewLine(doc, depths, i, first, last)
  {
    hide Formatted, NewLine, Kept, Filter, Rank;
    var keep, lines := Kept(doc, first, last), NewLines(doc, depths, first, last);
    FormattedFrom(doc, depths, 0, first, last);
    assert keep[0..] == keep && lines[0..] == lines;
    FilterAt(keep, lines, i);
  }

  lemma {:induction false} TidyRestAt(ts: seq<Token>, k: nat, cells: seq<Cell>, j: nat)
    requires k + |cells| < |ts| && j < |cells|
    ensures TidyRest(ts, k, cells)[j] == cells[j].(gap := NewGap(WantedGap(ts, k + j), cells[j].gap))
    decreases j
  {
    hide WantedGap, NewGap;
    if j > 0 {
      TidyRestAt(ts, k + 1, cells[1..], j - 1);
    }
  }

  /** Line `i` is in range and gets edits of its own. */
  predicate Edited(doc: Document, i: nat, first: nat, last: nat) {
    i < |doc| && InRange(i, first, last) && !Surplus(doc, i)
  }

  lemma EditedKept(doc: Document, depths: seq<nat>, i: nat, first: nat, last: nat)
    requires Edited(doc, i, first, last) && |doc| == |depths|
    ensures Kept(doc, first, last)[i] && TokenIndex(doc, i) + |doc[i].cells| < |Tokens(doc)|
    ensures NewLine(doc, depths, i, first, last) == TidyLine(Tokens(doc), TokenIndex(doc, i), doc[i], depths[i])
  {
    hide Surplus, TidyLine;
    IndexBound(doc, i);
  }

  /** In the document that formatting makes, every gap between two tokens of a line in range is as the
      rules say, and the tokens are what they were. */
  lemma GapsSpaced(doc: Document, depths: seq<nat>, first: nat, last: nat, i: nat, j: nat)
    requires Lexed(doc) && |doc| == |depths| && Edited(doc, i, first, last) && j + 1 < |doc[i].cells|
    requires !(doc[i].inString && doc[i].unclosed)
    ensures var f, r := Formatted(doc, depths, 0, first, last), Rank(Kept(doc, first, last), i);
            && r < |f| && |f[r].cells| == |doc[i].cells|
            && f[r].cells[j].kind == doc[i].cells[j].kind && f[r].cells[j].text == doc[i].cells[j].text
            && f[r].cells[j + 1].kind == doc[i].cells[j + 1].kind && f[r].cells[j + 1].text == doc[i].cells[j + 1].text
            && Spaced(doc, i, j, doc[i].cells[j + 1].gap, f[r].cells[j + 1].gap)
  {
    hide Formatted, NewLine, Kept, Rank, Tokens, TokenIndex, Lexed, WantedGap, NewGap, TidyRest, Spaced, Blanks, Chop,
         Reindent, LineText, LexedLine;
    EditedKept(doc, depths, i, first, last);
    FormattedAt(doc, depths, i, first, last);
    LexedLineAt(doc, i);
    var ts, k, l := Tokens(doc), TokenIndex(doc, i), doc[i];
    TidyCell(ts, k, l, depths[i], j);
    TidyCell(ts, k, l, depths[i], j + 1);
    TidyRestAt(ts, k, l.cells[1..], j);
    GapMeans(doc, i, j, l.cells[j + 1].gap);
    BlankHasNone(l);
  }

  // ---------------------------------------------------------------------------------
  // Indentation and ends of lines.

  /** The text starts with `n` spaces and then something visible. */
  ghost predicate StartsAt(s: string, n: nat) {
    n < |s| && (forall i :: 0 <= i < n ==> s[i] == ' ') && s[n] != ' ' && s[n] != '\t'
  }

  ghost predicate EndsVisibly(s: string) {
    |s| > 0 && s[|s| - 1] != ' ' && s[|s| - 1] != '\t'
  }

  lemma IndentedMeans(s: string, depth: nat, line: nat)
    requires LeadEdit(s, depth, line) == [] && !Blanks(s)
    ensures StartsAt(s, 2 * depth)
  {
    LeadBlanks(s);
    assert s[..Lead(s)] == Spaces(2 * depth);
    forall i | 0 <= i < 2 * depth
      ensures s[i] == ' '
    {
      assert s[i] == s[..Lead(s)][i];
    }
  }

  /** A line in range that is blank is empty then; any other starts with two spaces for each level it
      is deep, unless it starts inside a string literal, and ends in something visible, unless it ends
      inside one. */
  lemma LinesTidy(doc: Document, depths: seq<nat>, first: nat, last: nat, i: nat)
    requires Lexed(doc) && |doc| == |depths| && Edited(doc, i, first, last)
    requires !(doc[i].inString && doc[i].unclosed)
    ensures var f, r := Formatted(doc, depths, 0, first, last), Rank(Kept(doc, first, last), i);
            && r < |f|
            && if Blanks(LineText(doc[i])) then LineText(f[r]) == ""
               else (doc[i].inString || StartsAt(LineText(f[r]), 2 * depths[i])) &&
                    (doc[i].unclosed || EndsVisibly(LineText(f[r])))
  {
    hide Formatted, NewLine, Kept, Rank, Tokens, TokenIndex, Lexed, TidyLine, Blanks, LineText, StartsAt,
         EndsVisibly, LexedLine;
    EditedKept(doc, depths, i, first, last);
    FormattedAt(doc, depths, i, first, last);
    LexedLineAt(doc, i);
    TidyEnds(Tokens(doc), TokenIndex(doc, i), doc[i], depths[i]);
  }

  lemma TidyEnds(ts: seq<Token>, k: nat, l: Line, depth: nat)
    requires LexedLine(l) && k + |l.cells| < |ts| && !(l.inString && l.unclosed)
    ensures var s := LineText(TidyLine(ts, k, l, depth));
            if Blanks(LineText(l)) then s == ""
            else (l.inString || StartsAt(s, 2 * depth)) && (l.unclosed || EndsVisibly(s))
  {
    hide LineText, TidyCells, Reindent, Chop, Blanks, StartsAt, EndsVisibly, LexedLine, LeadEdit;
    if Blanks(LineText(l)) {
      BlankText(l);
    } else if l.cells == [] && !l.inString {
      LooseEnds(ts, k, l, depth);
    } else {
      TokenEnds(ts, k, l, depth);
    }
  }

  lemma LooseEnds(ts: seq<Token>, k: nat, l: Line, depth: nat)
    requires LexedLine(l) && k + |l.cells| < |ts| && l.cells == [] && !l.inString && !Blanks(LineText(l))
    ensures var s := LineText(TidyLine(ts, k, l, depth)); StartsAt(s, 2 * depth) && EndsVisibly(s)
  {
    hide LineText, Reindent, Chop, Blanks, StartsAt, LexedLine, LeadEdit, Blank;
    LooseFlags(l);
    LooseText(l);
    var t := TidyLine(ts, k, l, depth);
    LooseText(t);
    ReindentChop(l.tail, depth);
    ReindentQuiet(Chop(l.tail), depth, 0);
    ReindentLast(Chop(l.tail), depth);
    IndentedMeans(Reindent(Chop(l.tail), depth), depth, 0);
    NotBlank(Chop(l.tail)[|Chop(l.tail)| - 1]);
  }

  lemma NotBlank(c: char)
    requires !Blank(c)
    ensures c != ' ' && c != '\t'
  {
  }

  lemma TokenEnds(ts: seq<Token>, k: nat, l: Line, depth: nat)
    requires LexedLine(l) && k + |l.cells| < |ts| && (l.cells != [] || l.inString) && !(l.inString && l.unclosed)
    requires !Blanks(LineText(l))
    ensures var s := LineText(TidyLine(ts, k, l, depth));
            (l.inString || StartsAt(s, 2 * depth)) && (l.unclosed || EndsVisibly(s))
  {
    hide LineText, TidyCells, Reindent, ChopLength, Blanks, StartsAt, LexedLine, LeadEdit, CellsText, WantedGap, Plain;
    var t := TidyLine(ts, k, l, depth);
    TidyFrontQuiet(ts, ts, k, l, depth, 0, t);
    TidiedVisible(ts, k, l, depth, t);
    if !l.inString {
      IndentedMeans(LineText(t), depth, 0);
    }
    if !l.unclosed {
      TidyBody(ts, k, l, depth, t);
      LineParts(t);
      ChopLast(l.tail);
      VisibleEnd(Front(t) + CellsText(Rest(t)), t.tail);
    }
  }

  lemma VisibleEnd(b: string, tail: string)
    requires |b| > 0 && Plain(b[|b| - 1]) && (tail == "" || !Blank(tail[|tail| - 1]))
    ensures EndsVisibly(b + tail)
  {
  }

  // ---------------------------------------------------------------------------------
  // Blank lines.

  /** Line `i` has only spaces and tabs, outside string literals, and is not what stands after a final
      newline. */
  ghost predicate EmptyLine(doc: Document, i: nat) {
    && i < |doc| && !doc[i].inString && !doc[i].unclosed
    && (forall k :: 0 <= k < |LineText(doc[i])| ==> LineText(doc[i])[k] in {' ', '\t'})
    && (i + 1 == |doc| ==> LineText(doc[i]) + doc[i].ending != "")
  }

  /** The lines from `a` to `i` are empty, and the one before `a` is not. */
  ghost predicate EmptyRun(doc: Document, a: nat, i: nat) {
    a <= i && (forall k: nat :: a <= k <= i ==> EmptyLine(doc, k)) && (a > 0 ==> !EmptyLine(doc, a - 1))
  }

  lemma SurplusMeans(doc: Document, i: nat)
    ensures Surplus(doc, i) <==> i > 0 && EmptyLine(doc, i) && EmptyLine(doc, i - 1)
  {
    if 0 < i < |doc| {
      FreeMeans(doc, i);
      FreeMeans(doc, i - 1);
    }
  }

  lemma FreeMeans(doc: Document, i: nat)
    requires i < |doc|
    ensures EmptyLine(doc, i) <==> BlankFree(doc[i]) && Counted(doc, i)
  {
    var s := LineText(doc[i]);
    forall k | 0 <= k < |s|
      ensures Blank(s[k]) <==> s[k] in {' ', '\t'}
    {
    }
  }

  /** Of a run of empty lines the first stays. The others go exactly when the second is in range. */
  lemma {:induction false} DoomedMeans(doc: Document, i: nat, first: nat, last: nat)
    ensures Doomed(doc, i, first, last) <==>
            exists a: nat :: a < i && EmptyRun(doc, a, i) && first <= a + 2 <= last
  {
    hide Surplus, EmptyLine;
    SurplusMeans(doc, i);
    if Surplus(doc, i) {
      SurplusMeans(doc, i - 1);
      if Surplus(doc, i - 1) {
        var h := i - 1;
        DoomedMeans(doc, h, first, last);
        if a: nat :| a < i && EmptyRun(doc, a, i) && first <= a + 2 <= last {
          RunShrinks(doc, a, i);
        }
        if a: nat :| a < h && EmptyRun(doc, a, h) && first <= a + 2 <= last {
          RunShrinks(doc, a, i);
        }
      } else {
        forall a: nat | a < i
          ensures EmptyRun(doc, a, i) <==> a == i - 1
        {
          RunOfTwo(doc, a, i);
        }
        assert EmptyRun(doc, i - 1, i);
      }
    } else {
      forall a: nat | a < i
        ensures !EmptyRun(doc, a, i)
      {
        RunEnds(doc, a, i);
      }
    }
  }

  lemma RunShrinks(doc: Document, a: nat, i: nat)
    requires a < i && i > 1 && EmptyLine(doc, i) && EmptyLine(doc, i - 1) && EmptyLine(doc, i - 2)
    ensures EmptyRun(doc, a, i) <==> a < i - 1 && EmptyRun(doc, a, i - 1)
  {
    hide EmptyLine;
  }

  lemma RunOfTwo(doc: Document, a: nat, i: nat)
    requires a < i && EmptyLine(doc, i) && EmptyLine(doc, i - 1) && (i > 1 ==> !EmptyLine(doc, i - 2))
    ensures EmptyRun(doc, a, i) <==> a == i - 1
  {
    hide EmptyLine;
    if a + 1 < i {
      RunBefore(doc, a, i);
    }
  }

  lemma RunBefore(doc: Document, a: nat, i: nat)
    requires a + 1 < i
    ensures EmptyRun(doc, a, i) ==> EmptyLine(doc, i - 2)
  {
    hide EmptyLine;
  }

  lemma RunEnds(doc: Document, a: nat, i: nat)
    requires a < i
    ensures EmptyRun(doc, a, i) ==> EmptyLine(doc, i) && EmptyLine(doc, i - 1)
  {
    hide EmptyLine;
  }

  /** A line out of range that is not removed stays as it is. */
  lemma OthersStay(doc: Document, depths: seq<nat>, first: nat, last: nat, i: nat)
    requires i < |doc| == |depths| && !(first <= i + 1 <= last)
    requires forall a: nat :: a < i && EmptyRun(doc, a, i) ==> !(first <= a + 2 <= last)
    ensures var f, r := Formatted(doc, depths, 0, first, last), Rank(Kept(doc, first, last), i); r < |f| && f[r] == doc[i]
  {
    hide Formatted, Rank, EmptyRun, Doomed, Surplus, TidyLine;
    DoomedMeans(doc, i, first, last);
    FormattedAt(doc, depths, i, first, last);
  }
}
