/** Where the lines and the literals of a document are in its text. */
module FormatText {
  import opened Layout
  import opened Depth
  import opened Spacing
  import opened Nesting

  lemma {:induction false} OffsetOrder(doc: Document, i: nat, j: nat)
    requires i <= j <= |doc|
    ensures Offset(doc, i) <= Offset(doc, j)
    ensures i < j ==> Offset(doc, i) + |LineText(doc[i])| + |doc[i].ending| <= Offset(doc, j)
  {
    hide LineText;
    if i < j {
      OffsetOrder(doc, i, j - 1);
    }
  }

  /** The text of a line, and what follows it. */
  lemma LineAt(doc: Document, i: nat)
    requires i < |doc|
    ensures var s, o := Render(doc), Offset(doc, i);
            && o + |LineText(doc[i])| + |doc[i].ending| <= |s|
            && s[o..o + |LineText(doc[i])|] == LineText(doc[i])
            && s[o + |LineText(doc[i])|..o + |LineText(doc[i])| + |doc[i].ending|] == doc[i].ending
            && (i + 1 == |doc| ==> o + |LineText(doc[i])| + |doc[i].ending| == |s|)
  {
    hide LineText, Offset, Render;
    var l := doc[i];
    OffsetRender(doc, i);
    RenderFirst(doc, i);
    Slices(Render(doc), Offset(doc, i), LineText(l), l.ending, Render(doc[i + 1..]));
  }

  lemma RenderFirst(doc: Document, i: nat)
    requires i < |doc|
    ensures Render(doc[i..]) == LineText(doc[i]) + doc[i].ending + Render(doc[i + 1..])
    ensures i + 1 == |doc| ==> Render(doc[i + 1..]) == ""
  {
    hide LineText;
    assert doc[i..][1..] == doc[i + 1..];
  }

  lemma Slices(s: string, o: nat, a: string, b: string, c: string)
    requires o <= |s| && s[o..] == a + b + c
    ensures o + |a| + |b| <= |s| && s[o..o + |a|] == a && s[o + |a|..o + |a| + |b|] == b
    ensures c == "" ==> o + |a| + |b| == |s|
  {
    assert s[o..o + |a|] == s[o..][..|a|];
    assert s[o + |a|..o + |a| + |b|] == s[o..][|a|..|a| + |b|];
  }

  // ---------------------------------------------------------------------------------
  // Literals.

  /** The line on which a literal left open on line `i` ends. */
  function CloseLine(doc: Document, i: nat): (m: nat)
    requires Lexed(doc) && i < |doc| && doc[i].unclosed
    ensures i < m < |doc|
    decreases |doc| - i
  {
    if doc[i + 1].unclosed && doc[i + 1].cells == [] then CloseLine(doc, i + 1) else i + 1
  }

  /** Up to there, every line is inside it. */
  lemma {:induction false} CloseSpan(doc: Document, i: nat, k: nat)
    requires Lexed(doc) && i < |doc| && doc[i].unclosed && i <= k <= CloseLine(doc, i)
    ensures i < k ==> doc[k].inString
    ensures k < CloseLine(doc, i) ==> doc[k].unclosed
    decreases |doc| - i
  {
    hide LexedLine, SplitEnding;
    if i < k {
      if doc[i + 1].unclosed && doc[i + 1].cells == [] {
        CloseSpan(doc, i + 1, k);
      }
    }
  }

  lemma {:induction false} CloseOffset(doc: Document, i: nat)
    requires Lexed(doc) && i < |doc| && doc[i].unclosed
    ensures var m := CloseLine(doc, i);
            && Offset(doc, i) + |LineText(doc[i])| + Overhang(doc, i) == Offset(doc, m) + |doc[m].carried|
            && |doc[m].carried| > 0
    decreases |doc| - i
  {
    hide CellsText, SplitEnding;
    LexedLineAt(doc, i + 1);
    var l := doc[i + 1];
    if l.unclosed && l.cells == [] {
      CloseOffset(doc, i + 1);
      assert LineText(l) == l.carried by {
        Carried(l);
      }
    } else if l.cells == [] {
      assert Overhang(doc, i + 1) == 0;
    }
  }

  lemma LexedLineAt(doc: Document, i: nat)
    requires Lexed(doc) && i < |doc|
    ensures LexedLine(doc[i]) && (i > 0 ==> doc[i].inString == doc[i - 1].unclosed)
  {
  }

  lemma Carried(l: Line)
    requires LexedLine(l) && l.unclosed && l.cells == []
    ensures LineText(l) == l.carried
  {
  }

  /** The line on which the literal that line `i` starts in was opened. */
  lemma {:induction false} OpenedOn(doc: Document, i: nat) returns (p: nat)
    requires Lexed(doc) && i < |doc| && doc[i].inString
    ensures p < i && doc[p].unclosed && doc[p].cells != [] && i <= CloseLine(doc, p)
  {
    hide LexedLine, SplitEnding;
    LexedLineAt(doc, i);
    FirstNotInside(doc);
    if doc[i - 1].cells != [] {
      p := i - 1;
    } else {
      OpenInside(doc, i - 1);
      p := OpenedOn(doc, i - 1);
      CloseStep(doc, p, i - 1);
    }
  }

  lemma FirstNotInside(doc: Document)
    requires Lexed(doc)
    ensures !doc[0].inString
  {
  }

  lemma OpenInside(doc: Document, i: nat)
    requires Lexed(doc) && i < |doc| && doc[i].unclosed && doc[i].cells == []
    ensures doc[i].inString
  {
    LexedLineAt(doc, i);
  }

  lemma {:induction false} CloseStep(doc: Document, p: nat, k: nat)
    requires Lexed(doc) && p < |doc| && doc[p].unclosed && p < k <= CloseLine(doc, p)
    requires k < |doc| && doc[k].unclosed && doc[k].cells == []
    ensures k + 1 <= CloseLine(doc, p)
    decreases |doc| - p
  {
    hide LexedLine, SplitEnding;
    if p + 1 < k {
      CloseStep(doc, p + 1, k);
    }
  }

  // ---------------------------------------------------------------------------------
  // Inside a string token.

  ghost predicate Covers(t: Token, position: nat) {
    t.kind.Str? && t.start < position < t.start + t.length
  }

  ghost predicate InsideString(ts: seq<Token>, position: nat) {
    exists k :: 0 <= k < |ts| && Covers(ts[k], position)
  }

  /** The span of the token of a cell. */
  lemma TokenSpan(doc: Document, i: nat, j: nat)
    requires Lexed(doc) && i < |doc| && j < |doc[i].cells|
    ensures TokenIndex(doc, i) + j < |Tokens(doc)|
    ensures var t, o := Tokens(doc)[TokenIndex(doc, i) + j], Offset(doc, i);
            && t.kind == doc[i].cells[j].kind && t.line == i + 1
            && o <= t.start < o + |LineText(doc[i])|
            && t.start + |doc[i].cells[j].text| <= o + |LineText(doc[i])|
            && (if j + 1 == |doc[i].cells| && doc[i].unclosed
                then t.start + t.length == o + |LineText(doc[i])| + Overhang(doc, i)
                else if j + 1 == |doc[i].cells| && OpensPattern(doc[i])
                then t.kind.Regex? && t.start + t.length == o + |LineText(doc[i])| + PatternOver(doc, i)
                else t.start + t.length <= o + |LineText(doc[i])|)
  {
    hide Tokens, TokenIndex, Offset, CellTokens, Lexed, CellsText, Overhang, PatternOver, ScanPattern;
    var l := doc[i];
    TokenAt(doc, i, j);
    CellToken(l.cells, i + 1, Offset(doc, i) + |l.carried|, Past(doc, i), j);
    LexedLineAt(doc, i);
    OpenTail(doc, i);
    assert LexedCell(l.cells[j], l.unclosed && j == |l.cells| - 1);
    CellsPrefix(l.cells, j);
    if j + 1 == |l.cells| {
      assert l.cells[..j + 1] == l.cells;
      ClosedOverhang(doc, i);
    }
  }

  lemma OpenTail(doc: Document, i: nat)
    requires Lexed(doc) && i < |doc|
    ensures OpensPattern(doc[i]) ==> doc[i].tail == "" && !doc[i].unclosed
  {
    hide LexedLine, SplitEnding, ScanPattern;
    assert LexedPattern(doc[i], InPattern(doc, i));
    if OpensPattern(doc[i]) && doc[i].unclosed {
      LastIsString(doc, i);
    }
  }

  lemma ClosedOverhang(doc: Document, i: nat)
    requires i < |doc|
    ensures !doc[i].unclosed ==> Overhang(doc, i) == 0
  {
  }

  lemma {:induction false} CellsPrefix(cells: seq<Cell>, j: nat)
    requires j < |cells|
    ensures |CellsText(cells[..j + 1])| == |CellsText(cells[..j])| + |cells[j].gap| + |cells[j].text|
    ensures |CellsText(cells[..j + 1])| <= |CellsText(cells)|
  {
    if j > 0 {
      CellsPrefix(cells[1..], j - 1);
      assert cells[..j][1..] == cells[1..][..j - 1];
      assert cells[..j + 1][1..] == cells[1..][..j];
    } else {
      assert cells[..1] == [cells[0]];
      assert [cells[0]][1..] == [];
    }
  }

  /** Every token but the last belongs to a cell. */
  lemma {:induction false} TokenOwner(doc: Document, n: nat, k: nat) returns (i: nat, j: nat)
    requires n <= |doc| && k < TokenIndex(doc, n)
    ensures i < n && j < |doc[i].cells| && k == TokenIndex(doc, i) + j
  {
    if k >= TokenIndex(doc, n - 1) {
      i, j := n - 1, k - TokenIndex(doc, n - 1);
    } else {
      i, j := TokenOwner(doc, n - 1, k);
    }
  }

  lemma TokenCount(doc: Document)
    ensures |Tokens(doc)| == TokenIndex(doc, |doc|) + 1
    ensures Tokens(doc)[TokenIndex(doc, |doc|)].kind.Eof?
  {
    hide Tokens, TokenIndex, Offset;
    TokensSplit(doc, |doc|);
    var ts, n := Tokens(doc), TokenIndex(doc, |doc|);
    assert ts[n..] == [Token(Eof, |doc|, Offset(doc, |doc|), 0)];
    assert ts[n] == ts[n..][0];
  }

  /** A position that a literal of line `p` covers. */
  lemma LiteralCovers(doc: Document, p: nat, j: nat, position: nat)
    requires Lexed(doc) && p < |doc| && j < |doc[p].cells|
    requires TokenIndex(doc, p) + j < |Tokens(doc)| && Covers(Tokens(doc)[TokenIndex(doc, p) + j], position)
    ensures Offset(doc, p) < position
    ensures position < Offset(doc, p) + |LineText(doc[p])| ||
            (doc[p].unclosed && position < Offset(doc, CloseLine(doc, p)) + |doc[CloseLine(doc, p)].carried|)
  {
    hide Lexed, Tokens, TokenIndex, Offset, LineText, Overhang, CloseLine;
    TokenSpan(doc, p, j);
    if doc[p].unclosed {
      CloseOffset(doc, p);
    }
  }

  lemma CarriedWithin(doc: Document, i: nat)
    requires i < |doc|
    ensures |doc[i].carried| <= |LineText(doc[i])|
  {
  }

  /** A line starts inside a string token exactly when it starts inside a literal. */
  lemma StartsInside(doc: Document, i: nat)
    requires Lexed(doc) && i < |doc|
    ensures InsideString(Tokens(doc), Offset(doc, i)) <==> doc[i].inString
  {
    hide Lexed, Tokens, TokenIndex, Offset, LineText, Overhang, CloseLine, CellsText;
    var ts, o := Tokens(doc), Offset(doc, i);
    TokenCount(doc);
    if InsideString(ts, o) {
      var k: nat :| k < |ts| && Covers(ts[k], o);
      var p, j := TokenOwner(doc, |doc|, k);
      LiteralCovers(doc, p, j, o);
      if i <= p {
        OffsetOrder(doc, i, p);
        assert false;
      }
      OffsetOrder(doc, p, i);
      var m := CloseLine(doc, p);
      CarriedWithin(doc, m);
      if m < i {
        OffsetOrder(doc, m, i);
        assert false;
      }
      CloseSpan(doc, p, i);
    }
    if doc[i].inString {
      var p := OpenedOn(doc, i);
      var j: nat := |doc[p].cells| - 1;
      LiteralReaches(doc, p, o, i);
      assert Covers(ts[TokenIndex(doc, p) + j], o);
    }
  }

  lemma LiteralReaches(doc: Document, p: nat, position: nat, i: nat)
    requires Lexed(doc) && p < i < |doc| && doc[p].unclosed && doc[p].cells != [] && i <= CloseLine(doc, p)
    requires position == Offset(doc, i) || (i < CloseLine(doc, p) && position == Offset(doc, i) + |LineText(doc[i])|)
    ensures var k := TokenIndex(doc, p) + |doc[p].cells| - 1; k < |Tokens(doc)| && Covers(Tokens(doc)[k], position)
  {
    hide Lexed, Tokens, TokenIndex, Offset, LineText, Overhang, CloseLine;
    var j: nat := |doc[p].cells| - 1;
    TokenSpan(doc, p, j);
    LastIsString(doc, p);
    CloseOffset(doc, p);
    OffsetOrder(doc, p, i);
    OffsetOrder(doc, i, CloseLine(doc, p));
  }

  lemma LastIsString(doc: Document, p: nat)
    requires Lexed(doc) && p < |doc| && doc[p].unclosed && doc[p].cells != []
    ensures doc[p].cells[|doc[p].cells| - 1].kind.Str?
  {
    LexedLineAt(doc, p);
    assert LexedCell(doc[p].cells[|doc[p].cells| - 1], true);
  }

  /** A line ends inside a string token exactly when it leaves a literal open. */
  lemma EndsInside(doc: Document, i: nat)
    requires Lexed(doc) && i < |doc|
    ensures InsideString(Tokens(doc), Offset(doc, i) + |LineText(doc[i])|) <==> doc[i].unclosed
  {
    hide Lexed, Tokens, TokenIndex, Offset, LineText, Overhang, CloseLine, CellsText;
    var ts, o := Tokens(doc), Offset(doc, i) + |LineText(doc[i])|;
    TokenCount(doc);
    if InsideString(ts, o) {
      var k: nat :| k < |ts| && Covers(ts[k], o);
      var p, j := TokenOwner(doc, |doc|, k);
      LiteralCovers(doc, p, j, o);
      if i < p {
        OffsetOrder(doc, i, p);
        assert false;
      }
      OffsetOrder(doc, p, i);
      var m := CloseLine(doc, p);
      CarriedWithin(doc, m);
      if m <= i {
        OffsetOrder(doc, m, i);
        assert false;
      }
      CloseSpan(doc, p, i);
    }
    if doc[i].unclosed {
      if doc[i].cells != [] {
        LiteralGoesOn(doc, i);
      } else {
        OpenInside(doc, i);
        var p := OpenedOn(doc, i);
        CloseStep(doc, p, i);
        LiteralReaches(doc, p, o, i);
        assert Covers(ts[TokenIndex(doc, p) + |doc[p].cells| - 1], o);
      }
    }
  }

  lemma LiteralGoesOn(doc: Document, i: nat)
    requires Lexed(doc) && i < |doc| && doc[i].unclosed && doc[i].cells != []
    ensures InsideString(Tokens(doc), Offset(doc, i) + |LineText(doc[i])|)
  {
    hide Lexed, Tokens, TokenIndex, Offset, LineText, CellsText;
    var j: nat := |doc[i].cells| - 1;
    TokenSpan(doc, i, j);
    LastIsString(doc, i);
    OverhangPositive(doc, i);
    assert Covers(Tokens(doc)[TokenIndex(doc, i) + j], Offset(doc, i) + |LineText(doc[i])|);
  }

  lemma OverhangPositive(doc: Document, i: nat)
    requires Lexed(doc) && i < |doc| && doc[i].unclosed
    ensures Overhang(doc, i) > 0
  {
    hide LexedLine, LineText;
    assert SplitEnding(doc[i], i == |doc| - 1);
  }

  // ---------------------------------------------------------------------------------
  // The tokens come line by line.

  lemma {:induction false} IndexOrder(doc: Document, i: nat, j: nat)
    requires i <= j <= |doc|
    ensures TokenIndex(doc, i) <= TokenIndex(doc, j)
    ensures i < j ==> TokenIndex(doc, i) + |doc[i].cells| <= TokenIndex(doc, j)
  {
    if i < j {
      IndexOrder(doc, i, j - 1);
    }
  }

  lemma TokenLine(doc: Document, k: nat) returns (i: nat)
    requires Lexed(doc) && k < |Tokens(doc)|
    ensures i < |doc| && Tokens(doc)[k].line == i + 1 && TokenIndex(doc, i) <= k
    ensures k + 1 < |Tokens(doc)| ==> k < TokenIndex(doc, i) + |doc[i].cells| && !Tokens(doc)[k].kind.Eof?
    ensures k + 1 == |Tokens(doc)| ==> i == |doc| - 1 && Tokens(doc)[k].kind.Eof?
  {
    hide Lexed, Tokens, TokenIndex, LineText;
    TokenCount(doc);
    NotEmpty(doc);
    if k + 1 < |Tokens(doc)| {
      var j;
      i, j := TokenOwner(doc, |doc|, k);
      TokenAt(doc, i, j);
      LexedLineAt(doc, i);
      assert LexedCell(doc[i].cells[j], doc[i].unclosed && j == |doc[i].cells| - 1);
    } else {
      i := |doc| - 1;
      TokensEnd(doc, 0, 0);
      IndexOrder(doc, i, |doc|);
      AllTokens(doc);
    }
  }

  lemma AllTokens(doc: Document)
    ensures Tokens(doc) == TokensFrom(doc, 0, 0)
  {
  }

  lemma NotEmpty(doc: Document)
    requires Lexed(doc)
    ensures |doc| > 0
  {
  }

  lemma LinesInOrder(doc: Document, k: nat, m: nat)
    requires Lexed(doc) && k < m < |Tokens(doc)|
    ensures Tokens(doc)[k].line <= Tokens(doc)[m].line
  {
    hide Lexed, Tokens, TokenIndex;
    var i := TokenLine(doc, k);
    var j := TokenLine(doc, m);
    if j < i {
      IndexOrder(doc, j, i);
    }
  }

  lemma TokensInLines(doc: Document)
    requires Lexed(doc)
    ensures InLines(Tokens(doc), |doc|)
  {
    hide Lexed, Tokens, TokenIndex;
    var ts := Tokens(doc);
    TokenCount(doc);
    forall k | 0 <= k < |ts|
      ensures 1 <= ts[k].line <= |doc| && (ts[k].kind.Eof? <==> k == |ts| - 1)
      ensures k == |ts| - 1 ==> ts[k].line == |doc|
    {
      var i := TokenLine(doc, k);
    }
    forall k, m | 0 <= k < m < |ts|
      ensures ts[k].line <= ts[m].line
    {
      LinesInOrder(doc, k, m);
    }
  }
}
