/** Formatting a second time. */
module FormatTwice {
  import opened Layout
  import opened Depth
  import opened Spacing
  import opened Format
  import opened FormatLine
  import opened FormatMeaning

  // ---------------------------------------------------------------------------------
  // Carriage returns that do not end a line, until formatting uncovers them.

  /** Without the blanks at its end, the line ends in a carriage return that its terminator
      does not have. */
  predicate Bare(l: Line) {
    !l.unclosed && (l.ending == "" || l.ending == "\n") && EndsInReturn(Chop(LineText(l)))
  }

  /** What stands before that carriage return. */
  function Before(l: Line): string
    requires Bare(l)
  {
    Chop(LineText(l))[..|Chop(LineText(l))| - 1]
  }

  /** With that carriage return gone to the terminator, the line is still as it should be. */
  predicate Calm(l: Line, depth: nat) {
    Bare(l) ==> if Blanks(Before(l)) then depth == 0 else !Blank(Before(l)[|Before(l)| - 1])
  }

  /** Nothing of the line is visible but, perhaps, that carriage return. */
  predicate Hollow(l: Line) {
    BlankFree(l) || (Bare(l) && Blanks(Before(l)))
  }

  /** Lines `i - 1` and `i` make a run of blank lines only after formatting. */
  predicate Crowded(doc: Document, i: nat) {
    && 0 < i < |doc| && Hollow(doc[i - 1]) && Hollow(doc[i])
    && if i + 1 < |doc| then Bare(doc[i - 1]) || Bare(doc[i]) else Bare(doc[i]) || doc[i].ending == "\r"
  }

  /** Formatting the document once is enough. */
  predicate Settled(doc: Document, depths: seq<nat>)
    requires |doc| == |depths|
  {
    forall i: nat :: i < |doc| ==> Calm(doc[i], depths[i]) && !Crowded(doc, i)
  }

  /** The line as it is split off the text: its terminator takes in a carriage return. */
  function Resplit(l: Line): Line {
    if !l.unclosed && EndsInReturn(l.tail) && (l.ending == "" || l.ending == "\n") then
      l.(tail := l.tail[..|l.tail| - 1], ending := "\r" + l.ending)
    else l
  }

  // ---------------------------------------------------------------------------------
  // One line, twice.

  lemma {:induction false} GapsQuiet(ts: seq<Token>, us: seq<Token>, k: nat, cells: seq<Cell>, line: nat, column: nat)
    requires k + |cells| < |ts| == |us|
    requires forall j :: k <= j < k + |cells| ==> WantedGap(ts, j) == WantedGap(us, j)
    ensures GapEdits(us, k, TidyRest(ts, k, cells), line, column) == []
    decreases cells
  {
    hide WantedGap;
    if cells != [] {
      var tidy := TidyRest(ts, k, cells);
      GapsQuiet(ts, us, k + 1, cells[1..], line, column + |tidy[0].gap| + |tidy[0].text|);
      assert tidy[1..] == TidyRest(ts, k + 1, cells[1..]);
      assert WantedGap(ts, k) == WantedGap(us, k);
      assert Blanks(" ") && Blanks("");
    }
  }

  lemma ReindentQuiet(s: string, depth: nat, line: nat)
    requires !Blanks(s)
    ensures LeadEdit(Reindent(s, depth), depth, line) == [] && !Blanks(Reindent(s, depth))
  {
    hide Blanks, Lead;
    LeadBlanks(s);
    var rest := s[Lead(s)..];
    LeadIs(rest, 0);
    LeadJoin(Spaces(2 * depth), rest);
    assert (Spaces(2 * depth) + rest)[..2 * depth] == Spaces(2 * depth);
    TrimReindent(s, depth);
    TrimBlanks(s);
    TrimBlanks(Reindent(s, depth));
  }

  /** Whether a trailing edit is left depends on the last character. */
  lemma TrailQuiet(s: string, line: nat)
    ensures TrailEdit(s, line) == [] <==> s == "" || !Blank(s[|s| - 1])
  {
    if s != "" && !Blank(s[|s| - 1]) {
      EndsVisible(s);
    }
  }

  /** The edits of a line without tokens, and not in a literal. */
  lemma LooseQuiet(ts: seq<Token>, k: nat, l: Line, depth: nat, line: nat)
    requires k + |l.cells| < |ts| && l.cells == [] && !l.inString && !l.unclosed && l.carried == ""
    ensures LineText(l) == l.tail
    ensures LineEdits(ts, k, l, depth, line) == [] <==>
            if Blanks(l.tail) then l.tail == ""
            else LeadEdit(l.tail, depth, line) == [] && !Blank(l.tail[|l.tail| - 1])
  {
    hide Blanks, LeadEdit, TrailEdit, LineText;
    assert LineText(l) == l.tail by {
      LooseText(l);
    }
    TrailQuiet(l.tail, line);
    NoBlanks();
    var a, b := LeadEdit(l.tail, depth, line), TrailEdit(l.tail, line);
    assert !Blanks(l.tail) ==> LineEdits(ts, k, l, depth, line) == a + [] + b;
    assert |a + [] + b| == |a| + |b|;
  }

  lemma LooseText(l: Line)
    requires l.cells == [] && l.carried == ""
    ensures LineText(l) == l.tail
  {
  }

  lemma ReindentChop(s: string, depth: nat)
    requires !Blanks(s)
    ensures Chop(Reindent(s, depth)) == Reindent(Chop(s), depth)
    ensures |Chop(s)| > 0 && !Blank(Chop(s)[|Chop(s)| - 1]) && !Blanks(Chop(s))
  {
    hide Blanks, Lead, Reindent, ChopLength;
    LeadBlanks(s);
    var c, b := Chop(s), s[ChopLength(s)..];
    assert s == c + b;
    EndsVisible(c);
    ReindentJoin(c, b, depth);
    ReindentEnds(c, depth);
    BlanksAfter(s);
    ChopJoin(Reindent(c, depth), b);
  }

  lemma ReindentLast(s: string, depth: nat)
    requires !Blanks(s)
    ensures var r := Reindent(s, depth); |r| > 0 && |s| > 0 && r[|r| - 1] == s[|s| - 1]
  {
    hide Lead, Blanks;
    LeadBlanks(s);
  }

  lemma LooseTwice(ts: seq<Token>, us: seq<Token>, k: nat, l: Line, depth: nat, line: nat)
    requires LexedLine(l) && k + |l.cells| < |ts| == |us| && l.cells == [] && !l.inString
    ensures var m := Resplit(TidyLine(ts, k, l, depth));
            && (LineEdits(us, k, m, depth, line) == [] <==> Calm(l, depth))
            && (BlankFree(m) <==> Hollow(l))
  {
    hide Blanks, Lead, Reindent, Chop, LeadEdit, LineEdits, Spaces, TidyCells, LineText;
    var s := l.tail;
    LooseText(l);
    var t := TidyLine(ts, k, l, depth);
    var m := Resplit(t);
    if Blanks(s) {
      LeadBlanks(s);
      BlankChop(s);
      assert m == t == Line(false, "", [], "", false, l.ending);
      LooseQuiet(us, k, m, depth, line);
      NoBlanks();
    } else {
      var c := Chop(s);
      ReindentChop(s, depth);
      assert t == l.(tail := Reindent(c, depth));
      ReindentLast(c, depth);
      LooseQuiet(us, k, m, depth, line);
      if Bare(l) {
        LooseBare(c, depth, line);
      } else {
        ReindentQuiet(c, depth, line);
      }
    }
  }

  lemma BlankChop(s: string)
    requires Blanks(s)
    ensures Chop(s) == ""
  {
    LeadBlanks(s);
  }

  lemma NoBlanks()
    ensures Blanks("")
  {
  }

  /** A visible text, reindented, without its last character. */
  lemma LooseBare(c: string, depth: nat, line: nat)
    requires |c| > 0 && !Blank(c[|c| - 1])
    ensures var b := c[..|c| - 1];
            var r := Reindent(c, depth);
            && |r| > 0 && var x := r[..|r| - 1];
            && (Blanks(x) <==> Blanks(b))
            && (Blanks(b) ==> (x == "" <==> depth == 0))
            && (!Blanks(b) ==> LeadEdit(x, depth, line) == [] && |x| > 0 && |b| > 0 && x[|x| - 1] == b[|b| - 1])
  {
    hide Blanks, Lead, ChopLength, LeadEdit;
    var b := c[..|c| - 1];
    assert c == b + [c[|c| - 1]];
    LeadJoin(b, [c[|c| - 1]]);
    LeadIs([c[|c| - 1]], 0);
    var r := Reindent(c, depth);
    var x := r[..|r| - 1];
    if Blanks(b) {
      assert r == Spaces(2 * depth) + [c[|c| - 1]];
      assert x == Spaces(2 * depth);
    } else {
      LeadBlanks(b);
      ReindentJoin(b, [c[|c| - 1]], depth);
      assert x == Reindent(b, depth);
      ReindentQuiet(b, depth, line);
      ReindentLast(b, depth);
    }
  }

  // ---------------------------------------------------------------------------------
  // A line with tokens.

  /** A line that holds tokens or the end of a literal is not blank. */
  lemma TokenLineVisible(l: Line)
    requires LexedLine(l) && (l.cells != [] || l.inString) && !(l.inString && l.unclosed)
    ensures !Blanks(LineText(l)) && !Blanks(Front(l) + CellsText(Rest(l)))
  {
    hide ChopLength, LexedLine;
    LineParts(l);
    BlanksJoin(Front(l) + CellsText(Rest(l)), l.tail);
    BlanksJoin(Front(l), CellsText(Rest(l)));
    if l.cells != [] {
      FrontVisible(l);
    } else {
      BodyEnds(l);
      EndsVisible(Front(l) + CellsText(Rest(l)));
    }
  }

  /** Its tail says whether it ends in a bare carriage return. */
  lemma TokenLineBare(l: Line)
    requires LexedLine(l) && (l.cells != [] || l.inString) && !l.unclosed
    ensures Bare(l) <==> (l.ending == "" || l.ending == "\n") && EndsInReturn(Chop(l.tail))
    ensures Bare(l) ==> !Blanks(Before(l))
    ensures Bare(l) ==> var x := Chop(l.tail)[..|Chop(l.tail)| - 1];
            Blank(Before(l)[|Before(l)| - 1]) <==> x != "" && Blank(x[|x| - 1])
  {
    hide ChopLength, LexedLine, Blanks, CellsText, Front;
    var b := Front(l) + CellsText(Rest(l));
    LineParts(l);
    BodyEnds(l);
    ChopJoin(b, l.tail);
    LeadBlanks(l.tail);
    assert Chop(LineText(l)) == b + Chop(l.tail);
    if Bare(l) {
      TokenLineVisible(l);
      var x := Chop(l.tail)[..|Chop(l.tail)| - 1];
      assert Before(l) == b + x;
      BlanksJoin(b, x);
    }
  }

  /** A tidied line of that kind, whatever its tail: no indentation edit, no gap edit. */
  lemma TidyFrontQuiet(ts: seq<Token>, us: seq<Token>, k: nat, l: Line, depth: nat, line: nat, m: Line)
    requires LexedLine(l) && k + |l.cells| < |ts| == |us| && (l.cells != [] || l.inString)
    requires !(l.inString && l.unclosed)
    requires forall j :: k <= j < k + |l.cells| - 1 ==> WantedGap(ts, j) == WantedGap(us, j)
    requires m == l.(cells := TidyCells(ts, k, l, depth), tail := m.tail, ending := m.ending)
    ensures !l.inString ==> LeadEdit(LineText(m), depth, line) == []
    ensures InnerEdits(us, k, m, line) == []
  {
    hide ChopLength, Blanks, CellsText, WantedGap, GapEdits, TidyRest, Lead, Reindent, LeadEdit, LexedLine, LineText;
    if l.cells != [] {
      var t := TidyCells(ts, k, l, depth);
      assert t[1..] == TidyRest(ts, k, l.cells[1..]);
      GapsQuiet(ts, us, k, l.cells[1..], line, |m.carried| + |m.cells[0].gap| + |m.cells[0].text|);
      if !l.inString {
        LeadQuiet(l, depth, line, m);
      }
    }
  }

  lemma LeadQuiet(l: Line, depth: nat, line: nat, m: Line)
    requires LexedLine(l) && l.cells != [] && !l.inString && m.cells != [] && m.carried == l.carried
    requires m.cells[0] == l.cells[0].(gap := Reindent(l.cells[0].gap, depth))
    ensures LeadEdit(LineText(m), depth, line) == []
  {
    hide Blanks, CellsText, Lead, Reindent, LeadEdit;
    var c := l.cells[0];
    FrontVisible(l);
    assert LexedCell(c, l.unclosed && |l.cells| == 1);
    ReindentFirst(c, depth, l.unclosed && |l.cells| == 1);
    ReindentQuiet(c.gap + c.text, depth, line);
    LineParts(m);
    assert Front(m) == Reindent(c.gap + c.text, depth);
    assert LineText(m) == Front(m) + (CellsText(Rest(m)) + m.tail);
    LeadEditJoin(Front(m), CellsText(Rest(m)) + m.tail, depth, line);
  }

  /** Tidying and splitting again leave a line of the kind the lexer makes. */
  lemma TidyBody(ts: seq<Token>, k: nat, l: Line, depth: nat, m: Line)
    requires LexedLine(l) && k + |l.cells| < |ts| && (l.cells != [] || l.inString) && !l.unclosed
    requires m == l.(cells := TidyCells(ts, k, l, depth), tail := m.tail, ending := m.ending)
    ensures var b := Front(m) + CellsText(Rest(m)); |b| > 0 && Plain(b[|b| - 1]) && ChopLength(b) == |b|
  {
    hide ChopLength, TidyCells, CellsText;
    var b := Front(m) + CellsText(Rest(m));
    var n := |l.cells|;
    if n > 0 {
      TidyCell(ts, k, l, depth, n - 1);
      assert LexedCell(l.cells[n - 1], false);
      if n > 1 {
        CellsEnd(Rest(m));
      } else {
        assert CellsText(Rest(m)) == "" by {
          NoCells();
        }
      }
    } else {
      assert CellsText(Rest(m)) == "" by {
        NoCells();
      }
    }
    assert |b| > 0 && Plain(b[|b| - 1]);
    EndsVisible(b);
  }

  lemma NoCells()
    ensures CellsText([]) == ""
  {
  }

  lemma TokenLineTwice(ts: seq<Token>, us: seq<Token>, k: nat, l: Line, depth: nat, line: nat)
    requires LexedLine(l) && k + |l.cells| < |ts| == |us| && (l.cells != [] || l.inString)
    requires !(l.inString && l.unclosed)
    requires forall j :: k <= j < k + |l.cells| - 1 ==> WantedGap(ts, j) == WantedGap(us, j)
    ensures var m := Resplit(TidyLine(ts, k, l, depth));
            && (LineEdits(us, k, m, depth, line) == [] <==> Calm(l, depth))
            && !BlankFree(m) && !Hollow(l)
  {
    hide ChopLength, Blanks, CellsText, WantedGap, LexedLine, TidyCells, LeadEdit, InnerEdits, TrailEdit, Reindent,
         LineText, Bare, Front, Rest;
    TokenLineVisible(l);
    var t := TidyLine(ts, k, l, depth);
    var m := Resplit(t);
    assert t == l.(cells := TidyCells(ts, k, l, depth), tail := Chop(l.tail));
    TidyFrontQuiet(ts, us, k, l, depth, line, m);
    TidiedVisible(ts, k, l, depth, m);
    if l.unclosed {
      UnclosedNotBare(l);
    } else {
      TokenLineBare(l);
      TidyBody(ts, k, l, depth, m);
      LineParts(m);
      TailTwice(Front(m) + CellsText(Rest(m)), m.tail, line);
      ChopLast(l.tail);
    }
  }

  lemma ChopLast(s: string)
    ensures Chop(s) == "" || !Blank(Chop(s)[|Chop(s)| - 1])
  {
    hide ChopLength;
  }

  lemma UnclosedNotBare(l: Line)
    requires l.unclosed
    ensures !Bare(l)
  {
  }

  lemma TailTwice(b: string, tail: string, line: nat)
    requires |b| > 0 && !Blank(b[|b| - 1])
    ensures TrailEdit(b + tail, line) == [] <==> tail == "" || !Blank(tail[|tail| - 1])
  {
    hide TrailEdit;
    TrailQuiet(b + tail, line);
  }

  /** The tidied line is visible too. */
  lemma TidiedVisible(ts: seq<Token>, k: nat, l: Line, depth: nat, m: Line)
    requires LexedLine(l) && k + |l.cells| < |ts| && (l.cells != [] || l.inString) && !(l.inString && l.unclosed)
    requires m == l.(cells := TidyCells(ts, k, l, depth), tail := m.tail, ending := m.ending)
    ensures !Blanks(LineText(m))
  {
    hide TidyCells;
    if l.cells != [] {
      TidyCell(ts, k, l, depth, 0);
      assert LexedCell(l.cells[0], l.unclosed && |l.cells| == 1);
      TokenVisible(m);
    } else {
      var n: nat := |l.carried| - 1;
      assert LineText(m)[n] == l.carried[n];
    }
  }

  /** Formatting a line a second time does nothing exactly when it was calm, and it is blank
      then exactly when it was hollow. */
  lemma LineTwice(ts: seq<Token>, us: seq<Token>, k: nat, l: Line, depth: nat, line: nat)
    requires LexedLine(l) && k + |l.cells| < |ts| == |us|
    requires forall j :: k <= j < k + |l.cells| - 1 ==> WantedGap(ts, j) == WantedGap(us, j)
    ensures var m := Resplit(TidyLine(ts, k, l, depth));
            && |m.cells| == |l.cells|
            && (LineEdits(us, k, m, depth, line) == [] <==> Calm(l, depth))
            && (BlankFree(m) <==> Hollow(l))
  {
    hide LineEdits, Calm, BlankFree, Bare, WantedGap, TidyCells, Reindent, Chop, Blanks;
    TidyCount(ts, k, l, depth);
    if l.inString && l.unclosed {
      WithinLiteral(us, k, l, depth, line);
    } else if l.cells == [] && !l.inString {
      LooseTwice(ts, us, k, l, depth, line);
    } else {
      TokenLineTwice(ts, us, k, l, depth, line);
    }
  }

  lemma WithinLiteral(us: seq<Token>, k: nat, l: Line, depth: nat, line: nat)
    requires k + |l.cells| < |us| && l.inString && l.unclosed
    ensures LineEdits(us, k, l, depth, line) == [] && Calm(l, depth) && !BlankFree(l) && !Hollow(l)
  {
  }

  lemma TidyCount(ts: seq<Token>, k: nat, l: Line, depth: nat)
    requires LexedLine(l) && k + |l.cells| < |ts|
    ensures |TidyLine(ts, k, l, depth).cells| == |l.cells|
  {
    hide Blanks, LexedLine, Chop, Reindent;
    if !(l.inString && l.unclosed) && Blanks(LineText(l)) {
      BlankLine(l);
    }
  }
}
