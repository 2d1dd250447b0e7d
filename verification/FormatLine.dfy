/** The edits inside one line make it the line the formatter wants. */
module FormatLine {
  import opened Layout
  import opened Depth
  import opened Spacing
  import opened Format
  import opened Splice

  /** The edits of one line, as spans of its text. */
  function Local(es: seq<Edit>): (r: seq<Span>)
    ensures |r| == |es|
  {
    seq(|es|, i requires 0 <= i < |es| => Span(es[i].startColumn, es[i].endColumn, es[i].text))
  }

  lemma LocalJoin(es: seq<Edit>, fs: seq<Edit>)
    ensures Local(es + fs) == Local(es) + Local(fs)
  {
  }

  lemma ShiftJoin(es: seq<Span>, fs: seq<Span>, n: nat)
    ensures Shift(es + fs, n) == Shift(es, n) + Shift(fs, n)
  {
  }

  lemma GapEditShift(want: Want, gap: string, line: nat, c: nat, d: nat)
    ensures Local(GapEdit(want, gap, line, c + d)) == Shift(Local(GapEdit(want, gap, line, c)), d)
  {
  }

  lemma {:induction false} GapEditsShift(ts: seq<Token>, k: nat, cells: seq<Cell>, line: nat, c: nat, d: nat)
    requires k + |cells| < |ts|
    ensures Local(GapEdits(ts, k, cells, line, c + d)) == Shift(Local(GapEdits(ts, k, cells, line, c)), d)
    decreases cells
  {
    hide Local, Shift, GapEdit, WantedGap;
    if cells == [] {
      NoEdits(d);
    } else {
      var want := WantedGap(ts, k);
      var next := c + |cells[0].gap| + |cells[0].text|;
      GapEditShift(want, cells[0].gap, line, c, d);
      GapEditsShift(ts, k + 1, cells[1..], line, next, d);
      var first, rest := GapEdit(want, cells[0].gap, line, c), GapEdits(ts, k + 1, cells[1..], line, next);
      LocalJoin(first, rest);
      ShiftJoin(Local(first), Local(rest), d);
      LocalJoin(GapEdit(want, cells[0].gap, line, c + d), GapEdits(ts, k + 1, cells[1..], line, next + d));
    }
  }

  lemma NoEdits(d: nat)
    ensures Local([]) == [] && Shift([], d) == []
  {
  }

  lemma GapSplice(want: Want, gap: string, text: string, line: nat)
    requires |text| > 0
    ensures Ordered(Local(GapEdit(want, gap, line, 0)), 0, |gap + text|)
    ensures Splice.Splice(gap + text, Local(GapEdit(want, gap, line, 0)), 0) == NewGap(want, gap) + text
  {
    hide Blanks;
    var es := GapEdit(want, gap, line, 0);
    if es == [] {
      SpliceNothing(gap + text);
      assert Local(es) == [];
    } else {
      var e := Span(es[0].startColumn, es[0].endColumn, es[0].text);
      assert Local(es) == [e];
      SpliceOne(gap + text, e);
      assert (gap + text)[..0] == "";
      assert (gap + text)[|gap|..] == text;
    }
  }

  /** The cells after the first of a line. */
  lemma {:induction false} CellsSplice(ts: seq<Token>, k: nat, cells: seq<Cell>, line: nat)
    requires k + |cells| < |ts| && forall j :: 0 <= j < |cells| ==> |cells[j].text| > 0
    ensures Ordered(Local(GapEdits(ts, k, cells, line, 0)), 0, |CellsText(cells)|)
    ensures Splice.Splice(CellsText(cells), Local(GapEdits(ts, k, cells, line, 0)), 0) ==
            CellsText(TidyRest(ts, k, cells))
    decreases cells
  {
    hide Local, Shift, GapEdit, WantedGap, NewGap, Splice.Splice;
    if cells == [] {
      NoEdits(0);
      SpliceNothing("");
    } else {
      var want := WantedGap(ts, k);
      var gap, text := cells[0].gap, cells[0].text;
      var a, b := gap + text, CellsText(cells[1..]);
      var first, rest := GapEdit(want, gap, line, 0), GapEdits(ts, k + 1, cells[1..], line, 0);
      GapSplice(want, gap, text, line);
      CellsSplice(ts, k + 1, cells[1..], line);
      GapEditsShift(ts, k + 1, cells[1..], line, 0, |a|);
      LocalJoin(first, GapEdits(ts, k + 1, cells[1..], line, |a|));
      SpliceJoin(a, b, Local(first), Local(rest), 0);
      TidyRestText(ts, k, cells);
    }
  }

  lemma TidyRestText(ts: seq<Token>, k: nat, cells: seq<Cell>)
    requires k + |cells| < |ts| && cells != []
    ensures CellsText(TidyRest(ts, k, cells)) ==
            (NewGap(WantedGap(ts, k), cells[0].gap) + cells[0].text) + CellsText(TidyRest(ts, k + 1, cells[1..]))
  {
    hide WantedGap, NewGap;
    assert TidyRest(ts, k, cells)[1..] == TidyRest(ts, k + 1, cells[1..]);
  }

  lemma LocalLead(s: string, depth: nat, line: nat)
    ensures Local(LeadEdit(s, depth, line)) ==
            if Indented(s, 2 * depth) then [] else [Span(0, Lead(s), Spaces(2 * depth))]
  {
    hide Lead, Spaces, Indented;
  }

  lemma LeadSplice(s: string, depth: nat, line: nat)
    requires !Blanks(s)
    ensures Ordered(Local(LeadEdit(s, depth, line)), 0, |s|)
    ensures Splice.Splice(s, Local(LeadEdit(s, depth, line)), 0) == Reindent(s, depth)
  {
    hide Lead, Spaces, Blanks, Local, LeadEdit, Splice.Splice, Ordered;
    LeadBlanks(s);
    LocalLead(s, depth, line);
    if Indented(s, 2 * depth) {
      SpliceNothing(s);
      assert s == s[..Lead(s)] + s[Lead(s)..];
    } else {
      SpliceOne(s, Span(0, Lead(s), Spaces(2 * depth)));
      assert s[..0] == "";
    }
  }

  lemma TrailSplice(s: string, line: nat)
    ensures Ordered(Local(TrailEdit(s, line)), 0, |s|)
    ensures Splice.Splice(s, Local(TrailEdit(s, line)), 0) == Chop(s)
  {
    hide ChopLength;
    var n := ChopLength(s);
    if n < |s| {
      assert Local(TrailEdit(s, line)) == [Span(n, |s|, "")];
      SpliceOne(s, Span(n, |s|, ""));
      assert s[|s|..] == "";
    } else {
      SpliceNothing(s);
      assert Local([]) == [];
      assert s[..n] == s;
    }
  }

  lemma LocalTrail(s: string, line: nat)
    ensures Local(TrailEdit(s, line)) == if ChopLength(s) < |s| then [Span(ChopLength(s), |s|, "")] else []
  {
    hide ChopLength;
  }

  lemma ShiftOne(e: Span, n: nat)
    ensures Shift([e], n) == [Span(e.from + n, e.to + n, e.text)]
  {
  }

  lemma TrailEditJoin(p: string, r: string, line: nat)
    requires !Blanks(r) || ChopLength(p) == |p|
    ensures Local(TrailEdit(p + r, line)) == Shift(Local(TrailEdit(r, line)), |p|)
  {
    hide ChopLength, Blanks, Local, TrailEdit, Shift;
    ChopJoin(p, r);
    LeadBlanks(r);
    LocalTrail(r, line);
    LocalTrail(p + r, line);
    ShiftOne(Span(ChopLength(r), |r|, ""), |p|);
    NoEdits(|p|);
  }

  lemma LeadEditJoin(p: string, r: string, depth: nat, line: nat)
    requires !Blanks(p)
    ensures LeadEdit(p + r, depth, line) == LeadEdit(p, depth, line)
  {
    hide Lead, Spaces, Blanks;
    LeadJoin(p, r);
    assert (p + r)[..Lead(p)] == p[..Lead(p)];
  }

  lemma ReindentJoin(p: string, r: string, depth: nat)
    requires !Blanks(p)
    ensures Reindent(p + r, depth) == Reindent(p, depth) + r
  {
    hide Lead, Spaces, Blanks;
    LeadJoin(p, r);
    assert (p + r)[Lead(p)..] == p[Lead(p)..] + r;
  }

  /** A visible last character is where `s` ends. */
  lemma EndsVisible(s: string)
    requires |s| > 0 && !Blank(s[|s| - 1])
    ensures ChopLength(s) == |s| && Chop(s) == s && !Blanks(s)
  {
    ChopIs(s, |s|);
  }

  /** A line of blanks and other text without tokens. */
  lemma LooseSplice(s: string, depth: nat, line: nat)
    requires !Blanks(s)
    ensures var es := LeadEdit(s, depth, line) + TrailEdit(s, line);
            Ordered(Local(es), 0, |s|) && Splice.Splice(s, Local(es), 0) == Chop(Reindent(s, depth))
  {
    hide ChopLength, Lead, Local, Shift, Splice.Splice, Ordered, Blanks, LeadEdit, TrailEdit, Reindent;
    LeadBlanks(s);
    var a, b := s[..ChopLength(s)], s[ChopLength(s)..];
    assert s == a + b;
    EndsVisible(a);
    LeadEditJoin(a, b, depth, line);
    BlanksAfter(s);
    TrailEditJoin(a, b, line);
    LeadSplice(a, depth, line);
    TrailSplice(b, line);
    SpliceJoin(a, b, Local(LeadEdit(a, depth, line)), Local(TrailEdit(b, line)), 0);
    LocalJoin(LeadEdit(s, depth, line), TrailEdit(s, line));
    ReindentJoin(a, b, depth);
    ReindentEnds(a, depth);
    ChopJoin(Reindent(a, depth), b);
    LeadBlanks(b);
    assert b[..0] == "";
    assert (Reindent(a, depth) + b)[..|Reindent(a, depth)|] == Reindent(a, depth);
  }

  lemma BlanksAfter(s: string)
    ensures Blanks(s[ChopLength(s)..])
  {
    hide ChopLength, Blank;
  }

  lemma ReindentEnds(a: string, depth: nat)
    requires |a| > 0 && !Blank(a[|a| - 1])
    ensures var r := Reindent(a, depth); |r| > 0 && !Blank(r[|r| - 1]) && r[|r| - 1] == a[|a| - 1]
    ensures ChopLength(Reindent(a, depth)) == |Reindent(a, depth)|
  {
    hide Lead, Spaces, ChopLength;
    LeadBlanks(a);
    EndsVisible(Reindent(a, depth));
  }

  /** What stands before the second token: the carried string, the first gap and token. */
  function Front(l: Line): string {
    l.carried + if l.cells == [] then "" else l.cells[0].gap + l.cells[0].text
  }

  function Rest(l: Line): seq<Cell> {
    if l.cells == [] then [] else l.cells[1..]
  }

  lemma LineParts(l: Line)
    ensures LineText(l) == Front(l) + CellsText(Rest(l)) + l.tail
  {
  }

  lemma {:induction false} CellsEnd(cells: seq<Cell>)
    requires cells != []
    ensures var t := cells[|cells| - 1].text; |t| > 0 ==>
            |CellsText(cells)| > 0 && CellsText(cells)[|CellsText(cells)| - 1] == t[|t| - 1]
  {
    if |cells| > 1 {
      CellsEnd(cells[1..]);
    } else {
      assert cells[1..] == [];
    }
  }

  /** A line that does not end in a string literal is visible just before its tail. */
  lemma BodyEnds(l: Line)
    requires LexedLine(l) && !l.unclosed && (l.cells != [] || l.inString)
    ensures var b := Front(l) + CellsText(Rest(l)); |b| > 0 && Plain(b[|b| - 1]) && ChopLength(b) == |b|
  {
    hide ChopLength;
    var b := Front(l) + CellsText(Rest(l));
    if |l.cells| > 1 {
      CellsEnd(Rest(l));
      assert LexedCell(l.cells[|l.cells| - 1], false);
    } else if |l.cells| == 1 {
      assert LexedCell(l.cells[0], false);
    }
    assert |b| > 0 && Plain(b[|b| - 1]);
    EndsVisible(b);
  }

  /** Its front is visible, unless it is a line that only carries a string on. */
  lemma FrontVisible(l: Line)
    requires LexedLine(l) && l.cells != []
    ensures !Blanks(Front(l)) && !Blanks(l.cells[0].gap + l.cells[0].text)
  {
    var c := l.cells[0];
    assert LexedCell(c, l.unclosed && |l.cells| == 1);
    assert !Blanks(c.text) by {
      assert !Blank(c.text[0]);
    }
    BlanksJoin(c.gap, c.text);
    BlanksJoin(l.carried, c.gap + c.text);
  }

  /** The indentation edit works on the front alone. */
  lemma FrontSplice(ts: seq<Token>, k: nat, l: Line, depth: nat, line: nat)
    requires LexedLine(l) && k + |l.cells| < |ts| && (l.cells != [] || l.inString) && !(l.inString && l.unclosed)
    ensures var es := if l.inString then [] else LeadEdit(LineText(l), depth, line);
            Ordered(Local(es), 0, |Front(l)|) && Splice.Splice(Front(l), Local(es), 0) ==
            Front(l.(cells := TidyCells(ts, k, l, depth)))
  {
    hide CellsText, LeadEdit, Ordered, Splice.Splice, Blanks, Lead, Spaces, TidyRest;
    var p := Front(l);
    if l.inString {
      NoEdits(0);
      SpliceNothing(p);
    } else {
      var c := l.cells[0];
      FrontVisible(l);
      LineParts(l);
      assert LineText(l) == p + (CellsText(Rest(l)) + l.tail);
      LeadEditJoin(p, CellsText(Rest(l)) + l.tail, depth, line);
      LeadSplice(p, depth, line);
      ReindentFirst(c, depth, l.unclosed && |l.cells| == 1);
      assert p == c.gap + c.text;
    }
  }

  lemma ReindentFirst(c: Cell, depth: nat, open: bool)
    requires LexedCell(c, open)
    ensures Reindent(c.gap + c.text, depth) == Reindent(c.gap, depth) + c.text
  {
    hide Lead, Spaces, Blanks;
    LeadJoin(c.gap, c.text);
    LeadIs(c.text, 0);
    LeadBlanks(c.gap);
    assert (c.gap + c.text)[Lead(c.gap)..] == c.gap[Lead(c.gap)..] + c.text;
  }

  lemma TailSplice(l: Line, line: nat)
    requires LexedLine(l) && (l.cells != [] || l.inString)
    ensures var es := if l.unclosed then [] else TrailEdit(l.tail, line);
            Ordered(Local(es), 0, |l.tail|) && Splice.Splice(l.tail, Local(es), 0) == Chop(l.tail)
    ensures !l.unclosed ==>
      Local(TrailEdit(LineText(l), line)) == Shift(Local(TrailEdit(l.tail, line)), |Front(l) + CellsText(Rest(l))|)
  {
    hide CellsText, TrailEdit, Ordered, Splice.Splice, Blanks, Local, Shift;
    if l.unclosed {
      NoEdits(0);
      SpliceNothing("");
    } else {
      TrailSplice(l.tail, line);
      LineParts(l);
      BodyEnds(l);
      TrailEditJoin(Front(l) + CellsText(Rest(l)), l.tail, line);
    }
  }

  /** A line with tokens, or the end of a string literal. */
  lemma TokenLineSplice(ts: seq<Token>, k: nat, l: Line, depth: nat, line: nat)
    requires LexedLine(l) && k + |l.cells| < |ts| && (l.cells != [] || l.inString)
    requires !(l.inString && l.unclosed) && !Blanks(LineText(l))
    ensures var es := Local(LineEdits(ts, k, l, depth, line));
            Ordered(es, 0, |LineText(l)|) && Splice.Splice(LineText(l), es, 0) == LineText(TidyLine(ts, k, l, depth))
  {
    hide CellsText, LeadEdit, TrailEdit, Ordered, Splice.Splice, Blanks, Local, Shift, GapEdits, TidyRest, LexedLine,
         Front, LineText, TidyCells;
    var p, q, r := Front(l), CellsText(Rest(l)), l.tail;
    var lead := if l.inString then [] else LeadEdit(LineText(l), depth, line);
    var inner := GapEdits(ts, k, Rest(l), line, 0);
    var trail := if l.unclosed then [] else TrailEdit(r, line);
    LineParts(l);
    FrontSplice(ts, k, l, depth, line);
    RestTexts(l);
    CellsSplice(ts, k, Rest(l), line);
    TailSplice(l, line);
    SpliceJoin(p, q, Local(lead), Local(inner), 0);
    SpliceJoin(p + q, r, Local(lead) + Shift(Local(inner), |p|), Local(trail), 0);
    LineEditsParts(ts, k, l, depth, line);
    TidyParts(ts, k, l, depth);
  }

  lemma RestTexts(l: Line)
    requires LexedLine(l)
    ensures forall j :: 0 <= j < |Rest(l)| ==> |Rest(l)[j].text| > 0
  {
    forall j | 0 <= j < |Rest(l)|
      ensures |Rest(l)[j].text| > 0
    {
      assert LexedCell(l.cells[j + 1], l.unclosed && j + 1 == |l.cells| - 1);
    }
  }

  lemma LineEditsParts(ts: seq<Token>, k: nat, l: Line, depth: nat, line: nat)
    requires k + |l.cells| < |ts| && !(l.inString && l.unclosed) && !Blanks(LineText(l))
    requires !l.unclosed ==>
      Local(TrailEdit(LineText(l), line)) == Shift(Local(TrailEdit(l.tail, line)), |Front(l) + CellsText(Rest(l))|)
    ensures Local(LineEdits(ts, k, l, depth, line)) ==
            Local(if l.inString then [] else LeadEdit(LineText(l), depth, line)) +
            Shift(Local(GapEdits(ts, k, Rest(l), line, 0)), |Front(l)|) +
            Shift(Local(if l.unclosed then [] else TrailEdit(l.tail, line)), |Front(l) + CellsText(Rest(l))|)
  {
    hide CellsText, LeadEdit, TrailEdit, Blanks, Local, Shift, LineText;
    var lead := if l.inString then [] else LeadEdit(LineText(l), depth, line);
    var inner := InnerEdits(ts, k, l, line);
    var trail := if l.unclosed then [] else TrailEdit(LineText(l), line);
    LocalJoin(lead, inner);
    LocalJoin(lead + inner, trail);
    GapEditsShift(ts, k, Rest(l), line, 0, |Front(l)|);
    NoEdits(|Front(l) + CellsText(Rest(l))|);
  }

  lemma TidyParts(ts: seq<Token>, k: nat, l: Line, depth: nat)
    requires k + |l.cells| < |ts| && (l.cells != [] || l.inString)
    requires !(l.inString && l.unclosed) && !Blanks(LineText(l))
    ensures LineText(TidyLine(ts, k, l, depth)) ==
            Front(l.(cells := TidyCells(ts, k, l, depth))) + CellsText(TidyRest(ts, k, Rest(l))) + Chop(l.tail)
  {
    hide Reindent, Chop, Blanks;
    LineParts(TidyLine(ts, k, l, depth));
  }

  lemma {:induction false} TidyRestCell(ts: seq<Token>, k: nat, cells: seq<Cell>, j: nat)
    requires k + |cells| < |ts| && j < |cells|
    ensures var t := TidyRest(ts, k, cells)[j]; t.kind == cells[j].kind && t.text == cells[j].text
    decreases j
  {
    hide WantedGap, NewGap;
    if j > 0 {
      TidyRestCell(ts, k + 1, cells[1..], j - 1);
    }
  }

  lemma TidyCell(ts: seq<Token>, k: nat, l: Line, depth: nat, j: nat)
    requires k + |l.cells| < |ts| && j < |l.cells|
    ensures var t := TidyCells(ts, k, l, depth)[j]; t.kind == l.cells[j].kind && t.text == l.cells[j].text
  {
    hide TidyRest, Reindent;
    if j > 0 {
      TidyRestCell(ts, k, l.cells[1..], j - 1);
    }
  }

  /** The edits of a line make it the line wanted. */
  lemma LineSplice(ts: seq<Token>, k: nat, l: Line, depth: nat, line: nat)
    requires LexedLine(l) && k + |l.cells| < |ts|
    ensures var es := Local(LineEdits(ts, k, l, depth, line));
            Ordered(es, 0, |LineText(l)|) && Splice.Splice(LineText(l), es, 0) == LineText(TidyLine(ts, k, l, depth))
  {
    hide CellsText, LeadEdit, TrailEdit, Ordered, Splice.Splice, Blanks, Shift, InnerEdits, TidyCells, Reindent, Chop;
    var s := LineText(l);
    if l.inString && l.unclosed {
      NoEdits(0);
      SpliceNothing(s);
    } else if Blanks(s) {
      BlankSplice(ts, k, l, depth, line);
    } else if l.cells == [] && !l.inString {
      LooseSplice(s, depth, line);
      LooseLine(ts, k, l, depth, line);
    } else {
      TokenLineSplice(ts, k, l, depth, line);
    }
  }

  lemma BlankSplice(ts: seq<Token>, k: nat, l: Line, depth: nat, line: nat)
    requires k + |l.cells| < |ts| && !(l.inString && l.unclosed) && Blanks(LineText(l))
    ensures var es := Local(LineEdits(ts, k, l, depth, line));
            Ordered(es, 0, |LineText(l)|) && Splice.Splice(LineText(l), es, 0) == LineText(TidyLine(ts, k, l, depth))
  {
    hide Blanks, LineText;
    var s := LineText(l);
    assert LineText(TidyLine(ts, k, l, depth)) == "" by {
      BlankText(l);
    }
    if s == "" {
      NoEdits(0);
      SpliceNothing(s);
    } else {
      assert Local(LineEdits(ts, k, l, depth, line)) == [Span(0, |s|, "")];
      SpliceOne(s, Span(0, |s|, ""));
    }
  }

  lemma BlankText(l: Line)
    ensures LineText(Line(l.inString, "", [], "", l.unclosed, l.ending)) == ""
  {
  }

  lemma LooseLine(ts: seq<Token>, k: nat, l: Line, depth: nat, line: nat)
    requires LexedLine(l) && k + |l.cells| < |ts| && !Blanks(LineText(l)) && l.cells == [] && !l.inString
    ensures LineEdits(ts, k, l, depth, line) == LeadEdit(LineText(l), depth, line) + TrailEdit(LineText(l), line)
    ensures LineText(TidyLine(ts, k, l, depth)) == Chop(Reindent(LineText(l), depth))
  {
    hide Blanks, LeadEdit, TrailEdit, Chop, Reindent;
    assert LineText(l) == l.tail;
  }
}
