/** The edits for a document do not overlap, and applying them makes the formatted document. */
module FormatApply {
  import opened Layout
  import opened Depth
  import opened Spacing
  import opened Format
  import opened FormatLine
  import opened FormatText
  import opened Splice

  // ---------------------------------------------------------------------------------
  // The formatted document.

  /** Line `i` belongs to a run that is deleted. */
  predicate Doomed(doc: Document, i: nat, first: nat, last: nat) {
    Surplus(doc, i) && if Surplus(doc, i - 1) then Doomed(doc, i - 1, first, last) else InRange(i, first, last)
  }

  function Emptied(l: Line): Line {
    Line(l.inString, "", [], "", l.unclosed, l.ending)
  }

  function NewLine(doc: Document, depths: seq<nat>, i: nat, first: nat, last: nat): Line
    requires i < |doc| == |depths|
  {
    if Doomed(doc, i, first, last) then Emptied(doc[i])
    else if Surplus(doc, i) || !InRange(i, first, last) then doc[i]
    else
      IndexBound(doc, i);
      TidyLine(Tokens(doc), TokenIndex(doc, i), doc[i], depths[i])
  }

  /** Of a deleted run at the end of the document an empty last line is left. */
  predicate Keeps(doc: Document, i: nat, first: nat, last: nat) {
    !(Doomed(doc, i, first, last) && i + 1 < |doc|)
  }

  /** The formatted document, from line `i` on. */
  function Formatted(doc: Document, depths: seq<nat>, i: nat, first: nat, last: nat): Document
    requires i <= |doc| == |depths|
    decreases |doc| - i
  {
    if i == |doc| then []
    else (if Keeps(doc, i, first, last) then [NewLine(doc, depths, i, first, last)] else []) +
         Formatted(doc, depths, i + 1, first, last)
  }

  // ---------------------------------------------------------------------------------
  // The edits in the order of the text.

  function InOrder(doc: Document, depths: seq<nat>, i: nat, first: nat, last: nat): seq<Edit>
    requires i <= |doc| == |depths|
    decreases |doc| - i
  {
    if i == |doc| then []
    else RemovalAt(doc, i, first, last) + EditsAt(doc, depths, i, first, last) +
         InOrder(doc, depths, i + 1, first, last)
  }

  lemma {:induction false} InOrderSame(doc: Document, depths: seq<nat>, i: nat, first: nat, last: nat)
    requires i <= |doc| == |depths|
    ensures multiset(InOrder(doc, depths, i, first, last)) ==
            multiset(Removals(doc, i, first, last) + AllLineEdits(doc, depths, i, first, last))
    decreases |doc| - i
  {
    hide RemovalAt, EditsAt;
    if i < |doc| {
      InOrderSame(doc, depths, i + 1, first, last);
      var a, b := RemovalAt(doc, i, first, last), EditsAt(doc, depths, i, first, last);
      var r, e := Removals(doc, i + 1, first, last), AllLineEdits(doc, depths, i + 1, first, last);
      MultisetJoin(a, r, b, e);
      assert multiset(a + b + InOrder(doc, depths, i + 1, first, last)) ==
             multiset(a) + multiset(b) + (multiset(r) + multiset(e));
    }
  }

  lemma MultisetJoin<T>(a: seq<T>, r: seq<T>, b: seq<T>, e: seq<T>)
    ensures multiset((a + r) + (b + e)) == multiset(a) + multiset(b) + (multiset(r) + multiset(e))
    ensures multiset(r + e) == multiset(r) + multiset(e)
  {
  }

  /** An edit as a span of the text. */
  function Locate(doc: Document, e: Edit): Span
    requires e.startLine < |doc| && e.endLine < |doc|
  {
    Span(Offset(doc, e.startLine) + e.startColumn, Offset(doc, e.endLine) + e.endColumn, e.text)
  }

  predicate InDocument(doc: Document, es: seq<Edit>) {
    forall i :: 0 <= i < |es| ==> es[i].startLine < |doc| && es[i].endLine < |doc|
  }

  function Located(doc: Document, es: seq<Edit>): (r: seq<Span>)
    requires InDocument(doc, es)
    ensures |r| == |es|
  {
    seq(|es|, i requires 0 <= i < |es| => Locate(doc, es[i]))
  }

  /** How much of the text, from line `i`, belongs to the run it is in. */
  function RunWidth(doc: Document, i: nat): nat
    requires i < |doc|
    decreases |doc| - i
  {
    if i + 1 < |doc| then
      |LineText(doc[i])| + |doc[i].ending| + (if Surplus(doc, i + 1) then RunWidth(doc, i + 1) else 0)
    else |LineText(doc[i])|
  }

  /** The edits at line `i`, relative to its start. */
  function PlanAt(doc: Document, depths: seq<nat>, i: nat, first: nat, last: nat): seq<Span>
    requires i < |doc| == |depths|
  {
    if RemovalAt(doc, i, first, last) != [] then [Span(0, RunWidth(doc, i), "")]
    else Local(EditsAt(doc, depths, i, first, last))
  }

  function Plan(doc: Document, depths: seq<nat>, i: nat, first: nat, last: nat): seq<Span>
    requires i <= |doc| == |depths|
    decreases |doc| - i
  {
    if i == |doc| then []
    else PlanAt(doc, depths, i, first, last) +
         Shift(Plan(doc, depths, i + 1, first, last), |LineText(doc[i])| + |doc[i].ending|)
  }

  /** How much of a run deleted from an earlier line on is left at line `i`. */
  function Pending(doc: Document, i: nat, first: nat, last: nat): nat
    requires i <= |doc|
  {
    if i < |doc| && Doomed(doc, i, first, last) && Surplus(doc, i - 1) then RunWidth(doc, i) else 0
  }

  // ---------------------------------------------------------------------------------
  // The plan makes the formatted document.

  ghost predicate Makes(doc: Document, depths: seq<nat>, i: nat, first: nat, last: nat)
    requires i <= |doc| == |depths|
  {
    var plan := Plan(doc, depths, i, first, last);
    var from := Pending(doc, i, first, last);
    && Ordered(plan, from, |Render(doc[i..])|)
    && Splice.Splice(Render(doc[i..]), plan, from) == Render(Formatted(doc, depths, i, first, last))
  }

  lemma RenderCons(l: Line, rest: Document)
    ensures Render([l] + rest) == LineText(l) + l.ending + Render(rest)
  {
    assert ([l] + rest)[1..] == rest;
  }

  /** Inside a deleted run. */
  lemma DoomedMakes(doc: Document, depths: seq<nat>, i: nat, first: nat, last: nat)
    requires Lexed(doc) && i + 1 < |doc| == |depths| && Doomed(doc, i, first, last)
    requires Makes(doc, depths, i + 1, first, last)
    ensures Makes(doc, depths, i, first, last)
  {
    hide Plan, Render, LineText, Splice.Splice, Ordered, Lexed, EditsAt, Surplus, BlankFree, InRange, NewLine, Shift,
         RunEnd, Formatted;
    var a, b := LineText(doc[i]) + doc[i].ending, Render(doc[i + 1..]);
    var w, width := |a|, RunWidth(doc, i);
    var rest := Plan(doc, depths, i + 1, first, last);
    RenderFirst(doc, i);
    DoomedNext(doc, i, first, last);
    SpliceShift(a, b, rest, width - w);
    PlanStep(doc, depths, i, first, last);
    FormattedStep(doc, depths, i, first, last);
    EndingNonempty(doc, i);
    StartOrWithin(doc, depths, i, first, last);
    if Surplus(doc, i - 1) {
      assert [] + Shift(rest, w) == Shift(rest, w);
    } else {
      DeleteFirst(a + b, Shift(rest, w), width);
    }
  }

  lemma StartOrWithin(doc: Document, depths: seq<nat>, i: nat, first: nat, last: nat)
    requires i < |doc| == |depths| && Doomed(doc, i, first, last)
    ensures PlanAt(doc, depths, i, first, last) == if Surplus(doc, i - 1) then [] else [Span(0, RunWidth(doc, i), "")]
  {
    hide RunWidth, BlankFree, InRange, RunEnd, LineEdits;
  }

  lemma EndingNonempty(doc: Document, i: nat)
    requires Lexed(doc) && i + 1 < |doc|
    ensures |doc[i].ending| > 0
  {
    hide LexedLine, LineText;
    assert SplitEnding(doc[i], false);
  }

  lemma DeleteFirst(text: string, es: seq<Span>, width: nat)
    requires 0 < width && Ordered(es, width, |text|)
    ensures Ordered([Span(0, width, "")] + es, 0, |text|)
    ensures Splice.Splice(text, [Span(0, width, "")] + es, 0) == Splice.Splice(text, es, width)
  {
    var all := [Span(0, width, "")] + es;
    assert all[1..] == es;
    OrderedFrom(es, width, 0, |text|);
    assert Ordered(all, 0, |text|) by {
      var e := es;
      if e == [] {
        assert width <= |text|;
      } else {
        assert width <= e[0].from <= |text|;
      }
    }
    SpliceStep(text, all, 0);
  }

  lemma DoomedNext(doc: Document, i: nat, first: nat, last: nat)
    requires i + 1 < |doc| && Doomed(doc, i, first, last)
    ensures i > 0 && Pending(doc, i + 1, first, last) == RunWidth(doc, i) - |LineText(doc[i])| - |doc[i].ending|
  {
    hide LineText, BlankFree, InRange, Counted;
  }

  lemma PlanStep(doc: Document, depths: seq<nat>, i: nat, first: nat, last: nat)
    requires i < |doc| == |depths|
    ensures Plan(doc, depths, i, first, last) == PlanAt(doc, depths, i, first, last) +
            Shift(Plan(doc, depths, i + 1, first, last), |LineText(doc[i]) + doc[i].ending|)
  {
  }

  lemma FormattedStep(doc: Document, depths: seq<nat>, i: nat, first: nat, last: nat)
    requires i < |doc| == |depths|
    ensures var rest := Formatted(doc, depths, i + 1, first, last);
            Formatted(doc, depths, i, first, last) ==
            if Keeps(doc, i, first, last) then [NewLine(doc, depths, i, first, last)] + rest else rest
  {
    hide NewLine, Keeps;
  }

  /** A deleted run that takes in the last line. */
  lemma LastParts(doc: Document, depths: seq<nat>, first: nat, last: nat)
    requires Lexed(doc) && |doc| == |depths| && Doomed(doc, |doc| - 1, first, last)
    ensures var i, l := |doc| - 1, doc[|doc| - 1];
            && Render(doc[i..]) == LineText(l) + l.ending
            && Plan(doc, depths, i, first, last) == PlanAt(doc, depths, i, first, last)
            && Render(Formatted(doc, depths, i, first, last)) == l.ending
  {
    hide LineText, Lexed, PlanAt, Surplus, InRange, Shift, Doomed, Render, Plan, Formatted, NewLine;
    NotEmpty(doc);
    var i := |doc| - 1;
    var l := doc[i];
    RenderFirst(doc, i);
    NothingAfter(doc, depths, first, last);
    NoEdits(|LineText(l) + l.ending|);
    PlanStep(doc, depths, i, first, last);
    FormattedStep(doc, depths, i, first, last);
    LastEmptied(doc, depths, first, last);
    BlankText(l);
    RenderCons(Emptied(l), []);
  }

  lemma NothingAfter(doc: Document, depths: seq<nat>, first: nat, last: nat)
    requires |doc| == |depths|
    ensures Render(doc[|doc|..]) == "" && Render([]) == ""
    ensures Plan(doc, depths, |doc|, first, last) == [] && Formatted(doc, depths, |doc|, first, last) == []
  {
  }

  lemma LastEmptied(doc: Document, depths: seq<nat>, first: nat, last: nat)
    requires |doc| == |depths| > 0 && Doomed(doc, |doc| - 1, first, last)
    ensures NewLine(doc, depths, |doc| - 1, first, last) == Emptied(doc[|doc| - 1]) && Keeps(doc, |doc| - 1, first, last)
  {
    hide Doomed;
  }

  lemma LastMakes(doc: Document, depths: seq<nat>, first: nat, last: nat)
    requires Lexed(doc) && |doc| == |depths| && Doomed(doc, |doc| - 1, first, last)
    ensures Makes(doc, depths, |doc| - 1, first, last)
  {
    hide LineText, Splice.Splice, Lexed, EditsAt, BlankFree, InRange, Shift, RunEnd, Plan, Formatted, Render;
    var i := |doc| - 1;
    var l := doc[i];
    var text := LineText(l) + l.ending;
    LastParts(doc, depths, first, last);
    StartOrWithin(doc, depths, i, first, last);
    SpliceEnd(text, |LineText(l)|);
    assert text[|LineText(l)|..] == l.ending;
    if !Surplus(doc, i - 1) {
      SpliceOne(text, Span(0, |LineText(l)|, ""));
    }
  }

  /** A line that is not deleted. */
  lemma KeptMakes(doc: Document, depths: seq<nat>, i: nat, first: nat, last: nat)
    requires Lexed(doc) && i < |doc| == |depths| && !Doomed(doc, i, first, last)
    requires Makes(doc, depths, i + 1, first, last)
    ensures Makes(doc, depths, i, first, last)
  {
    hide Plan, Render, LineText, Splice.Splice, Ordered, Lexed, EditsAt, Surplus, BlankFree, InRange, NewLine, Shift,
         RunEnd, Formatted, RunWidth;
    var l := doc[i];
    var a, b := LineText(l) + l.ending, Render(doc[i + 1..]);
    RenderFirst(doc, i);
    PlanStep(doc, depths, i, first, last);
    FormattedStep(doc, depths, i, first, last);
    KeptNext(doc, i, first, last);
    KeptLine(doc, depths, i, first, last);
    var es := PlanAt(doc, depths, i, first, last);
    SpliceJoin(a, b, es, Plan(doc, depths, i + 1, first, last), 0);
    RenderCons(NewLine(doc, depths, i, first, last), Formatted(doc, depths, i + 1, first, last));
  }

  lemma KeptNext(doc: Document, i: nat, first: nat, last: nat)
    requires i < |doc| && !Doomed(doc, i, first, last)
    ensures Pending(doc, i + 1, first, last) == 0 && Pending(doc, i, first, last) == 0
    ensures RemovalAt(doc, i, first, last) == []
  {
    hide LineText, BlankFree, InRange, Counted;
  }

  lemma KeptLine(doc: Document, depths: seq<nat>, i: nat, first: nat, last: nat)
    requires Lexed(doc) && i < |doc| == |depths| && !Doomed(doc, i, first, last)
    requires RemovalAt(doc, i, first, last) == []
    ensures var l, es := doc[i], PlanAt(doc, depths, i, first, last);
            var made := NewLine(doc, depths, i, first, last);
            Ordered(es, 0, |LineText(l) + l.ending|) && made.ending == l.ending &&
            Splice.Splice(LineText(l) + l.ending, es, 0) == LineText(made) + l.ending
  {
    hide LineText, Splice.Splice, Ordered, Doomed, Surplus, InRange, RemovalAt, LineEdits, Local, Shift,
         Chop, Reindent, TidyCells, Tokens, TokenIndex, Lexed, LexedLine, Blanks;
    var l := doc[i];
    LexedLineAt(doc, i);
    if Surplus(doc, i) || !InRange(i, first, last) {
      NoEdits(|LineText(l)|);
      SpliceNothing(LineText(l) + l.ending);
    } else {
      IndexBound(doc, i);
      LineSplice(Tokens(doc), TokenIndex(doc, i), l, depths[i], i);
      var es := PlanAt(doc, depths, i, first, last);
      NoEdits(|LineText(l)|);
      SpliceNothing(l.ending);
      SpliceJoin(LineText(l), l.ending, es, [], 0);
      assert es + [] == es;
    }
  }

  lemma {:induction false} PlanMakes(doc: Document, depths: seq<nat>, i: nat, first: nat, last: nat)
    requires Lexed(doc) && i <= |doc| == |depths|
    ensures Makes(doc, depths, i, first, last)
    decreases |doc| - i
  {
    hide Makes, Doomed, Lexed;
    if i == |doc| {
      NothingMakes(doc, depths, first, last);
    } else {
      PlanMakes(doc, depths, i + 1, first, last);
      if !Doomed(doc, i, first, last) {
        KeptMakes(doc, depths, i, first, last);
      } else if i + 1 < |doc| {
        DoomedMakes(doc, depths, i, first, last);
      } else {
        LastMakes(doc, depths, first, last);
      }
    }
  }

  lemma NothingMakes(doc: Document, depths: seq<nat>, first: nat, last: nat)
    requires |doc| == |depths|
    ensures Makes(doc, depths, |doc|, first, last)
  {
    assert doc[|doc|..] == [];
  }

  // ---------------------------------------------------------------------------------
  // The plan is the edits.

  lemma LocatedJoin(doc: Document, es: seq<Edit>, fs: seq<Edit>)
    requires InDocument(doc, es) && InDocument(doc, fs)
    ensures InDocument(doc, es + fs) && Located(doc, es + fs) == Located(doc, es) + Located(doc, fs)
  {
  }

  lemma ShiftTwice(es: seq<Span>, m: nat, n: nat)
    ensures Shift(Shift(es, m), n) == Shift(es, m + n)
  {
  }

  predicate AllOn(es: seq<Edit>, line: nat) {
    forall i :: 0 <= i < |es| ==> es[i].startLine == es[i].endLine == line
  }

  lemma {:induction false} GapEditsOn(ts: seq<Token>, k: nat, cells: seq<Cell>, line: nat, column: nat)
    requires k + |cells| < |ts|
    ensures AllOn(GapEdits(ts, k, cells, line, column), line)
    decreases cells
  {
    hide WantedGap, Blanks;
    if cells != [] {
      GapEditsOn(ts, k + 1, cells[1..], line, column + |cells[0].gap| + |cells[0].text|);
    }
  }

  lemma LineEditsOn(ts: seq<Token>, k: nat, l: Line, depth: nat, line: nat)
    requires k + |l.cells| < |ts|
    ensures AllOn(LineEdits(ts, k, l, depth, line), line)
  {
    hide GapEdits, LineText, Blanks, Lead, ChopLength, Indented, Spaces;
    if l.cells != [] {
      GapEditsOn(ts, k, l.cells[1..], line, |l.carried| + |l.cells[0].gap| + |l.cells[0].text|);
    }
  }

  lemma LocatedOn(doc: Document, es: seq<Edit>, line: nat)
    requires line < |doc| && AllOn(es, line)
    ensures InDocument(doc, es) && Located(doc, es) == Shift(Local(es), Offset(doc, line))
  {
    hide Offset;
  }

  lemma {:induction false} RunWidthEnd(doc: Document, i: nat)
    requires i < |doc|
    ensures var e := RunEnd(doc, i);
            Offset(doc, i) + RunWidth(doc, i) ==
            if e + 1 < |doc| then Offset(doc, e + 1) else Offset(doc, e) + |LineText(doc[e])|
    decreases |doc| - i
  {
    hide LineText, Surplus;
    if i + 1 < |doc| && Surplus(doc, i + 1) {
      RunWidthEnd(doc, i + 1);
    }
  }

  lemma LocatedAt(doc: Document, depths: seq<nat>, i: nat, first: nat, last: nat)
    requires i < |doc| == |depths|
    ensures var es := RemovalAt(doc, i, first, last) + EditsAt(doc, depths, i, first, last);
            InDocument(doc, es) && Located(doc, es) == Shift(PlanAt(doc, depths, i, first, last), Offset(doc, i))
  {
    hide LineEdits, Surplus, InRange, RunEnd, LineText, Tokens, TokenIndex;
    var r, es := RemovalAt(doc, i, first, last), EditsAt(doc, depths, i, first, last);
    if r != [] {
      RunWidthEnd(doc, i);
      ShiftOne(Span(0, RunWidth(doc, i), ""), Offset(doc, i));
      assert r + es == r;
      assert Located(doc, r) == [Locate(doc, r[0])];
    } else {
      assert r + es == es;
      if es == [] {
        NoEdits(Offset(doc, i));
      } else {
        IndexBound(doc, i);
        LineEditsOn(Tokens(doc), TokenIndex(doc, i), doc[i], depths[i], i);
        LocatedOn(doc, es, i);
      }
    }
  }

  lemma {:induction false} PlanIsEdits(doc: Document, depths: seq<nat>, i: nat, first: nat, last: nat)
    requires i <= |doc| == |depths|
    ensures var es := InOrder(doc, depths, i, first, last);
            InDocument(doc, es) && Located(doc, es) == Shift(Plan(doc, depths, i, first, last), Offset(doc, i))
    decreases |doc| - i
  {
    hide RemovalAt, EditsAt, InDocument, Located, Shift, Offset;
    if i == |doc| {
      NothingLocated(doc, Offset(doc, i));
    } else {
      PlanIsEdits(doc, depths, i + 1, first, last);
      PlanIsEditsStep(doc, depths, i, first, last);
    }
  }

  lemma PlanIsEditsStep(doc: Document, depths: seq<nat>, i: nat, first: nat, last: nat)
    requires i < |doc| == |depths|
    requires var es := InOrder(doc, depths, i + 1, first, last);
             InDocument(doc, es) && Located(doc, es) == Shift(Plan(doc, depths, i + 1, first, last), Offset(doc, i + 1))
    ensures var es := InOrder(doc, depths, i, first, last);
            InDocument(doc, es) && Located(doc, es) == Shift(Plan(doc, depths, i, first, last), Offset(doc, i))
  {
    hide *;
    PlanStep(doc, depths, i, first, last);
    InOrderStep(doc, depths, i, first, last);
    LocatedAt(doc, depths, i, first, last);
    var here := RemovalAt(doc, i, first, last) + EditsAt(doc, depths, i, first, last);
    var rest := Plan(doc, depths, i + 1, first, last);
    var w := |LineText(doc[i]) + doc[i].ending|;
    LocatedJoin(doc, here, InOrder(doc, depths, i + 1, first, last));
    ShiftTwice(rest, w, Offset(doc, i));
    ShiftJoin(PlanAt(doc, depths, i, first, last), Shift(rest, w), Offset(doc, i));
  }

  lemma InOrderStep(doc: Document, depths: seq<nat>, i: nat, first: nat, last: nat)
    requires i < |doc| == |depths|
    ensures InOrder(doc, depths, i, first, last) ==
            RemovalAt(doc, i, first, last) + EditsAt(doc, depths, i, first, last) + InOrder(doc, depths, i + 1, first, last)
    ensures Offset(doc, i + 1) == Offset(doc, i) + |LineText(doc[i]) + doc[i].ending|
  {
    hide RemovalAt, EditsAt, LineText;
  }

  lemma NothingLocated(doc: Document, n: nat)
    ensures InDocument(doc, []) && Located(doc, []) == Shift([], n)
  {
  }

  /** Taken in the order of the text, the edits do not overlap and no two start at one place;
      applied to the text of the document they give the text of the formatted document. */
  lemma EditsApply(doc: Document, depths: seq<nat>, first: nat, last: nat)
    requires Lexed(doc) && |doc| == |depths|
    ensures var es := InOrder(doc, depths, 0, first, last);
            && multiset(es) == multiset(Removals(doc, 0, first, last) + AllLineEdits(doc, depths, 0, first, last))
            && InDocument(doc, es) && Ordered(Located(doc, es), 0, |Render(doc)|)
            && Splice.Splice(Render(doc), Located(doc, es), 0) == Render(Formatted(doc, depths, 0, first, last))
  {
    hide Lexed, RemovalAt, EditsAt, PlanAt, Splice.Splice, Ordered, Render, Formatted;
    InOrderSame(doc, depths, 0, first, last);
    PlanMakes(doc, depths, 0, first, last);
    PlanIsEdits(doc, depths, 0, first, last);
    assert doc[0..] == doc;
    ShiftNone(Plan(doc, depths, 0, first, last));
  }

  lemma ShiftNone(es: seq<Span>)
    ensures Shift(es, 0) == es
  {
  }
}
