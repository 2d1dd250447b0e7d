/** Formatting changes blanks and blank lines, and nothing else but the regex literals that go
    on past a line. */
module FormatMeaning {
  import opened Wrappers
  import opened Layout
  import opened Depth
  import opened Spacing
  import opened Format
  import opened FormatLine
  import opened FormatApply
  import opened Patterns

  /** What the compiler can see of a document: literals to the letter, tokens, what stands
      between them but for the blanks around it, and the ends of lines that are not blank. */
  datatype Item =
    | Literal(text: string)
    | Between(text: string)
    | Tok(kind: Kind, text: string)
    | LineEnd(ending: string)

  function Trim(s: string): string {
    Chop(s[Lead(s)..])
  }

  function CellItems(cells: seq<Cell>): seq<Item> {
    if cells == [] then []
    else [Between(Trim(cells[0].gap)), Tok(cells[0].kind, cells[0].text)] + CellItems(cells[1..])
  }

  function PlainItems(l: Line): seq<Item> {
    (if l.inString then [Literal(l.carried)] else []) + CellItems(l.cells) + [Between(Trim(l.tail)), LineEnd(l.ending)]
  }

  /** How much of a text belongs to the literal it goes on with. */
  function HeldOf(s: string): (n: nat)
    ensures n <= |s|
  {
    var r := ScanPattern(s, 0);
    if r.Closed? then r.end else |s|
  }

  /** How much of the line's loose text belongs to the regex literal it starts in. */
  function Held(l: Line): (n: nat)
    ensures n <= |Loose(l)|
  {
    HeldOf(Loose(l))
  }

  /** The line without that part. */
  function Unheld(l: Line): Line {
    if l.cells == [] then l.(tail := l.tail[Held(l)..])
    else l.(cells := [l.cells[0].(gap := l.cells[0].gap[Held(l)..])] + l.cells[1..])
  }

  function Items(l: Line, inside: bool): seq<Item> {
    if inside then [Literal(Loose(l)[..Held(l)])] + PlainItems(Unheld(l)) else PlainItems(l)
  }

  function LineItems(l: Line, inside: bool): seq<Item> {
    if BlankFree(l) then [] else Items(l, inside)
  }

  /** The items of a document whose first line starts inside a regex literal or not. */
  function Essence(doc: Document, inside: bool): seq<Item> {
    if doc == [] then []
    else LineItems(doc[0], inside) + Essence(doc[1..], LeavesPattern(doc[0], inside))
  }

  // ---------------------------------------------------------------------------------
  // Blanks around a text.

  lemma TrimBlanks(s: string)
    ensures Blanks(s) <==> Trim(s) == ""
  {
    hide Lead, ChopLength, Blank;
    LeadBlanks(s);
    LeadBlanks(s[Lead(s)..]);
    assert s == s[..Lead(s)] + s[Lead(s)..];
    BlanksBefore(s);
    BlanksJoin(s[..Lead(s)], s[Lead(s)..]);
  }

  lemma BlanksBefore(s: string)
    ensures Blanks(s[..Lead(s)])
  {
    hide Lead, Blank;
  }

  lemma TrimChop(s: string)
    ensures Trim(Chop(s)) == Trim(s)
  {
    hide Lead, ChopLength, Blanks;
    var c, b := Chop(s), s[ChopLength(s)..];
    assert s == c + b;
    BlanksAfter(s);
    LeadJoin(c, b);
    if Blanks(c) {
      BlanksJoin(c, b);
      TrimBlanks(c);
      TrimBlanks(s);
    } else {
      assert s[Lead(s)..] == c[Lead(c)..] + b;
      ChopJoin(c[Lead(c)..], b);
      assert (c[Lead(c)..] + b)[..ChopLength(c[Lead(c)..])] == c[Lead(c)..][..ChopLength(c[Lead(c)..])];
    }
  }

  lemma TrimReindent(s: string, depth: nat)
    ensures Trim(Reindent(s, depth)) == Trim(s)
  {
    hide Lead, ChopLength, Blanks, Spaces;
    var rest := s[Lead(s)..];
    LeadJoin(Spaces(2 * depth), rest);
    LeadIs(rest, 0);
    assert (Spaces(2 * depth) + rest)[2 * depth..] == rest;
  }

  lemma TrimGap(want: Want, gap: string)
    ensures Trim(NewGap(want, gap)) == Trim(gap)
  {
    hide Trim;
    TrimBlanks(gap);
    TrimBlanks(NewGap(want, gap));
  }

  // ---------------------------------------------------------------------------------
  // A line.

  lemma {:induction false} RestItems(ts: seq<Token>, k: nat, cells: seq<Cell>)
    requires k + |cells| < |ts|
    ensures CellItems(TidyRest(ts, k, cells)) == CellItems(cells)
    decreases cells
  {
    hide WantedGap, NewGap, Trim;
    if cells != [] {
      RestItems(ts, k + 1, cells[1..]);
      TrimGap(WantedGap(ts, k), cells[0].gap);
      assert TidyRest(ts, k, cells)[1..] == TidyRest(ts, k + 1, cells[1..]);
    }
  }

  lemma TidyCellItems(ts: seq<Token>, k: nat, l: Line, depth: nat)
    requires k + |l.cells| < |ts|
    ensures CellItems(TidyCells(ts, k, l, depth)) == CellItems(l.cells)
  {
    hide Trim, Reindent, TidyRest;
    if l.cells != [] {
      RestItems(ts, k, l.cells[1..]);
      TrimReindent(l.cells[0].gap, depth);
      assert TidyCells(ts, k, l, depth)[1..] == TidyRest(ts, k, l.cells[1..]);
    }
  }

  /** A blank line that is no part of a string literal has no tokens. */
  lemma BlankLine(l: Line)
    requires LexedLine(l) && Blanks(LineText(l)) && !(l.inString && l.unclosed)
    ensures BlankFree(l) && l.cells == [] && l.carried == ""
  {
    hide ChopLength;
    LineParts(l);
    BlanksJoin(Front(l) + CellsText(Rest(l)), l.tail);
    BlanksJoin(Front(l), CellsText(Rest(l)));
    if l.cells != [] {
      FrontVisible(l);
    } else if l.inString {
      BodyEnds(l);
    }
  }

  /** A line that is not blank does not become blank. */
  lemma TidyVisible(ts: seq<Token>, k: nat, l: Line, depth: nat)
    requires LexedLine(l) && k + |l.cells| < |ts| && !Blanks(LineText(l)) && !(l.inString && l.unclosed)
    ensures !Blanks(LineText(TidyLine(ts, k, l, depth)))
  {
    hide Blanks, Reindent, Chop, TidyCells;
    var t := TidyLine(ts, k, l, depth);
    if l.cells != [] {
      TidyCell(ts, k, l, depth, 0);
      assert LexedCell(l.cells[0], l.unclosed && |l.cells| == 1);
      TokenVisible(t);
    } else {
      assert LineText(l) == l.carried + l.tail && LineText(t) == t.carried + t.tail;
      BlanksJoin(l.carried, l.tail);
      BlanksJoin(t.carried, t.tail);
      TrimBlanks(l.tail);
      TrimBlanks(t.tail);
      TrimChop(l.tail);
      TrimChop(Reindent(l.tail, depth));
      TrimReindent(l.tail, depth);
    }
  }

  lemma TokenVisible(l: Line)
    requires l.cells != [] && |l.cells[0].text| > 0 && !Blank(l.cells[0].text[0])
    ensures !Blanks(LineText(l))
  {
    hide Blank;
    var c := l.cells[0];
    var n := |l.carried| + |c.gap|;
    assert LineText(l)[n] == c.text[0];
  }

  lemma TidyPlainItems(ts: seq<Token>, k: nat, l: Line, depth: nat)
    requires LexedLine(l) && k + |l.cells| < |ts|
    ensures LineItems(TidyLine(ts, k, l, depth), false) == LineItems(l, false)
  {
    hide Trim, Reindent, Chop, TidyCells, LexedLine, CellItems, Blanks, LineText;
    if l.inString && l.unclosed {
    } else if Blanks(LineText(l)) {
      BlankLine(l);
      EmptiedItems(l, false);
    } else {
      TidyCellItems(ts, k, l, depth);
      TrimReindent(l.tail, depth);
      TrimChop(l.tail);
      TrimChop(Reindent(l.tail, depth));
      TidyVisible(ts, k, l, depth);
    }
  }

  lemma EmptiedItems(l: Line, inside: bool)
    requires BlankFree(l)
    ensures LineItems(Emptied(l), inside) == [] && LineItems(l, inside) == []
  {
    hide Items;
    BlankText(l);
  }

  // ---------------------------------------------------------------------------------
  // A line that starts inside a regex literal.

  /** The part of the literal on a tidied line: the same, with the indentation wanted. */
  lemma TidyHeld(ts: seq<Token>, k: nat, l: Line, depth: nat)
    requires LexedLine(l) && LexedPattern(l, true) && k + |l.cells| < |ts|
    ensures var t := TidyLine(ts, k, l, depth);
            && Lead(Loose(l)) < Held(l) && Held(t) == Held(l) - Lead(Loose(l)) + 2 * depth
            && Loose(t)[..Held(t)] == Spaces(2 * depth) + Loose(l)[Lead(Loose(l))..Held(l)]
            && Trim(Loose(t)[Held(t)..]) == Trim(Loose(l)[Held(l)..])
  {
    hide ScanPattern, LexedLine, Spaces, Lead, Chop, Reindent, TidyLine, Trim, Blanks, Loose;
    InsideLine(l, true);
    LeadBlanks(Loose(l));
    TidyLoose(ts, k, l, depth);
    HeldMoved(Loose(l), Loose(TidyLine(ts, k, l, depth)), depth, l.cells == []);
  }

  lemma HeldMoved(s: string, c: string, depth: nat, chopped: bool)
    requires !ScanPattern(s, 0).NoPattern? && Lead(s) < |s|
    requires c == if chopped then Chop(Reindent(s, depth)) else Reindent(s, depth)
    ensures Lead(s) < HeldOf(s) && HeldOf(c) == HeldOf(s) - Lead(s) + 2 * depth
    ensures c[..HeldOf(c)] == Spaces(2 * depth) + s[Lead(s)..HeldOf(s)] && Trim(c[HeldOf(c)..]) == Trim(s[HeldOf(s)..])
  {
    hide ScanPattern, Spaces, Lead, Reindent, Chop, Trim;
    HeldReindented(s, depth);
    if chopped {
      var r := Reindent(s, depth);
      ChopHeld(r, HeldOf(r));
      ScanChop(r);
    }
  }

  lemma HeldReindented(s: string, depth: nat)
    requires !ScanPattern(s, 0).NoPattern? && Lead(s) < |s|
    ensures var r := Reindent(s, depth);
            && !ScanPattern(r, 0).NoPattern? && Lead(s) < HeldOf(s) && HeldOf(r) == HeldOf(s) - Lead(s) + 2 * depth
            && r[..HeldOf(r)] == Spaces(2 * depth) + s[Lead(s)..HeldOf(s)] && r[HeldOf(r)..] == s[HeldOf(s)..]
  {
    hide ScanPattern, Spaces, Lead, Reindent;
    ScanReindent(s, depth);
    ReindentSplit(s, depth, HeldOf(s));
  }

  lemma ReindentSplit(s: string, depth: nat, n: nat)
    requires Lead(s) <= n <= |s|
    ensures var r, m := Reindent(s, depth), n - Lead(s) + 2 * depth;
            && m <= |r| && r[..m] == Spaces(2 * depth) + s[Lead(s)..n] && r[m..] == s[n..]
  {
    hide Lead;
  }

  lemma ChopHeld(r: string, n: nat)
    requires n <= |r| && (n == |r| ==> ScanPattern(r, 0).GoesOn? || ScanPattern(r, 0).Closed?)
    requires ScanPattern(r, 0) == Closed(n) || (ScanPattern(r, 0).GoesOn? && n == |r|)
    ensures n <= |Chop(r)| && Chop(r)[..n] == r[..n] && Trim(Chop(r)[n..]) == Trim(r[n..])
    ensures ScanPattern(r, 0).GoesOn? ==> Chop(r) == r
  {
    hide ScanPattern, ChopLength, Lead, Blanks;
    if ScanPattern(r, 0).GoesOn? {
      EndsVisible(r);
    } else {
      var a, b := r[..n], r[n..];
      assert r == a + b;
      ChopJoin(a, b);
      EndsVisible(a);
      LeadBlanks(b);
      assert Chop(r) == a + Chop(b);
      assert Chop(r)[n..] == Chop(b);
      TrimChop(b);
    }
  }

  lemma UnheldItems(ts: seq<Token>, k: nat, l: Line, depth: nat)
    requires LexedLine(l) && LexedPattern(l, true) && k + |l.cells| < |ts|
    ensures PlainItems(Unheld(TidyLine(ts, k, l, depth))) == PlainItems(Unheld(l))
  {
    hide ScanPattern, LexedLine, Spaces, Lead, Chop, Trim, Blanks, Held, Reindent;
    var t := TidyLine(ts, k, l, depth);
    InsideLine(l, true);
    TidyHeld(ts, k, l, depth);
    TidyLoose(ts, k, l, depth);
    if l.cells != [] {
      var c, d := l.cells[0], t.cells[0];
      RestItems(ts, k, l.cells[1..]);
      assert t.cells[1..] == TidyRest(ts, k, l.cells[1..]);
      assert Unheld(t).cells[1..] == t.cells[1..] && Unheld(l).cells[1..] == l.cells[1..];
      TrimChop(l.tail);
    }
  }

  /** The line is indented as wanted where it starts inside a regex literal. */
  lemma HeldKept(l: Line, depth: nat)
    requires LexedLine(l) && LexedPattern(l, true)
    ensures Lead(Loose(l)) < Held(l)
    ensures Spaces(2 * depth) + Loose(l)[Lead(Loose(l))..Held(l)] == Loose(l)[..Held(l)] <==>
            Indented(LineText(l), 2 * depth)
  {
    hide ScanPattern, LexedLine, Lead, Blanks, LineText, Loose;
    InsideLine(l, true);
    var s := Loose(l);
    LeadBlanks(s);
    var rest :| LineText(l) == s + rest;
    LeadJoin(s, rest);
    HeldVisible(l);
    var n, h := Lead(s), Held(l);
    assert LineText(l)[..n] == s[..n];
    assert s[..h] == s[..n] + s[n..h];
    var made := Spaces(2 * depth) + s[n..h];
    if made == s[..h] {
      assert |made| == 2 * depth + h - n;
      assert made[..n] == s[..n];
    }
  }

  lemma HeldVisible(l: Line)
    requires LexedPattern(l, true)
    ensures Lead(Loose(l)) < Held(l)
  {
    hide ScanPattern, Lead;
    ScanReindent(Loose(l), 0);
    ScanVisible(Loose(l));
    LeadBlanks(Loose(l));
  }

  /** A tidied line has the items it had, unless a regex literal goes on there that is not
      indented like code. */
  lemma TidyItems(ts: seq<Token>, k: nat, l: Line, depth: nat, inside: bool)
    requires LexedLine(l) && LexedPattern(l, inside) && k + |l.cells| < |ts|
    ensures var t := TidyLine(ts, k, l, depth);
            && |LineItems(t, inside)| == |LineItems(l, inside)|
            && (LineItems(t, inside) == LineItems(l, inside) <==> (inside ==> Indented(LineText(l), 2 * depth)))
  {
    hide LexedLine, LexedPattern, Indented, Unheld, Held, PlainItems, TidyLine, Loose, Lead, Spaces, LineText, Blanks;
    if inside {
      var t := TidyLine(ts, k, l, depth);
      InsideLine(l, true);
      TidyHeld(ts, k, l, depth);
      UnheldItems(ts, k, l, depth);
      HeldKept(l, depth);
      NotInString(l);
      TidyVisible(ts, k, l, depth);
      var a, b, p := Literal(Loose(l)[..Held(l)]), Literal(Loose(t)[..Held(t)]), PlainItems(Unheld(l));
      assert ([a] + p == [b] + p) <==> a == b by {
        assert ([a] + p)[0] == a && ([b] + p)[0] == b;
      }
    } else {
      TidyPlainItems(ts, k, l, depth);
    }
  }

  lemma NotInString(l: Line)
    requires LexedPattern(l, true)
    ensures !l.inString
  {
  }

  // ---------------------------------------------------------------------------------
  // The document.

  /** No edit of line `i` falls into a regex literal. */
  predicate Undisturbed(doc: Document, depths: seq<nat>, i: nat, first: nat, last: nat)
    requires i < |doc| == |depths|
  {
    InPattern(doc, i) && InRange(i, first, last) ==> Indented(LineText(doc[i]), 2 * depths[i])
  }

  lemma LexedPatternAt(doc: Document, i: nat)
    requires Lexed(doc) && i < |doc|
    ensures LexedLine(doc[i]) && LexedPattern(doc[i], InPattern(doc, i))
  {
  }

  /** Inside a regex literal no line is blank. */
  lemma BlankOutside(doc: Document, i: nat)
    requires Lexed(doc) && i < |doc| && BlankFree(doc[i])
    ensures !InPattern(doc, i) && doc[i].cells == []
  {
    hide LexedLine, LexedPattern, InPattern;
    LexedPatternAt(doc, i);
    BlankLine(doc[i]);
    if InPattern(doc, i) {
      InsideLine(doc[i], true);
    }
  }

  lemma SurplusFree(doc: Document, i: nat)
    requires Surplus(doc, i)
    ensures BlankFree(doc[i])
  {
  }

  lemma DoomedFree(doc: Document, i: nat, first: nat, last: nat)
    requires Doomed(doc, i, first, last)
    ensures Surplus(doc, i)
  {
  }

  lemma NewLineItems(doc: Document, depths: seq<nat>, i: nat, first: nat, last: nat)
    requires Lexed(doc) && i < |doc| == |depths|
    ensures var l, inside := NewLine(doc, depths, i, first, last), InPattern(doc, i);
            && |LineItems(l, inside)| == |LineItems(doc[i], inside)|
            && (LineItems(l, inside) == LineItems(doc[i], inside) <==> Undisturbed(doc, depths, i, first, last))
            && LeavesPattern(l, inside) == LeavesPattern(doc[i], inside)
  {
    hide LineItems, TidyLine, LexedLine, LexedPattern, Lexed, Surplus, Doomed, Indented, InPattern, BlankFree, ScanPattern,
         LineText, Tokens, TokenIndex;
    LexedPatternAt(doc, i);
    if Doomed(doc, i, first, last) {
      DoomedFree(doc, i, first, last);
    }
    if Surplus(doc, i) {
      SurplusFree(doc, i);
      BlankOutside(doc, i);
      EmptiedItems(doc[i], false);
    } else if InRange(i, first, last) {
      IndexBound(doc, i);
      var ts, k := Tokens(doc), TokenIndex(doc, i);
      TidyItems(ts, k, doc[i], depths[i], InPattern(doc, i));
      BlankHasNone(doc[i]);
      TidyPattern(ts, k, doc[i], depths[i], InPattern(doc, i));
    }
  }

  lemma BlankHasNone(l: Line)
    requires LexedLine(l)
    ensures Blanks(LineText(l)) && !(l.inString && l.unclosed) ==> l.cells == []
  {
    hide LexedLine;
    if Blanks(LineText(l)) && !(l.inString && l.unclosed) {
      BlankLine(l);
    }
  }

  lemma InPatternStep(doc: Document, i: nat)
    requires i < |doc|
    ensures InPattern(doc, i + 1) == LeavesPattern(doc[i], InPattern(doc, i))
  {
  }

  lemma EssenceCons(l: Line, rest: Document, inside: bool)
    ensures Essence([l] + rest, inside) == LineItems(l, inside) + Essence(rest, LeavesPattern(l, inside))
  {
    hide LineItems, LeavesPattern;
    assert ([l] + rest)[1..] == rest;
  }

  lemma PartsEqual<T>(a: seq<T>, b: seq<T>, c: seq<T>, d: seq<T>)
    requires |a| == |c|
    ensures a + b == c + d <==> a == c && b == d
  {
    if a + b == c + d {
      assert (a + b)[..|a|] == a && (c + d)[..|a|] == c;
      assert (a + b)[|a|..] == b && (c + d)[|a|..] == d;
    }
  }

  lemma {:induction false} FormattedEssence(doc: Document, depths: seq<nat>, i: nat, first: nat, last: nat)
    requires Lexed(doc) && i <= |doc| == |depths|
    ensures var made, was := Essence(Formatted(doc, depths, i, first, last), InPattern(doc, i)), Essence(doc[i..], InPattern(doc, i));
            && |made| == |was|
            && (made == was <==> forall j: nat :: i <= j < |doc| ==> Undisturbed(doc, depths, j, first, last))
    decreases |doc| - i
  {
    hide LineItems, NewLine, Lexed, Doomed, Essence, InPattern, Undisturbed, LeavesPattern;
    if i == |doc| {
      NoEssence(InPattern(doc, i));
    } else {
      var inside := InPattern(doc, i);
      FormattedEssence(doc, depths, i + 1, first, last);
      InPatternStep(doc, i);
      assert doc[i..] == [doc[i]] + doc[i + 1..];
      EssenceCons(doc[i], doc[i + 1..], inside);
      NewLineItems(doc, depths, i, first, last);
      var l, rest := NewLine(doc, depths, i, first, last), Formatted(doc, depths, i + 1, first, last);
      if Keeps(doc, i, first, last) {
        EssenceCons(l, rest, inside);
      } else {
        DoomedItems(doc, depths, i, first, last);
        assert [] + rest == rest;
        assert [] + Essence(rest, false) == Essence(rest, false);
      }
      PartsEqual(LineItems(l, inside), Essence(rest, InPattern(doc, i + 1)), LineItems(doc[i], inside),
                 Essence(doc[i + 1..], InPattern(doc, i + 1)));
    }
  }

  lemma NoEssence(inside: bool)
    ensures Essence([], inside) == []
  {
  }

  lemma DoomedItems(doc: Document, depths: seq<nat>, i: nat, first: nat, last: nat)
    requires Lexed(doc) && i < |doc| == |depths| && Doomed(doc, i, first, last)
    ensures !InPattern(doc, i) && !InPattern(doc, i + 1)
    ensures LineItems(doc[i], false) == [] && LineItems(NewLine(doc, depths, i, first, last), false) == []
  {
    hide BlankFree, Lexed;
    DoomedFree(doc, i, first, last);
    SurplusFree(doc, i);
    BlankOutside(doc, i);
    EmptiedItems(doc[i], false);
  }

  /** Formatting any range of lines leaves every literal, every token, everything between them
      and every end of a line that is not blank as it is, in the same order, exactly when each
      line of the range that a regex literal goes on on is already indented like code. */
  lemma MeaningKept(doc: Document, depths: seq<nat>, first: nat, last: nat)
    requires Lexed(doc) && |doc| == |depths|
    ensures Essence(Formatted(doc, depths, 0, first, last), false) == Essence(doc, false) <==>
            forall i: nat :: i < |doc| ==> Undisturbed(doc, depths, i, first, last)
  {
    hide Lexed, Undisturbed, Essence;
    FormattedEssence(doc, depths, 0, first, last);
    assert doc[0..] == doc;
  }

  /** So it is on every document where no regex literal goes over the end of a line. */
  lemma OrdinaryKept(doc: Document, depths: seq<nat>, first: nat, last: nat)
    requires Lexed(doc) && |doc| == |depths| && forall i: nat :: i < |doc| ==> !OpensPattern(doc[i])
    ensures Essence(Formatted(doc, depths, 0, first, last), false) == Essence(doc, false)
  {
    hide Lexed, Essence, OpensPattern, Indented;
    MeaningKept(doc, depths, first, last);
    forall i: nat | i < |doc|
      ensures Undisturbed(doc, depths, i, first, last)
    {
      NoneOpen(doc, i);
    }
  }

  // ---------------------------------------------------------------------------------
  // A text whose regex literal does not survive.

  /** `x = /a\` and, on the next line, `  b/`. */
  function PatternSample(): Document {
    [Line(false, "", [Cell("", Identifier, "x"), Cell(" ", Equal, "="), Cell(" ", Regex, "/a\\")], "", false, "\n"),
     Line(false, "", [], "  b/", false, "")]
  }

  lemma PatternLines()
    ensures var doc := PatternSample();
            && LineText(doc[0]) == "x = /a\\" && LineText(doc[1]) == "  b/"
            && LexedLine(doc[0]) && LexedLine(doc[1])
  {
    hide LineText;
    PatternTexts();
    var cells := PatternSample()[0].cells;
    assert Plain('x') && Plain('=') && Plain('/') && Plain('\\');
    assert forall j :: 0 <= j < 3 ==> LexedCell(cells[j], false);
  }

  lemma PatternTexts()
    ensures LineText(PatternSample()[0]) == "x = /a\\" && LineText(PatternSample()[1]) == "  b/"
  {
    var a, b, c := Cell("", Identifier, "x"), Cell(" ", Equal, "="), Cell(" ", Regex, "/a\\");
    TwoCells(c, []);
    TwoCells(b, [c]);
    TwoCells(a, [b, c]);
    assert [a] + ([b] + ([c] + [])) == PatternSample()[0].cells;
  }

  lemma TwoCells(c: Cell, rest: seq<Cell>)
    ensures CellsText([c] + rest) == c.gap + c.text + CellsText(rest)
  {
    assert ([c] + rest)[1..] == rest;
  }

  lemma PatternScans()
    ensures ScanPattern("/a\\", 1) == GoesOn && ScanPattern("  b/", 0) == Closed(4)
  {
    assert ScanPattern("/a\\", 2) == GoesOn;
    assert FlagsEnd("  b/", 4) == 4;
    assert ScanPattern("  b/", 3) == Closed(4);
    assert ScanPattern("  b/", 2) == Closed(4);
  }

  lemma PatternLexed()
    ensures var doc := PatternSample();
            && Lexed(doc) && Render(doc) == "x = /a\\\n  b/" && !InPattern(doc, 0) && InPattern(doc, 1)
  {
    hide LineText, LexedLine, ScanPattern;
    PatternLines();
    PatternScans();
    var doc := PatternSample();
    assert !InPattern(doc, 0) && InPattern(doc, 1) && !InPattern(doc, 2);
    assert LexedPattern(doc[0], false) && LexedPattern(doc[1], true);
    assert Render(doc[1..][1..]) == "";
    assert Render(doc[1..]) == "  b/";
  }

  lemma PatternTokens()
    ensures Tokens(PatternSample()) ==
            [Token(Identifier, 1, 0, 1), Token(Equal, 1, 2, 1), Token(Regex, 1, 4, 8), Token(Eof, 2, 12, 0)]
  {
    hide LineText, ScanPattern, CellTokens, Past;
    PatternTexts();
    PatternCells();
    var doc := PatternSample();
    assert TokensFrom(doc, 2, 12) == [Token(Eof, 2, 12, 0)];
    assert TokensFrom(doc, 1, 8) == [Token(Eof, 2, 12, 0)];
  }

  lemma PatternCells()
    ensures var doc := PatternSample();
            && Past(doc, 0) == 5
            && CellTokens(doc[0].cells, 1, 0, 5) ==
               [Token(Identifier, 1, 0, 1), Token(Equal, 1, 2, 1), Token(Regex, 1, 4, 8)]
  {
    hide LineText, ScanPattern;
    PatternScans();
    var doc := PatternSample();
    assert PatternOver(doc, 0) == 5;
    var cells := doc[0].cells;
    assert cells[1..][1..] == cells[2..] && cells[2..][1..] == [];
    assert CellTokens(cells[2..], 1, 3, 5) == [Token(Regex, 1, 4, 8)];
    assert CellTokens(cells[1..], 1, 1, 5) == [Token(Equal, 1, 2, 1), Token(Regex, 1, 4, 8)];
  }

  /** Formatting takes the two blanks at the start of the second line out of the regex. */
  lemma PatternChanged()
    ensures var doc := PatternSample();
            && Lexed(doc) && Render(doc) == "x = /a\\\n  b/" && Depths(Tokens(doc), 2) == Some([0, 0])
            && Essence(Formatted(doc, [0, 0], 0, 0, 2), false) != Essence(doc, false)
  {
    hide Lexed, Essence, Tokens, Depths, LineText, InPattern;
    var doc := PatternSample();
    PatternLines();
    PatternLexed();
    PatternTokens();
    PatternDepths(Tokens(doc));
    MeaningKept(doc, [0, 0], 0, 2);
    LeadIs("  b/", 2);
    assert !Undisturbed(doc, [0, 0], 1, 0, 2);
  }

  lemma PatternDepths(ts: seq<Token>)
    requires ts == [Token(Identifier, 1, 0, 1), Token(Equal, 1, 2, 1), Token(Regex, 1, 4, 8), Token(Eof, 2, 12, 0)]
    ensures Depths(ts, 2) == Some([0, 0])
  {
    var ls := LineState(false, true, false, false);
    var rest := ls.(first := false);
    var a, b, c := INITIAL.(prev := Identifier), INITIAL.(prev := Equal), INITIAL.(prev := Regex);
    assert ApplyLine(ts, 1, 3, c, rest) == Some((c, rest, 3));
    assert ApplyLine(ts, 1, 2, b, rest) == Some((c, rest, 3));
    assert ApplyLine(ts, 1, 1, a, rest) == Some((c, rest, 3));
    assert ApplyLine(ts, 1, 0, INITIAL, ls) == Some((c, rest, 3));
    assert LineStep(ts, 1, 0, INITIAL) == Some(Step(0, c, 3));
    assert DepthsFrom(ts, 2, 3, 3, c) == Some([]);
    assert !Starts(ts, 3, 2) && |c.levels| == 0 && [0] + [] == [0];
    assert DepthsFrom(ts, 2, 2, 3, c) == Some([0]);
    assert [0] + [0] == [0, 0];
  }

  lemma {:induction false} NoneOpen(doc: Document, i: nat)
    requires i <= |doc| && forall j: nat :: j < |doc| ==> !OpensPattern(doc[j])
    ensures !InPattern(doc, i)
  {
    hide OpensPattern;
    if i > 0 {
      NoneOpen(doc, i - 1);
    }
  }
}
