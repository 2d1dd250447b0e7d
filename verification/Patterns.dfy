/** What formatting does to regex literals that go on past a line. */
module Patterns {
  import opened Layout
  import opened Depth
  import opened Format
  import opened FormatLine

  function Along(r: PatternScan, n: nat): PatternScan {
    if r.Closed? then Closed(r.end + n) else r
  }

  lemma {:induction false} FlagsShift(a: string, b: string, i: nat)
    requires i <= |b|
    ensures FlagsEnd(a + b, |a| + i) == |a| + FlagsEnd(b, i)
    decreases |b| - i
  {
    if i < |b| {
      FlagsShift(a, b, i + 1);
    }
  }

  lemma {:induction false} ScanShift(a: string, b: string, i: nat)
    requires i <= |b|
    ensures ScanPattern(a + b, |a| + i) == Along(ScanPattern(b, i), |a|)
    decreases |b| - i
  {
    hide FlagsEnd;
    if i < |b| {
      assert (a + b)[|a| + i] == b[i];
      if b[i] == '/' {
        FlagsShift(a, b, i + 1);
      } else if b[i] != '\\' {
        ScanShift(a, b, i + 1);
      } else if i + 1 < |b| {
        assert (a + b)[|a| + i + 1] == b[i + 1];
        ScanShift(a, b, i + 2);
      }
    }
  }

  /** Blanks in front are passed over. */
  lemma {:induction false} ScanAfterBlanks(a: string, b: string, i: nat)
    requires i <= |a| && Blanks(a)
    ensures ScanPattern(a + b, i) == Along(ScanPattern(b, 0), |a|)
    decreases |a| - i
  {
    if i == |a| {
      ScanShift(a, b, 0);
    } else {
      assert Blank((a + b)[i]);
      ScanAfterBlanks(a, b, i + 1);
    }
  }

  lemma {:induction false} FlagsPrefix(s: string, i: nat, m: nat)
    requires i <= |s| && FlagsEnd(s, i) <= m <= |s|
    ensures FlagsEnd(s[..m], i) == FlagsEnd(s, i)
    decreases |s| - i
  {
    if i < FlagsEnd(s, i) {
      FlagsPrefix(s, i + 1, m);
    }
  }

  /** What follows the end of the literal does not matter. */
  lemma {:induction false} ScanPrefix(s: string, i: nat, m: nat)
    requires i <= |s| && ScanPattern(s, i).Closed? && ScanPattern(s, i).end <= m <= |s|
    ensures ScanPattern(s[..m], i) == ScanPattern(s, i)
    decreases |s| - i
  {
    hide FlagsEnd;
    assert i < m && s[..m][i] == s[i];
    if s[i] == '/' {
      FlagsPrefix(s, i + 1, m);
    } else if s[i] != '\\' {
      ScanPrefix(s, i + 1, m);
    } else {
      ScanPrefix(s, i + 2, m);
      assert i + 2 < m && s[..m][i + 1] == s[i + 1];
    }
  }

  lemma ScanVisible(s: string)
    requires !ScanPattern(s, 0).NoPattern?
    ensures !Blanks(s)
  {
    hide ScanPattern;
    var r := ScanPattern(s, 0);
    assert r.Closed? ==> !Blank(s[r.end - 1]);
  }

  /** A new indentation moves the end of the literal along. */
  lemma ScanReindent(s: string, depth: nat)
    requires !ScanPattern(s, 0).NoPattern?
    ensures var r, lead := ScanPattern(s, 0), Lead(s);
            && (r.Closed? ==> lead < r.end)
            && ScanPattern(Reindent(s, depth), 0) == if r.Closed? then Closed(r.end - lead + 2 * depth) else r
  {
    hide ScanPattern, Lead, Spaces, Blank;
    var a, b := s[..Lead(s)], s[Lead(s)..];
    assert Blanks(a);
    assert s == a + b;
    ScanAfterBlanks(a, b, 0);
    ScanAfterBlanks(Spaces(2 * depth), b, 0);
  }

  lemma ScanChop(s: string)
    requires !ScanPattern(s, 0).NoPattern?
    ensures ScanPattern(Chop(s), 0) == ScanPattern(s, 0)
  {
    hide ScanPattern, ChopLength;
    var r := ScanPattern(s, 0);
    if r.Closed? {
      assert !Blank(s[r.end - 1]);
      assert r.end <= ChopLength(s);
      ScanPrefix(s, 0, ChopLength(s));
    } else {
      EndsVisible(s);
    }
  }

  lemma InsideLine(l: Line, inside: bool)
    requires LexedLine(l) && LexedPattern(l, inside) && inside
    ensures l.carried == "" && !l.inString && !(l.unclosed && l.cells == [])
    ensures !Blanks(Loose(l)) && !Blanks(LineText(l))
    ensures exists rest :: LineText(l) == Loose(l) + rest
  {
    hide ScanPattern, Blanks;
    ScanVisible(Loose(l));
    if l.cells == [] {
      assert LineText(l) == Loose(l) + "" by {
        NoText();
      }
      BlanksJoin(Loose(l), "");
    } else {
      var rest := LooseThen(l);
      BlanksJoin(Loose(l), rest);
    }
  }

  lemma LooseThen(l: Line) returns (rest: string)
    requires l.carried == "" && l.cells != []
    ensures LineText(l) == Loose(l) + rest
  {
    rest := l.cells[0].text + CellsText(l.cells[1..]) + l.tail;
    assert CellsText(l.cells) == l.cells[0].gap + l.cells[0].text + CellsText(l.cells[1..]);
  }

  lemma NoText()
    ensures CellsText([]) == ""
  {
  }

  /** The loose text of a tidied line that starts inside a regex literal. */
  lemma TidyLoose(ts: seq<Token>, k: nat, l: Line, depth: nat)
    requires LexedLine(l) && LexedPattern(l, true) && k + |l.cells| < |ts|
    ensures var t := TidyLine(ts, k, l, depth);
            && t.cells == TidyCells(ts, k, l, depth) && t.tail == (if l.cells == [] then Loose(t) else Chop(l.tail))
            && Loose(t) == if l.cells == [] then Chop(Reindent(Loose(l), depth)) else Reindent(Loose(l), depth)
  {
    hide ScanPattern, Blanks, Reindent, Chop, TidyRest, LineText;
    InsideLine(l, true);
  }

  lemma TidyScan(ts: seq<Token>, k: nat, l: Line, depth: nat)
    requires LexedLine(l) && LexedPattern(l, true) && k + |l.cells| < |ts|
    ensures var r, lead := ScanPattern(Loose(l), 0), Lead(Loose(l));
            && (r.Closed? ==> lead < r.end)
            && ScanPattern(Loose(TidyLine(ts, k, l, depth)), 0) ==
               if r.Closed? then Closed(r.end - lead + 2 * depth) else r
  {
    hide ScanPattern, LexedLine, Reindent, Chop, TidyLine, Lead;
    TidyLoose(ts, k, l, depth);
    ScanReindent(Loose(l), depth);
    ScanChop(Reindent(Loose(l), depth));
  }

  /** A tidied line goes on with its regex literals as it did. */
  lemma TidyPattern(ts: seq<Token>, k: nat, l: Line, depth: nat, inside: bool)
    requires LexedLine(l) && LexedPattern(l, inside) && k + |l.cells| < |ts|
    requires Blanks(LineText(l)) && !(l.inString && l.unclosed) ==> l.cells == []
    ensures var t := TidyLine(ts, k, l, depth);
            LexedPattern(t, inside) && LeavesPattern(t, inside) == LeavesPattern(l, inside)
  {
    hide ScanPattern, LexedLine, Reindent, Chop, TidyCells, LexedRegex, Lead, Blanks, LineText;
    var t := TidyLine(ts, k, l, depth);
    if l.inString && l.unclosed {
    } else if Blanks(LineText(l)) {
      if inside {
        InsideLine(l, inside);
      }
    } else {
      forall j | 0 <= j < |l.cells|
        ensures t.cells[j].kind == l.cells[j].kind && t.cells[j].text == l.cells[j].text
      {
        TidyCell(ts, k, l, depth, j);
      }
      assert OpensPattern(t) == OpensPattern(l);
      NoChop();
      if inside {
        TidyLoose(ts, k, l, depth);
        TidyScan(ts, k, l, depth);
      }
    }
  }

  lemma NoChop()
    ensures Chop("") == ""
  {
  }
}
