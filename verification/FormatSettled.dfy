/** Formatting a range of lines, and then the same range of the formatted document: when nothing
    is left to do. */
module FormatSettled {
  import opened Wrappers
  import opened Layout
  import opened Depth
  import opened Spacing
  import opened Format
  import opened FormatLine
  import opened FormatText
  import opened FormatApply
  import opened FormatMeaning
  import opened FormatTwice
  import opened FormatAgain

  // ---------------------------------------------------------------------------------
  // What the first formatting leaves.

  /** Line `i` is blank once the lines `first` to `last` are formatted. */
  predicate Voids(doc: Document, i: nat, first: nat, last: nat)
    requires i < |doc|
  {
    if Touched(doc, i, first, last) then Hollow(doc[i]) else BlankFree(doc[i])
  }

  /** The last line then still has something on it, if only a carriage return at its end. */
  predicate StillCounts(doc: Document, i: nat, first: nat, last: nat)
    requires i < |doc|
  {
    i + 1 < |doc| || if Touched(doc, i, first, last) then Bare(doc[i]) || doc[i].ending == "\r" else Counted(doc, i)
  }

  /** Line `i` is then in a run of blank lines, and not the first of it. */
  predicate NewSurplus(doc: Document, i: nat, first: nat, last: nat) {
    0 < i < |doc| && Voids(doc, i, first, last) && Voids(doc, i - 1, first, last) && StillCounts(doc, i, first, last)
  }

  /** That run starts before the range, where no second formatting looks. */
  predicate Tied(doc: Document, i: nat, first: nat, last: nat) {
    && NewSurplus(doc, i, first, last)
    && if InRange(i - 1, first, last) then Tied(doc, i - 1, first, last) else Surplus(doc, i - 1)
  }

  /** Formatting the lines `first` to `last` once is enough: each is as it should be, or in a run of
      blank lines that starts before them. */
  ghost predicate Settled(doc: Document, depths: seq<nat>, first: nat, last: nat)
    requires |doc| == |depths|
  {
    forall i: nat :: i < |doc| && InRange(i, first, last) && Keeps(doc, i, first, last) ==>
      LineSettled(doc, depths, i, first, last)
  }

  predicate LineSettled(doc: Document, depths: seq<nat>, i: nat, first: nat, last: nat)
    requires i < |doc| == |depths|
  {
    if NewSurplus(doc, i, first, last) then Tied(doc, i, first, last) else Calm(doc[i], depths[i])
  }

  /** The lines `first` to `last`, by their numbers in the formatted document. */
  function NewFirst(doc: Document, first: nat, last: nat): nat {
    Rank(Kept(doc, first, last), if first == 0 then 0 else if first - 1 < |doc| then first - 1 else |doc|) + 1
  }

  function NewLast(doc: Document, first: nat, last: nat): nat {
    Rank(Kept(doc, first, last), if last < |doc| then last else |doc|)
  }

  lemma RangeMapped(doc: Document, i: nat, first: nat, last: nat)
    requires i < |doc| && Kept(doc, first, last)[i]
    ensures InRange(Rank(Kept(doc, first, last), i), NewFirst(doc, first, last), NewLast(doc, first, last)) <==>
            InRange(i, first, last)
  {
    hide Rank, Kept;
    var keep := Kept(doc, first, last);
    var f := if first == 0 then 0 else if first - 1 < |doc| then first - 1 else |doc|;
    var e := if last < |doc| then last else |doc|;
    RankOrder(keep, i, f);
    RankOrder(keep, i, e);
  }

  lemma RankOrder(keep: seq<bool>, i: nat, e: nat)
    requires i < |keep| && keep[i] && e <= |keep|
    ensures Rank(keep, i) < Rank(keep, e) <==> i < e
  {
    hide Rank;
    if i < e {
      RankLess(keep, i, e);
    } else if e < i {
      RankLess(keep, e, i);
    }
  }

  // ---------------------------------------------------------------------------------
  // What the second formatting finds.

  lemma AgainWants(doc: Document, depths: seq<nat>, first: nat, last: nat, k: nat)
    requires Lexed(doc) && |doc| == |depths| && k + 1 < |Tokens(doc)|
    ensures |Tokens(Again(doc, depths, first, last))| == |Tokens(doc)|
    ensures WantedGap(Tokens(doc), k) == WantedGap(Tokens(Again(doc, depths, first, last)), k)
  {
    hide Lexed, Again, Kept, WantedGap, Tokens, Rank;
    AgainTokens(doc, depths, first, last);
    RenumberedLines(Tokens(doc), Tokens(Again(doc, depths, first, last)), Kept(doc, first, last));
    SameWantedGap(Tokens(doc), Tokens(Again(doc, depths, first, last)), k);
  }

  /** A line that is left: the edits it still gets, and whether it is blank. */
  lemma AgainTwice(doc: Document, depths: seq<nat>, first: nat, last: nat, i: nat, depth: nat)
    requires Lexed(doc) && i < |doc| == |depths| && Kept(doc, first, last)[i] && depth == depths[i]
    ensures var d, r := Again(doc, depths, first, last), Rank(Kept(doc, first, last), i);
            && r < |d| && TokenIndex(d, r) + |d[r].cells| < |Tokens(d)|
            && (Touched(doc, i, first, last) ==>
                  (LineEdits(Tokens(d), TokenIndex(d, r), d[r], depth, r) == [] <==> Calm(doc[i], depth)))
            && (BlankFree(d[r]) <==> Voids(doc, i, first, last))
  {
    hide Lexed, Again, Kept, WantedGap, Tokens, Rank, Fresh, LineEdits, Calm, BlankFree, Hollow, TokenIndex, TidyLine,
         Resplit, Touched;
    var d, r := Again(doc, depths, first, last), Rank(Kept(doc, first, last), i);
    AgainLine(doc, depths, first, last, i);
    AgainIndex(doc, depths, first, last, i);
    FreshLine(doc, depths, i, first, last);
    FreshCells(doc, depths, i, first, last);
    var ts, us, k := Tokens(doc), Tokens(d), TokenIndex(doc, i);
    AgainWants0(doc, depths, first, last);
    forall j: nat | k <= j < k + |doc[i].cells| - 1
      ensures WantedGap(ts, j) == WantedGap(us, j)
    {
      AgainWants(doc, depths, first, last, j);
    }
    LexedAt(doc, i);
    LineTwice(ts, us, k, doc[i], depth, r);
  }

  lemma AgainWants0(doc: Document, depths: seq<nat>, first: nat, last: nat)
    requires Lexed(doc) && |doc| == |depths|
    ensures |Tokens(Again(doc, depths, first, last))| == |Tokens(doc)|
  {
    hide Lexed, Again, Kept, Tokens, Rank;
    AgainTokens(doc, depths, first, last);
  }

  /** Lines in a run of blank lines are blank whether they are touched or not. */
  lemma SurplusVoids(doc: Document, i: nat, first: nat, last: nat)
    requires Surplus(doc, i)
    ensures i >= 1 && Voids(doc, i, first, last) && Voids(doc, i - 1, first, last)
  {
    hide Bare, Blanks, LineText, Touched;
  }

  /** The line left before line `i` is blank exactly when line `i - 1` is then. */
  lemma {:induction false} LineBefore(doc: Document, depths: seq<nat>, first: nat, last: nat, i: nat)
    requires Lexed(doc) && 0 < i < |doc| == |depths|
    ensures var d, r := Again(doc, depths, first, last), Rank(Kept(doc, first, last), i);
            0 < r <= |d| && (BlankFree(d[r - 1]) <==> Voids(doc, i - 1, first, last))
  {
    hide Lexed, Again, Kept, Rank, BlankFree, Voids, LineEdits, Calm, Tokens, TokenIndex, Touched;
    var keep := Kept(doc, first, last);
    RankStep(keep, i - 1);
    if keep[i - 1] {
      AgainTwice(doc, depths, first, last, i - 1, depths[i - 1]);
    } else {
      DroppedSurplus(doc, i - 1, first, last);
      SurplusVoids(doc, i - 1, first, last);
      LineBefore(doc, depths, first, last, i - 1);
    }
  }

  /** A hollow last line still counts when a carriage return is left on it. */
  lemma LastCounts(doc: Document, depths: seq<nat>, first: nat, last: nat)
    requires Lexed(doc) && |doc| == |depths|
    ensures var i := |doc| - 1;
            var m := Fresh(doc, depths, first, last)[i];
            Voids(doc, i, first, last) ==> (LineText(m) + m.ending != "" <==> StillCounts(doc, i, first, last))
  {
    hide Lexed, LexedLine, SplitEnding, Fresh, Tokens, TokenIndex, LineText, Bare, Hollow, BlankFree, Touched, Resplit, TidyLine;
    NotEmpty(doc);
    var i := |doc| - 1;
    FreshLine(doc, depths, i, first, last);
    LexedAt(doc, i);
    if Touched(doc, i, first, last) && Hollow(doc[i]) {
      LastHollow(Tokens(doc), TokenIndex(doc, i), doc[i], depths[i]);
    }
  }

  lemma LastHollow(ts: seq<Token>, k: nat, l: Line, depth: nat)
    requires LexedLine(l) && SplitEnding(l, true) && k + |l.cells| < |ts| && Hollow(l)
    ensures var m := Resplit(TidyLine(ts, k, l, depth));
            LineText(m) + m.ending != "" <==> Bare(l) || l.ending == "\r"
  {
    hide Blanks, Chop, Reindent, LexedLine, TidyCells, LineText;
    var t := TidyLine(ts, k, l, depth);
    ResplitText(t);
    if BlankFree(l) {
      BlankText(l);
      BlankNotBare(l);
    } else {
      BareLoose(l);
      LooseText(l);
      ReindentChop(l.tail, depth);
      ReindentLast(Chop(l.tail), depth);
    }
  }

  lemma BlankNotBare(l: Line)
    requires Blanks(LineText(l))
    ensures !Bare(l)
  {
    BlankChop(LineText(l));
  }

  lemma BareLoose(l: Line)
    requires LexedLine(l) && Bare(l) && Blanks(Before(l))
    ensures l.cells == [] && !l.inString && l.carried == "" && !Blanks(LineText(l))
  {
    hide ChopLength;
    if l.cells != [] || l.inString {
      TokenLineBare(l);
    }
    if Blanks(LineText(l)) {
      BlankNotBare(l);
    }
  }

  /** The second formatting finds line `i` in a run of blank lines, and not the first of it,
      exactly when it is in one then. */
  lemma AgainSurplus(doc: Document, depths: seq<nat>, first: nat, last: nat, i: nat)
    requires Lexed(doc) && i < |doc| == |depths| && Kept(doc, first, last)[i]
    ensures var d, r := Again(doc, depths, first, last), Rank(Kept(doc, first, last), i);
            Surplus(d, r) <==> NewSurplus(doc, i, first, last)
  {
    hide Lexed, Again, Kept, Rank, BlankFree, Voids, LineEdits, Calm, Tokens, TokenIndex, LineText, Fresh, Touched;
    var d, r := Again(doc, depths, first, last), Rank(Kept(doc, first, last), i);
    AgainLine(doc, depths, first, last, i);
    AgainLength(doc, depths, first, last);
    if i == 0 {
      RankNone(Kept(doc, first, last));
    } else {
      AgainTwice(doc, depths, first, last, i, depths[i]);
      LineBefore(doc, depths, first, last, i);
      LastRank(doc, first, last, i);
      LastCounts(doc, depths, first, last);
      if i + 1 < |doc| {
        StillCountsInside(doc, i, first, last);
      }
    }
  }

  lemma StillCountsInside(doc: Document, i: nat, first: nat, last: nat)
    requires i + 1 < |doc|
    ensures StillCounts(doc, i, first, last)
  {
  }

  // ---------------------------------------------------------------------------------
  // No edits at all.

  ghost predicate NoneRemoved(d: Document, first: nat, last: nat) {
    forall r: nat :: r < |d| ==> RemovalAt(d, r, first, last) == []
  }

  ghost predicate NoneEdited(d: Document, depths: seq<nat>, first: nat, last: nat)
    requires |d| == |depths|
  {
    forall r: nat :: r < |d| ==> EditsAt(d, depths, r, first, last) == []
  }

  lemma {:induction false} NoRemovals(d: Document, i: nat, first: nat, last: nat)
    requires i <= |d|
    ensures Removals(d, i, first, last) == [] <==> forall r: nat :: i <= r < |d| ==> RemovalAt(d, r, first, last) == []
    decreases |d| - i
  {
    hide RemovalAt;
    if i < |d| {
      NoRemovals(d, i + 1, first, last);
    }
  }

  lemma {:induction false} NoLineEdits(d: Document, depths: seq<nat>, i: nat, first: nat, last: nat)
    requires i <= |d| == |depths|
    ensures AllLineEdits(d, depths, i, first, last) == [] <==>
            forall r: nat :: i <= r < |d| ==> EditsAt(d, depths, r, first, last) == []
    decreases |d| - i
  {
    hide EditsAt;
    if i < |d| {
      NoLineEdits(d, depths, i + 1, first, last);
    }
  }

  lemma SameError(doc: Document, depths: seq<nat>, first: nat, last: nat)
    requires Lexed(doc) && |doc| == |depths|
    ensures HasError(Tokens(doc)) == HasError(Tokens(Again(doc, depths, first, last)))
  {
    hide Lexed, Again, Kept, Tokens, Rank;
    AgainTokens(doc, depths, first, last);
  }

  // ---------------------------------------------------------------------------------
  // Runs of blank lines that start before the range.

  lemma {:induction false} DoomedInside(doc: Document, i: nat, first: nat, last: nat)
    requires Doomed(doc, i, first, last)
    ensures first <= i + 1
  {
    hide BlankFree, Counted;
    if Surplus(doc, i - 1) {
      DoomedInside(doc, i - 1, first, last);
    }
  }

  /** Before the range nothing changes. */
  lemma BeforeRange(doc: Document, i: nat, first: nat, last: nat)
    requires 0 < i < |doc| && i < first
    ensures Kept(doc, first, last)[i - 1]
    ensures i > 1 ==> (NewSurplus(doc, i - 1, first, last) <==> Surplus(doc, i - 1))
  {
    hide BlankFree, Hollow, Bare, Doomed;
    if Doomed(doc, i - 1, first, last) {
      DoomedInside(doc, i - 1, first, last);
    }
    if i > 1 && Doomed(doc, i - 2, first, last) {
      DoomedInside(doc, i - 2, first, last);
    }
  }

  lemma NoneBefore(doc: Document, first: nat, last: nat)
    ensures !NewSurplus(doc, 0, first, last) && !Surplus(doc, 0)
  {
  }

  /** A line in such a run has a line of it before. */
  lemma {:induction false} TiedBack(doc: Document, depths: seq<nat>, first: nat, last: nat, i: nat)
    requires Lexed(doc) && i < |doc| == |depths| && InRange(i, first, last) && Tied(doc, i, first, last)
    ensures var d, r := Again(doc, depths, first, last), Rank(Kept(doc, first, last), i); r > 0 && Surplus(d, r - 1)
  {
    hide Lexed, Again, Kept, Rank, NewSurplus, Surplus;
    assert i > 0 by { NoneBefore(doc, first, last); }
    var keep := Kept(doc, first, last);
    RankStep(keep, i - 1);
    if !InRange(i - 1, first, last) {
      NoneBefore(doc, first, last);
      BeforeRange(doc, i, first, last);
      AgainSurplus(doc, depths, first, last, i - 1);
    } else if keep[i - 1] {
      AgainSurplus(doc, depths, first, last, i - 1);
    } else {
      TiedBack(doc, depths, first, last, i - 1);
    }
  }

  /** When every such run in range has a line of it before, it starts before the range. */
  lemma {:induction false} TiedForward(doc: Document, depths: seq<nat>, first: nat, last: nat, i: nat)
    requires Lexed(doc) && i < |doc| == |depths| && InRange(i, first, last) && NewSurplus(doc, i, first, last)
    requires var d, r := Again(doc, depths, first, last), Rank(Kept(doc, first, last), i); r > 0 && Surplus(d, r - 1)
    requires NoneRemoved(Again(doc, depths, first, last), NewFirst(doc, first, last), NewLast(doc, first, last))
    ensures Tied(doc, i, first, last)
  {
    hide Lexed, Again, Kept, Rank, NewSurplus, Surplus, NoneRemoved, NewFirst, NewLast;
    assert i > 0 by { NoneBefore(doc, first, last); }
    var keep, d := Kept(doc, first, last), Again(doc, depths, first, last);
    RankStep(keep, i - 1);
    if !InRange(i - 1, first, last) {
      BeforeRange(doc, i, first, last);
      AgainSurplus(doc, depths, first, last, i - 1);
      NoneBefore(doc, first, last);
    } else {
      if keep[i - 1] {
        AgainSurplus(doc, depths, first, last, i - 1);
        FoundBefore(doc, depths, first, last, i - 1);
      } else {
        DroppedSurplus(doc, i - 1, first, last);
        DroppedVoids(doc, i - 1, first, last);
      }
      TiedForward(doc, depths, first, last, i - 1);
    }
  }

  lemma DroppedVoids(doc: Document, i: nat, first: nat, last: nat)
    requires i < |doc| && !Kept(doc, first, last)[i]
    ensures NewSurplus(doc, i, first, last)
  {
    hide Voids, Surplus, Touched;
    DroppedSurplus(doc, i, first, last);
    SurplusVoids(doc, i, first, last);
  }

  lemma FoundBefore(doc: Document, depths: seq<nat>, first: nat, last: nat, i: nat)
    requires Lexed(doc) && i < |doc| == |depths| && InRange(i, first, last) && Kept(doc, first, last)[i]
    requires NewSurplus(doc, i, first, last)
    requires NoneRemoved(Again(doc, depths, first, last), NewFirst(doc, first, last), NewLast(doc, first, last))
    ensures var d, r := Again(doc, depths, first, last), Rank(Kept(doc, first, last), i); r > 0 && Surplus(d, r - 1)
  {
    hide Lexed, Again, Kept, Rank, NewSurplus, NewFirst, NewLast, BlankFree, Counted;
    var d, r := Again(doc, depths, first, last), Rank(Kept(doc, first, last), i);
    AgainSurplus(doc, depths, first, last, i);
    RangeMapped(doc, i, first, last);
    assert RemovalAt(d, r, NewFirst(doc, first, last), NewLast(doc, first, last)) == [];
  }

  /** A line in range that is not touched is in a run of blank lines. */
  lemma UntouchedSurplus(doc: Document, i: nat, first: nat, last: nat)
    requires i < |doc| && InRange(i, first, last) && !Touched(doc, i, first, last)
    ensures NewSurplus(doc, i, first, last)
  {
    hide Voids, Doomed, BlankFree;
    SurplusVoids(doc, i, first, last);
  }

  // ---------------------------------------------------------------------------------
  // Line by line.

  lemma LineQuiet(doc: Document, depths: seq<nat>, first: nat, last: nat, i: nat)
    requires Lexed(doc) && i < |doc| == |depths| && Kept(doc, first, last)[i]
    requires |Again(doc, depths, first, last)| == |Filter(Kept(doc, first, last), depths)|
    ensures var d, ds, r := Again(doc, depths, first, last), Filter(Kept(doc, first, last), depths), Rank(Kept(doc, first, last), i);
            && r < |d|
            && (EditsAt(d, ds, r, NewFirst(doc, first, last), NewLast(doc, first, last)) == [] <==>
                  (InRange(i, first, last) ==> NewSurplus(doc, i, first, last) || Calm(doc[i], depths[i])))
  {
    hide Lexed, Again, Kept, Rank, Calm, NewSurplus, Surplus, Filter, LineEdits, Voids, BlankFree, Tokens, TokenIndex, NewFirst,
         NewLast, Touched;
    RangeMapped(doc, i, first, last);
    AgainSurplus(doc, depths, first, last, i);
    AgainTwice(doc, depths, first, last, i, depths[i]);
    FilterAt(Kept(doc, first, last), depths, i);
    if InRange(i, first, last) && !Touched(doc, i, first, last) {
      UntouchedSurplus(doc, i, first, last);
    }
  }

  lemma RemovalQuiet(doc: Document, depths: seq<nat>, first: nat, last: nat, i: nat)
    requires Lexed(doc) && i < |doc| == |depths| && Kept(doc, first, last)[i]
    requires InRange(i, first, last) && NewSurplus(doc, i, first, last) ==> Tied(doc, i, first, last)
    ensures var d, r := Again(doc, depths, first, last), Rank(Kept(doc, first, last), i);
            r < |d| && RemovalAt(d, r, NewFirst(doc, first, last), NewLast(doc, first, last)) == []
  {
    hide Lexed, Again, Kept, Rank, NewSurplus, Surplus, NewFirst, NewLast, Tied;
    AgainLine(doc, depths, first, last, i);
    RangeMapped(doc, i, first, last);
    AgainSurplus(doc, depths, first, last, i);
    if InRange(i, first, last) && NewSurplus(doc, i, first, last) {
      TiedBack(doc, depths, first, last, i);
    }
  }

  lemma KeptKeeps(doc: Document, i: nat, first: nat, last: nat)
    requires i < |doc|
    ensures Kept(doc, first, last)[i] == Keeps(doc, i, first, last)
  {
  }

  /** Nothing is left to do on the lines left exactly when the lines were settled. */
  lemma SettledLines(doc: Document, depths: seq<nat>, first: nat, last: nat)
    requires Lexed(doc) && |doc| == |depths|
    requires |Again(doc, depths, first, last)| == |Filter(Kept(doc, first, last), depths)|
    ensures var d, ds := Again(doc, depths, first, last), Filter(Kept(doc, first, last), depths);
            var f, e := NewFirst(doc, first, last), NewLast(doc, first, last);
            NoneRemoved(d, f, e) && NoneEdited(d, ds, f, e) <==> Settled(doc, depths, first, last)
  {
    hide Lexed, Again, Kept, Rank, Calm, NewSurplus, Tied, Surplus, EditsAt, RemovalAt, Filter, NewFirst, NewLast, Keeps;
    var keep := Kept(doc, first, last);
    var d, ds := Again(doc, depths, first, last), Filter(keep, depths);
    var f, e := NewFirst(doc, first, last), NewLast(doc, first, last);
    AgainLength(doc, depths, first, last);
    if NoneRemoved(d, f, e) && NoneEdited(d, ds, f, e) {
      forall i: nat | i < |doc| && InRange(i, first, last) && Keeps(doc, i, first, last)
        ensures LineSettled(doc, depths, i, first, last)
      {
        KeptKeeps(doc, i, first, last);
        LineQuiet(doc, depths, first, last, i);
        if NewSurplus(doc, i, first, last) {
          FoundBefore(doc, depths, first, last, i);
          TiedForward(doc, depths, first, last, i);
        }
      }
    }
    if Settled(doc, depths, first, last) {
      forall r: nat | r < |d|
        ensures RemovalAt(d, r, f, e) == [] && EditsAt(d, ds, r, f, e) == []
      {
        var i := Unrank(keep, |keep|, r);
        KeptKeeps(doc, i, first, last);
        assert InRange(i, first, last) ==> LineSettled(doc, depths, i, first, last);
        LineQuiet(doc, depths, first, last, i);
        RemovalQuiet(doc, depths, first, last, i);
      }
    }
  }

  /** Formatting a range, and then the same lines of the formatted document, sends no edits the
      second time exactly when the range was settled: where no blanks stand before a bare carriage
      return that formatting uncovers, and it uncovers no run of blank lines that starts in range. */
  lemma Idempotent(doc: Document, depths: seq<nat>, first: nat, last: nat)
    requires Lexed(doc) && !HasError(Tokens(doc)) && Depths(Tokens(doc), |doc|) == Some(depths)
    ensures Edits(Again(doc, depths, first, last), NewFirst(doc, first, last), NewLast(doc, first, last)) == Some([]) <==>
            Settled(doc, depths, first, last)
  {
    hide Lexed, Again, Kept, Rank, Filter, Tokens, Depths, Settled, EditsAt, HasError, RemovalAt, NewFirst, NewLast;
    var d, ds := Again(doc, depths, first, last), Filter(Kept(doc, first, last), depths);
    var f, e := NewFirst(doc, first, last), NewLast(doc, first, last);
    SameError(doc, depths, first, last);
    AgainDepths(doc, depths, first, last);
    SettledLines(doc, depths, first, last);
    NoRemovals(d, 0, f, e);
    NoLineEdits(d, ds, 0, f, e);
  }

  // ---------------------------------------------------------------------------------
  // The whole document.

  lemma {:induction false} DoomedAll(doc: Document, i: nat, first: nat, last: nat)
    requires first <= 1 && |doc| <= last
    ensures Doomed(doc, i, first, last) <==> Surplus(doc, i)
  {
    hide BlankFree, Counted;
    if i > 0 {
      DoomedAll(doc, i - 1, first, last);
    }
  }

  lemma {:induction false} NoneTied(doc: Document, i: nat, first: nat, last: nat)
    requires i < |doc| && first <= 1 && |doc| <= last
    ensures !Tied(doc, i, first, last)
  {
    hide Voids;
    if i > 0 {
      NoneTied(doc, i - 1, first, last);
    }
  }

  /** Two lines make a new run of blank lines exactly when they are crowded. */
  lemma CrowdedAll(doc: Document, i: nat, first: nat, last: nat)
    requires i < |doc| && first <= 1 && |doc| <= last && Keeps(doc, i, first, last)
    ensures NewSurplus(doc, i, first, last) <==> Crowded(doc, i)
  {
    hide BlankFree, Bare, LineText, Doomed;
    DoomedAll(doc, i, first, last);
    if i > 0 {
      DoomedAll(doc, i - 1, first, last);
    }
  }

  lemma DroppedCalm(doc: Document, depth: nat, i: nat, first: nat, last: nat)
    requires i < |doc| && !Keeps(doc, i, first, last)
    ensures Calm(doc[i], depth) && !Crowded(doc, i)
  {
    hide Blanks, LineText, Chop;
    KeptKeeps(doc, i, first, last);
    DroppedSurplus(doc, i, first, last);
    SurplusBlank(doc, i);
    BlankNotBare(doc[i]);
    BlankNotBare(doc[i - 1]);
  }

  /** For the whole document the condition is a plain one on each line and the line before. */
  lemma WholeSettled(doc: Document, depths: seq<nat>, first: nat, last: nat)
    requires |doc| == |depths| && first <= 1 && |doc| <= last
    ensures Settled(doc, depths, first, last) <==> FormatTwice.Settled(doc, depths)
  {
    hide NewSurplus, Tied, Crowded, Calm, Keeps;
    forall i: nat | i < |doc|
      ensures Keeps(doc, i, first, last) ==> (LineSettled(doc, depths, i, first, last) <==> Calm(doc[i], depths[i]) && !Crowded(doc, i))
      ensures !Keeps(doc, i, first, last) ==> Calm(doc[i], depths[i]) && !Crowded(doc, i)
    {
      if Keeps(doc, i, first, last) {
        CrowdedAll(doc, i, first, last);
        NoneTied(doc, i, first, last);
      } else {
        DroppedCalm(doc, depths[i], i, first, last);
      }
    }
    if Settled(doc, depths, first, last) {
      forall i: nat | i < |doc|
        ensures Calm(doc[i], depths[i]) && !Crowded(doc, i)
      {
        assert InRange(i, first, last);
        assert Keeps(doc, i, first, last) ==> LineSettled(doc, depths, i, first, last);
      }
    }
  }

  // ---------------------------------------------------------------------------------
  // When documents are settled.

  /** Carriage returns only stand at the ends of lines, and a newline follows each. */
  predicate ReturnsEndLines(doc: Document) {
    |doc| > 0 && doc[|doc| - 1].ending != "\r" && forall i :: 0 <= i < |doc| ==> '\r' !in LineText(doc[i])
  }

  /** A run of blank lines that is not deleted starts before the range. */
  lemma {:induction false} SparedTied(doc: Document, i: nat, first: nat, last: nat)
    requires i < |doc| && InRange(i, first, last) && Surplus(doc, i) && !Doomed(doc, i, first, last)
    ensures Tied(doc, i, first, last)
  {
    hide BlankFree, Counted, Voids;
    UntouchedSurplus(doc, i, first, last);
    if InRange(i - 1, first, last) {
      SparedTied(doc, i - 1, first, last);
    }
  }

  lemma NeverBare(doc: Document, i: nat)
    requires ReturnsEndLines(doc) && i < |doc|
    ensures !Bare(doc[i]) && (i + 1 == |doc| ==> doc[i].ending != "\r")
  {
    hide LineText, ChopLength;
    var s := LineText(doc[i]);
    assert forall j :: 0 <= j < |Chop(s)| ==> Chop(s)[j] == s[j];
  }

  /** Then one formatting of any range is enough. */
  lemma OrdinarySettled(doc: Document, depths: seq<nat>, first: nat, last: nat)
    requires |doc| == |depths| && ReturnsEndLines(doc)
    ensures Settled(doc, depths, first, last)
  {
    hide ReturnsEndLines, Bare, BlankFree, Tied, Doomed;
    forall i: nat | i < |doc| && InRange(i, first, last) && Keeps(doc, i, first, last)
      ensures LineSettled(doc, depths, i, first, last)
    {
      NeverBare(doc, i);
      if NewSurplus(doc, i, first, last) {
        NeverBare(doc, i - 1);
        assert Surplus(doc, i);
        SparedTied(doc, i, first, last);
      }
    }
  }

  /** `x \r \n`: once the blank at the end is gone, the carriage return is part of the line's
      end and leaves a blank uncovered before it. */
  function Sample(): Document {
    [Line(false, "", [Cell("", Identifier, "x")], " \r ", false, "\n"), Line(false, "", [], "", false, "")]
  }

  lemma SampleText()
    ensures LineText(Sample()[0]) == "x \r " && LineText(Sample()[1]) == ""
    ensures Lexed(Sample())
  {
    hide LineText, ScanPattern;
    SampleLines();
    var doc := Sample();
    assert LexedCell(doc[0].cells[0], false);
    assert !InPattern(doc, 0) && !InPattern(doc, 1) && !InPattern(doc, 2);
  }

  lemma SampleLines()
    ensures LineText(Sample()[0]) == "x \r " && LineText(Sample()[1]) == ""
  {
    TwoCells(Cell("", Identifier, "x"), []);
    assert [Cell("", Identifier, "x")] + [] == Sample()[0].cells;
  }

  lemma SampleTokens()
    ensures Tokens(Sample()) == [Token(Identifier, 1, 0, 1), Token(Eof, 2, 5, 0)]
  {
    hide LineText;
    SampleText();
    var doc := Sample();
    assert doc[0].cells[1..] == [];
    assert TokensFrom(doc, 2, 5) == [Token(Eof, 2, 5, 0)];
    assert TokensFrom(doc, 1, 5) == [Token(Eof, 2, 5, 0)];
    assert CellTokens(doc[0].cells, 1, 0, 0) == [Token(Identifier, 1, 0, 1)];
  }

  lemma SampleNotCalm()
    ensures !Calm(Sample()[0], 0)
  {
    hide LineText;
    SampleText();
    var l := Sample()[0];
    ChopIs("x \r ", 3);
    assert Chop("x \r ") == "x \r";
    assert Bare(l) && Before(l) == "x ";
    assert !Blank(Before(l)[0]) && Blank(Before(l)[1]);
  }

  lemma NotAlwaysIdempotent()
    ensures Lexed(Sample()) && Depths(Tokens(Sample()), 2) == Some([0, 0]) && !HasError(Tokens(Sample()))
    ensures Edits(Again(Sample(), [0, 0], 0, 2), NewFirst(Sample(), 0, 2), NewLast(Sample(), 0, 2)) != Some([])
  {
    hide Lexed, Calm, Crowded, Edits, Tokens, Again, Settled, NewFirst, NewLast;
    SampleText();
    SampleTokens();
    ExampleDepths(Tokens(Sample()));
    SampleNotCalm();
    WholeSettled(Sample(), [0, 0], 0, 2);
    Idempotent(Sample(), [0, 0], 0, 2);
  }

  lemma ExampleDepths(ts: seq<Token>)
    requires ts == [Token(Identifier, 1, 0, 1), Token(Eof, 2, 5, 0)]
    ensures Depths(ts, 2) == Some([0, 0])
  {
    var ls := LineState(false, true, false, false);
    var st := INITIAL.(prev := Identifier);
    assert ApplyLine(ts, 1, 1, st, ls.(first := false)) == Some((st, ls.(first := false), 1));
    assert ApplyLine(ts, 1, 0, INITIAL, ls) == Some((st, ls.(first := false), 1));
    assert LineStep(ts, 1, 0, INITIAL) == Some(Step(0, st, 1));
    assert DepthsFrom(ts, 2, 3, 1, st) == Some([]);
    assert !Starts(ts, 1, 2) && |st.levels| == 0 && [0] + [] == [0];
    assert DepthsFrom(ts, 2, 2, 1, st) == Some([0]);
    assert [0] + [0] == [0, 0];
  }
}
