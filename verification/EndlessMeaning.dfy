/** What the indentation pass asks of tokens: which kinds end a value, close a level or continue a
    block, and when a definition is an endless one, said of the places of its parentheses, its arrow
    and its equals sign. */
module EndlessMeaning {
  import opened Layout
  import opened Depth
  import opened Wrappers

  // ---------------------------------------------------------------------------------
  // Kinds.

  /** What a value can end in; a condition after one of these is a modifier. */
  const VALUE_ENDS: set<Kind> := {
    Identifier, InstanceVariable, ClassVariable, Self, Super, Integer, Float, Str, Symbol, True, False, Nil,
    RightParen, RightBracket, RightBrace, End, Break, Next, Redo, Retry, Return, Raise, Yield}

  /** What closes a level, at the start of a line before the line is placed. */
  const CLOSERS: set<Kind> := {RightParen, RightBracket, RightBrace, End}

  /** What continues a block, one level out. */
  const BRANCHES: set<Kind> := {Else, Elsif, When, Rescue, Ensure}

  lemma KindsMean(kind: Kind)
    ensures IsValueEnd(kind) <==> kind in VALUE_ENDS
    ensures IsLeadingDedent(kind) <==> kind in CLOSERS
    ensures IsBranch(kind) <==> kind in BRANCHES
  {
  }

  // ---------------------------------------------------------------------------------
  // Endless definitions.

  /** How many of the tokens from `a` up to `b` open a parenthesis, less those that close one. */
  function Parens(ts: seq<Token>, a: nat, b: nat): int
    requires a <= b <= |ts|
    decreases b - a
  {
    if a == b then 0
    else Parens(ts, a, b - 1) +
         (if ts[b - 1].kind.LeftParen? then 1 else if ts[b - 1].kind.RightParen? then -1 else 0)
  }

  /** The same for square brackets. */
  function Brackets(ts: seq<Token>, a: nat, b: nat): int
    requires a <= b <= |ts|
    decreases b - a
  {
    if a == b then 0
    else Brackets(ts, a, b - 1) +
         (if ts[b - 1].kind.LeftBracket? then 1 else if ts[b - 1].kind.RightBracket? then -1 else 0)
  }

  predicate IsBracket(kind: Kind) {
    kind.LeftBracket? || kind.RightBracket?
  }

  /** `open` is the first parenthesis after `def`. */
  ghost predicate Opens(ts: seq<Token>, def: nat, open: nat) {
    def < open < |ts| && ts[open].kind.LeftParen? &&
    forall i :: def < i < open ==> !ts[i].kind.LeftParen? && !ts[i].kind.Eof?
  }

  /** The parenthesis at `open` is closed at `close`. */
  ghost predicate Closes(ts: seq<Token>, open: nat, close: nat) {
    && open < close < |ts| && Parens(ts, open, close + 1) == 0
    && (forall i :: open < i <= close ==> Parens(ts, open, i) > 0)
    && (forall i :: open <= i <= close ==> !ts[i].kind.Eof?)
  }

  /** A return type stands after the arrow and up to the `=` at `equal`, on the line of the arrow but
      for what is inside brackets. */
  ghost predicate Returns(ts: seq<Token>, arrow: nat, equal: nat) {
    && arrow < equal < |ts| && ts[arrow].kind.Arrow? && ts[equal].kind.Equal? && Brackets(ts, arrow + 1, equal) <= 0
    && (forall i :: arrow < i < equal ==> InType(ts, arrow, i))
  }

  ghost predicate InType(ts: seq<Token>, arrow: nat, i: nat)
    requires arrow < i < |ts|
  {
    !IsBracket(ts[i].kind) && Brackets(ts, arrow + 1, i) <= 0 ==>
      !ts[i].kind.Equal? && !ts[i].kind.Eof? && ts[i].line == ts[arrow].line
  }

  /** The header is `def ... ( ... ) =`, with or without a return type. */
  ghost predicate Endless(ts: seq<Token>, def: nat) {
    exists open: nat, close: nat :: Opens(ts, def, open) && Closes(ts, open, close) && Defines(ts, close + 1)
  }

  ghost predicate Defines(ts: seq<Token>, after: nat) {
    after < |ts| && (ts[after].kind.Equal? || exists equal: nat :: Returns(ts, after, equal))
  }

  // ---------------------------------------------------------------------------------
  // The first parenthesis.

  lemma {:induction false} ParenMeans(ts: seq<Token>, k: nat)
    requires k <= |ts|
    ensures var r := FindParen(ts, k);
            && (forall i :: k <= i < r ==> !ts[i].kind.LeftParen? && !ts[i].kind.Eof?)
            && (r < |ts| ==> ts[r].kind.LeftParen? || ts[r].kind.Eof?)
    decreases |ts| - k
  {
    if k < |ts| && !ts[k].kind.LeftParen? && !ts[k].kind.Eof? {
      ParenMeans(ts, k + 1);
    }
  }

  // ---------------------------------------------------------------------------------
  // The one that closes it.

  /** The scan at `k`, as deep as the tokens from `open` on say. */
  lemma {:induction false} ParensMean(ts: seq<Token>, open: nat, k: nat)
    requires open < k <= |ts| && ts[open].kind.LeftParen?
    requires forall i :: open < i <= k ==> Parens(ts, open, i) > 0
    requires forall i :: open <= i < k ==> !ts[i].kind.Eof?
    ensures var r := SkipParens(ts, k, Parens(ts, open, k));
            && (r.Some? ==> 0 < r.value <= |ts|)
            && (r.Some? && r.value < |ts| ==> Closes(ts, open, r.value - 1))
            && (forall close: nat :: k <= close && Closes(ts, open, close) ==> r == Some(close + 1))
    decreases |ts| - k
  {
    if k < |ts| && !ts[k].kind.Eof? {
      var next := Parens(ts, open, k + 1);
      if next > 0 {
        ParensMean(ts, open, k + 1);
        assert SkipParens(ts, k, Parens(ts, open, k)) == SkipParens(ts, k + 1, next);
      } else {
        assert Closes(ts, open, k);
      }
    }
  }

  lemma SkipMeans(ts: seq<Token>, open: nat)
    requires open < |ts| && ts[open].kind.LeftParen?
    ensures var r := SkipParens(ts, open, 0);
            && (r.Some? ==> 0 < r.value)
            && (r.Some? && r.value < |ts| ==> Closes(ts, open, r.value - 1))
            && (forall close: nat :: Closes(ts, open, close) ==> r == Some(close + 1))
  {
    hide Closes;
    assert Parens(ts, open, open + 1) == 1;
    ParensMean(ts, open, open + 1);
    ClosesLater(ts, open);
  }

  lemma ClosesLater(ts: seq<Token>, open: nat)
    ensures forall close: nat :: Closes(ts, open, close) ==> open + 1 <= close
  {
  }

  // ---------------------------------------------------------------------------------
  // The return type.

  lemma {:induction false} TypeMeans(ts: seq<Token>, arrow: nat, k: nat)
    requires arrow < k <= |ts| && ts[arrow].kind.Arrow?
    requires forall i :: arrow < i < k ==> InType(ts, arrow, i)
    ensures var r := SkipType(ts, k, ts[arrow].line, Brackets(ts, arrow + 1, k));
            && (r.Some? && EqualAt(ts, r.value) ==> Returns(ts, arrow, r.value))
            && (forall equal: nat :: k <= equal && Returns(ts, arrow, equal) ==> r == Some(equal))
    decreases |ts| - k
  {
    if k < |ts| {
      if InType(ts, arrow, k) {
        TypeMeans(ts, arrow, k + 1);
        assert SkipType(ts, k, ts[arrow].line, Brackets(ts, arrow + 1, k)) ==
               SkipType(ts, k + 1, ts[arrow].line, Brackets(ts, arrow + 1, k + 1));
      }
    }
  }

  lemma ReturnMeans(ts: seq<Token>, arrow: nat)
    requires arrow < |ts| && ts[arrow].kind.Arrow?
    ensures var r := SkipType(ts, arrow + 1, ts[arrow].line, 0);
            r.Some? && EqualAt(ts, r.value) <==> exists equal: nat :: Returns(ts, arrow, equal)
  {
    hide SkipType;
    TypeMeans(ts, arrow, arrow + 1);
    if equal: nat :| Returns(ts, arrow, equal) {
      assert arrow + 1 <= equal;
    }
  }

  // ---------------------------------------------------------------------------------
  // The whole header.

  lemma DefinesMeans(ts: seq<Token>, j: nat)
    ensures Defines(ts, j) <==>
            if j < |ts| && ts[j].kind.Arrow? then
              var r := SkipType(ts, j + 1, ts[j].line, 0); r.Some? && EqualAt(ts, r.value)
            else EqualAt(ts, j)
  {
    hide SkipType;
    if j < |ts| && ts[j].kind.Arrow? {
      ReturnMeans(ts, j);
    }
  }

  /** The formatter takes a definition for an endless one exactly when its header is one. */
  lemma EndlessMeans(ts: seq<Token>, def: nat)
    requires def < |ts|
    ensures DefIsEndless(ts, def) <==> Endless(ts, def)
  {
    hide FindParen, SkipParens, SkipType, Closes, Defines;
    ParenMeans(ts, def + 1);
    var open := FindParen(ts, def + 1);
    if open < |ts| && ts[open].kind.LeftParen? {
      SkipMeans(ts, open);
      var r := SkipParens(ts, open, 0);
      if r.Some? {
        DefinesMeans(ts, r.value);
        DefinesInside(ts, r.value);
      }
    }
    if Endless(ts, def) {
      var o: nat, c: nat :| Opens(ts, def, o) && Closes(ts, o, c) && Defines(ts, c + 1);
      assert o == open;
    }
  }

  lemma DefinesInside(ts: seq<Token>, j: nat)
    ensures Defines(ts, j) ==> j < |ts|
  {
  }
}
