/** The spacing rules: what the text between two tokens of one line should be, and the tokens
    of a document. */
module Spacing {
  import opened Layout
  import opened Depth

  datatype Want = Anything | Nothing | AtLeastOne

  predicate IsSpacedOperator(kind: Kind) {
    match kind
    case Equal | EqualEqual | FatArrow | BangEqual | LessEqual | GreaterEqual | Spaceship | AndAnd | OrOr => true
    case PlusEqual | MinusEqual | StarEqual | SlashEqual | PercentEqual | OrOrEqual | AndAndEqual => true
    case _ => false
  }

  predicate IsClosingBracket(kind: Kind) {
    kind.RightParen? || kind.RightBracket? || kind.RightBrace?
  }

  /** Walking back from `back` over what a method name is made of, on `line`, there is a `def`. */
  predicate DefBefore(ts: seq<Token>, back: nat, line: nat)
    requires back <= |ts|
  {
    back > 0 && ts[back - 1].line == line &&
    match ts[back - 1].kind
    case Def => true
    case Identifier | Self | Dot | LeftBracket | RightBracket | DoubleColon => DefBefore(ts, back - 1, line)
    case _ => false
  }

  /** The operator at `k` stands for a method name. */
  predicate OperatorIsMethodName(ts: seq<Token>, k: nat)
    requires k < |ts|
  {
    k > 0 &&
    (ts[k - 1].kind.Def? || ts[k - 1].kind.Dot? || ts[k - 1].kind.DoubleColon? ||
     (ts[k].kind.Equal? && DefBefore(ts, k, ts[k].line)))
  }

  /** What is wanted between the tokens at `k` and `k + 1`. */
  function WantedGap(ts: seq<Token>, k: nat): Want
    requires k + 1 < |ts|
  {
    if ts[k + 1].kind.Comma? then Nothing
    else if ts[k].kind.Comma? then
      if IsClosingBracket(ts[k + 1].kind) then Anything else AtLeastOne
    else if IsSpacedOperator(ts[k].kind) && !OperatorIsMethodName(ts, k) then AtLeastOne
    else if IsSpacedOperator(ts[k + 1].kind) && !OperatorIsMethodName(ts, k + 1) then AtLeastOne
    else Anything
  }

  lemma {:induction false} SameDefBefore(ts: seq<Token>, us: seq<Token>, back: nat, line: nat, other: nat)
    requires SameKinds(ts, us) && SameLine(ts, us, line, other) && back <= |ts|
    ensures DefBefore(ts, back, line) == DefBefore(us, back, other)
  {
    if back > 0 {
      SameDefBefore(ts, us, back - 1, line, other);
    }
  }

  lemma SameWantedGap(ts: seq<Token>, us: seq<Token>, k: nat)
    requires SameKinds(ts, us) && SameLines(ts, us) && k + 1 < |ts|
    ensures WantedGap(ts, k) == WantedGap(us, k)
  {
    hide DefBefore, IsSpacedOperator;
    SameDefBefore(ts, us, k, ts[k].line, us[k].line);
    SameDefBefore(ts, us, k + 1, ts[k + 1].line, us[k + 1].line);
  }

  // ---------------------------------------------------------------------------------
  // The tokens of a document.

  /** How far a literal left open on line `i` goes past the end of the line's text. */
  function Overhang(doc: Document, i: nat): nat
    requires i < |doc|
    decreases |doc| - i
  {
    if !doc[i].unclosed || i + 1 == |doc| then 0
    else |doc[i].ending| + |doc[i + 1].carried| +
         (if doc[i + 1].cells == [] then Overhang(doc, i + 1) else 0)
  }

  /** How far a regex literal left open on line `i` goes past the end of the line's text. */
  function PatternOver(doc: Document, i: nat): nat
    requires i < |doc|
    decreases |doc| - i
  {
    if i + 1 == |doc| then 0
    else
      var s := Loose(doc[i + 1]);
      |doc[i].ending| + match ScanPattern(s, 0)
                        case Closed(n) => n
                        case _ => |s| + PatternOver(doc, i + 1)
  }

  function Past(doc: Document, i: nat): nat
    requires i < |doc|
  {
    if OpensPattern(doc[i]) then PatternOver(doc, i) else Overhang(doc, i)
  }

  /** The tokens of `cells`, the first with its gap at offset `at`; the last one goes on for
      `over` more. */
  function CellTokens(cells: seq<Cell>, line: nat, at: nat, over: nat): (ts: seq<Token>)
    ensures |ts| == |cells|
  {
    if cells == [] then []
    else
      var c := cells[0];
      [Token(c.kind, line, at + |c.gap|, |c.text| + if |cells| == 1 then over else 0)] +
      CellTokens(cells[1..], line, at + |c.gap| + |c.text|, over)
  }

  /** The tokens from line `i` on, which is at offset `at`. */
  function TokensFrom(doc: Document, i: nat, at: nat): (ts: seq<Token>)
    requires i <= |doc|
    decreases |doc| - i
  {
    if i == |doc| then [Token(Eof, |doc|, at, 0)]
    else CellTokens(doc[i].cells, i + 1, at + |doc[i].carried|, Past(doc, i)) +
         TokensFrom(doc, i + 1, at + |LineText(doc[i])| + |doc[i].ending|)
  }

  function Tokens(doc: Document): seq<Token> {
    TokensFrom(doc, 0, 0)
  }

  /** How many tokens start before line `i`. */
  function TokenIndex(doc: Document, i: nat): nat
    requires i <= |doc|
  {
    if i == 0 then 0 else TokenIndex(doc, i - 1) + |doc[i - 1].cells|
  }

  function Offset(doc: Document, i: nat): nat
    requires i <= |doc|
  {
    if i == 0 then 0 else Offset(doc, i - 1) + |LineText(doc[i - 1])| + |doc[i - 1].ending|
  }

  lemma {:induction false} CellToken(cells: seq<Cell>, line: nat, at: nat, over: nat, j: nat)
    requires j < |cells|
    ensures var t := CellTokens(cells, line, at, over)[j];
            t.kind == cells[j].kind && t.line == line
    ensures CellTokens(cells, line, at, over)[j].start == at + |CellsText(cells[..j])| + |cells[j].gap|
    ensures CellTokens(cells, line, at, over)[j].length == |cells[j].text| + if j + 1 == |cells| then over else 0
  {
    if j > 0 {
      CellToken(cells[1..], line, at + |cells[0].gap| + |cells[0].text|, over, j - 1);
      assert cells[..j][1..] == cells[1..][..j - 1];
    }
  }

  /** The tokens of a line stand together, at its index. */
  lemma {:induction false} TokensSplit(doc: Document, i: nat)
    requires i <= |doc|
    ensures |Tokens(doc)| >= TokenIndex(doc, i)
    ensures Tokens(doc)[TokenIndex(doc, i)..] == TokensFrom(doc, i, Offset(doc, i))
  {
    if i > 0 {
      TokensSplit(doc, i - 1);
      var before := Tokens(doc)[TokenIndex(doc, i - 1)..];
      assert Tokens(doc)[TokenIndex(doc, i)..] == before[|doc[i - 1].cells|..];
    }
  }

  lemma TokenAt(doc: Document, i: nat, j: nat)
    requires i < |doc| && j < |doc[i].cells|
    ensures TokenIndex(doc, i) + j + 1 < |Tokens(doc)|
    ensures Tokens(doc)[TokenIndex(doc, i) + j] ==
            CellTokens(doc[i].cells, i + 1, Offset(doc, i) + |doc[i].carried|, Past(doc, i))[j]
    ensures Tokens(doc)[TokenIndex(doc, i) + j].kind == doc[i].cells[j].kind
    ensures Tokens(doc)[TokenIndex(doc, i) + j].line == i + 1
  {
    hide CellTokens, Past, Tokens, LineText, CellsText, TokenIndex, Offset;
    TokensSplit(doc, i);
    TokensEnd(doc, i + 1, Offset(doc, i) + |LineText(doc[i])| + |doc[i].ending|);
    var rest := TokensFrom(doc, i, Offset(doc, i));
    assert Tokens(doc)[TokenIndex(doc, i) + j] == rest[j];
    CellToken(doc[i].cells, i + 1, Offset(doc, i) + |doc[i].carried|, Past(doc, i), j);
  }

  lemma {:induction false} TokensEnd(doc: Document, i: nat, at: nat)
    requires i <= |doc|
    ensures var ts := TokensFrom(doc, i, at); |ts| > 0 && ts[|ts| - 1].kind == Eof && ts[|ts| - 1].line == |doc|
    decreases |doc| - i
  {
    hide CellTokens, LineText, Past;
    if i < |doc| {
      TokensEnd(doc, i + 1, at + |LineText(doc[i])| + |doc[i].ending|);
    }
  }

  lemma {:induction false} OffsetRender(doc: Document, i: nat)
    requires i <= |doc|
    ensures Offset(doc, i) <= |Render(doc)| && Render(doc)[Offset(doc, i)..] == Render(doc[i..])
  {
    if i == 0 {
      assert doc[0..] == doc;
    } else {
      OffsetRender(doc, i - 1);
      var l := doc[i - 1];
      assert doc[i - 1..][1..] == doc[i..];
      var rest := Render(doc)[Offset(doc, i - 1)..];
      assert rest == LineText(l) + l.ending + Render(doc[i..]);
      assert rest[|LineText(l)| + |l.ending|..] == Render(doc[i..]);
    }
  }
}
