/** A source document as the formatter sees it: physical lines, and on each line the tokens
    the lexer finds with the text between them. */
module Layout {
  /** The token kinds the formatter tells apart; `Other` stands for all the rest. */
  datatype Kind =
    | Eof | Error | Other
    | Identifier | Integer | Float | Str | Regex | Symbol | InstanceVariable | ClassVariable
    | True | False | Nil | Self | Super
    | LeftParen | RightParen | LeftBracket | RightBracket | LeftBrace | RightBrace
    | Comma | Dot | DoubleColon | Arrow
    | Equal | EqualEqual | FatArrow | BangEqual | LessEqual | GreaterEqual | Spaceship | AndAnd | OrOr
    | PlusEqual | MinusEqual | StarEqual | SlashEqual | PercentEqual | OrOrEqual | AndAndEqual
    | Break | Next | Redo | Retry | Return | Raise | Yield
    | Class | Module | Struct | Begin | Case | Interface | Loop | Do | Def | Closure
    | If | Unless | While | Until | Else | Elsif | When | Rescue | Ensure | End

  /** A token that starts on a line, after the text `gap`. A literal that goes on past the line
      has here the part on its first line. */
  datatype Cell = Cell(gap: string, kind: Kind, text: string)

  /** A physical line without its terminator `ending`, as the formatter takes it. `inString` and
      `unclosed`: the line starts or ends inside a string literal; `carried` is what it holds of a
      string literal from before. What it holds of a regex literal from before is not told apart
      from the text between tokens: it is at the start of the first gap or, without tokens, of
      the tail. */
  datatype Line = Line(inString: bool, carried: string, cells: seq<Cell>, tail: string,
                       unclosed: bool, ending: string)

  type Document = seq<Line>

  predicate Blank(c: char) {
    c == ' ' || c == '\t'
  }

  predicate Blanks(s: string) {
    forall i :: 0 <= i < |s| ==> Blank(s[i])
  }

  predicate Plain(c: char) {
    !Blank(c) && c != '\r' && c != '\n'
  }

  function CellsText(cells: seq<Cell>): string {
    if cells == [] then "" else cells[0].gap + cells[0].text + CellsText(cells[1..])
  }

  function LineText(l: Line): string {
    l.carried + CellsText(l.cells) + l.tail
  }

  /** The text of the document. */
  function Render(doc: Document): string {
    if doc == [] then "" else LineText(doc[0]) + doc[0].ending + Render(doc[1..])
  }

  // ---------------------------------------------------------------------------------
  // Regex literals, which a backslash at the end of a line carries over to the next.

  datatype PatternScan = Closed(end: nat) | GoesOn | NoPattern

  function FlagsEnd(s: string, i: nat): (e: nat)
    requires i <= |s|
    ensures i <= e <= |s| && forall k :: i <= k < e ==> Plain(s[k])
    decreases |s| - i
  {
    if i < |s| && (s[i] == 'i' || s[i] == 'm' || s[i] == 'x') then FlagsEnd(s, i + 1) else i
  }

  /** The rest of a regex literal, from `i` on: where it ends, or that the newline after `s` is
      escaped, or that this is no regex literal. */
  function ScanPattern(s: string, i: nat): (r: PatternScan)
    requires i <= |s|
    ensures r.Closed? ==> i < r.end <= |s| && Plain(s[r.end - 1])
    ensures r.GoesOn? ==> i < |s| && s[|s| - 1] == '\\'
    decreases |s| - i
  {
    if i == |s| || s[i] == '\0' then NoPattern
    else if s[i] == '/' then Closed(FlagsEnd(s, i + 1))
    else if s[i] != '\\' then ScanPattern(s, i + 1)
    else if i + 1 == |s| then GoesOn
    else if s[i + 1] == '\0' then NoPattern
    else ScanPattern(s, i + 2)
  }

  /** The text from the start of the line to its first token, on a line not in a string. */
  function Loose(l: Line): string {
    if l.cells == [] then l.tail else l.cells[0].gap
  }

  /** The last token of the line is a regex literal that goes on. */
  predicate OpensPattern(l: Line) {
    l.cells != [] && var c := l.cells[|l.cells| - 1];
    c.kind.Regex? && |c.text| > 0 && ScanPattern(c.text, 1).GoesOn?
  }

  /** The line ends inside a regex literal, given whether it starts inside one. */
  predicate LeavesPattern(l: Line, inside: bool) {
    if l.cells == [] then inside && ScanPattern(l.tail, 0).GoesOn? else OpensPattern(l)
  }

  /** Line `i` starts inside a regex literal. */
  predicate InPattern(doc: Document, i: nat)
    requires i <= |doc|
  {
    i > 0 && LeavesPattern(doc[i - 1], InPattern(doc, i - 1))
  }

  predicate LexedRegex(text: string, last: bool) {
    && |text| > 0 && text[0] == '/'
    && (ScanPattern(text, 1) == Closed(|text|) || (last && ScanPattern(text, 1).GoesOn?))
  }

  /** What holds of a line's regex literals, given whether it starts inside one. */
  predicate LexedPattern(l: Line, inside: bool) {
    && (forall j :: 0 <= j < |l.cells| && l.cells[j].kind.Regex? ==> LexedRegex(l.cells[j].text, j + 1 == |l.cells|))
    && (LeavesPattern(l, inside) ==> l.ending == "\n" && (l.cells != [] ==> l.tail == ""))
    && (inside ==> !l.inString && !ScanPattern(Loose(l), 0).NoPattern? &&
                   (l.cells != [] ==> ScanPattern(Loose(l), 0).Closed?))
  }

  ghost predicate LexedPatterns(doc: Document) {
    && (forall i: nat :: i < |doc| ==> LexedPattern(doc[i], InPattern(doc, i)))
    && !InPattern(doc, |doc|)
  }

  // ---------------------------------------------------------------------------------
  // What the lexer and the splitting into lines guarantee.

  predicate LexedCell(c: Cell, open: bool) {
    && c.kind != Eof && |c.text| > 0 && Plain(c.text[0])
    && if open then c.kind == Str else Plain(c.text[|c.text| - 1])
  }

  /** Tokens start and end in something visible, but for the part of a string literal that
      goes on. */
  predicate LexedLine(l: Line) {
    && (forall i :: 0 <= i < |LineText(l)| ==> LineText(l)[i] != '\n')
    && (forall j :: 0 <= j < |l.cells| ==> LexedCell(l.cells[j], l.unclosed && j == |l.cells| - 1))
    && (!l.inString ==> l.carried == "")
    && (l.inString && !(l.unclosed && l.cells == []) ==> |l.carried| > 0 && Plain(l.carried[|l.carried| - 1]))
    && (l.unclosed ==> l.tail == "" && (l.cells == [] ==> l.inString))
  }

  predicate EndsInReturn(s: string) {
    |s| > 0 && s[|s| - 1] == '\r'
  }

  /** The terminator takes in a carriage return wherever there is one. */
  predicate SplitEnding(l: Line, last: bool) {
    && (if last then l.ending == "" || l.ending == "\r" else l.ending == "\n" || l.ending == "\r\n")
    && (EndsInReturn(LineText(l)) ==> l.ending == "\r" || l.ending == "\r\n")
  }

  ghost predicate Lexed(doc: Document) {
    && |doc| > 0 && !doc[0].inString && !doc[|doc| - 1].unclosed
    && (forall i :: 0 <= i < |doc| ==> LexedLine(doc[i]) && SplitEnding(doc[i], i == |doc| - 1))
    && (forall i :: 0 < i < |doc| ==> doc[i].inString == doc[i - 1].unclosed)
    && LexedPatterns(doc)
  }

  // ---------------------------------------------------------------------------------
  // Blanks at either end of a string.

  predicate BlankFrom(s: string, from: nat, to: nat)
    requires to <= |s|
  {
    forall i :: from <= i < to ==> Blank(s[i])
  }

  /** How many blanks `s` starts with. */
  function Lead(s: string): (n: nat)
    ensures n <= |s| && BlankFrom(s, 0, n) && (n < |s| ==> !Blank(s[n]))
  {
    if s == "" || !Blank(s[0]) then 0
    else
      var n := Lead(s[1..]);
      assert forall i :: 1 <= i < n + 1 ==> s[i] == s[1..][i - 1];
      n + 1
  }

  /** Where the blanks at the end of `s` start. */
  function ChopLength(s: string): (n: nat)
    ensures n <= |s| && BlankFrom(s, n, |s|) && (n > 0 ==> !Blank(s[n - 1]))
  {
    if s == "" || !Blank(s[|s| - 1]) then |s| else ChopLength(s[..|s| - 1])
  }

  function Chop(s: string): string {
    s[..ChopLength(s)]
  }

  function Spaces(n: nat): (s: string)
    ensures |s| == n && Blanks(s)
  {
    seq(n, _ => ' ')
  }

  lemma LeadIs(s: string, n: nat)
    requires n <= |s| && BlankFrom(s, 0, n) && (n < |s| ==> !Blank(s[n]))
    ensures Lead(s) == n
  {
    hide Blank;
  }

  lemma ChopIs(s: string, n: nat)
    requires n <= |s| && BlankFrom(s, n, |s|) && (n > 0 ==> !Blank(s[n - 1]))
    ensures ChopLength(s) == n
  {
    hide Blank;
  }

  lemma BlanksJoin(a: string, b: string)
    ensures Blanks(a + b) <==> Blanks(a) && Blanks(b)
  {
    hide Blank;
    assert forall i :: 0 <= i < |a| ==> a[i] == (a + b)[i];
    assert forall i :: 0 <= i < |b| ==> b[i] == (a + b)[|a| + i];
  }

  lemma LeadJoin(a: string, b: string)
    ensures Lead(a + b) == if Blanks(a) then |a| + Lead(b) else Lead(a)
  {
    hide Lead, Blank;
    LeadIs(a + b, if Blanks(a) then |a| + Lead(b) else Lead(a));
  }

  lemma ChopJoin(a: string, b: string)
    ensures ChopLength(a + b) == if Blanks(b) then ChopLength(a) else |a| + ChopLength(b)
  {
    hide ChopLength, Blank;
    ChopIs(a + b, if Blanks(b) then ChopLength(a) else |a| + ChopLength(b));
  }

  lemma LeadBlanks(s: string)
    ensures Blanks(s) <==> Lead(s) == |s|
    ensures Blanks(s) <==> ChopLength(s) == 0
  {
    hide Lead, ChopLength, Blank;
  }
}
