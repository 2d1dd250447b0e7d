/** What the formatter does to a document: the edits it sends, and the document they make. */
module Format {
  import opened Wrappers
  import opened Layout
  import opened Depth
  import opened Spacing

  /** A replacement of the text from one position to another, as the protocol has it. */
  datatype Edit = Edit(startLine: nat, startColumn: nat, endLine: nat, endColumn: nat, text: string)

  // ---------------------------------------------------------------------------------
  // Blank lines.

  /** The line is blank and no part of a string literal. */
  predicate BlankFree(l: Line) {
    Blanks(LineText(l)) && !l.inString && !l.unclosed
  }

  /** The empty line after a final newline is not one a run of blank lines can include. */
  predicate Counted(doc: Document, i: nat)
    requires i < |doc|
  {
    i < |doc| - 1 || LineText(doc[i]) + doc[i].ending != ""
  }

  /** Line `i` is in a run of blank lines, and not the first of it. */
  predicate Surplus(doc: Document, i: nat) {
    0 < i < |doc| && BlankFree(doc[i]) && BlankFree(doc[i - 1]) && Counted(doc, i)
  }

  // ---------------------------------------------------------------------------------
  // One line.

  predicate Indented(s: string, n: nat) {
    Lead(s) == n && s[..Lead(s)] == Spaces(n)
  }

  function NewGap(want: Want, gap: string): string {
    if !Blanks(gap) then gap
    else match want
      case Anything => gap
      case Nothing => ""
      case AtLeastOne => if gap == "" then " " else gap
  }

  /** The cells after the first, with the token before them at index `k`. */
  function TidyRest(ts: seq<Token>, k: nat, cells: seq<Cell>): (r: seq<Cell>)
    requires k + |cells| < |ts|
    ensures |r| == |cells|
    decreases cells
  {
    if cells == [] then []
    else [cells[0].(gap := NewGap(WantedGap(ts, k), cells[0].gap))] + TidyRest(ts, k + 1, cells[1..])
  }

  function Reindent(s: string, depth: nat): string {
    Spaces(2 * depth) + s[Lead(s)..]
  }

  /** The cells of a line, its first token at index `k`. */
  function TidyCells(ts: seq<Token>, k: nat, l: Line, depth: nat): (r: seq<Cell>)
    requires k + |l.cells| < |ts|
    ensures |r| == |l.cells|
  {
    if l.cells == [] then []
    else
      var c := l.cells[0];
      [if l.inString then c else c.(gap := Reindent(c.gap, depth))] + TidyRest(ts, k, l.cells[1..])
  }

  /** The line as the formatter wants it. A line that starts and ends inside a string literal
      stays as it is. */
  function TidyLine(ts: seq<Token>, k: nat, l: Line, depth: nat): Line
    requires k + |l.cells| < |ts|
  {
    if l.inString && l.unclosed then l
    else if Blanks(LineText(l)) then Line(l.inString, "", [], "", l.unclosed, l.ending)
    else
      var tail := if l.cells == [] && !l.inString then Reindent(l.tail, depth) else l.tail;
      l.(cells := TidyCells(ts, k, l, depth), tail := Chop(tail))
  }

  function Within(line: nat, from: nat, to: nat, text: string): Edit {
    Edit(line, from, line, to, text)
  }

  /** The edit for one gap, which starts at `column`. */
  function GapEdit(want: Want, gap: string, line: nat, column: nat): seq<Edit> {
    if !Blanks(gap) then []
    else if want == Nothing && |gap| > 0 then [Within(line, column, column + |gap|, "")]
    else if want == AtLeastOne && |gap| == 0 then [Within(line, column, column, " ")]
    else []
  }

  function GapEdits(ts: seq<Token>, k: nat, cells: seq<Cell>, line: nat, column: nat): seq<Edit>
    requires k + |cells| < |ts|
    decreases cells
  {
    if cells == [] then []
    else GapEdit(WantedGap(ts, k), cells[0].gap, line, column) +
         GapEdits(ts, k + 1, cells[1..], line, column + |cells[0].gap| + |cells[0].text|)
  }

  function LeadEdit(s: string, depth: nat, line: nat): seq<Edit> {
    if Indented(s, 2 * depth) then [] else [Within(line, 0, Lead(s), Spaces(2 * depth))]
  }

  function TrailEdit(s: string, line: nat): seq<Edit> {
    if ChopLength(s) < |s| then [Within(line, ChopLength(s), |s|, "")] else []
  }

  function InnerEdits(ts: seq<Token>, k: nat, l: Line, line: nat): seq<Edit>
    requires k + |l.cells| < |ts|
  {
    if l.cells == [] then []
    else GapEdits(ts, k, l.cells[1..], line, |l.carried| + |l.cells[0].gap| + |l.cells[0].text|)
  }

  /** The edits inside a line, its first token at index `k`. */
  function LineEdits(ts: seq<Token>, k: nat, l: Line, depth: nat, line: nat): seq<Edit>
    requires k + |l.cells| < |ts|
  {
    var s := LineText(l);
    if l.inString && l.unclosed then []
    else if Blanks(s) then
      if |s| > 0 then [Within(line, 0, |s|, "")] else []
    else
      (if l.inString then [] else LeadEdit(s, depth, line)) +
      InnerEdits(ts, k, l, line) +
      (if l.unclosed then [] else TrailEdit(s, line))
  }

  // ---------------------------------------------------------------------------------
  // The whole document, for the lines `first` to `last` (from 1).

  /** The last line of the surplus run that goes on at line `i`. */
  function RunEnd(doc: Document, i: nat): (e: nat)
    requires i < |doc|
    ensures i <= e < |doc|
    decreases |doc| - i
  {
    if i + 1 < |doc| && Surplus(doc, i + 1) then RunEnd(doc, i + 1) else i
  }

  /** Deletes the lines `i` to `e`: up to the next line, or to the end of the last. */
  function Removal(doc: Document, i: nat, e: nat): Edit
    requires i <= e < |doc|
  {
    if e + 1 < |doc| then Edit(i, 0, e + 1, 0, "") else Edit(i, 0, e, |LineText(doc[e])|, "")
  }

  predicate InRange(i: nat, first: nat, last: nat) {
    first <= i + 1 <= last
  }

  /** The surplus run that starts at line `i`, if one does, is deleted when `i` is in range. */
  function RemovalAt(doc: Document, i: nat, first: nat, last: nat): seq<Edit>
    requires i < |doc|
  {
    if Surplus(doc, i) && !Surplus(doc, i - 1) && InRange(i, first, last) then [Removal(doc, i, RunEnd(doc, i))]
    else []
  }

  function EditsAt(doc: Document, depths: seq<nat>, i: nat, first: nat, last: nat): seq<Edit>
    requires i < |doc| == |depths|
  {
    if Surplus(doc, i) || !InRange(i, first, last) then []
    else
      IndexBound(doc, i);
      LineEdits(Tokens(doc), TokenIndex(doc, i), doc[i], depths[i], i)
  }

  lemma IndexBound(doc: Document, i: nat)
    requires i < |doc|
    ensures TokenIndex(doc, i) + |doc[i].cells| < |Tokens(doc)|
  {
    TokensSplit(doc, i + 1);
    TokensEnd(doc, i + 1, Offset(doc, i + 1));
  }

  function Removals(doc: Document, i: nat, first: nat, last: nat): seq<Edit>
    requires i <= |doc|
    decreases |doc| - i
  {
    if i == |doc| then [] else RemovalAt(doc, i, first, last) + Removals(doc, i + 1, first, last)
  }

  function AllLineEdits(doc: Document, depths: seq<nat>, i: nat, first: nat, last: nat): seq<Edit>
    requires i <= |doc| == |depths|
    decreases |doc| - i
  {
    if i == |doc| then []
    else EditsAt(doc, depths, i, first, last) + AllLineEdits(doc, depths, i + 1, first, last)
  }

  predicate HasError(ts: seq<Token>) {
    exists i :: 0 <= i < |ts| && ts[i].kind.Error?
  }

  /** The edits the formatter sends, in its order; nothing when it does not understand the
      document. */
  function Edits(doc: Document, first: nat, last: nat): Option<seq<Edit>> {
    var ts := Tokens(doc);
    if HasError(ts) then None
    else match Depths(ts, |doc|)
      case None => None
      case Some(depths) => Some(Removals(doc, 0, first, last) + AllLineEdits(doc, depths, 0, first, last))
  }
}
