/** Templates: text with `<% %>` tags, translated to code with the place each line of it comes
    from. */
module Template {
  import CString

  // ---------------------------------------------------------------------------------
  // Tags and the text between them.

  /** A piece of the source: text, or what stands inside a tag. */
  datatype Token = Text(start: nat, length: nat) | Tag(start: nat, length: nat)

  datatype Scanned = Tokens(tokens: seq<Token>) | Unterminated(at: nat)

  predicate PairAt(s: string, i: nat, a: char, b: char) {
    i + 1 < |s| && s[i] == a && s[i + 1] == b
  }

  /** The first place from `i` on with the two characters, or the end. */
  function FindPair(s: string, i: nat, a: char, b: char): (j: nat)
    requires i <= |s|
    ensures i <= j <= |s| && (j == |s| || PairAt(s, j, a, b))
    ensures forall k :: i <= k < j ==> !PairAt(s, k, a, b)
    decreases |s| - i
  {
    if i == |s| || PairAt(s, i, a, b) then i else FindPair(s, i + 1, a, b)
  }

  function Preceded(head: seq<Token>, r: Scanned): Scanned {
    match r
    case Unterminated(_) => r
    case Tokens(ts) => Tokens(head + ts)
  }

  function Scan(s: string, pos: nat): Scanned
    requires pos <= |s|
    decreases |s| - pos
  {
    if pos == |s| then Tokens([])
    else
      var j := FindPair(s, pos, '<', '%');
      var head := if j > pos then [Text(pos, j - pos)] else [];
      if j == |s| then Tokens(head)
      else
        var k := FindPair(s, j + 2, '%', '>');
        if k == |s| then Unterminated(j)
        else Preceded(head + [Tag(j + 2, k - j - 2)], Scan(s, k + 2))
  }

  predicate Inside(s: string, t: Token) {
    t.start + t.length <= |s|
  }

  function Content(s: string, t: Token): string
    requires Inside(s, t)
  {
    s[t.start..t.start + t.length]
  }

  /** The source of a token, with its delimiters. */
  function Source(s: string, t: Token): string
    requires Inside(s, t)
  {
    if t.Text? then Content(s, t) else "<%" + Content(s, t) + "%>"
  }

  function Restored(s: string, ts: seq<Token>): string
    requires forall i :: 0 <= i < |ts| ==> Inside(s, ts[i])
  {
    if ts == [] then "" else Source(s, ts[0]) + Restored(s, ts[1..])
  }

  ghost predicate NoPair(t: string, a: char, b: char) {
    forall i: nat :: i < |t| ==> !PairAt(t, i, a, b)
  }

  /** Text holds no tag start, and a tag ends where it first can. */
  ghost predicate Proper(s: string, t: Token) {
    Inside(s, t) &&
    if t.Text? then t.length > 0 && NoPair(Content(s, t), '<', '%')
    else PairAt(s, t.start + t.length, '%', '>') && forall k :: t.start <= k < t.start + t.length ==> !PairAt(s, k, '%', '>')
  }

  ghost predicate AllProper(s: string, ts: seq<Token>) {
    forall i :: 0 <= i < |ts| ==> Proper(s, ts[i])
  }

  lemma TextProper(s: string, pos: nat, j: nat)
    requires pos < j <= |s| && forall k :: pos <= k < j ==> !PairAt(s, k, '<', '%')
    ensures Proper(s, Text(pos, j - pos))
  {
    var t := s[pos..j];
    forall i: nat | i < |t|
      ensures !PairAt(t, i, '<', '%')
    {
      assert !PairAt(s, pos + i, '<', '%');
    }
  }

  lemma {:induction false} RestoredJoin(s: string, a: seq<Token>, b: seq<Token>)
    requires (forall i :: 0 <= i < |a| ==> Inside(s, a[i])) && (forall i :: 0 <= i < |b| ==> Inside(s, b[i]))
    ensures Restored(s, a + b) == Restored(s, a) + Restored(s, b)
    decreases |a|
  {
    hide Source;
    if a == [] {
      assert a + b == b;
    } else {
      RestoredJoin(s, a[1..], b);
      assert (a + b)[1..] == a[1..] + b;
    }
  }

  /** The tokens, with their delimiters put back, are the source again. */
  lemma {:induction false} ScanRestores(s: string, pos: nat)
    requires pos <= |s|
    ensures var r := Scan(s, pos);
            r.Tokens? ==> AllProper(s, r.tokens) && Restored(s, r.tokens) == s[pos..]
    decreases |s| - pos
  {
    hide FindPair, AllProper, PairAt, Restored;
    if pos == |s| {
      NothingRestores(s);
    } else {
      var j := FindPair(s, pos, '<', '%');
      if j == |s| {
        HeadRestores(s, pos, j);
      } else {
        PairFits(s, j, '<', '%');
        var k := FindPair(s, j + 2, '%', '>');
        if k < |s| {
          PairFits(s, k, '%', '>');
          ScanRestores(s, k + 2);
          TagRestores(s, pos, j, k);
          if Scan(s, k + 2).Tokens? {
            JoinRestores(s, Opening(pos, j, k), Scan(s, k + 2).tokens);
          }
        }
      }
    }
  }

  lemma NothingRestores(s: string)
    ensures AllProper(s, []) && Restored(s, []) == "" == s[|s|..]
  {
  }

  /** The text before a tag, if any, and the tag. */
  function Opening(pos: nat, j: nat, k: nat): seq<Token>
    requires pos <= j && j + 2 <= k
  {
    (if j > pos then [Text(pos, j - pos)] else []) + [Tag(j + 2, k - j - 2)]
  }

  lemma JoinRestores(s: string, a: seq<Token>, b: seq<Token>)
    requires AllProper(s, a) && AllProper(s, b)
    ensures AllProper(s, a + b) && Restored(s, a + b) == Restored(s, a) + Restored(s, b)
  {
    hide Restored, NoPair, PairAt;
    RestoredJoin(s, a, b);
  }

  lemma PairFits(s: string, j: nat, a: char, b: char)
    requires PairAt(s, j, a, b)
    ensures j + 2 <= |s| && s[j..j + 2] == [a, b]
  {
  }

  lemma HeadRestores(s: string, pos: nat, j: nat)
    requires pos <= j <= |s| && forall k :: pos <= k < j ==> !PairAt(s, k, '<', '%')
    ensures var head := if j > pos then [Text(pos, j - pos)] else [];
            AllProper(s, head) && Restored(s, head) == s[pos..j]
  {
    hide PairAt;
    if j > pos {
      TextProper(s, pos, j);
      RestoredOne(s, Text(pos, j - pos));
    }
  }

  lemma RestoredOne(s: string, t: Token)
    requires Inside(s, t)
    ensures Restored(s, [t]) == Source(s, t)
  {
    hide Source;
    assert [t][1..] == [];
    assert Source(s, t) + "" == Source(s, t);
  }

  lemma TagRestores(s: string, pos: nat, j: nat, k: nat)
    requires pos <= j && j + 2 <= k && PairAt(s, j, '<', '%') && PairAt(s, k, '%', '>')
    requires forall i :: pos <= i < j ==> !PairAt(s, i, '<', '%')
    requires forall i :: j + 2 <= i < k ==> !PairAt(s, i, '%', '>')
    ensures var all := Opening(pos, j, k);
            AllProper(s, all) && Restored(s, all) + s[k + 2..] == s[pos..]
  {
    hide PairAt, AllProper, Restored;
    PairFits(s, j, '<', '%');
    PairFits(s, k, '%', '>');
    HeadRestores(s, pos, j);
    var head := if j > pos then [Text(pos, j - pos)] else [];
    OneTag(s, j, k);
    JoinRestores(s, head, [Tag(j + 2, k - j - 2)]);
    Pieces(s, pos, j, k);
  }

  lemma OneTag(s: string, j: nat, k: nat)
    requires j + 2 <= k && k + 2 <= |s| && PairAt(s, k, '%', '>')
    requires forall i :: j + 2 <= i < k ==> !PairAt(s, i, '%', '>')
    ensures var tag := Tag(j + 2, k - j - 2);
            AllProper(s, [tag]) && Restored(s, [tag]) == "<%" + s[j + 2..k] + "%>"
  {
    hide PairAt, Restored;
    RestoredOne(s, Tag(j + 2, k - j - 2));
  }

  lemma Pieces(s: string, pos: nat, j: nat, k: nat)
    requires pos <= j && j + 2 <= k && k + 2 <= |s| && s[j..j + 2] == "<%" && s[k..k + 2] == "%>"
    ensures s[pos..j] + ("<%" + s[j + 2..k] + "%>") + s[k + 2..] == s[pos..]
  {
    Cut3(s[pos..], j - pos, 2, k - j - 2, 2);
  }

  /** A text is its pieces put together. */
  lemma Cut3(t: string, a: nat, b: nat, c: nat, d: nat)
    requires a + b + c + d <= |t|
    ensures t == t[..a] + (t[a..a + b] + t[a + b..a + b + c] + t[a + b + c..a + b + c + d]) + t[a + b + c + d..]
  {
  }

  /** A scan only fails at a tag that nothing closes. */
  lemma {:induction false} ScanFails(s: string, pos: nat)
    requires pos <= |s|
    ensures var r := Scan(s, pos);
            r.Unterminated? ==> pos <= r.at && PairAt(s, r.at, '<', '%') && forall k :: r.at + 2 <= k ==> !PairAt(s, k, '%', '>')
    decreases |s| - pos
  {
    if pos < |s| {
      var j := FindPair(s, pos, '<', '%');
      if j < |s| {
        var k := FindPair(s, j + 2, '%', '>');
        if k < |s| {
          ScanFails(s, k + 2);
        }
      }
    }
  }

  // ---------------------------------------------------------------------------------
  // Places in the source.

  /** Counted from 1; 0 where a line comes from no place. */
  datatype Position = Position(line: nat, column: nat)

  function Newlines(s: string, n: nat): nat
    requires n <= |s|
  {
    if n == 0 then 0 else Newlines(s, n - 1) + if s[n - 1] == '\n' then 1 else 0
  }

  /** Where the line of `n` starts. */
  function LineStart(s: string, n: nat): (m: nat)
    requires n <= |s|
    ensures m <= n
  {
    if n == 0 || s[n - 1] == '\n' then n else LineStart(s, n - 1)
  }

  function PositionOf(s: string, n: nat): Position
    requires n <= |s|
  {
    Position(Newlines(s, n) + 1, n - LineStart(s, n) + 1)
  }

  // ---------------------------------------------------------------------------------
  // The lines of the translation.

  datatype OutLine = OutLine(text: string, position: Position)

  const NOWHERE := Position(0, 0)

  function Fixed(text: string): OutLine {
    OutLine(text, NOWHERE)
  }

  function NewlineFrom(s: string, i: nat, end: nat): (j: nat)
    requires i <= end <= |s|
    ensures i <= j <= end && (j < end ==> s[j] == '\n') && forall k :: i <= k < j ==> s[k] != '\n'
    decreases end - i
  {
    if i == end || s[i] == '\n' then i else NewlineFrom(s, i + 1, end)
  }

  /** Code copied from the source, line by line. */
  function Wrapped(s: string, start: nat, end: nat, prefix: string, suffix: string): seq<OutLine>
    requires start <= end <= |s|
    decreases end - start
  {
    var e := NewlineFrom(s, start, end);
    if e == end then [OutLine(prefix + s[start..end] + suffix, PositionOf(s, start))]
    else [OutLine(prefix + s[start..e], PositionOf(s, start))] + Wrapped(s, e + 1, end, "", suffix)
  }

  function EscapedChar(c: char): string {
    match c
    case '\\' => "\\\\"
    case '"' => "\\\""
    case '#' => "\\#"
    case '\n' => "\\n"
    case '\r' => "\\r"
    case '\t' => "\\t"
    case _ => [c]
  }

  function Escaped(t: string): string {
    if t == "" then "" else EscapedChar(t[0]) + Escaped(t[1..])
  }

  const CHUNK := 1000
  const APPEND := "  sb.append(\""
  const APPENDED := "\")"

  /** Text, in pieces of a thousand bytes. */
  function Literals(s: string, start: nat, end: nat): seq<OutLine>
    requires start <= end <= |s|
    decreases end - start
  {
    if start == end then []
    else
      var next := if end - start > CHUNK then start + CHUNK else end;
      [OutLine(APPEND + Escaped(s[start..next]) + APPENDED, PositionOf(s, start))] + Literals(s, next, end)
  }

  predicate IsSpace(c: char) {
    c == ' ' || c == '\t' || c == '\n' || c == '\r'
  }

  function TrimFront(s: string, start: nat, end: nat): (r: nat)
    requires start <= end <= |s|
    ensures start <= r <= end
    decreases end - start
  {
    if start < end && IsSpace(s[start]) then TrimFront(s, start + 1, end) else start
  }

  function TrimBack(s: string, start: nat, end: nat): (r: nat)
    requires start <= end <= |s|
    ensures start <= r <= end
    decreases end
  {
    if start < end && IsSpace(s[end - 1]) then TrimBack(s, start, end - 1) else end
  }

  function TagLines(s: string, start: nat, end: nat): seq<OutLine>
    requires start <= end <= |s|
  {
    var a := TrimFront(s, start, end);
    var b := TrimBack(s, a, end);
    if a == b || s[a] == '#' then []
    else if b - a >= 2 && s[a] == '=' && s[a + 1] == '=' then
      var c := TrimFront(s, a + 2, b);
      Wrapped(s, c, TrimBack(s, c, b), "  sb.append(", ")")
    else if s[a] == '=' then
      var c := TrimFront(s, a + 1, b);
      Wrapped(s, c, TrimBack(s, c, b), "  sb.append(__div_escape_html__(", "))")
    else Wrapped(s, a, b, "", "")
  }

  function TokenLines(s: string, t: Token): seq<OutLine>
    requires Inside(s, t)
  {
    if t.Tag? then TagLines(s, t.start, t.start + t.length) else Literals(s, t.start, t.start + t.length)
  }

  function BodyLines(s: string, ts: seq<Token>): seq<OutLine>
    requires forall i :: 0 <= i < |ts| ==> Inside(s, ts[i])
  {
    if ts == [] then [] else TokenLines(s, ts[0]) + BodyLines(s, ts[1..])
  }

  /** The text written for the lines: each ends in a newline. */
  function Output(ls: seq<OutLine>): string {
    if ls == [] then "" else ls[0].text + "\n" + Output(ls[1..])
  }

  function Positions(ls: seq<OutLine>): (ps: seq<Position>)
    ensures |ps| == |ls|
  {
    seq(|ls|, i requires 0 <= i < |ls| => ls[i].position)
  }

  // ---------------------------------------------------------------------------------
  // Declared names.

  const DIRECTIVE := "locals:"

  /** A name, up to its first zero byte. */
  function NameIn(s: string, start: nat, end: nat): seq<string>
    requires start <= end <= |s|
  {
    var a := TrimFront(s, start, end);
    var b := TrimBack(s, a, end);
    if a == b then [] else [CString.Cut(s[a..b])]
  }

  /** The names between commas, with the one being read from `part`. */
  function NamesFrom(s: string, part: nat, pos: nat, end: nat): seq<string>
    requires part <= pos <= end <= |s|
    decreases end - pos
  {
    if pos == end then NameIn(s, part, end)
    else if s[pos] == ',' then NameIn(s, part, pos) + NamesFrom(s, pos + 1, pos + 1, end)
    else NamesFrom(s, part, pos + 1, end)
  }

  function TokenNames(s: string, t: Token): seq<string>
    requires Inside(s, t)
  {
    if t.Text? then []
    else
      var end := t.start + t.length;
      var a := TrimFront(s, t.start, end);
      var b := TrimBack(s, a, end);
      if a == b || s[a] != '#' then []
      else
        var c := TrimFront(s, a + 1, b);
        var d := TrimBack(s, c, b);
        if d - c < |DIRECTIVE| || s[c..c + |DIRECTIVE|] != DIRECTIVE then []
        else NamesFrom(s, c + |DIRECTIVE|, c + |DIRECTIVE|, d)
  }

  function Names(s: string, ts: seq<Token>): seq<string>
    requires forall i :: 0 <= i < |ts| ==> Inside(s, ts[i])
  {
    if ts == [] then [] else TokenNames(s, ts[0]) + Names(s, ts[1..])
  }

  function Listed(names: seq<string>): string {
    if names == [] then "" else names[0] + (if |names| == 1 then "" else ", " + Listed(names[1..]))
  }

  function Header(names: seq<string>): OutLine {
    Fixed("def __div_template__(" + Listed(names) + ")")
  }

  function FixedLines(texts: seq<string>): seq<OutLine> {
    if texts == [] then [] else [Fixed(texts[0])] + FixedLines(texts[1..])
  }

  /** The whole translation, after the lines of the helper that escapes HTML. */
  function Translation(s: string, ts: seq<Token>, helper: seq<string>): seq<OutLine>
    requires forall i :: 0 <= i < |ts| ==> Inside(s, ts[i])
  {
    FixedLines(helper) + [Header(Names(s, ts)), Fixed("  sb = StringBuilder.new()")] + BodyLines(s, ts) +
    [Fixed("  sb.to_s()"), Fixed("end")]
  }
}
