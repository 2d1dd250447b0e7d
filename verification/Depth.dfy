/** The indentation pass: how deep each physical line is, from the kinds of the tokens and the
    lines they start on. */
module Depth {
  import opened Layout
  import opened Wrappers

  /** A token of the lexer: its kind and the span it covers, with the line (from 1) it starts on. */
  datatype Token = Token(kind: Kind, line: nat, start: nat, length: nat)

  const MAX_DEPTH := 256

  // ---------------------------------------------------------------------------------
  // The endless form of `def`.

  /** The first token from `k` on that is an opening parenthesis or the end. */
  function FindParen(ts: seq<Token>, k: nat): (r: nat)
    ensures k <= |ts| ==> k <= r <= |ts|
    decreases |ts| - k
  {
    if k < |ts| && !ts[k].kind.LeftParen? && !ts[k].kind.Eof? then FindParen(ts, k + 1) else k
  }

  /** Past the parenthesis that closes the parameter list; nothing when the tokens end first. */
  function SkipParens(ts: seq<Token>, k: nat, depth: int): Option<nat>
    decreases |ts| - k
  {
    if k >= |ts| then Some(k)
    else match ts[k].kind
      case LeftParen => SkipParens(ts, k + 1, depth + 1)
      case RightParen => if depth - 1 == 0 then Some(k + 1) else SkipParens(ts, k + 1, depth - 1)
      case Eof => None
      case _ => SkipParens(ts, k + 1, depth)
  }

  /** Past a return type that starts after the arrow on `line`; nothing when the header ends
      without a `=`. */
  function SkipType(ts: seq<Token>, k: nat, line: nat, depth: int): Option<nat>
    decreases |ts| - k
  {
    if k >= |ts| then Some(k)
    else match ts[k].kind
      case LeftBracket => SkipType(ts, k + 1, line, depth + 1)
      case RightBracket => SkipType(ts, k + 1, line, depth - 1)
      case _ =>
        if depth > 0 then SkipType(ts, k + 1, line, depth)
        else if ts[k].kind.Equal? || ts[k].kind.Eof? then Some(k)
        else if ts[k].line != line then None
        else SkipType(ts, k + 1, line, depth)
  }

  predicate EqualAt(ts: seq<Token>, k: nat) {
    k < |ts| && ts[k].kind.Equal?
  }

  /** The definition at `def` is of the form `def name(...) = expression`. */
  predicate DefIsEndless(ts: seq<Token>, def: nat) {
    var k := FindParen(ts, def + 1);
    k < |ts| && ts[k].kind.LeftParen? &&
    match SkipParens(ts, k, 0)
    case None => false
    case Some(j) =>
      if j < |ts| && ts[j].kind.Arrow? then
        match SkipType(ts, j + 1, ts[j].line, 0)
        case None => false
        case Some(e) => EqualAt(ts, e)
      else EqualAt(ts, j)
  }

  // ---------------------------------------------------------------------------------
  // The pass.

  predicate IsValueEnd(kind: Kind) {
    match kind
    case Identifier | Integer | Float | Str | Symbol | InstanceVariable | ClassVariable => true
    case RightParen | RightBracket | RightBrace | True | False | Nil | Self | Super | End => true
    case Break | Next | Redo | Retry | Return | Raise | Yield => true
    case _ => false
  }

  predicate IsLeadingDedent(kind: Kind) {
    kind.End? || kind.RightParen? || kind.RightBracket? || kind.RightBrace?
  }

  predicate IsBranch(kind: Kind) {
    kind.Else? || kind.Elsif? || kind.When? || kind.Rescue? || kind.Ensure?
  }

  /** The open levels, each with whether it is the body of an interface, and what else is
      carried from line to line. `chain` and `body` are -1 when there is none. */
  datatype State = State(levels: seq<bool>, prev: Kind, chain: int, body: int, bodyFirst: bool)

  /** What is carried from token to token of a line. */
  datatype LineState = LineState(chainLine: bool, first: bool, endless: bool, pendingDo: bool)

  function Push(st: State, isInterface: bool): Option<State> {
    if |st.levels| >= MAX_DEPTH then None else Some(st.(levels := st.levels + [isInterface]))
  }

  function Pop(st: State): Option<State> {
    if st.levels == [] then None else Some(st.(levels := st.levels[..|st.levels| - 1]))
  }

  /** The body of an endless definition ends at a line that no longer continues it. */
  function EndBody(st: State, kind: Kind): State {
    if st.body >= 0 && |st.levels| == st.body + 1 then
      if st.bodyFirst then st.(bodyFirst := false)
      else if !kind.Dot? && st.chain < 0 then st.(levels := st.levels[..|st.levels| - 1], body := -1)
      else st
    else st
  }

  /** A leading-dot chain ends at a line that does not start with a dot. */
  function EndChain(st: State, kind: Kind): State {
    if st.chain >= 0 && |st.levels| == st.chain + 1 && !kind.Dot? then
      st.(levels := st.levels[..|st.levels| - 1], chain := -1)
    else st
  }

  predicate OnLine(ts: seq<Token>, k: nat, line: nat) {
    k < |ts| && ts[k].line == line
  }

  /** The closers a line starts with each close a level. */
  function CloseLeading(ts: seq<Token>, line: nat, k: nat, st: State): Option<(State, nat)>
    decreases |ts| - k
  {
    if OnLine(ts, k, line) && IsLeadingDedent(ts[k].kind) then
      match Pop(st)
      case None => None
      case Some(next) => CloseLeading(ts, line, k + 1, next.(prev := ts[k].kind))
    else Some((st, k))
  }

  function Opened(st: Option<State>, ls: LineState): Option<(State, LineState)> {
    match st
    case None => None
    case Some(next) => Some((next, ls))
  }

  /** What one token does to the levels. `endless`: it starts an endless definition. */
  function ApplyToken(kind: Kind, endless: bool, st: State, ls: LineState): Option<(State, LineState)> {
    match kind
    case Dot =>
      if ls.chainLine && ls.first then Opened(Push(st.(chain := |st.levels|), false), ls) else Some((st, ls))
    case LeftParen | LeftBracket | LeftBrace => Opened(Push(st, false), ls)
    case RightParen | RightBracket | RightBrace | End => Opened(Pop(st), ls)
    case Class => if st.prev.Dot? then Some((st, ls)) else Opened(Push(st, false), ls)
    case Module | Struct | Begin | Case => Opened(Push(st, false), ls)
    case Interface => Opened(Push(st, true), ls)
    case Loop => Opened(Push(st, false), ls.(pendingDo := true))
    case Do =>
      if ls.pendingDo then Some((st, ls.(pendingDo := false)))
      else Opened(Push(st, false), ls)
    case Def | Closure =>
      if |st.levels| > 0 && st.levels[|st.levels| - 1] then Some((st, ls))
      else if endless then Some((st, ls.(endless := true)))
      else Opened(Push(st, false), ls)
    case If | Unless =>
      if ls.first || !IsValueEnd(st.prev) then Opened(Push(st, false), ls) else Some((st, ls))
    case While | Until =>
      if ls.first || !IsValueEnd(st.prev) then Opened(Push(st, false), ls.(pendingDo := true))
      else Some((st, ls))
    case _ => Some((st, ls))
  }

  function ApplyLine(ts: seq<Token>, line: nat, k: nat, st: State, ls: LineState): Option<(State, LineState, nat)>
    decreases |ts| - k
  {
    if OnLine(ts, k, line) then
      match ApplyToken(ts[k].kind, DefIsEndless(ts, k), st, ls)
      case None => None
      case Some(next) =>
        ApplyLine(ts, line, k + 1, next.0.(prev := ts[k].kind), next.1.(first := false))
    else Some((st, ls, k))
  }

  /** `def f(x) =` with its body on the next line opens a level for it. */
  function BeginBody(st: State, ls: LineState): Option<State> {
    if ls.endless && st.prev.Equal? && st.body < 0 then
      Push(st.(body := |st.levels|, bodyFirst := true), false)
    else Some(st)
  }

  datatype Step = Step(depth: nat, state: State, next: nat)

  /** A line with tokens, from its first token `k`: its depth, and where the pass goes on. */
  function LineStep(ts: seq<Token>, line: nat, k: nat, st: State): Option<Step>
    requires OnLine(ts, k, line)
  {
    match CloseLeading(ts, line, k, EndChain(EndBody(st, ts[k].kind), ts[k].kind))
    case None => None
    case Some(opening) =>
      var (now, j) := opening;
      var chainLine := OnLine(ts, j, line) && ts[j].kind.Dot? && now.chain < 0;
      var branch := OnLine(ts, j, line) && IsBranch(ts[j].kind);
      var depth := |now.levels| - (if branch then 1 else 0) + (if chainLine then 1 else 0);
      if depth < 0 then None else
      match ApplyLine(ts, line, j, now, LineState(chainLine, true, false, false))
      case None => None
      case Some(done) =>
        match BeginBody(done.0, done.1)
        case None => None
        case Some(after) => Some(Step(depth, after, done.2))
  }

  /** A token other than the end starts on the line. */
  predicate Starts(ts: seq<Token>, k: nat, line: nat) {
    OnLine(ts, k, line) && !ts[k].kind.Eof?
  }

  /** An open chain or endless body ends with the document. */
  function Settle(st: State): nat {
    var n := |st.levels|;
    var m := if st.chain >= 0 && n == st.chain + 1 then n - 1 else n;
    if st.body >= 0 && m == st.body + 1 then m - 1 else m
  }

  /** The depths of the lines from `line` to `count`; nothing when the levels do not balance. */
  function DepthsFrom(ts: seq<Token>, count: nat, line: nat, k: nat, st: State): (r: Option<seq<nat>>)
    requires line <= count + 1
    ensures r.Some? ==> |r.value| == count + 1 - line
    decreases count + 1 - line
  {
    if line > count then
      if Settle(st) == 0 then Some([]) else None
    else if Starts(ts, k, line) then
      match LineStep(ts, line, k, st)
      case None => None
      case Some(step) => Preceded(step.depth, DepthsFrom(ts, count, line + 1, step.next, step.state))
    else Preceded(|st.levels|, DepthsFrom(ts, count, line + 1, k, st))
  }

  function Preceded(d: nat, r: Option<seq<nat>>): Option<seq<nat>> {
    match r
    case None => None
    case Some(s) => Some([d] + s)
  }

  const INITIAL := State([], Other, -1, -1, false)

  function Depths(ts: seq<Token>, count: nat): (r: Option<seq<nat>>)
    ensures r.Some? ==> |r.value| == count
  {
    DepthsFrom(ts, count, 1, 0, INITIAL)
  }

  // ---------------------------------------------------------------------------------
  // Only the kinds matter, and which tokens share a line.

  ghost predicate SameKinds(ts: seq<Token>, us: seq<Token>) {
    |ts| == |us| && forall i :: 0 <= i < |ts| ==> ts[i].kind == us[i].kind
  }

  ghost predicate SameLines(ts: seq<Token>, us: seq<Token>) {
    |ts| == |us| &&
    forall i, j :: 0 <= i < |ts| && 0 <= j < |ts| ==> (ts[i].line == ts[j].line <==> us[i].line == us[j].line)
  }

  /** `line` of `ts` is `other` of `us`. */
  ghost predicate SameLine(ts: seq<Token>, us: seq<Token>, line: nat, other: nat) {
    |ts| == |us| && forall i :: 0 <= i < |ts| ==> (ts[i].line == line <==> us[i].line == other)
  }

  lemma {:induction false} SameFindParen(ts: seq<Token>, us: seq<Token>, k: nat)
    requires SameKinds(ts, us)
    ensures FindParen(ts, k) == FindParen(us, k)
    decreases |ts| - k
  {
    if k < |ts| {
      SameFindParen(ts, us, k + 1);
    }
  }

  lemma {:induction false} SameSkipParens(ts: seq<Token>, us: seq<Token>, k: nat, depth: int)
    requires SameKinds(ts, us)
    ensures SkipParens(ts, k, depth) == SkipParens(us, k, depth)
    decreases |ts| - k
  {
    if k < |ts| {
      SameSkipParens(ts, us, k + 1, depth + 1);
      SameSkipParens(ts, us, k + 1, depth - 1);
      SameSkipParens(ts, us, k + 1, depth);
    }
  }

  lemma {:induction false} SameSkipType(ts: seq<Token>, us: seq<Token>, k: nat, line: nat, other: nat, depth: int)
    requires SameKinds(ts, us) && SameLine(ts, us, line, other)
    ensures SkipType(ts, k, line, depth) == SkipType(us, k, other, depth)
    decreases |ts| - k
  {
    hide SameKinds, SameLine;
    SameAt(ts, us, k, line, other);
    if k < |ts| {
      var kind := ts[k].kind;
      var inner := if kind.LeftBracket? then depth + 1 else if kind.RightBracket? then depth - 1 else depth;
      SameSkipType(ts, us, k + 1, line, other, inner);
    }
  }

  lemma SameAt(ts: seq<Token>, us: seq<Token>, k: nat, line: nat, other: nat)
    requires SameKinds(ts, us) && SameLine(ts, us, line, other)
    ensures |ts| == |us| && (k < |ts| ==> ts[k].kind == us[k].kind && (ts[k].line == line <==> us[k].line == other))
  {
  }

  lemma SameDefIsEndless(ts: seq<Token>, us: seq<Token>, def: nat)
    requires SameKinds(ts, us) && SameLines(ts, us)
    ensures DefIsEndless(ts, def) == DefIsEndless(us, def)
  {
    hide FindParen, SkipParens, SkipType;
    SameFindParen(ts, us, def + 1);
    var k := FindParen(ts, def + 1);
    SameSkipParens(ts, us, k, 0);
    var past := SkipParens(ts, k, 0);
    if past.Some? && past.value < |ts| {
      var j := past.value;
      SameSkipType(ts, us, j + 1, ts[j].line, us[j].line, 0);
    }
  }

  lemma {:induction false} SameCloseLeading(ts: seq<Token>, us: seq<Token>, line: nat, other: nat, k: nat, st: State)
    requires SameKinds(ts, us) && SameLine(ts, us, line, other)
    ensures CloseLeading(ts, line, k, st) == CloseLeading(us, other, k, st)
    decreases |ts| - k
  {
    if OnLine(ts, k, line) && Pop(st).Some? {
      SameCloseLeading(ts, us, line, other, k + 1, Pop(st).value.(prev := ts[k].kind));
    }
  }

  lemma {:induction false} SameApplyLine(ts: seq<Token>, us: seq<Token>, line: nat, other: nat, k: nat, st: State,
                                         ls: LineState)
    requires SameKinds(ts, us) && SameLines(ts, us) && SameLine(ts, us, line, other)
    ensures ApplyLine(ts, line, k, st, ls) == ApplyLine(us, other, k, st, ls)
    decreases |ts| - k
  {
    hide ApplyToken, DefIsEndless;
    if OnLine(ts, k, line) {
      SameDefIsEndless(ts, us, k);
      var next := ApplyToken(ts[k].kind, DefIsEndless(ts, k), st, ls);
      if next.Some? {
        SameApplyLine(ts, us, line, other, k + 1, next.value.0.(prev := ts[k].kind), next.value.1.(first := false));
      }
    }
  }

  lemma SameLineStep(ts: seq<Token>, us: seq<Token>, line: nat, other: nat, k: nat, st: State)
    requires SameKinds(ts, us) && SameLines(ts, us) && SameLine(ts, us, line, other) && OnLine(ts, k, line)
    ensures LineStep(ts, line, k, st) == LineStep(us, other, k, st)
  {
    hide CloseLeading, ApplyLine, BeginBody, EndChain, EndBody;
    var from := EndChain(EndBody(st, ts[k].kind), ts[k].kind);
    SameCloseLeading(ts, us, line, other, k, from);
    var opening := CloseLeading(ts, line, k, from);
    if opening.Some? {
      var (now, j) := opening.value;
      var chainLine := OnLine(ts, j, line) && ts[j].kind.Dot? && now.chain < 0;
      SameApplyLine(ts, us, line, other, j, now, LineState(chainLine, true, false, false));
    }
  }

  // ---------------------------------------------------------------------------------
  // Leaving out lines without tokens leaves out their depths, and no more.

  /** How many of the first `n` lines are kept. */
  function Rank(keep: seq<bool>, n: nat): (r: nat)
    requires n <= |keep|
    ensures r <= n
  {
    if n == 0 then 0 else Rank(keep, n - 1) + (if keep[n - 1] then 1 else 0)
  }

  /** The entries that are kept. */
  function Filter<T>(keep: seq<bool>, s: seq<T>): seq<T>
    requires |s| == |keep|
  {
    if s == [] then []
    else if keep[0] then [s[0]] + Filter(keep[1..], s[1..]) else Filter(keep[1..], s[1..])
  }

  lemma {:induction false} RankLess(keep: seq<bool>, a: nat, b: nat)
    requires a < b <= |keep|
    ensures Rank(keep, a) <= Rank(keep, b) && (keep[a] ==> Rank(keep, a) < Rank(keep, b))
  {
    if a + 1 < b {
      RankLess(keep, a, b - 1);
    }
  }

  /** `us` is `ts` with the lines renumbered; every token is on a kept line. */
  ghost predicate Renumbered(ts: seq<Token>, us: seq<Token>, keep: seq<bool>) {
    && SameKinds(ts, us)
    && forall i :: 0 <= i < |ts| ==>
         1 <= ts[i].line <= |keep| && keep[ts[i].line - 1] && us[i].line == Rank(keep, ts[i].line - 1) + 1
  }

  lemma RenumberedLine(ts: seq<Token>, us: seq<Token>, keep: seq<bool>, line: nat)
    requires Renumbered(ts, us, keep) && 1 <= line <= |keep| && keep[line - 1]
    ensures SameLine(ts, us, line, Rank(keep, line - 1) + 1)
  {
    hide Rank;
    forall i | 0 <= i < |ts|
      ensures ts[i].line == line <==> us[i].line == Rank(keep, line - 1) + 1
    {
      if ts[i].line < line {
        RankLess(keep, ts[i].line - 1, line - 1);
      } else if line < ts[i].line {
        RankLess(keep, line - 1, ts[i].line - 1);
      }
    }
  }

  lemma RenumberedLines(ts: seq<Token>, us: seq<Token>, keep: seq<bool>)
    requires Renumbered(ts, us, keep)
    ensures SameLines(ts, us)
  {
    hide Rank;
    forall i, j | 0 <= i < |ts| && 0 <= j < |ts|
      ensures ts[i].line == ts[j].line <==> us[i].line == us[j].line
    {
      RenumberedLine(ts, us, keep, ts[j].line);
    }
  }

  function FilterDepths(keep: seq<bool>, r: Option<seq<nat>>): Option<seq<nat>>
    requires r.Some? ==> |r.value| == |keep|
  {
    match r
    case None => None
    case Some(s) => Some(Filter(keep, s))
  }

  lemma FilterPreceded(keep: seq<bool>, d: nat, r: Option<seq<nat>>)
    requires |keep| > 0 && (r.Some? ==> |r.value| == |keep| - 1)
    ensures FilterDepths(keep, Preceded(d, r)) ==
            if keep[0] then Preceded(d, FilterDepths(keep[1..], r)) else FilterDepths(keep[1..], r)
  {
    if r.Some? {
      assert ([d] + r.value)[1..] == r.value;
    }
  }

  lemma {:induction false} DepthsFiltered(ts: seq<Token>, us: seq<Token>, keep: seq<bool>, line: nat, k: nat, st: State)
    requires Renumbered(ts, us, keep) && 1 <= line <= |keep| + 1
    ensures Rank(keep, line - 1) <= Rank(keep, |keep|)
    ensures DepthsFrom(us, Rank(keep, |keep|), Rank(keep, line - 1) + 1, k, st) ==
            FilterDepths(keep[line - 1..], DepthsFrom(ts, |keep|, line, k, st))
    decreases |keep| + 1 - line
  {
    hide LineStep, Filter, Preceded, FilterDepths, Settle, Renumbered, OnLine, Rank;
    if line > |keep| {
      DepthsFilteredEnd(st);
    } else {
      var rest := keep[line - 1..];
      var after := keep[line..];
      assert rest[1..] == after;
      RankLess(keep, line - 1, |keep|);
      RankStep(keep, line - 1);
      if Starts(ts, k, line) {
        RenumberedStep(ts, us, keep, line, k, st);
        var step := LineStep(ts, line, k, st);
        if step.Some? {
          DepthsFiltered(ts, us, keep, line + 1, step.value.next, step.value.state);
          FilterPreceded(rest, step.value.depth, DepthsFrom(ts, |keep|, line + 1, step.value.next, step.value.state));
        } else {
          FilteredNothing(rest);
        }
      } else {
        RenumberedSkip(ts, us, keep, line, k);
        DepthsFiltered(ts, us, keep, line + 1, k, st);
        FilterPreceded(rest, |st.levels|, DepthsFrom(ts, |keep|, line + 1, k, st));
      }
    }
  }

  lemma RankStep(keep: seq<bool>, n: nat)
    requires n < |keep|
    ensures Rank(keep, n + 1) == Rank(keep, n) + (if keep[n] then 1 else 0)
  {
  }

  lemma RenumberedStep(ts: seq<Token>, us: seq<Token>, keep: seq<bool>, line: nat, k: nat, st: State)
    requires Renumbered(ts, us, keep) && 1 <= line <= |keep| && Starts(ts, k, line)
    ensures keep[line - 1] && Starts(us, k, Rank(keep, line - 1) + 1)
    ensures LineStep(ts, line, k, st) == LineStep(us, Rank(keep, line - 1) + 1, k, st)
  {
    hide LineStep, Rank;
    RenumberedLine(ts, us, keep, line);
    RenumberedLines(ts, us, keep);
    SameLineStep(ts, us, line, Rank(keep, line - 1) + 1, k, st);
  }

  lemma RenumberedSkip(ts: seq<Token>, us: seq<Token>, keep: seq<bool>, line: nat, k: nat)
    requires Renumbered(ts, us, keep) && 1 <= line <= |keep| && !Starts(ts, k, line)
    ensures keep[line - 1] ==> !Starts(us, k, Rank(keep, line - 1) + 1)
  {
    hide Rank;
    if keep[line - 1] {
      RenumberedLine(ts, us, keep, line);
    }
  }

  lemma DepthsFilteredEnd(st: State)
    ensures FilterDepths([], if Settle(st) == 0 then Some([]) else None) == if Settle(st) == 0 then Some([]) else None
  {
  }

  lemma FilteredNothing(keep: seq<bool>)
    ensures FilterDepths(keep, None) == None
  {
  }
}
