/** The indentation pass against a plain account of nesting: what each token opens or closes is
    told from where it stands, by looking back, without carrying a state along. */
module Nesting {
  import opened Wrappers
  import opened Layout
  import opened Depth

  // ---------------------------------------------------------------------------------
  // What a token does to the levels.

  /** Nothing stands before the token on its line but closers. */
  predicate LeadsLine(ts: seq<Token>, k: nat)
    requires k < |ts|
  {
    k == 0 || ts[k - 1].line != ts[k].line || (IsLeadingDedent(ts[k - 1].kind) && LeadsLine(ts, k - 1))
  }

  /** An `if` or a loop condition here starts a block; otherwise it is a modifier after a value. */
  predicate StartsBlock(ts: seq<Token>, k: nat)
    requires k < |ts|
  {
    LeadsLine(ts, k) || k == 0 || !IsValueEnd(ts[k - 1].kind)
  }

  /** A loop on the line before the token still waits for its `do`. */
  predicate AwaitsDo(ts: seq<Token>, k: nat)
    requires k < |ts|
  {
    k > 0 && ts[k - 1].line == ts[k].line &&
    match ts[k - 1].kind
    case Loop => true
    case While | Until => StartsBlock(ts, k - 1) || AwaitsDo(ts, k - 1)
    case Do => false
    case _ => AwaitsDo(ts, k - 1)
  }

  /** The token is the first of its line. The end of the text does not count. */
  predicate BeginsLine(ts: seq<Token>, k: nat)
    requires k < |ts|
  {
    (k == 0 || ts[k - 1].line != ts[k].line) && !ts[k].kind.Eof?
  }

  /** The token is the last of its line. */
  predicate EndsLine(ts: seq<Token>, k: nat)
    requires k < |ts|
  {
    k + 1 == |ts| || ts[k + 1].line != ts[k].line
  }

  /** How many levels are open after the first `k` tokens. */
  function Balance(ts: seq<Token>, k: nat): int
    requires k <= |ts|
    decreases k, 0
  {
    if k == 0 then 0 else Level(ts, k - 1) + Weight(ts, k - 1)
  }

  /** The level below the last method chain among the first `k` tokens; -1 when it has ended. */
  function Chain(ts: seq<Token>, k: nat): int
    requires k <= |ts|
    decreases k, 0
  {
    if k == 0 then -1
    else if OpensChain(ts, k - 1) then Level(ts, k - 1)
    else if EndsChain(ts, k - 1) then -1
    else Chain(ts, k - 1)
  }

  /** The level below the last endless body among the first `k` tokens; -1 when it has ended. */
  function Body(ts: seq<Token>, k: nat): int
    requires k <= |ts|
    decreases k, 0
  {
    if k == 0 then -1
    else if OpensBody(ts, k - 1) then Level(ts, k - 1)
    else if EndsBody(ts, k - 1) then -1
    else Body(ts, k - 1)
  }

  /** The token at `k` starts a line that does not go on with the chain before it. */
  predicate EndsChain(ts: seq<Token>, k: nat)
    requires k < |ts|
    decreases k, 1
  {
    BeginsLine(ts, k) && !ts[k].kind.Dot? && Chain(ts, k) >= 0 && Balance(ts, k) == Chain(ts, k) + 1
  }

  /** The token at `k` starts a line after the body of an endless definition. */
  predicate EndsBody(ts: seq<Token>, k: nat)
    requires k < |ts|
    decreases k, 1
  {
    && BeginsLine(ts, k) && !ts[k].kind.Dot? && Chain(ts, k) < 0 && Body(ts, k) >= 0 && Balance(ts, k) == Body(ts, k) + 1
    && !(k > 0 && OpensBody(ts, k - 1))
  }

  /** How many levels are open where the token at `k` comes in. */
  function Level(ts: seq<Token>, k: nat): int
    requires k < |ts|
    decreases k, 2
  {
    Balance(ts, k) - if EndsChain(ts, k) || EndsBody(ts, k) then 1 else 0
  }

  /** The dot at `k` starts a line and no chain is under way. */
  predicate OpensChain(ts: seq<Token>, k: nat)
    requires k < |ts|
    decreases k, 3
  {
    ts[k].kind.Dot? && LeadsLine(ts, k) && Chain(ts, k) < 0
  }

  /** The level number `depth` open before the token at `k` is the body of an interface: going
      back, the token that opened it is an `interface`. */
  predicate InterfaceLevel(ts: seq<Token>, k: nat, depth: int)
    requires k <= |ts|
    decreases k, 0
  {
    k > 0 && if Level(ts, k - 1) < depth then ts[k - 1].kind.Interface? else InterfaceLevel(ts, k - 1, depth)
  }

  /** The definition at `k` is a signature in the body of an interface. */
  predicate IsSignature(ts: seq<Token>, k: nat)
    requires k < |ts|
    decreases k, 3
  {
    Level(ts, k) > 0 && InterfaceLevel(ts, k, Level(ts, k))
  }

  /** The token at `k` starts a definition of the form `def name(...) = expression`. */
  predicate StartsEndless(ts: seq<Token>, k: nat)
    requires k < |ts|
    decreases k, 4
  {
    (ts[k].kind.Def? || ts[k].kind.Closure?) && !IsSignature(ts, k) && DefIsEndless(ts, k)
  }

  /** Such a definition starts before the token at `k`, on its line. */
  predicate FollowsEndless(ts: seq<Token>, k: nat)
    requires k < |ts|
    decreases k, 0
  {
    k > 0 && ts[k - 1].line == ts[k].line && (StartsEndless(ts, k - 1) || FollowsEndless(ts, k - 1))
  }

  /** The `=` at `k` ends the line of an endless definition, whose body is on the next. */
  predicate OpensBody(ts: seq<Token>, k: nat)
    requires k < |ts|
    decreases k, 3
  {
    ts[k].kind.Equal? && EndsLine(ts, k) && FollowsEndless(ts, k) && Body(ts, k) < 0
  }

  /** How many levels the token opens, or closes where negative. */
  function Weight(ts: seq<Token>, k: nat): int
    requires k < |ts|
    decreases k, 4
  {
    match ts[k].kind
    case LeftParen | LeftBracket | LeftBrace | Module | Struct | Begin | Case | Interface | Loop => 1
    case RightParen | RightBracket | RightBrace | End => -1
    case Class => if k > 0 && ts[k - 1].kind.Dot? then 0 else 1
    case Do => if AwaitsDo(ts, k) then 0 else 1
    case Def | Closure => if IsSignature(ts, k) || DefIsEndless(ts, k) then 0 else 1
    case If | Unless | While | Until => if StartsBlock(ts, k) then 1 else 0
    case Dot => if OpensChain(ts, k) then 1 else 0
    case Equal => if OpensBody(ts, k) then 1 else 0
    case _ => 0
  }

  /** What is left open after the first `k` tokens when the text ends there: a chain, and then
      the body of an endless definition, need no closing. */
  function Unclosed(ts: seq<Token>, k: nat): int
    requires k <= |ts|
  {
    var n := Balance(ts, k);
    var m := if Chain(ts, k) >= 0 && n == Chain(ts, k) + 1 then n - 1 else n;
    if Body(ts, k) >= 0 && m == Body(ts, k) + 1 then m - 1 else m
  }

  /** From `i` to `j`, no level is closed that is not open, and there are never too many. */
  predicate Nests(ts: seq<Token>, i: nat, j: nat)
    requires j <= |ts|
  {
    forall k :: i <= k <= j ==> 0 <= Balance(ts, k) <= MAX_DEPTH
  }

  /** Where the tokens of `line` from `k` on end. */
  function PastLine(ts: seq<Token>, line: nat, k: nat): (e: nat)
    requires k <= |ts|
    ensures k <= e <= |ts| && !OnLine(ts, e, line) && forall i :: k <= i < e ==> ts[i].line == line
    decreases |ts| - k
  {
    if OnLine(ts, k, line) then PastLine(ts, line, k + 1) else k
  }

  /** Where the closers that `line` starts with, from `k` on, end. */
  function PastClosers(ts: seq<Token>, line: nat, k: nat): (e: nat)
    requires k <= |ts|
    ensures k <= e <= |ts|
    decreases |ts| - k
  {
    if OnLine(ts, k, line) && IsLeadingDedent(ts[k].kind) then PastClosers(ts, line, k + 1) else k
  }

  /** How deep the line is whose first token is at `k`: what is open once it has closed what it
      closes first, one less where it continues a block and one more where it opens a chain. */
  function LineDepth(ts: seq<Token>, line: nat, k: nat): int
    requires k <= |ts|
  {
    if !Starts(ts, k, line) then Balance(ts, k)
    else
      var j := PastClosers(ts, line, k);
      if !OnLine(ts, j, line) then Balance(ts, j)
      else Level(ts, j) - (if IsBranch(ts[j].kind) then 1 else 0) + if OpensChain(ts, j) then 1 else 0
  }

  function PrevKind(ts: seq<Token>, k: nat): Kind
    requires k <= |ts|
  {
    if k == 0 then Other else ts[k - 1].kind
  }

  // ---------------------------------------------------------------------------------
  // The state of the pass, token by token.

  /** Each level is an interface or not, as looking back tells. */
  ghost predicate Kinds(ts: seq<Token>, k: nat, levels: seq<bool>) {
    k <= |ts| && forall d :: 0 <= d < |levels| ==> levels[d] == InterfaceLevel(ts, k, d + 1)
  }

  /** Between two lines: the state after the first `k` tokens. */
  ghost predicate Tracks(ts: seq<Token>, k: nat, st: State) {
    && k <= |ts| && |st.levels| == Balance(ts, k) <= MAX_DEPTH && st.chain == Chain(ts, k) && st.body == Body(ts, k)
    && st.prev == PrevKind(ts, k) && Kinds(ts, k, st.levels)
    && (st.body >= 0 ==> (st.bodyFirst <==> k > 0 && OpensBody(ts, k - 1)))
  }

  /** On a line: the state the token at `k` finds. */
  ghost predicate Finds(ts: seq<Token>, k: nat, st: State) {
    && k < |ts| && |st.levels| == Level(ts, k) && Balance(ts, k) <= MAX_DEPTH
    && st.chain == (if EndsChain(ts, k) then -1 else Chain(ts, k))
    && st.body == (if EndsBody(ts, k) then -1 else Body(ts, k))
    && st.prev == PrevKind(ts, k) && Kinds(ts, k, st.levels) && (st.body >= 0 ==> !st.bodyFirst)
  }

  /** What the token at `k` opens there and then; the body of an endless definition is opened
      only once its line is over. */
  function AtOnce(ts: seq<Token>, k: nat): int
    requires k < |ts|
  {
    if OpensBody(ts, k) then 0 else Weight(ts, k)
  }

  /** On a line: the state the token at `k` leaves behind. */
  ghost predicate Leaves(ts: seq<Token>, k: nat, st: State) {
    && k < |ts| && |st.levels| == Level(ts, k) + AtOnce(ts, k) <= MAX_DEPTH && st.chain == Chain(ts, k + 1)
    && st.body == (if EndsBody(ts, k) then -1 else Body(ts, k))
    && st.prev == ts[k].kind && Kinds(ts, k + 1, st.levels) && (st.body >= 0 ==> !st.bodyFirst)
  }

  /** One token does to the levels what its weight says, or cannot. */
  ghost predicate Moves(ts: seq<Token>, k: nat, st: State, r: Option<State>)
    requires k < |ts|
  {
    && (r.Some? <==> 0 <= |st.levels| + AtOnce(ts, k) <= MAX_DEPTH)
    && (r.Some? ==> Leaves(ts, k, r.value.(prev := ts[k].kind)))
  }

  lemma BalanceNext(ts: seq<Token>, k: nat)
    requires k < |ts|
    ensures Balance(ts, k + 1) == Level(ts, k) + Weight(ts, k)
  {
    hide Level, Weight;
  }

  lemma ChainNext(ts: seq<Token>, k: nat)
    requires k < |ts|
    ensures Chain(ts, k + 1) == if OpensChain(ts, k) then Level(ts, k) else if EndsChain(ts, k) then -1 else Chain(ts, k)
  {
    hide OpensChain, EndsChain, Level;
  }

  lemma BodyNext(ts: seq<Token>, k: nat)
    requires k < |ts|
    ensures Body(ts, k + 1) == if OpensBody(ts, k) then Level(ts, k) else if EndsBody(ts, k) then -1 else Body(ts, k)
  {
    hide OpensBody, EndsBody, Level;
  }

  lemma InterfaceNext(ts: seq<Token>, k: nat, d: int)
    requires k < |ts|
    ensures InterfaceLevel(ts, k + 1, d) <==> if Level(ts, k) < d then ts[k].kind.Interface? else InterfaceLevel(ts, k, d)
  {
    hide Level;
  }

  /** The levels up to what the token finds keep their kind. */
  lemma KindsKept(ts: seq<Token>, k: nat, levels: seq<bool>, n: nat)
    requires k < |ts| && Kinds(ts, k, levels) && n <= |levels| <= Level(ts, k)
    ensures Kinds(ts, k + 1, levels[..n])
  {
    hide InterfaceLevel, Level;
    forall d | 0 <= d < n
      ensures levels[..n][d] == InterfaceLevel(ts, k + 1, d + 1)
    {
      InterfaceNext(ts, k, d + 1);
    }
  }

  lemma KindsPushed(ts: seq<Token>, k: nat, levels: seq<bool>)
    requires k < |ts| && Kinds(ts, k, levels) && |levels| == Level(ts, k)
    ensures Kinds(ts, k + 1, levels + [ts[k].kind.Interface?])
  {
    hide InterfaceLevel, Level;
    var pushed := levels + [ts[k].kind.Interface?];
    forall d | 0 <= d < |pushed|
      ensures pushed[d] == InterfaceLevel(ts, k + 1, d + 1)
    {
      InterfaceNext(ts, k, d + 1);
    }
  }

  lemma PushMoves(ts: seq<Token>, k: nat, st: State)
    requires Finds(ts, k, st) && AtOnce(ts, k) == 1
    ensures var next := if OpensChain(ts, k) then st.(chain := |st.levels|) else st;
            Moves(ts, k, st, Push(next, ts[k].kind.Interface?))
  {
    hide AtOnce, Kinds, Level, EndsBody, OpensChain, EndsChain, Chain, Balance, Body;
    ChainNext(ts, k);
    KindsPushed(ts, k, st.levels);
  }

  lemma PopMoves(ts: seq<Token>, k: nat, st: State)
    requires Finds(ts, k, st) && AtOnce(ts, k) == -1 && !OpensChain(ts, k)
    ensures Moves(ts, k, st, Pop(st))
  {
    hide AtOnce, Kinds, Level, EndsBody, OpensChain, EndsChain, Chain, Balance, Body;
    ChainNext(ts, k);
    FoundRange(ts, k, st);
    if |st.levels| > 0 {
      KindsKept(ts, k, st.levels, |st.levels| - 1);
    }
  }

  lemma StayMoves(ts: seq<Token>, k: nat, st: State)
    requires Finds(ts, k, st) && AtOnce(ts, k) == 0 && !OpensChain(ts, k)
    ensures Moves(ts, k, st, Some(st))
  {
    hide AtOnce, Kinds, Level, EndsBody, OpensChain, EndsChain, Chain, Balance, Body;
    ChainNext(ts, k);
    FoundRange(ts, k, st);
    KindsKept(ts, k, st.levels, |st.levels|);
    assert st.levels[..|st.levels|] == st.levels;
  }

  lemma FoundRange(ts: seq<Token>, k: nat, st: State)
    requires Finds(ts, k, st)
    ensures |st.levels| <= MAX_DEPTH && |st.levels| == Level(ts, k) && st.prev == PrevKind(ts, k)
  {
    hide Balance, EndsChain, EndsBody;
  }

  // ---------------------------------------------------------------------------------
  // A line of the pass.

  /** While on `line`: what is open before the token at `k`, or where the line ends there. */
  function Sofar(ts: seq<Token>, line: nat, k: nat): int
    requires k <= |ts|
  {
    if OnLine(ts, k, line) then Balance(ts, k) else if k == 0 then 0 else Level(ts, k - 1) + AtOnce(ts, k - 1)
  }

  predicate Fits(ts: seq<Token>, line: nat, i: nat, j: nat)
    requires j <= |ts|
  {
    forall k :: i <= k <= j ==> 0 <= Sofar(ts, line, k) <= MAX_DEPTH
  }

  ghost predicate OnTrack(ts: seq<Token>, line: nat, k: nat, st: State) {
    if OnLine(ts, k, line) then Finds(ts, k, st) else k > 0 && Leaves(ts, k - 1, st)
  }

  lemma OnTrackFits(ts: seq<Token>, line: nat, k: nat, st: State)
    requires OnTrack(ts, line, k, st)
    ensures k <= |ts| && 0 <= Sofar(ts, line, k) <= MAX_DEPTH && st.prev == PrevKind(ts, k)
  {
    hide Balance, EndsChain, EndsBody, AtOnce, Kinds, Chain, Body;
  }

  /** What one token leaves is what the next on the line finds. */
  lemma LeavesOnTrack(ts: seq<Token>, line: nat, k: nat, st: State)
    requires OnLine(ts, k, line) && Leaves(ts, k, st)
    ensures OnTrack(ts, line, k + 1, st)
  {
    hide Weight, Kinds, LeadsLine, FollowsEndless;
    if OnLine(ts, k + 1, line) {
      assert !OpensBody(ts, k) && !EndsChain(ts, k + 1) && !EndsBody(ts, k + 1);
      BalanceNext(ts, k);
      ChainNext(ts, k);
      BodyNext(ts, k);
      hide OpensBody, EndsChain, EndsBody, Chain, Body, Balance;
    }
  }

  lemma SofarNext(ts: seq<Token>, line: nat, k: nat)
    requires OnLine(ts, k, line)
    ensures Sofar(ts, line, k + 1) == Level(ts, k) + AtOnce(ts, k)
  {
    hide Weight, FollowsEndless, Level;
    if OnLine(ts, k + 1, line) {
      assert !OpensBody(ts, k);
      BalanceNext(ts, k);
    }
  }

  lemma {:induction false} ClosersNest(ts: seq<Token>, line: nat, k: nat, st: State)
    requires OnTrack(ts, line, k, st)
    ensures var r := CloseLeading(ts, line, k, st);
            var e := PastClosers(ts, line, k);
            && (r.Some? <==> Fits(ts, line, k, e))
            && (r.Some? ==> r.value.1 == e && OnTrack(ts, line, e, r.value.0))
    decreases |ts| - k
  {
    hide Finds, Leaves, Sofar, AtOnce, Level, OpensChain;
    OnTrackFits(ts, line, k, st);
    if OnLine(ts, k, line) && IsLeadingDedent(ts[k].kind) {
      CloserWeight(ts, k);
      FoundRange(ts, k, st);
      PopMoves(ts, k, st);
      SofarNext(ts, line, k);
      if Pop(st).Some? {
        var next := Pop(st).value.(prev := ts[k].kind);
        LeavesOnTrack(ts, line, k, next);
        ClosersNest(ts, line, k + 1, next);
      } else {
        assert Sofar(ts, line, k + 1) < 0;
      }
    }
  }

  lemma CloserWeight(ts: seq<Token>, k: nat)
    requires k < |ts| && IsLeadingDedent(ts[k].kind)
    ensures AtOnce(ts, k) == -1 && !OpensChain(ts, k)
  {
    hide Chain, Body, FollowsEndless, LeadsLine;
  }

  lemma {:induction false} PastClosersOn(ts: seq<Token>, line: nat, k: nat)
    requires k <= |ts|
    ensures var e := PastClosers(ts, line, k); e <= PastLine(ts, line, k) && PastLine(ts, line, e) == PastLine(ts, line, k)
    decreases |ts| - k
  {
    if OnLine(ts, k, line) && IsLeadingDedent(ts[k].kind) {
      PastClosersOn(ts, line, k + 1);
    }
  }

  /** After the closers a line starts with, the next token still leads it, and awaits no `do`. */
  lemma {:induction false} ClosersLead(ts: seq<Token>, line: nat, k: nat)
    requires k < |ts| && ts[k].line == line && LeadsLine(ts, k) && !AwaitsDo(ts, k) && !FollowsEndless(ts, k)
    ensures var e := PastClosers(ts, line, k);
            OnLine(ts, e, line) ==>
              LeadsLine(ts, e) && !AwaitsDo(ts, e) && !FollowsEndless(ts, e) && !IsLeadingDedent(ts[e].kind)
    decreases |ts| - k
  {
    hide IsSignature, DefIsEndless;
    if IsLeadingDedent(ts[k].kind) && OnLine(ts, k + 1, line) {
      ClosersLead(ts, line, k + 1);
    }
  }

  /** What is carried along a line says the same as looking back does. */
  ghost predicate LineTracks(ts: seq<Token>, line: nat, k: nat, ls: LineState) {
    if OnLine(ts, k, line) then
      && ls.first == LeadsLine(ts, k) && ls.pendingDo == AwaitsDo(ts, k) && ls.endless == FollowsEndless(ts, k)
      && (ls.first ==> !IsLeadingDedent(ts[k].kind))
      && (ts[k].kind.Dot? ==> (ls.chainLine && ls.first <==> OpensChain(ts, k)))
    else 0 < k <= |ts| && (ts[k - 1].kind.Equal? ==> ls.endless == FollowsEndless(ts, k - 1))
  }

  lemma TopIsInterface(ts: seq<Token>, k: nat, st: State)
    requires Finds(ts, k, st)
    ensures IsSignature(ts, k) <==> |st.levels| > 0 && st.levels[|st.levels| - 1]
  {
    hide Level, Chain, Body, Balance, EndsChain, EndsBody, InterfaceLevel;
  }

  /** How many levels the pass opens for a token, going by what it carries. */
  function Opening(kind: Kind, endless: bool, st: State, ls: LineState): int {
    match kind
    case LeftParen | LeftBracket | LeftBrace | Module | Struct | Begin | Case | Interface | Loop => 1
    case RightParen | RightBracket | RightBrace | End => -1
    case Class => if st.prev.Dot? then 0 else 1
    case Do => if ls.pendingDo then 0 else 1
    case Def | Closure => if (|st.levels| > 0 && st.levels[|st.levels| - 1]) || endless then 0 else 1
    case If | Unless | While | Until => if ls.first || !IsValueEnd(st.prev) then 1 else 0
    case Dot => if ls.chainLine && ls.first then 1 else 0
    case _ => 0
  }

  lemma TokenOpens(kind: Kind, endless: bool, st: State, ls: LineState)
    ensures var r := ApplyToken(kind, endless, st, ls);
            var n := Opening(kind, endless, st, ls);
            (if r.Some? then Some(r.value.0) else None) ==
            if n == 1 then Push(if kind.Dot? then st.(chain := |st.levels|) else st, kind.Interface?)
            else if n == -1 then Pop(st) else Some(st)
  {
    hide IsValueEnd, Push, Pop;
  }

  lemma OpensAtOnce(ts: seq<Token>, k: nat, st: State, ls: LineState, line: nat)
    requires OnLine(ts, k, line) && Finds(ts, k, st) && LineTracks(ts, line, k, ls)
    ensures AtOnce(ts, k) == Opening(ts[k].kind, DefIsEndless(ts, k), st, ls)
    ensures OpensChain(ts, k) <==> ts[k].kind.Dot? && AtOnce(ts, k) == 1
  {
    hide Finds, LeadsLine, AwaitsDo, IsSignature, DefIsEndless, OpensBody, OpensChain, FollowsEndless;
    FoundRange(ts, k, st);
    TopIsInterface(ts, k, st);
    OpensOne(ts, k);
  }

  lemma TokenMoves(ts: seq<Token>, k: nat, st: State, ls: LineState, line: nat)
    requires OnLine(ts, k, line) && Finds(ts, k, st) && LineTracks(ts, line, k, ls)
    ensures var r := ApplyToken(ts[k].kind, DefIsEndless(ts, k), st, ls);
            Moves(ts, k, st, if r.Some? then Some(r.value.0) else None)
  {
    hide Finds, Moves, LineTracks, DefIsEndless, OpensChain, AtOnce, Opening, ApplyToken, Push, Pop;
    OpensAtOnce(ts, k, st, ls, line);
    TokenOpens(ts[k].kind, DefIsEndless(ts, k), st, ls);
    OpensOne(ts, k);
    if AtOnce(ts, k) == 1 {
      PushMoves(ts, k, st);
    } else if AtOnce(ts, k) == -1 {
      PopMoves(ts, k, st);
    } else {
      OpeningRange(ts[k].kind, DefIsEndless(ts, k), st, ls);
      StayMoves(ts, k, st);
    }
  }

  lemma OpeningRange(kind: Kind, endless: bool, st: State, ls: LineState)
    ensures -1 <= Opening(kind, endless, st, ls) <= 1
  {
  }

  lemma OpensOne(ts: seq<Token>, k: nat)
    requires k < |ts|
    ensures OpensChain(ts, k) ==> ts[k].kind.Dot?
    ensures OpensBody(ts, k) ==> ts[k].kind.Equal?
  {
    hide Chain, Body, FollowsEndless, LeadsLine;
  }

  /** What a token makes of what is carried along its line. */
  lemma CarriedOn(kind: Kind, endless: bool, st: State, ls: LineState)
    ensures var r := ApplyToken(kind, endless, st, ls);
            r.Some? ==>
              && r.value.1.endless == (ls.endless || ((kind.Def? || kind.Closure?) && endless &&
                                         !(|st.levels| > 0 && st.levels[|st.levels| - 1])))
              && r.value.1.pendingDo == match kind
                                        case Loop => true
                                        case While | Until => ls.first || !IsValueEnd(st.prev) || ls.pendingDo
                                        case Do => false
                                        case _ => ls.pendingDo
  {
  }

  lemma TokenCarries(ts: seq<Token>, k: nat, st: State, ls: LineState, line: nat)
    requires OnLine(ts, k, line) && Finds(ts, k, st) && LineTracks(ts, line, k, ls)
    ensures var r := ApplyToken(ts[k].kind, DefIsEndless(ts, k), st, ls);
            r.Some? ==> LineTracks(ts, line, k + 1, r.value.1.(first := false))
  {
    hide DefIsEndless, ApplyToken, IsValueEnd, IsLeadingDedent, Finds, IsSignature, Chain;
    FoundRange(ts, k, st);
    TopIsInterface(ts, k, st);
    CarriedOn(ts[k].kind, DefIsEndless(ts, k), st, ls);
    if OnLine(ts, k + 1, line) {
      assert !LeadsLine(ts, k + 1);
      assert FollowsEndless(ts, k + 1) <==> StartsEndless(ts, k) || FollowsEndless(ts, k);
      assert !OpensChain(ts, k + 1);
    }
  }

  lemma {:induction false} LineNests(ts: seq<Token>, line: nat, k: nat, st: State, ls: LineState)
    requires OnTrack(ts, line, k, st) && LineTracks(ts, line, k, ls) && k <= |ts|
    ensures var r := ApplyLine(ts, line, k, st, ls);
            var e := PastLine(ts, line, k);
            && (r.Some? <==> Fits(ts, line, k, e))
            && (r.Some? ==> r.value.2 == e && OnTrack(ts, line, e, r.value.0) && LineTracks(ts, line, e, r.value.1))
    decreases |ts| - k
  {
    hide ApplyToken, DefIsEndless, Sofar, Finds, Leaves, LineTracks, AtOnce, Level;
    OnTrackFits(ts, line, k, st);
    if OnLine(ts, k, line) {
      FoundRange(ts, k, st);
      TokenMoves(ts, k, st, ls, line);
      TokenCarries(ts, k, st, ls, line);
      SofarNext(ts, line, k);
      var next := ApplyToken(ts[k].kind, DefIsEndless(ts, k), st, ls);
      if next.Some? {
        LeavesOnTrack(ts, line, k, next.value.0.(prev := ts[k].kind));
        LineNests(ts, line, k + 1, next.value.0.(prev := ts[k].kind), next.value.1.(first := false));
      } else {
        assert !(0 <= Sofar(ts, line, k + 1) <= MAX_DEPTH);
      }
    }
  }

  /** Where a line ends, the body of an endless definition on it may begin. */
  lemma BodyBegins(ts: seq<Token>, line: nat, e: nat, st: State, ls: LineState)
    requires 0 < e <= |ts| && ts[e - 1].line == line && !OnLine(ts, e, line)
    requires Leaves(ts, e - 1, st) && LineTracks(ts, line, e, ls)
    ensures var r := BeginBody(st, ls);
            && (r.Some? <==> Balance(ts, e) <= MAX_DEPTH)
            && (r.Some? ==> Tracks(ts, e, r.value))
  {
    hide Level, Chain, Balance, Body, EndsBody, FollowsEndless, Kinds, LeadsLine, Weight;
    var k := e - 1;
    BalanceNext(ts, k);
    BodyNext(ts, k);
    if EndsBody(ts, k) {
      EndsNotOpens(ts, k);
    }
    if OpensBody(ts, k) {
      BodyWeight(ts, k);
      KindsBody(ts, k, st.levels);
    }
  }

  lemma EndsNotOpens(ts: seq<Token>, k: nat)
    requires k < |ts| && EndsBody(ts, k)
    ensures !FollowsEndless(ts, k)
  {
    hide Chain, Balance, Body, OpensBody;
  }

  lemma BodyWeight(ts: seq<Token>, k: nat)
    requires k < |ts| && OpensBody(ts, k)
    ensures Weight(ts, k) == 1
  {
    hide Body, FollowsEndless;
  }

  lemma KindsBody(ts: seq<Token>, k: nat, levels: seq<bool>)
    requires k < |ts| && Kinds(ts, k + 1, levels) && |levels| == Level(ts, k) && !ts[k].kind.Interface?
    ensures Kinds(ts, k + 1, levels + [false])
  {
    hide Level, InterfaceLevel;
    InterfaceNext(ts, k, |levels| + 1);
  }

  /** Where a line starts, a chain or a body may end. */
  lemma LineFound(ts: seq<Token>, k: nat, st: State)
    requires k < |ts| && BeginsLine(ts, k) && Tracks(ts, k, st)
    ensures Finds(ts, k, EndChain(EndBody(st, ts[k].kind), ts[k].kind))
  {
    hide Chain, Balance, Body, FollowsEndless, LeadsLine, InterfaceLevel, Weight;
    if k > 0 && OpensBody(ts, k - 1) {
      FreshBody(ts, k);
    }
    hide OpensBody;
    var r := EndChain(EndBody(st, ts[k].kind), ts[k].kind);
    assert |r.levels| == Level(ts, k);
    assert Kinds(ts, k, r.levels);
  }

  /** A body that has just begun is the innermost level. */
  lemma FreshBody(ts: seq<Token>, k: nat)
    requires k <= |ts| && k > 0 && OpensBody(ts, k - 1)
    ensures Balance(ts, k) == Body(ts, k) + 1
  {
    hide Level, EndsBody, OpensBody, Weight, Balance, Body;
    BodyWeight(ts, k - 1);
    BalanceNext(ts, k - 1);
    BodyNext(ts, k - 1);
  }

  lemma FitsNest(ts: seq<Token>, line: nat, k: nat, e: nat)
    requires k < e <= |ts| && !OnLine(ts, e, line) && (forall i :: k <= i < e ==> OnLine(ts, i, line))
    ensures Nests(ts, k, e) <==> Fits(ts, line, k, e) && Balance(ts, e) <= MAX_DEPTH
  {
    hide Level, Weight, Balance, OpensBody;
    BalanceNext(ts, e - 1);
    if OpensBody(ts, e - 1) {
      BodyWeight(ts, e - 1);
      LevelRange(ts, e - 1);
    }
    assert forall i :: k <= i < e ==> Sofar(ts, line, i) == Balance(ts, i);
    assert Fits(ts, line, k, e) <==> Nests(ts, k, e - 1) && 0 <= Sofar(ts, line, e) <= MAX_DEPTH by {
      if Nests(ts, k, e - 1) && 0 <= Sofar(ts, line, e) <= MAX_DEPTH {
        forall i | k <= i <= e
          ensures 0 <= Sofar(ts, line, i) <= MAX_DEPTH
        {
          assert i < e ==> 0 <= Balance(ts, i) <= MAX_DEPTH;
        }
      }
      if Fits(ts, line, k, e) {
        forall i | k <= i <= e - 1
          ensures 0 <= Balance(ts, i) <= MAX_DEPTH
        {
          assert 0 <= Sofar(ts, line, i) <= MAX_DEPTH;
        }
      }
    }
    assert Nests(ts, k, e) <==> Nests(ts, k, e - 1) && 0 <= Balance(ts, e) <= MAX_DEPTH;
    assert Nests(ts, k, e - 1) ==> 0 <= Balance(ts, e - 1) <= MAX_DEPTH;
  }

  lemma LevelRange(ts: seq<Token>, k: nat)
    requires k < |ts|
    ensures 0 <= Balance(ts, k) ==> 0 <= Level(ts, k)
    ensures Level(ts, k) <= Balance(ts, k)
  {
    hide Chain, Balance, Body, OpensBody;
  }

  lemma FitsSplit(ts: seq<Token>, line: nat, i: nat, j: nat, k: nat)
    requires i <= j <= k <= |ts|
    ensures Fits(ts, line, i, k) <==> Fits(ts, line, i, j) && Fits(ts, line, j, k)
  {
    hide Sofar;
  }

  lemma StepNests(ts: seq<Token>, line: nat, k: nat, st: State)
    requires Tracks(ts, k, st) && Starts(ts, k, line) && (k > 0 ==> ts[k - 1].line < line)
    ensures var r := LineStep(ts, line, k, st);
            var e := PastLine(ts, line, k);
            && (r.Some? <==> Nests(ts, k, e) && LineDepth(ts, line, k) >= 0)
            && (r.Some? ==> r.value.next == e && r.value.depth == LineDepth(ts, line, k) && Tracks(ts, e, r.value.state))
  {
    hide CloseLeading, ApplyLine, PastClosers, PastLine, Balance, Tracks, BeginBody, LineTracks, Nests, Fits, Finds, Leaves, LineDepth,
         EndBody, EndChain;
    var begun := EndChain(EndBody(st, ts[k].kind), ts[k].kind);
    LineFound(ts, k, st);
    ClosersNest(ts, line, k, begun);
    PastClosersOn(ts, line, k);
    var j, e := PastClosers(ts, line, k), PastLine(ts, line, k);
    FitsSplit(ts, line, k, j, e);
    PastSome(ts, line, k);
    FitsNest(ts, line, k, e);
    var opening := CloseLeading(ts, line, k, begun);
    if opening.Some? {
      var now := opening.value.0;
      var ls := LineState(OnLine(ts, j, line) && ts[j].kind.Dot? && now.chain < 0, true, false, false);
      LineBegins(ts, line, k, now, ls);
      LineNests(ts, line, j, now, ls);
      var done := ApplyLine(ts, line, j, now, ls);
      if done.Some? {
        BodyBegins(ts, line, e, done.value.0, done.value.1);
      }
    }
  }

  lemma PastSome(ts: seq<Token>, line: nat, k: nat)
    requires OnLine(ts, k, line)
    ensures k < PastLine(ts, line, k)
  {
  }

  /** The state after the closers, and what is carried from there. */
  lemma LineBegins(ts: seq<Token>, line: nat, k: nat, now: State, ls: LineState)
    requires Starts(ts, k, line) && (k > 0 ==> ts[k - 1].line < line)
    requires var j := PastClosers(ts, line, k);
             && OnTrack(ts, line, j, now)
             && ls == LineState(OnLine(ts, j, line) && ts[j].kind.Dot? && now.chain < 0, true, false, false)
    ensures var j := PastClosers(ts, line, k);
            && LineTracks(ts, line, j, ls)
            && LineDepth(ts, line, k) ==
               |now.levels| - (if OnLine(ts, j, line) && IsBranch(ts[j].kind) then 1 else 0) + (if ls.chainLine then 1 else 0)
  {
    hide DefIsEndless, Chain, Body, Balance, Weight, Kinds, PastClosers;
    var j := PastClosers(ts, line, k);
    assert LeadsLine(ts, k) && !AwaitsDo(ts, k) && !FollowsEndless(ts, k);
    ClosersLead(ts, line, k);
    if OnLine(ts, j, line) {
      assert ts[j].kind.Dot? ==> !EndsChain(ts, j) && now.chain == Chain(ts, j);
    } else {
      OnlyClosers(ts, line, k);
      BalanceNext(ts, j - 1);
      OpensOne(ts, j - 1);
    }
  }

  lemma {:induction false} OnlyClosers(ts: seq<Token>, line: nat, k: nat)
    requires OnLine(ts, k, line)
    ensures var j := PastClosers(ts, line, k);
            !OnLine(ts, j, line) ==> j > k && IsLeadingDedent(ts[j - 1].kind)
    decreases |ts| - k
  {
    if IsLeadingDedent(ts[k].kind) && OnLine(ts, k + 1, line) {
      OnlyClosers(ts, line, k + 1);
    }
  }

  // ---------------------------------------------------------------------------------
  // Line after line.

  /** Every line is in order from `line` on. */
  ghost predicate LinesNest(ts: seq<Token>, count: nat, line: nat, k: nat)
    requires line <= count + 1 && k <= |ts|
    decreases count + 1 - line
  {
    if line > count then Unclosed(ts, k) == 0
    else if Starts(ts, k, line) then
      var e := PastLine(ts, line, k);
      Nests(ts, k, e) && LineDepth(ts, line, k) >= 0 && LinesNest(ts, count, line + 1, e)
    else LinesNest(ts, count, line + 1, k)
  }

  /** The depth of line `at`, when the tokens from `line` on start at `k`. */
  ghost function DepthAt(ts: seq<Token>, line: nat, k: nat, at: nat): int
    requires line <= at && k <= |ts|
    decreases at - line
  {
    if line == at then LineDepth(ts, line, k)
    else if Starts(ts, k, line) then DepthAt(ts, line + 1, PastLine(ts, line, k), at)
    else DepthAt(ts, line + 1, k, at)
  }

  lemma {:induction false} DepthsNest(ts: seq<Token>, count: nat, line: nat, k: nat, st: State)
    requires line <= count + 1 && Tracks(ts, k, st) && (k > 0 ==> ts[k - 1].line < line)
    ensures var r := DepthsFrom(ts, count, line, k, st);
            && (r.Some? <==> LinesNest(ts, count, line, k))
            && (r.Some? ==> forall at :: line <= at <= count ==> r.value[at - line] == DepthAt(ts, line, k, at))
    decreases count + 1 - line
  {
    hide LineStep, LineDepth, Nests, PastLine, Tracks, Settle, Unclosed, Balance;
    TracksSettle(ts, k, st);
    if line <= count {
      var r := DepthsFrom(ts, count, line, k, st);
      if Starts(ts, k, line) {
        StepNests(ts, line, k, st);
        var step := LineStep(ts, line, k, st);
        if step.Some? {
          PastSome(ts, line, k);
          DepthsNest(ts, count, line + 1, step.value.next, step.value.state);
          ShiftedDepths(ts, count, line, line + 1, k, step.value.depth, step.value.next, r,
                        DepthsFrom(ts, count, line + 1, step.value.next, step.value.state));
        }
      } else {
        DepthsNest(ts, count, line + 1, k, st);
        PlainDepth(ts, line, k);
        ShiftedDepths(ts, count, line, line + 1, k, |st.levels|, k, r, DepthsFrom(ts, count, line + 1, k, st));
      }
    }
  }

  lemma TracksSettle(ts: seq<Token>, k: nat, st: State)
    requires Tracks(ts, k, st)
    ensures k <= |ts| && |st.levels| == Balance(ts, k) && Settle(st) == Unclosed(ts, k)
  {
    hide Balance, Chain, Body, OpensBody;
  }

  lemma PlainDepth(ts: seq<Token>, line: nat, k: nat)
    requires k <= |ts| && !Starts(ts, k, line)
    ensures LineDepth(ts, line, k) == Balance(ts, k)
  {
    hide Balance;
  }

  lemma ShiftedDepths(ts: seq<Token>, count: nat, line: nat, below: nat, k: nat, d: nat, next: nat,
                      r: Option<seq<nat>>, rest: Option<seq<nat>>)
    requires below == line + 1 && line <= count && k <= |ts| && next <= |ts| && r == Preceded(d, rest) && d == LineDepth(ts, line, k)
    requires rest.Some? ==> |rest.value| == count - line
    requires rest.Some? ==> forall at :: below <= at <= count ==> rest.value[at - below] == DepthAt(ts, below, next, at)
    requires next == if Starts(ts, k, line) then PastLine(ts, line, k) else k
    ensures r.Some? ==> forall at :: line <= at <= count ==> r.value[at - line] == DepthAt(ts, line, k, at)
  {
    hide LineDepth, PastLine;
    if r.Some? {
      forall at | line <= at <= count
        ensures r.value[at - line] == DepthAt(ts, line, k, at)
      {
        if at > line {
          assert r.value[at - line] == rest.value[at - below];
        }
      }
    }
  }

  // ---------------------------------------------------------------------------------
  // Without the walk from line to line.

  /** The tokens come line by line, and the end of the text is on the last line. */
  predicate InLines(ts: seq<Token>, count: nat) {
    && (forall i :: 0 <= i < |ts| ==> 1 <= ts[i].line <= count)
    && (forall i, j :: 0 <= i < j < |ts| ==> ts[i].line <= ts[j].line)
    && |ts| > 0 && (forall i :: 0 <= i < |ts| ==> (ts[i].kind.Eof? <==> i == |ts| - 1)) && ts[|ts| - 1].line == count
  }

  /** `k` is where the tokens of `line` start. */
  predicate FirstOf(ts: seq<Token>, line: nat, k: nat) {
    k <= |ts| && (forall i :: 0 <= i < k ==> ts[i].line < line) && (forall i :: k <= i < |ts| ==> ts[i].line >= line)
  }

  lemma FirstOfOnce(ts: seq<Token>, line: nat, j: nat, k: nat)
    requires FirstOf(ts, line, j) && FirstOf(ts, line, k)
    ensures j == k
  {
    NotBefore(ts, line, j, k);
    NotBefore(ts, line, k, j);
  }

  lemma NotBefore(ts: seq<Token>, line: nat, j: nat, k: nat)
    requires FirstOf(ts, line, j) && FirstOf(ts, line, k)
    ensures k <= j
  {
    if k > 0 {
      assert ts[k - 1].line < line;
    }
  }

  /** Where the next line starts. */
  function NextStart(ts: seq<Token>, line: nat, k: nat): (e: nat)
    requires k <= |ts|
    ensures k <= e <= |ts|
  {
    if Starts(ts, k, line) then PastLine(ts, line, k) else k
  }

  lemma NextFirst(ts: seq<Token>, count: nat, line: nat, k: nat)
    requires InLines(ts, count) && FirstOf(ts, line, k) && line < count
    ensures FirstOf(ts, line + 1, NextStart(ts, line, k))
  {
    var e := NextStart(ts, line, k);
    assert e < |ts| by {
      assert ts[|ts| - 1].line == count;
    }
    assert forall i :: e <= i < |ts| ==> ts[e].line <= ts[i].line;
  }

  lemma {:induction false} DepthAtFirst(ts: seq<Token>, count: nat, line: nat, k: nat, at: nat, first: nat)
    requires InLines(ts, count) && FirstOf(ts, line, k) && line <= at <= count && FirstOf(ts, at, first)
    ensures DepthAt(ts, line, k, at) == LineDepth(ts, at, first)
    decreases at - line
  {
    hide LineDepth, PastLine, InLines, FirstOf;
    FirstBound(ts, line, k);
    if line == at {
      FirstOfOnce(ts, line, k, first);
    } else {
      NextFirst(ts, count, line, k);
      DepthAtFirst(ts, count, line + 1, NextStart(ts, line, k), at, first);
    }
  }

  lemma FirstBound(ts: seq<Token>, line: nat, k: nat)
    requires FirstOf(ts, line, k)
    ensures k <= |ts|
  {
  }

  /** No line from `line` on continues a block that is not open. */
  ghost predicate BranchesInside(ts: seq<Token>, count: nat, line: nat) {
    forall at: nat, first: nat :: line <= at <= count && FirstOf(ts, at, first) ==> LineDepth(ts, at, first) >= 0
  }

  lemma NestsSplit(ts: seq<Token>, i: nat, j: nat, k: nat)
    requires i <= j <= k <= |ts|
    ensures Nests(ts, i, k) <==> Nests(ts, i, j) && Nests(ts, j, k)
  {
    hide Balance;
  }

  lemma BranchesStep(ts: seq<Token>, count: nat, line: nat, k: nat)
    requires line <= count && FirstOf(ts, line, k)
    ensures BranchesInside(ts, count, line) <==> LineDepth(ts, line, k) >= 0 && BranchesInside(ts, count, line + 1)
  {
    hide LineDepth, FirstOf;
    FirstBound(ts, line, k);
    forall at: nat, first: nat | line <= at <= count && FirstOf(ts, at, first)
      ensures at == line ==> first == k
    {
      if at == line {
        FirstOfOnce(ts, line, k, first);
      }
    }
  }

  /** After the last line only the end can be left, and it changes nothing. */
  lemma LastBalance(ts: seq<Token>, count: nat, k: nat)
    requires InLines(ts, count) && FirstOf(ts, count, k)
    ensures var e := NextStart(ts, count, k);
            Unclosed(ts, e) == Unclosed(ts, |ts|) && (Nests(ts, k, e) <==> Nests(ts, k, |ts|))
  {
    hide Balance, Unclosed, Level, Weight, LeadsLine;
    var e := NextStart(ts, count, k);
    if Starts(ts, k, count) {
      assert forall i :: k <= i < |ts| ==> ts[i].line == count;
      assert e == |ts|;
    } else {
      assert k >= |ts| - 1 by {
        assert k < |ts| ==> ts[k].line == count;
      }
      if k == |ts| - 1 {
        EndChanges(ts, k);
      }
    }
  }

  lemma EndChanges(ts: seq<Token>, k: nat)
    requires k < |ts| && ts[k].kind.Eof?
    ensures Unclosed(ts, k + 1) == Unclosed(ts, k) && Balance(ts, k + 1) == Balance(ts, k)
  {
    hide Balance, Chain, Body, FollowsEndless, LeadsLine;
    assert !EndsChain(ts, k) && !EndsBody(ts, k) && !OpensChain(ts, k) && !OpensBody(ts, k);
    BalanceNext(ts, k);
    ChainNext(ts, k);
    BodyNext(ts, k);
  }

  lemma {:induction false} NestAsOne(ts: seq<Token>, count: nat, line: nat, k: nat)
    requires InLines(ts, count) && FirstOf(ts, line, k) && line <= count && 0 <= Balance(ts, k) <= MAX_DEPTH
    ensures LinesNest(ts, count, line, k) <==>
            Nests(ts, k, |ts|) && Unclosed(ts, |ts|) == 0 && BranchesInside(ts, count, line)
    decreases count - line
  {
    hide InLines, FirstOf, PastLine, LineDepth, Balance, Unclosed, Nests, BranchesInside;
    FirstBound(ts, line, k);
    BranchesStep(ts, count, line, k);
    var e := NextStart(ts, line, k);
    NestsSplit(ts, k, e, |ts|);
    OneNests(ts, k);
    if !Starts(ts, k, line) {
      PlainDepth(ts, line, k);
    }
    if line == count {
      LastBalance(ts, count, k);
      NoBranches(ts, count);
    } else {
      NextFirst(ts, count, line, k);
      if Nests(ts, k, e) {
        EndNests(ts, k, e);
        NestAsOne(ts, count, line + 1, e);
      }
    }
  }

  lemma OneNests(ts: seq<Token>, k: nat)
    requires k <= |ts| && 0 <= Balance(ts, k) <= MAX_DEPTH
    ensures Nests(ts, k, k)
  {
    hide Balance;
  }

  lemma EndNests(ts: seq<Token>, k: nat, e: nat)
    requires k <= e <= |ts| && Nests(ts, k, e)
    ensures 0 <= Balance(ts, e) <= MAX_DEPTH
  {
    hide Balance;
  }

  lemma NoBranches(ts: seq<Token>, count: nat)
    ensures BranchesInside(ts, count, count + 1)
  {
  }

  /** The pass succeeds exactly when the tokens nest, all is closed at the end and no line continues
      a block that is not open; and each line is as deep as what is open there. */
  lemma NestingDepths(ts: seq<Token>, count: nat)
    requires InLines(ts, count)
    ensures var r := Depths(ts, count);
            && (r.Some? <==> Nests(ts, 0, |ts|) && Unclosed(ts, |ts|) == 0 && BranchesInside(ts, count, 1))
            && (r.Some? ==> forall line: nat, k: nat :: 1 <= line <= count && FirstOf(ts, line, k) ==>
                 r.value[line - 1] == LineDepth(ts, line, k))
  {
    hide LineDepth, Nests, BranchesInside, LinesNest, DepthsFrom;
    assert FirstOf(ts, 1, 0);
    assert Balance(ts, 0) == 0;
    DepthsNest(ts, count, 1, 0, INITIAL);
    NestAsOne(ts, count, 1, 0);
    forall line: nat, k: nat | 1 <= line <= count && FirstOf(ts, line, k)
      ensures DepthAt(ts, 1, 0, line) == LineDepth(ts, line, k)
    {
      DepthAtFirst(ts, count, 1, 0, line, k);
    }
  }

  /** The tokens of `f(a` and, on the next line, `.b)`. */
  function ChainInBrackets(): seq<Token> {
    [Token(Identifier, 1, 0, 1), Token(LeftParen, 1, 1, 1), Token(Identifier, 1, 2, 1), Token(Dot, 2, 4, 1),
     Token(Identifier, 2, 5, 1), Token(RightParen, 2, 6, 1), Token(Eof, 2, 7, 0)]
  }

  /** A token that neither opens nor ends a chain or a body. */
  lemma QuietToken(ts: seq<Token>, k: nat)
    requires k < |ts| && (BeginsLine(ts, k) ==> Chain(ts, k) < 0 && Body(ts, k) < 0)
    requires !ts[k].kind.Equal? && !OpensChain(ts, k)
    ensures Level(ts, k) == Balance(ts, k) && Balance(ts, k + 1) == Balance(ts, k) + Weight(ts, k)
    ensures Chain(ts, k + 1) == Chain(ts, k) && Body(ts, k + 1) == Body(ts, k)
  {
    hide Weight, Chain, Body, Balance, LeadsLine, OpensChain;
    BalanceNext(ts, k);
    ChainNext(ts, k);
    BodyNext(ts, k);
  }

  lemma FirstLine()
    ensures var ts := ChainInBrackets(); Balance(ts, 3) == 1 && Chain(ts, 3) == -1 && Body(ts, 3) == -1
  {
    var ts := ChainInBrackets();
    assert Balance(ts, 0) == 0 && Chain(ts, 0) == -1 && Body(ts, 0) == -1;
    hide Balance, Chain, Body;
    QuietToken(ts, 0);
    QuietToken(ts, 1);
    QuietToken(ts, 2);
  }

  lemma LeadingDot()
    ensures var ts := ChainInBrackets(); Balance(ts, 4) == 2 && Chain(ts, 4) == 1 && Body(ts, 4) == -1
  {
    hide Balance, Chain, Body;
    var ts := ChainInBrackets();
    FirstLine();
    BalanceNext(ts, 3);
    ChainNext(ts, 3);
    BodyNext(ts, 3);
    assert OpensChain(ts, 3) && Level(ts, 3) == 1;
  }

  lemma SecondLine()
    ensures var ts := ChainInBrackets(); Balance(ts, 7) == 1 && Chain(ts, 7) == 1 && Body(ts, 7) == -1
  {
    hide Balance, Chain, Body, Level, OpensChain;
    var ts := ChainInBrackets();
    LeadingDot();
    OpensOne(ts, 4);
    OpensOne(ts, 5);
    OpensOne(ts, 6);
    QuietToken(ts, 4);
    QuietToken(ts, 5);
    QuietToken(ts, 6);
  }

  /** Its brackets match, but the bracket that closes them closes the chain inside instead, and
      the pass gives up. */
  lemma ChainRefused()
    ensures InLines(ChainInBrackets(), 2) && Unclosed(ChainInBrackets(), 7) == 1
    ensures Depths(ChainInBrackets(), 2) == None
  {
    hide Depths, Balance, Chain, Body;
    SecondLine();
    NestingDepths(ChainInBrackets(), 2);
  }
}
