/** Thompson automata over bytes, with anchors and capture registers, and what it means for
    one to match. */
module Nfa {
  import opened Wrappers
  import opened Digraph
  import Bits

  type Byte = b: nat | b < 256
  type Text = seq<Byte>

  datatype CharType =
    Word | Digit | Space | Upper | Lower | Alpha | Alnum | Print | Punct | Cntrl | Xdigit | Unknown

  datatype AnchorType =
    BeginLine | EndLine | BeginText | EndText | SemiEndText | WordBoundary | NotWordBoundary | SearchStart

  datatype Kind =
    | Accept
    | Split
    | Char(byte: Byte)
    | CharClass(bitmap: seq<nat>, negative: bool)
    | Any
    | AnyMultiline
    | CType(ctype: CharType, negative: bool)
    | Anchor(which: AnchorType)
    | Save(index: int)

  /** One state; only a split has a second successor, and either may be missing. */
  datatype State = State(kind: Kind, out1: Option<nat>, out2: Option<nat>)

  /** The states are numbered by their place. */
  datatype Automaton = Automaton(states: seq<State>, start: nat, accept: nat)

  predicate ValidNext(n: nat, next: Option<nat>) {
    next.Some? ==> next.value < n
  }

  predicate Valid(a: Automaton) {
    && a.start < |a.states|
    && forall s :: 0 <= s < |a.states| ==>
         ValidNext(|a.states|, a.states[s].out1) && ValidNext(|a.states|, a.states[s].out2)
  }

  // ---------------------------------------------------------------------------------
  // Bytes and positions.

  const NEWLINE: Byte := 10

  predicate IsUpper(b: Byte) { 65 <= b <= 90 }
  predicate IsLower(b: Byte) { 97 <= b <= 122 }
  predicate IsDigit(b: Byte) { 48 <= b <= 57 }
  predicate IsAlpha(b: Byte) { IsUpper(b) || IsLower(b) }
  predicate IsAlnum(b: Byte) { IsAlpha(b) || IsDigit(b) }
  predicate IsSpace(b: Byte) { b == 32 || 9 <= b <= 13 }
  predicate IsPrint(b: Byte) { 32 <= b <= 126 }
  predicate IsPunct(b: Byte) { 33 <= b <= 126 && !IsAlnum(b) }
  predicate IsCntrl(b: Byte) { b < 32 || b == 127 }
  predicate IsXdigit(b: Byte) { IsDigit(b) || 65 <= b <= 70 || 97 <= b <= 102 }
  predicate IsWord(b: Byte) { IsAlnum(b) || b == 95 }

  predicate HasType(t: CharType, b: Byte) {
    match t
    case Word => IsWord(b)
    case Digit => IsDigit(b)
    case Space => IsSpace(b)
    case Upper => IsUpper(b)
    case Lower => IsLower(b)
    case Alpha => IsAlpha(b)
    case Alnum => IsAlnum(b)
    case Print => IsPrint(b)
    case Punct => IsPunct(b)
    case Cntrl => IsCntrl(b)
    case Xdigit => IsXdigit(b)
    case Unknown => false
  }

  /** Whether a state consumes this byte. */
  predicate MatchesByte(k: Kind, b: Byte) {
    match k
    case Char(c) => c == b
    case CharClass(bitmap, negative) =>
      (b / 32 < |bitmap| && Bits.Bit(bitmap[b / 32], b % 32)) != negative
    case Any => b != NEWLINE
    case AnyMultiline => true
    case CType(t, negative) => HasType(t, b) != negative
    case _ => false
  }

  predicate WordAt(text: Text, pos: nat) {
    pos < |text| && IsWord(text[pos])
  }

  predicate AnchorHolds(which: AnchorType, text: Text, pos: nat)
    requires pos <= |text|
  {
    match which
    case BeginText => pos == 0
    case EndText => pos == |text|
    case SemiEndText => pos == |text| || (pos == |text| - 1 && text[pos] == NEWLINE)
    case BeginLine => pos == 0 || text[pos - 1] == NEWLINE
    case EndLine => pos == |text| || text[pos] == NEWLINE
    case SearchStart => true
    case WordBoundary => (pos > 0 && WordAt(text, pos - 1)) != WordAt(text, pos)
    case NotWordBoundary => (pos > 0 && WordAt(text, pos - 1)) == WordAt(text, pos)
  }

  // ---------------------------------------------------------------------------------
  // Moves that consume nothing.

  /** Accept and the states that consume a byte: where a closure stops. */
  predicate Stops(k: Kind) {
    !k.Split? && !k.Save? && !k.Anchor?
  }

  function ListOf(next: Option<nat>): seq<nat> {
    if next.Some? then [next.value] else []
  }

  /** The states reached in one move that consumes nothing at `pos`. */
  function Silent(a: Automaton, text: Text, pos: nat, s: nat): seq<nat>
    requires s < |a.states| && pos <= |text|
  {
    var state := a.states[s];
    match state.kind
    case Split => ListOf(state.out1) + ListOf(state.out2)
    case Save(_) => ListOf(state.out1)
    case Anchor(which) => if AnchorHolds(which, text, pos) then ListOf(state.out1) else []
    case _ => []
  }

  function SilentGraph(a: Automaton, text: Text, pos: nat): (g: Graph)
    requires pos <= |text|
    ensures |g| == |a.states|
  {
    seq(|a.states|, s requires 0 <= s < |a.states| => Silent(a, text, pos, s))
  }

  lemma SilentWellFormed(a: Automaton, text: Text, pos: nat)
    requires Valid(a) && pos <= |text|
    ensures WellFormed(SilentGraph(a, text, pos))
  {
  }

  // ---------------------------------------------------------------------------------
  // Runs: what it means to match.

  /** A state at a position between bytes. */
  datatype Config = Config(state: nat, pos: nat)

  /** One move: silent, or consuming the byte at the position. */
  ghost predicate Move(a: Automaton, text: Text, c: Config, d: Config) {
    && c.state < |a.states| && c.pos <= |text|
    && ((d.pos == c.pos && d.state in Silent(a, text, c.pos, c.state)) ||
        (d.pos == c.pos + 1 <= |text| && MatchesByte(a.states[c.state].kind, text[c.pos]) &&
         a.states[c.state].out1 == Some(d.state)))
  }

  /** `p` leads from `c` to its last entry, move by move. */
  ghost predicate IsRun(a: Automaton, text: Text, p: seq<Config>, c: Config) {
    && |p| > 0
    && if |p| == 1 then p[0] == c && c.state < |a.states| && c.pos <= |text|
       else IsRun(a, text, p[..|p| - 1], c) && Move(a, text, p[|p| - 2], p[|p| - 1])
  }

  function Last(p: seq<Config>): Config
    requires |p| > 0
  {
    p[|p| - 1]
  }

  /** `p` is a run from the start state at `from` to an accepting state at `end`. */
  ghost predicate IsMatch(a: Automaton, text: Text, from: nat, end: nat, p: seq<Config>) {
    && IsRun(a, text, p, Config(a.start, from))
    && Last(p).pos == end && Last(p).state < |a.states| && a.states[Last(p).state].kind.Accept?
  }

  ghost predicate Matches(a: Automaton, text: Text, from: nat, end: nat) {
    exists p :: IsMatch(a, text, from, end, p)
  }

  lemma {:induction false} RunStays(a: Automaton, text: Text, p: seq<Config>, c: Config)
    requires Valid(a) && IsRun(a, text, p, c)
    ensures Last(p).state < |a.states| && c.pos <= Last(p).pos <= |text|
  {
    if |p| > 1 {
      RunStays(a, text, p[..|p| - 1], c);
      SilentWellFormed(a, text, p[|p| - 2].pos);
      var g := SilentGraph(a, text, p[|p| - 2].pos);
      assert g[p[|p| - 2].state] == Silent(a, text, p[|p| - 2].pos, p[|p| - 2].state);
    }
  }

  lemma RunExtends(a: Automaton, text: Text, p: seq<Config>, c: Config, d: Config)
    requires IsRun(a, text, p, c) && Move(a, text, Last(p), d)
    ensures IsRun(a, text, p + [d], c) && Last(p + [d]) == d
  {
    assert (p + [d])[..|p|] == p;
  }

  // ---------------------------------------------------------------------------------
  // The states reachable at each position.

  /** What is silently reachable from `seeds` at `pos`. */
  ghost function Closure(a: Automaton, text: Text, pos: nat, seeds: set<nat>): set<nat>
    requires pos <= |text|
  {
    set t: nat | t < |a.states| && Reached(SilentGraph(a, text, pos), seeds, t)
  }

  ghost predicate Reached(g: Graph, seeds: set<nat>, t: nat) {
    exists s: nat :: s in seeds && Reach(g, s, t)
  }

  /** Where the byte at `pos` leads from `from`. */
  ghost function Advance(a: Automaton, b: Byte, from: set<nat>): set<nat> {
    set s | s in from && s < |a.states| && MatchesByte(a.states[s].kind, b) && a.states[s].out1.Some? ::
      a.states[s].out1.value
  }

  /** The states reachable at `pos` from the start state at `from`. */
  ghost function At(a: Automaton, text: Text, from: nat, pos: nat): set<nat>
    requires from <= pos <= |text|
    decreases pos
  {
    if pos == from then Closure(a, text, pos, {a.start})
    else Closure(a, text, pos, Advance(a, text[pos - 1], At(a, text, from, pos - 1)))
  }

  lemma AtClosed(a: Automaton, text: Text, from: nat, pos: nat, s: nat, t: nat)
    requires Valid(a) && from <= pos <= |text| && s in At(a, text, from, pos)
    requires t < |a.states| && Reach(SilentGraph(a, text, pos), s, t)
    ensures t in At(a, text, from, pos)
  {
    var g := SilentGraph(a, text, pos);
    var seeds := if pos == from then {a.start} else Advance(a, text[pos - 1], At(a, text, from, pos - 1));
    assert s in Closure(a, text, pos, seeds);
    var seed: nat :| seed in seeds && Reach(g, seed, s);
    ReachTransitive(g, seed, s, t);
  }

  /** A move stays among them. */
  lemma AtMove(a: Automaton, text: Text, from: nat, c: Config, d: Config)
    requires Valid(a) && from <= c.pos <= |text| && c.state in At(a, text, from, c.pos) && Move(a, text, c, d)
    requires d.state < |a.states|
    ensures d.state in At(a, text, from, d.pos)
  {
    var g := SilentGraph(a, text, d.pos);
    if d.pos == c.pos {
      hide At, IsWalk, Silent;
      assert g[c.state] == Silent(a, text, c.pos, c.state);
      ReachEdge(g, c.state, d.state);
      AtClosed(a, text, from, c.pos, c.state, d.state);
    } else {
      hide SilentGraph;
      assert d.state in Advance(a, text[c.pos], At(a, text, from, c.pos));
      ReachSelf(g, d.state);
    }
  }

  /** Every run stays among them. */
  lemma {:induction false} RunIsAt(a: Automaton, text: Text, from: nat, p: seq<Config>)
    requires Valid(a) && from <= |text| && IsRun(a, text, p, Config(a.start, from))
    ensures from <= Last(p).pos <= |text| && Last(p).state in At(a, text, from, Last(p).pos)
  {
    RunStays(a, text, p, Config(a.start, from));
    if |p| == 1 {
      ReachSelf(SilentGraph(a, text, from), a.start);
    } else {
      hide At, Move;
      var q := p[..|p| - 1];
      RunIsAt(a, text, from, q);
      AtMove(a, text, from, Last(q), Last(p));
    }
  }

  /** A silent walk extends a run. */
  lemma {:induction false} RunAlongWalk(a: Automaton, text: Text, p: seq<Config>, c: Config, w: seq<nat>, t: nat)
    returns (r: seq<Config>)
    requires Valid(a) && IsRun(a, text, p, c) && Last(p).pos <= |text|
    requires IsWalk(SilentGraph(a, text, Last(p).pos), w, Last(p).state, t)
    ensures IsRun(a, text, r, c) && Last(r) == Config(t, Last(p).pos)
    decreases |w|
  {
    if |w| == 1 {
      r := p;
    } else {
      var d := Config(w[1], Last(p).pos);
      assert Move(a, text, Last(p), d);
      RunExtends(a, text, p, c, d);
      r := RunAlongWalk(a, text, p + [d], c, w[1..], t);
    }
  }

  /** Where a reachable state comes from: a state before that consumes the byte, then
      silent moves. */
  lemma AtSource(a: Automaton, text: Text, from: nat, pos: nat, t: nat) returns (s: nat, seed: nat, w: seq<nat>)
    requires Valid(a) && from < pos <= |text| && t in At(a, text, from, pos)
    ensures s in At(a, text, from, pos - 1) && s < |a.states|
    ensures MatchesByte(a.states[s].kind, text[pos - 1]) && a.states[s].out1 == Some(seed)
    ensures IsWalk(SilentGraph(a, text, pos), w, seed, t)
  {
    hide IsWalk, MatchesByte, SilentGraph;
    var before := At(a, text, from, pos - 1);
    var seeds := Advance(a, text[pos - 1], before);
    assert Reached(SilentGraph(a, text, pos), seeds, t);
    seed :| seed in seeds && Reach(SilentGraph(a, text, pos), seed, t);
    s :| s in before && s < |a.states| && MatchesByte(a.states[s].kind, text[pos - 1]) &&
         a.states[s].out1 == Some(seed);
    w :| IsWalk(SilentGraph(a, text, pos), w, seed, t);
  }

  /** Every one of them is reached by a run. */
  lemma {:induction false} AtIsRun(a: Automaton, text: Text, from: nat, pos: nat, t: nat) returns (p: seq<Config>)
    requires Valid(a) && from <= pos <= |text| && t in At(a, text, from, pos)
    ensures IsRun(a, text, p, Config(a.start, from)) && Last(p) == Config(t, pos)
    decreases pos
  {
    var c := Config(a.start, from);
    if pos == from {
      assert Reached(SilentGraph(a, text, pos), {a.start}, t);
      var w :| IsWalk(SilentGraph(a, text, pos), w, a.start, t);
      p := RunAlongWalk(a, text, [c], c, w, t);
    } else {
      hide IsWalk, SilentGraph, At, IsRun;
      var s, seed, w := AtSource(a, text, from, pos, t);
      var q := AtIsRun(a, text, from, pos - 1, s);
      var d := Config(seed, pos);
      RunExtends(a, text, q, c, d);
      p := RunAlongWalk(a, text, q + [d], c, w, t);
    }
  }

  /** Matching is having an accepting state among the reachable ones. */
  lemma MatchesIffAt(a: Automaton, text: Text, from: nat, end: nat)
    requires Valid(a) && from <= |text|
    ensures Matches(a, text, from, end) <==>
            from <= end <= |text| && exists t: nat :: t in At(a, text, from, end) && t < |a.states| && a.states[t].kind.Accept?
  {
    if p :| IsMatch(a, text, from, end, p) {
      RunIsAt(a, text, from, p);
    }
    if from <= end <= |text| {
      if t: nat :| t in At(a, text, from, end) && t < |a.states| && a.states[t].kind.Accept? {
        var p := AtIsRun(a, text, from, end, t);
        assert IsMatch(a, text, from, end, p);
      }
    }
  }

  /** Once no state is left that stops, nothing is reachable later. */
  lemma {:induction false} NothingLater(a: Automaton, text: Text, from: nat, pos: nat, later: nat)
    requires Valid(a) && from <= pos < later <= |text|
    requires forall t :: t in At(a, text, from, pos) && t < |a.states| ==> !Stops(a.states[t].kind)
    ensures At(a, text, from, later) == {}
    decreases later
  {
    if later > pos + 1 {
      NothingLater(a, text, from, pos, later - 1);
    }
    assert Advance(a, text[later - 1], At(a, text, from, later - 1)) == {};
  }
}
