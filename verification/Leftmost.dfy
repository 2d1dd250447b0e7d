/** Which of several accepting runs Tier 2 keeps, and when it is the leftmost one. */
module Leftmost {
  import opened Wrappers
  import opened Digraph
  import opened Nfa
  import Tier1
  import opened Tier2

  // ---------------------------------------------------------------------------------
  // A run cut at its bytes.

  /** The silent walk at each position of a run, the last one outermost. */
  datatype Trace = First(walk: seq<nat>) | Then(before: Trace, walk: seq<nat>)

  /** The position a trace that starts at `from` has come to. */
  function End(from: nat, tr: Trace): (pos: nat)
    ensures pos >= from
  {
    match tr
    case First(_) => from
    case Then(before, _) => End(from, before) + 1
  }

  /** The state it has come to. */
  function Stop(tr: Trace): nat
    requires |tr.walk| > 0
  {
    tr.walk[|tr.walk| - 1]
  }

  function Configs(w: seq<nat>, pos: nat): (p: seq<Config>)
    ensures |p| == |w|
  {
    seq(|w|, i requires 0 <= i < |w| => Config(w[i], pos))
  }

  /** The run that was cut. */
  function RunOf(from: nat, tr: Trace): seq<Config> {
    match tr
    case First(w) => Configs(w, from)
    case Then(before, w) => RunOf(from, before) + Configs(w, End(from, tr))
  }

  /** The state `s` consumes the byte at `pos` and goes on to `t`. */
  predicate Consumes(a: Automaton, text: Text, pos: nat, s: nat, t: nat) {
    s < |a.states| && pos < |text| && MatchesByte(a.states[s].kind, text[pos]) && a.states[s].out1 == Some(t)
  }

  ghost predicate IsTrace(a: Automaton, text: Text, from: nat, tr: Trace) {
    && |tr.walk| > 0 && End(from, tr) <= |text|
    && IsWalk(SilentGraph(a, text, End(from, tr)), tr.walk, tr.walk[0], Stop(tr))
    && match tr
       case First(w) => w[0] == a.start
       case Then(before, w) => IsTrace(a, text, from, before) && Consumes(a, text, End(from, before), Stop(before), w[0])
  }

  lemma {:induction false} TraceRuns(a: Automaton, text: Text, from: nat, tr: Trace)
    requires Valid(a) && IsTrace(a, text, from, tr)
    ensures |tr.walk| > 0 && |RunOf(from, tr)| > 0 && Last(RunOf(from, tr)) == Config(Stop(tr), End(from, tr))
    ensures End(from, tr) <= |text|
    ensures IsRun(a, text, RunOf(from, tr), Config(a.start, from))
    decreases tr
  {
    var c, e := Config(a.start, from), End(from, tr);
    var d := Config(tr.walk[0], e);
    hide SilentGraph, MatchesByte;
    match tr {
      case First(w) =>
        assert [] + Configs(w, from) == Configs(w, from);
        WalkRuns(a, text, [], c, w, e);
      case Then(before, w) =>
        TraceRuns(a, text, from, before);
        WalkRuns(a, text, RunOf(from, before), c, w, e);
    }
  }

  /** A silent walk after a run, entered at its first state. */
  lemma {:induction false} WalkRuns(a: Automaton, text: Text, p: seq<Config>, c: Config, w: seq<nat>, pos: nat)
    requires Valid(a) && pos <= |text| && |w| > 0 && IsWalk(SilentGraph(a, text, pos), w, w[0], w[|w| - 1])
    requires if |p| == 0 then c == Config(w[0], pos) else IsRun(a, text, p, c) && Move(a, text, Last(p), Config(w[0], pos))
    ensures IsRun(a, text, p + Configs(w, pos), c)
    decreases |w|
  {
    hide IsRun, Move, SilentGraph;
    var d := Config(w[0], pos);
    RunBegins(a, text, p, c, d);
    if |w| == 1 {
      assert Configs(w, pos) == [d];
    } else {
      SilentMove(a, text, pos, w[0], w[1]);
      WalkRuns(a, text, p + [d], c, w[1..], pos);
      assert p + [d] + Configs(w[1..], pos) == p + Configs(w, pos);
    }
  }

  lemma RunBegins(a: Automaton, text: Text, p: seq<Config>, c: Config, d: Config)
    requires d.state < |a.states| && d.pos <= |text|
    requires if |p| == 0 then c == d else IsRun(a, text, p, c) && Move(a, text, Last(p), d)
    ensures IsRun(a, text, p + [d], c) && Last(p + [d]) == d
  {
    hide Move;
    if |p| == 0 {
      assert p + [d] == [d];
    } else {
      RunExtends(a, text, p, c, d);
    }
  }

  lemma SilentMove(a: Automaton, text: Text, pos: nat, u: nat, v: nat)
    requires pos <= |text| && u < |a.states| && v in SilentGraph(a, text, pos)[u]
    ensures Move(a, text, Config(u, pos), Config(v, pos))
  {
  }

  /** Every run can be cut. */
  lemma {:induction false} CutRun(a: Automaton, text: Text, from: nat, p: seq<Config>) returns (tr: Trace)
    requires Valid(a) && from <= |text| && IsRun(a, text, p, Config(a.start, from))
    ensures IsTrace(a, text, from, tr) && RunOf(from, tr) == p && |tr.walk| > 0
    ensures Last(p) == Config(Stop(tr), End(from, tr))
    decreases |p|
  {
    if |p| == 1 {
      tr := First([a.start]);
      assert IsWalk(SilentGraph(a, text, from), [a.start], a.start, a.start);
      assert RunOf(from, tr) == p;
    } else {
      hide Move, SilentGraph, IsTrace, RunOf, End, Stop, Valid;
      var q, d := p[..|p| - 1], Last(p);
      assert p == q + [d];
      var cut := CutRun(a, text, from, q);
      RunStays(a, text, p, Config(a.start, from));
      tr := LongerTrace(a, text, from, cut, d);
    }
  }

  lemma LongerTrace(a: Automaton, text: Text, from: nat, cut: Trace, d: Config) returns (tr: Trace)
    requires Valid(a) && |cut.walk| > 0 && IsTrace(a, text, from, cut) && d.state < |a.states|
    requires Move(a, text, Config(Stop(cut), End(from, cut)), d)
    ensures IsTrace(a, text, from, tr) && RunOf(from, tr) == RunOf(from, cut) + [d]
    ensures |tr.walk| > 0 && d == Config(Stop(tr), End(from, tr))
  {
    hide Silent, SilentGraph, MatchesByte, IsTrace, RunOf;
    if d.pos == End(from, cut) {
      tr := LongerWalk(a, text, from, cut, d.state);
    } else {
      tr := NextWalk(a, text, from, cut, d.state);
    }
  }

  lemma NextWalk(a: Automaton, text: Text, from: nat, cut: Trace, s: nat) returns (tr: Trace)
    requires Valid(a) && |cut.walk| > 0 && IsTrace(a, text, from, cut)
    requires Consumes(a, text, End(from, cut), Stop(cut), s) && s < |a.states|
    ensures IsTrace(a, text, from, tr) && |tr.walk| > 0 && Stop(tr) == s && End(from, tr) == End(from, cut) + 1
    ensures RunOf(from, tr) == RunOf(from, cut) + [Config(s, End(from, tr))]
  {
    hide SilentGraph, MatchesByte;
    tr := Then(cut, [s]);
    assert IsWalk(SilentGraph(a, text, End(from, tr)), [s], s, s);
    assert Configs([s], End(from, tr)) == [Config(s, End(from, tr))];
  }

  lemma LongerWalk(a: Automaton, text: Text, from: nat, cut: Trace, s: nat) returns (tr: Trace)
    requires Valid(a) && |cut.walk| > 0 && IsTrace(a, text, from, cut) && Stop(cut) < |a.states| && End(from, cut) <= |text|
    requires s in Silent(a, text, End(from, cut), Stop(cut)) && s < |a.states|
    ensures IsTrace(a, text, from, tr) && |tr.walk| > 0 && Stop(tr) == s && End(from, tr) == End(from, cut)
    ensures RunOf(from, tr) == RunOf(from, cut) + [Config(s, End(from, cut))]
  {
    hide Silent, MatchesByte;
    var e := End(from, cut);
    var g, w := SilentGraph(a, text, e), cut.walk + [s];
    assert g[Stop(cut)] == Silent(a, text, e, Stop(cut));
    assert IsWalk(g, [Stop(cut), s], Stop(cut), s) by {
      assert [Stop(cut), s][1..] == [s];
      assert IsWalk(g, [s], s, s);
    }
    WalkAppend(g, cut.walk, [Stop(cut), s], cut.walk[0], Stop(cut), s);
    assert [Stop(cut), s][1..] == [s];
    match cut {
      case First(_) => tr := First(w);
      case Then(before, _) => tr := Then(before, w);
    }
    assert Configs(w, e) == Configs(cut.walk, e) + [Config(s, e)];
  }

  /** In only one way. */
  lemma {:induction false} CutUnique(a: Automaton, text: Text, from: nat, tr: Trace, other: Trace)
    requires Valid(a) && IsTrace(a, text, from, tr) && IsTrace(a, text, from, other)
    requires RunOf(from, tr) == RunOf(from, other)
    ensures tr == other
    decreases tr
  {
    hide IsWalk, Consumes, SilentGraph, IsRun;
    TraceRuns(a, text, from, tr);
    TraceRuns(a, text, from, other);
    SameWalk(a, text, from, tr, other);
    if tr.Then? {
      var p, n := RunOf(from, tr), |tr.walk|;
      assert RunOf(from, tr.before) == p[..|p| - n] == RunOf(from, other.before);
      CutUnique(a, text, from, tr.before, other.before);
    }
  }

  lemma SameWalk(a: Automaton, text: Text, from: nat, tr: Trace, other: Trace)
    requires Valid(a) && IsTrace(a, text, from, tr) && IsTrace(a, text, from, other)
    requires RunOf(from, tr) == RunOf(from, other) && End(from, tr) == End(from, other)
    ensures tr.walk == other.walk && tr.Then? == other.Then?
  {
    hide IsTrace, RunOf, End;
    LastStretch(a, text, from, tr);
    LastStretch(a, text, from, other);
    var p, e, n := RunOf(from, tr), End(from, tr), |tr.walk|;
    assert n == |other.walk|;
    forall i | 0 <= i < n
      ensures tr.walk[i] == other.walk[i]
    {
      assert p[|p| - n + i] == Config(tr.walk[i], e) == Config(other.walk[i], e);
    }
  }

  /** The last walk is what the run does at its last position. */
  lemma LastStretch(a: Automaton, text: Text, from: nat, tr: Trace)
    requires Valid(a) && IsTrace(a, text, from, tr)
    ensures var p, n := RunOf(from, tr), |tr.walk|;
            && n <= |p| && (n < |p| <==> tr.Then?)
            && (forall i :: 0 <= i < n ==> p[|p| - n + i] == Config(tr.walk[i], End(from, tr)))
            && (forall j :: |p| - n <= j < |p| ==> p[j].pos == End(from, tr))
            && (n < |p| ==> p[|p| - n - 1].pos + 1 == End(from, tr))
  {
    hide IsWalk, Consumes, SilentGraph, IsRun, Valid, Configs;
    var q: seq<Config> := [];
    if tr.Then? {
      q := RunOf(from, tr.before);
      TraceRuns(a, text, from, tr.before);
    }
    assert RunOf(from, tr) == q + Configs(tr.walk, End(from, tr));
    AfterConfigs(q, tr.walk, End(from, tr));
  }

  lemma AfterConfigs(q: seq<Config>, w: seq<nat>, pos: nat)
    ensures var p := q + Configs(w, pos);
            && |p| == |q| + |w| && (|q| > 0 ==> p[|p| - |w| - 1] == Last(q))
            && (forall i :: 0 <= i < |w| ==> p[|p| - |w| + i] == Config(w[i], pos))
            && (forall j :: |p| - |w| <= j < |p| ==> p[j].pos == pos)
  {
  }

  // ---------------------------------------------------------------------------------
  // The run that is kept.

  /** Every walk takes the last way on to its end, and at every byte the state that consumes it
      is the last to lead there. */
  ghost predicate Kept(a: Automaton, text: Text, from: nat, tr: Trace)
    requires IsTrace(a, text, from, tr)
  {
    && Latest(SilentGraph(a, text, End(from, tr)), tr.walk, Stop(tr))
    && (tr.Then? ==>
          && IsTrace(a, text, from, tr.before)
          && LeadsLast(a, text, from, End(from, tr.before), Stop(tr.before), Stop(tr), |a.states|)
          && Kept(a, text, from, tr.before))
  }

  /** There is one such run to a state where threads stop. */
  lemma {:induction false} KeptUnique(a: Automaton, text: Text, from: nat, tr: Trace, other: Trace)
    requires Valid(a) && IsTrace(a, text, from, tr) && IsTrace(a, text, from, other)
    requires Kept(a, text, from, tr) && Kept(a, text, from, other)
    requires End(from, tr) == End(from, other) && Stop(tr) == Stop(other)
    requires Stop(tr) < |a.states| && Stops(a.states[Stop(tr)].kind)
    ensures tr == other
    decreases tr
  {
    hide SilentGraph, Latest, IsWalk, Leads, Valid, MatchesByte;
    if tr.Then? {
      assert Stop(tr.before) == Stop(other.before);
      LeadsStops(a, text, from, End(from, tr.before), Stop(tr.before), Stop(tr));
      KeptUnique(a, text, from, tr.before, other.before);
    }
    var g := SilentGraph(a, text, End(from, tr));
    Tier1.SilentOf(a, text, End(from, tr), Stop(tr));
    LatestUnique(g, tr.walk, other.walk, tr.walk[0], Stop(tr));
  }

  lemma {:induction false} SavesAfter(a: Automaton, p: seq<Config>, w: seq<nat>, pos: nat, n: nat)
    ensures SavesOf(a, p + Configs(w, pos), n) == SaveAlong(a, w, SavesOf(a, p, n), pos)
    decreases |w|
  {
    hide SaveAt;
    if |w| == 0 {
      assert p + Configs(w, pos) == p;
    } else {
      var d := Config(w[0], pos);
      SavesAfter(a, p + [d], w[1..], pos, n);
      assert p + [d] + Configs(w[1..], pos) == p + Configs(w, pos);
      assert (p + [d])[..|p|] == p;
    }
  }

  /** The registers of the run that is kept are the ones chosen. */
  lemma {:induction false} KeptIsChosen(a: Automaton, text: Text, from: nat, tr: Trace, n: nat)
    requires Valid(a) && IsTrace(a, text, from, tr) && Kept(a, text, from, tr)
    ensures Chosen(a, text, from, Stop(tr), End(from, tr), SavesOf(a, RunOf(from, tr), n))
    decreases tr
  {
    hide SilentGraph, Latest, IsWalk, LeadsLast, Valid, Consumes, SaveAlong, SavesOf, Chosen, Landed, Inherits;
    match tr {
      case First(w) =>
        SavesAfter(a, [], w, from, n);
        assert [] + Configs(w, from) == Configs(w, from);
        NothingSaved(a, n);
        FirstIsChosen(a, text, from, w, Stop(tr), n);
      case Then(before, w) =>
        KeptIsChosen(a, text, from, before, n);
        SavesAfter(a, RunOf(from, before), w, End(from, tr), n);
        NextIsChosen(a, text, from, End(from, before), Stop(before), w, Stop(tr), SavesOf(a, RunOf(from, before), n));
    }
  }

  lemma FirstIsChosen(a: Automaton, text: Text, from: nat, w: seq<nat>, t: nat, n: nat)
    requires from <= |text| && IsWalk(SilentGraph(a, text, from), w, a.start, t) && Latest(SilentGraph(a, text, from), w, t)
    ensures Chosen(a, text, from, t, from, SaveAlong(a, w, seq(n, _ => -1), from))
  {
    hide SilentGraph, Latest, IsWalk, SaveAlong;
    assert Landed(a, SilentGraph(a, text, from), a.start, seq(n, _ => -1), from, t, SaveAlong(a, w, seq(n, _ => -1), from));
  }

  lemma NextIsChosen(a: Automaton, text: Text, from: nat, pos: nat, i: nat, w: seq<nat>, t: nat, r: Registers)
    requires from <= pos < |text| && Chosen(a, text, from, i, pos, r) && LeadsLast(a, text, from, pos, i, t, |a.states|)
    requires |w| > 0 && Consumes(a, text, pos, i, w[0])
    requires var g := SilentGraph(a, text, pos + 1); IsWalk(g, w, w[0], t) && Latest(g, w, t)
    ensures Chosen(a, text, from, t, pos + 1, SaveAlong(a, w, r, pos + 1))
  {
    hide SilentGraph, Latest, IsWalk, LeadsLast, MatchesByte, SaveAlong;
    assert Landed(a, SilentGraph(a, text, pos + 1), w[0], r, pos + 1, t, SaveAlong(a, w, r, pos + 1));
    assert Inherits(a, text, pos, i, r, t, SaveAlong(a, w, r, pos + 1));
  }

  lemma NothingSaved(a: Automaton, n: nat)
    ensures SavesOf(a, [], n) == seq(n, _ => -1)
  {
  }

  /** The registers chosen are those of a run that is kept. */
  lemma {:induction false} ChosenIsKept(a: Automaton, text: Text, from: nat, t: nat, pos: nat, regs: Registers)
    returns (tr: Trace)
    requires Valid(a) && from <= pos <= |text| && Chosen(a, text, from, t, pos, regs)
    ensures IsTrace(a, text, from, tr) && Kept(a, text, from, tr)
    ensures |tr.walk| > 0 && Stop(tr) == t && End(from, tr) == pos && SavesOf(a, RunOf(from, tr), |regs|) == regs
    decreases pos
  {
    hide SilentGraph, Latest, LeadsLast, Valid, IsWalk, SaveAlong, SavesOf, IsTrace, Kept, Consumes, Landed, RunOf, End, Stop;
    var g := SilentGraph(a, text, pos);
    if pos == from {
      var none := seq(|regs|, _ => -1);
      var w := LandedWalk(a, g, a.start, none, pos, t, regs);
      tr := FirstKept(a, text, from, w, t, |regs|);
    } else {
      var i: nat, r: Registers :| LeadsLast(a, text, from, pos - 1, i, t, |a.states|) &&
        Inherits(a, text, pos - 1, i, r, t, regs) && |r| == |regs| && Chosen(a, text, from, i, pos - 1, r);
      var seed := a.states[i].out1.value;
      var w := LandedWalk(a, g, seed, r, pos, t, regs);
      var before := ChosenIsKept(a, text, from, i, pos - 1, r);
      LastConsumes(a, text, from, pos - 1, i, t);
      tr := NextKept(a, text, from, before, seed, w, t, |regs|);
    }
  }

  lemma LandedWalk(a: Automaton, g: Graph, root: nat, regs: Registers, pos: nat, t: nat, r: Registers) returns (w: seq<nat>)
    requires Landed(a, g, root, regs, pos, t, r)
    ensures IsWalk(g, w, root, t) && Latest(g, w, t) && r == SaveAlong(a, w, regs, pos)
  {
    w :| IsWalk(g, w, root, t) && Latest(g, w, t) && r == SaveAlong(a, w, regs, pos);
  }

  lemma FirstKept(a: Automaton, text: Text, from: nat, w: seq<nat>, t: nat, n: nat) returns (tr: Trace)
    requires from <= |text| && IsWalk(SilentGraph(a, text, from), w, a.start, t)
    requires Latest(SilentGraph(a, text, from), w, t)
    ensures IsTrace(a, text, from, tr) && Kept(a, text, from, tr) && |tr.walk| > 0 && Stop(tr) == t && End(from, tr) == from
    ensures SavesOf(a, RunOf(from, tr), n) == SaveAlong(a, w, seq(n, _ => -1), from)
  {
    hide SilentGraph, Latest, IsWalk, SaveAlong, SavesOf;
    WalkEnds(SilentGraph(a, text, from), w, a.start, t);
    tr := First(w);
    SavesAfter(a, [], w, from, n);
    assert [] + Configs(w, from) == Configs(w, from);
    NothingSaved(a, n);
  }

  lemma NextKept(a: Automaton, text: Text, from: nat, before: Trace, seed: nat, w: seq<nat>, t: nat, n: nat)
    returns (tr: Trace)
    requires IsTrace(a, text, from, before) && Kept(a, text, from, before) && |before.walk| > 0
    requires End(from, before) < |text| && Consumes(a, text, End(from, before), Stop(before), seed)
    requires LeadsLast(a, text, from, End(from, before), Stop(before), t, |a.states|)
    requires var g := SilentGraph(a, text, End(from, before) + 1); IsWalk(g, w, seed, t) && Latest(g, w, t)
    ensures IsTrace(a, text, from, tr) && Kept(a, text, from, tr)
    ensures |tr.walk| > 0 && Stop(tr) == t && End(from, tr) == End(from, before) + 1
    ensures SavesOf(a, RunOf(from, tr), n) == SaveAlong(a, w, SavesOf(a, RunOf(from, before), n), End(from, tr))
  {
    hide SilentGraph, Latest, IsWalk, LeadsLast, Consumes, SaveAlong, SavesOf;
    WalkEnds(SilentGraph(a, text, End(from, before) + 1), w, seed, t);
    tr := Then(before, w);
    SavesAfter(a, RunOf(from, before), w, End(from, tr), n);
  }

  lemma LastConsumes(a: Automaton, text: Text, from: nat, pos: nat, i: nat, t: nat)
    requires from <= pos < |text| && LeadsLast(a, text, from, pos, i, t, |a.states|)
    ensures i < |a.states| && a.states[i].out1.Some? && Consumes(a, text, pos, i, a.states[i].out1.value)
  {
  }

  lemma {:induction false} WalkEnds(g: Graph, w: seq<nat>, u: nat, v: nat)
    requires IsWalk(g, w, u, v)
    ensures |w| > 0 && w[0] == u && w[|w| - 1] == v
    decreases |w|
  {
    if |w| > 1 {
      WalkEnds(g, w[1..], w[1], v);
    }
  }

  // ---------------------------------------------------------------------------------
  // The left alternative.

  /** Some run leads from `c` to `goal`. */
  ghost predicate Leading(a: Automaton, text: Text, c: Config, goal: Config) {
    exists p :: |p| > 0 && IsRun(a, text, p, c) && Last(p) == goal
  }

  /** A silent move from `c` to `d` takes the first way on from which `goal` can be reached. */
  ghost predicate FirstMove(a: Automaton, text: Text, c: Config, d: Config, goal: Config) {
    && c.state < |a.states| && c.pos <= |text|
    && (d.pos == c.pos ==>
          exists k: nat :: k < |Silent(a, text, c.pos, c.state)| && Silent(a, text, c.pos, c.state)[k] == d.state &&
            forall m: nat :: m < k ==> !Leading(a, text, Config(Silent(a, text, c.pos, c.state)[m], c.pos), goal))
  }

  ghost predicate AllFirst(a: Automaton, text: Text, p: seq<Config>, goal: Config) {
    forall i :: 0 <= i < |p| - 1 ==> FirstMove(a, text, p[i], p[i + 1], goal)
  }

  /** At every branch the run takes the left alternative, unless only the right one leads to where
      the run ends. */
  ghost predicate LeftmostRun(a: Automaton, text: Text, p: seq<Config>) {
    |p| > 0 && AllFirst(a, text, p, Last(p))
  }

  /** From `u`, the first way on that leads to `t` goes to `v`. */
  ghost predicate FirstWay(g: Graph, u: nat, v: nat, t: nat) {
    u < |g| && exists k: nat :: k < |g[u]| && g[u][k] == v && forall m: nat :: m < k ==> !Reach(g, g[u][m], t)
  }

  /** Only one way on from `u` leads to `t`. */
  ghost predicate OneWayTo(g: Graph, u: nat, t: nat) {
    u < |g| && forall x: nat, y: nat :: x in g[u] && y in g[u] && Reach(g, x, t) && Reach(g, y, t) ==> x == y
  }

  /** No branch on the walk has two ways that lead to `t`. */
  ghost predicate Unforked(g: Graph, w: seq<nat>, t: nat) {
    forall i :: 0 <= i < |w| - 1 ==> OneWayTo(g, w[i], t)
  }

  ghost predicate FirstWays(g: Graph, w: seq<nat>, t: nat) {
    forall i :: 0 <= i < |w| - 1 ==> FirstWay(g, w[i], w[i + 1], t)
  }

  /** No branch on the run has a second silent way to the state where its walk stops, and no other
      thread in a state of greater number gets to that state over the same byte. */
  ghost predicate Undisputed(a: Automaton, text: Text, from: nat, tr: Trace)
    requires IsTrace(a, text, from, tr)
  {
    && Unforked(SilentGraph(a, text, End(from, tr)), tr.walk, Stop(tr))
    && (tr.Then? ==>
          && IsTrace(a, text, from, tr.before) && Undisputed(a, text, from, tr.before)
          && forall j: nat :: Stop(tr.before) < j < |a.states| ==>
               !Leads(a, text, from, End(from, tr.before), j, Stop(tr)))
  }

  ghost predicate WalksFirst(a: Automaton, text: Text, from: nat, tr: Trace)
    requires IsTrace(a, text, from, tr)
  {
    && FirstWays(SilentGraph(a, text, End(from, tr)), tr.walk, Stop(tr))
    && (tr.Then? ==> IsTrace(a, text, from, tr.before) && WalksFirst(a, text, from, tr.before))
  }

  /** The run kept is the leftmost one exactly when that is undisputed. */
  lemma LeftmostKept(a: Automaton, text: Text, from: nat, tr: Trace, kept: Trace)
    requires Valid(a) && IsTrace(a, text, from, tr) && LeftmostRun(a, text, RunOf(from, tr))
    requires IsTrace(a, text, from, kept) && Kept(a, text, from, kept)
    requires End(from, tr) == End(from, kept) && Stop(tr) == Stop(kept)
    requires Stop(tr) < |a.states| && Stops(a.states[Stop(tr)].kind)
    ensures RunOf(from, tr) == RunOf(from, kept) <==> Undisputed(a, text, from, tr)
  {
    hide IsTrace, Kept, Undisputed, FirstMove, WalksFirst, Valid, IsRun;
    TraceRuns(a, text, from, tr);
    var goal := Last(RunOf(from, tr));
    LeadingSelf(a, text, goal);
    LeftmostWalks(a, text, from, tr, goal);
    KeptIffUndisputed(a, text, from, tr);
    if Kept(a, text, from, tr) {
      KeptUnique(a, text, from, tr, kept);
    }
    if RunOf(from, tr) == RunOf(from, kept) {
      CutUnique(a, text, from, tr, kept);
    }
  }

  lemma LeadingSelf(a: Automaton, text: Text, c: Config)
    requires c.state < |a.states| && c.pos <= |text|
    ensures Leading(a, text, c, c)
  {
    assert IsRun(a, text, [c], c);
  }

  lemma {:induction false} RunAppend(a: Automaton, text: Text, p: seq<Config>, c: Config, q: seq<Config>)
    requires IsRun(a, text, p, c) && IsRun(a, text, q, Last(p))
    ensures IsRun(a, text, p + q[1..], c) && Last(p + q[1..]) == Last(q)
    decreases |q|
  {
    hide Move;
    if |q| == 1 {
      assert p + q[1..] == p;
    } else {
      var r := q[..|q| - 1];
      RunAppend(a, text, p, c, r);
      RunExtends(a, text, p + r[1..], c, Last(q));
      assert p + q[1..] == p + r[1..] + [Last(q)];
    }
  }

  lemma LeadingOn(a: Automaton, text: Text, c: Config, d: Config, goal: Config)
    requires Leading(a, text, c, d) && Leading(a, text, d, goal)
    ensures Leading(a, text, c, goal)
  {
    hide IsRun;
    var p :| |p| > 0 && IsRun(a, text, p, c) && Last(p) == d;
    var q :| |q| > 0 && IsRun(a, text, q, d) && Last(q) == goal;
    RunAppend(a, text, p, c, q);
  }

  lemma LeadingReach(a: Automaton, text: Text, pos: nat, u: nat, v: nat, goal: Config)
    requires Valid(a) && pos <= |text| && Reach(SilentGraph(a, text, pos), u, v)
    requires Leading(a, text, Config(v, pos), goal)
    ensures Leading(a, text, Config(u, pos), goal)
  {
    hide SilentGraph;
    var c := Config(u, pos);
    var w :| IsWalk(SilentGraph(a, text, pos), w, u, v);
    assert IsRun(a, text, [c], c);
    var r := RunAlongWalk(a, text, [c], c, w, v);
    LeadingOn(a, text, c, Config(v, pos), goal);
  }

  lemma LeadingByte(a: Automaton, text: Text, pos: nat, s: nat, t: nat, goal: Config)
    requires Valid(a) && Consumes(a, text, pos, s, t) && Leading(a, text, Config(t, pos + 1), goal)
    ensures Leading(a, text, Config(s, pos), goal)
  {
    var c, d := Config(s, pos), Config(t, pos + 1);
    assert IsRun(a, text, [c], c);
    RunExtends(a, text, [c], c, d);
    LeadingOn(a, text, c, d, goal);
  }

  /** The walks of a leftmost run are leftmost, each to where it stops. */
  lemma {:induction false} LeftmostWalks(a: Automaton, text: Text, from: nat, tr: Trace, goal: Config)
    requires Valid(a) && IsTrace(a, text, from, tr) && AllFirst(a, text, RunOf(from, tr), goal)
    requires |tr.walk| > 0 && Leading(a, text, Config(Stop(tr), End(from, tr)), goal)
    ensures WalksFirst(a, text, from, tr)
    decreases tr
  {
    hide FirstMove, Leading, SilentGraph, Consumes, IsWalk, FirstWays, IsRun, Valid;
    LastWalkFirst(a, text, from, tr, goal);
    if tr.Then? {
      var b, p := tr.before, RunOf(from, tr);
      assert p[..|p| - |tr.walk|] == RunOf(from, b);
      PrefixFirst(a, text, p, |p| - |tr.walk|, goal);
      WalkReaches(SilentGraph(a, text, End(from, tr)), tr.walk, tr.walk[0], Stop(tr));
      LeadingReach(a, text, End(from, tr), tr.walk[0], Stop(tr), goal);
      LeadingByte(a, text, End(from, b), Stop(b), tr.walk[0], goal);
      LeftmostWalks(a, text, from, b, goal);
    }
  }

  lemma PrefixFirst(a: Automaton, text: Text, p: seq<Config>, n: nat, goal: Config)
    requires n <= |p| && AllFirst(a, text, p, goal)
    ensures AllFirst(a, text, p[..n], goal)
  {
    hide FirstMove;
    forall i | 0 <= i < |p[..n]| - 1
      ensures FirstMove(a, text, p[..n][i], p[..n][i + 1], goal)
    {
      assert FirstMove(a, text, p[i], p[i + 1], goal);
    }
  }

  lemma LastWalkFirst(a: Automaton, text: Text, from: nat, tr: Trace, goal: Config)
    requires Valid(a) && IsTrace(a, text, from, tr) && AllFirst(a, text, RunOf(from, tr), goal)
    requires |tr.walk| > 0 && End(from, tr) <= |text| && Leading(a, text, Config(Stop(tr), End(from, tr)), goal)
    ensures FirstWays(SilentGraph(a, text, End(from, tr)), tr.walk, Stop(tr))
  {
    hide FirstMove, Leading, SilentGraph, IsTrace, RunOf, End, FirstWay, Valid;
    var g, e := SilentGraph(a, text, End(from, tr)), End(from, tr);
    LastStretch(a, text, from, tr);
    var p, n := RunOf(from, tr), |tr.walk|;
    forall i | 0 <= i < n - 1
      ensures FirstWay(g, tr.walk[i], tr.walk[i + 1], Stop(tr))
    {
      var k := |p| - n + i;
      assert p[k] == Config(tr.walk[i], e) && p[|p| - n + (i + 1)] == Config(tr.walk[i + 1], e);
      assert FirstMove(a, text, p[k], p[k + 1], goal);
      FirstMoveWay(a, text, e, tr.walk[i], tr.walk[i + 1], Stop(tr), goal);
    }
  }

  lemma WalkReaches(g: Graph, w: seq<nat>, u: nat, v: nat)
    requires IsWalk(g, w, u, v)
    ensures Reach(g, u, v)
  {
  }

  lemma FirstMoveWay(a: Automaton, text: Text, pos: nat, u: nat, v: nat, t: nat, goal: Config)
    requires Valid(a) && pos <= |text| && FirstMove(a, text, Config(u, pos), Config(v, pos), goal)
    requires Leading(a, text, Config(t, pos), goal)
    ensures FirstWay(SilentGraph(a, text, pos), u, v, t)
  {
    hide Leading, Reach, Silent;
    var g := SilentGraph(a, text, pos);
    assert g[u] == Silent(a, text, pos, u);
    var k: nat :| k < |g[u]| && g[u][k] == v && forall m: nat :: m < k ==> !Leading(a, text, Config(g[u][m], pos), goal);
    forall m: nat | m < k
      ensures !Reach(g, g[u][m], t)
    {
      if Reach(g, g[u][m], t) {
        LeadingReach(a, text, pos, g[u][m], t, goal);
      }
    }
  }

  lemma {:induction false} KeptIffUndisputed(a: Automaton, text: Text, from: nat, tr: Trace)
    requires Valid(a) && IsTrace(a, text, from, tr) && WalksFirst(a, text, from, tr)
    ensures Kept(a, text, from, tr) <==> Undisputed(a, text, from, tr)
    decreases tr
  {
    hide SilentGraph, Latest, Unforked, FirstWays, IsWalk, Leads, Consumes;
    StretchKept(a, text, End(from, tr), tr.walk, Stop(tr));
    if tr.Then? {
      KeptIffUndisputed(a, text, from, tr.before);
      ThenLeads(a, text, from, tr);
    }
  }

  lemma ThenLeads(a: Automaton, text: Text, from: nat, tr: Trace)
    requires Valid(a) && IsTrace(a, text, from, tr) && tr.Then? && IsTrace(a, text, from, tr.before)
    ensures Leads(a, text, from, End(from, tr.before), Stop(tr.before), Stop(tr)) && Stop(tr.before) < |a.states|
  {
    hide SilentGraph, At, IsWalk, IsRun;
    TraceRuns(a, text, from, tr.before);
    RunIsAt(a, text, from, RunOf(from, tr.before));
    WalkReaches(SilentGraph(a, text, End(from, tr)), tr.walk, tr.walk[0], Stop(tr));
  }

  /** A leftmost walk is the one kept exactly when no branch on it has a second way. */
  lemma StretchKept(a: Automaton, text: Text, pos: nat, w: seq<nat>, t: nat)
    requires pos <= |text| && |w| > 0 && IsWalk(SilentGraph(a, text, pos), w, w[0], t)
    requires FirstWays(SilentGraph(a, text, pos), w, t)
    ensures var g := SilentGraph(a, text, pos); Latest(g, w, t) <==> Unforked(g, w, t)
  {
    hide LastWay, FirstWay, OneWayTo, SilentGraph, IsWalk;
    var g := SilentGraph(a, text, pos);
    forall i | 0 <= i < |w| - 1
      ensures LastWay(g, w[i], w[i + 1], t) <==> OneWayTo(g, w[i], t)
    {
      assert FirstWay(g, w[i], w[i + 1], t);
      WalkInside(g, w, w[0], t, i);
      AtMostTwo(a, text, pos, w[i]);
      LastIffOne(g, w[i], w[i + 1], t);
    }
    if Unforked(g, w, t) {
      forall i | 0 <= i < |w| - 1
        ensures LastWay(g, w[i], w[i + 1], t)
      {
        assert OneWayTo(g, w[i], t);
      }
    }
    if Latest(g, w, t) {
      forall i | 0 <= i < |w| - 1
        ensures OneWayTo(g, w[i], t)
      {
        assert LastWay(g, w[i], w[i + 1], t);
      }
    }
  }

  lemma AtMostTwo(a: Automaton, text: Text, pos: nat, s: nat)
    requires pos <= |text| && s < |a.states|
    ensures |SilentGraph(a, text, pos)[s]| <= 2
  {
  }

  lemma {:induction false} WalkInside(g: Graph, w: seq<nat>, u: nat, v: nat, i: nat)
    requires IsWalk(g, w, u, v) && i < |w| - 1
    ensures w[i] < |g| && w[i + 1] in g[w[i]] && Reach(g, w[i + 1], v)
    decreases |w|
  {
    if i > 0 {
      WalkInside(g, w[1..], w[1], v, i - 1);
    } else {
      WalkReaches(g, w[1..], w[1], v);
    }
  }

  lemma LastIffOne(g: Graph, u: nat, v: nat, t: nat)
    requires u < |g| && |g[u]| <= 2 && FirstWay(g, u, v, t) && Reach(g, v, t)
    ensures LastWay(g, u, v, t) <==> OneWayTo(g, u, t)
  {
    hide Reach;
    var k: nat :| k < |g[u]| && g[u][k] == v && forall m: nat :: m < k ==> !Reach(g, g[u][m], t);
    if LastWay(g, u, v, t) {
      var n: nat :| n < |g[u]| && g[u][n] == v && forall m: nat :: n < m < |g[u]| ==> !Reach(g, g[u][m], t);
      forall x: nat, y: nat | x in g[u] && y in g[u] && Reach(g, x, t) && Reach(g, y, t)
        ensures x == y
      {
        var i :| 0 <= i < |g[u]| && g[u][i] == x;
        var j :| 0 <= j < |g[u]| && g[u][j] == y;
        assert k <= i <= n && k <= j <= n;
      }
    }
    if OneWayTo(g, u, t) {
      var last := |g[u]| - 1;
      if k < last && Reach(g, g[u][last], t) {
        assert g[u][last] in g[u] && g[u][k] in g[u];
        assert g[u][last] == v;
      }
    }
  }

  // ---------------------------------------------------------------------------------
  // There is a leftmost run wherever there is one.

  lemma RunBefore(a: Automaton, text: Text, c: Config, d: Config, p: seq<Config>)
    requires Valid(a) && c.state < |a.states| && c.pos <= |text| && Move(a, text, c, d) && IsRun(a, text, p, d)
    ensures IsRun(a, text, [c] + p, c) && Last([c] + p) == Last(p)
  {
    hide Move, IsRun;
    RunBegins(a, text, [], c, c);
    assert [] + [c] == [c];
    RunExtends(a, text, [c], c, d);
    RunAppend(a, text, [c] + [d], c, p);
    RunFirst(a, text, p, d);
    assert [c] + [d] + p[1..] == [c] + p;
  }

  lemma {:induction false} RunFirst(a: Automaton, text: Text, p: seq<Config>, c: Config)
    requires Valid(a) && IsRun(a, text, p, c)
    ensures |p| > 0 && p[0] == c && c.state < |a.states| && c.pos <= |text|
    ensures |p| > 1 ==> Move(a, text, c, p[1]) && IsRun(a, text, p[1..], p[1])
    decreases |p|
  {
    hide Move;
    if |p| > 1 {
      var q := p[..|p| - 1];
      RunFirst(a, text, q, c);
      if |p| == 2 {
        RunStays(a, text, p, c);
      } else {
        RunExtends(a, text, q[1..], p[1], Last(p));
        assert q[1..] + [Last(p)] == p[1..];
      }
    }
  }

  /** The first of the moves from `c` that can still reach `goal`. */
  lemma FirstOf(a: Automaton, text: Text, c: Config, goal: Config) returns (d: Config)
    requires Valid(a) && c != goal && Leading(a, text, c, goal)
    ensures c.state < |a.states| && c.pos <= |text|
    ensures Move(a, text, c, d) && Leading(a, text, d, goal) && FirstMove(a, text, c, d, goal)
  {
    hide IsRun, Move, FirstMove;
    var p :| |p| > 0 && IsRun(a, text, p, c) && Last(p) == goal;
    hide Leading;
    RunFirst(a, text, p, c);
    d := p[1];
    RunLeads(a, text, p[1..], d);
    if d.pos == c.pos {
      d := FirstSilent(a, text, c, d, goal);
    } else {
      ByteFirst(a, text, c, d, goal);
    }
  }

  lemma ByteFirst(a: Automaton, text: Text, c: Config, d: Config, goal: Config)
    requires c.state < |a.states| && c.pos <= |text| && d.pos != c.pos
    ensures FirstMove(a, text, c, d, goal)
  {
  }

  lemma FirstSilent(a: Automaton, text: Text, c: Config, e: Config, goal: Config) returns (d: Config)
    requires Move(a, text, c, e) && e.pos == c.pos && Leading(a, text, e, goal)
    ensures Move(a, text, c, d) && Leading(a, text, d, goal) && FirstMove(a, text, c, d, goal)
  {
    hide Leading, Silent;
    var l := Silent(a, text, c.pos, c.state);
    var j: nat :| j < |l| && l[j] == e.state;
    var k: nat := 0;
    while !Leading(a, text, Config(l[k], c.pos), goal)
      invariant k <= j && forall m: nat :: m < k ==> !Leading(a, text, Config(l[m], c.pos), goal)
      decreases j - k
    {
      k := k + 1;
    }
    d := Config(l[k], c.pos);
  }

  lemma RunLeads(a: Automaton, text: Text, p: seq<Config>, c: Config)
    requires IsRun(a, text, p, c)
    ensures |p| > 0 && Leading(a, text, c, Last(p))
  {
  }

  lemma {:induction false} LeftmostFrom(a: Automaton, text: Text, from: nat, c: Config, goal: Config, avail: set<nat>)
    returns (p: seq<Config>)
    requires Valid(a) && from <= c.pos <= |text| && c.state in At(a, text, from, c.pos) && NoCycles(a, text, from)
    requires Leading(a, text, c, goal) && c.pos <= goal.pos
    requires Available(SilentGraph(a, text, c.pos), Some(c.state), avail)
    ensures IsRun(a, text, p, c) && Last(p) == goal && LeftmostRun(a, text, p)
    decreases goal.pos - c.pos, avail
  {
    hide At, NoCycles, Leading, Available, SilentGraph, IsRun, FirstMove, Move;
    if c == goal {
      p := [c];
      AtInside(a, text, from, c);
      RunBegins(a, text, [], c, c);
      assert [] + [c] == [c];
    } else {
      var d := FirstOf(a, text, c, goal);
      LeadingForward(a, text, d, goal);
      AtMove(a, text, from, c, d);
      var next := NextAvailable(a, text, from, c, d, avail);
      var rest := LeftmostFrom(a, text, from, d, goal, next);
      RunFirst(a, text, rest, d);
      RunBefore(a, text, c, d, rest);
      p := [c] + rest;
      forall i | 0 <= i < |p| - 1
        ensures FirstMove(a, text, p[i], p[i + 1], goal)
      {
        assert i > 0 ==> FirstMove(a, text, rest[i - 1], rest[i - 1 + 1], goal);
      }
    }
  }

  lemma AtInside(a: Automaton, text: Text, from: nat, c: Config)
    requires from <= c.pos <= |text| && c.state in At(a, text, from, c.pos)
    ensures c.state < |a.states|
  {
  }

  lemma LeadingForward(a: Automaton, text: Text, c: Config, goal: Config)
    requires Valid(a) && Leading(a, text, c, goal)
    ensures c.state < |a.states| && c.pos <= goal.pos <= |text|
  {
    hide IsRun;
    var p :| |p| > 0 && IsRun(a, text, p, c) && Last(p) == goal;
    RunStays(a, text, p, c);
    RunFirst(a, text, p, c);
  }

  lemma NextAvailable(a: Automaton, text: Text, from: nat, c: Config, d: Config, avail: set<nat>) returns (next: set<nat>)
    requires Valid(a) && from <= c.pos <= |text| && c.state in At(a, text, from, c.pos) && NoCycles(a, text, from)
    requires Move(a, text, c, d) && d.pos <= |text| && Available(SilentGraph(a, text, c.pos), Some(c.state), avail)
    ensures Available(SilentGraph(a, text, d.pos), Some(d.state), next)
    ensures d.pos == c.pos + 1 || (d.pos == c.pos && next < avail)
  {
    hide At, Available, MatchesByte;
    if d.pos == c.pos {
      var g := SilentGraph(a, text, c.pos);
      SilentWellFormed(a, text, c.pos);
      Tier1.SilentOf(a, text, c.pos, c.state);
      NoCycleFrom(a, text, from, c);
      AvailableNext(g, c.state, Some(d.state), avail);
      next := avail - {c.state};
    } else {
      next := EverythingAvailable(SilentGraph(a, text, d.pos), Some(d.state));
    }
  }

  lemma NoCycleFrom(a: Automaton, text: Text, from: nat, c: Config)
    requires Valid(a) && from <= c.pos <= |text| && c.state in At(a, text, from, c.pos) && NoCycles(a, text, from)
    ensures NoCycle(SilentGraph(a, text, c.pos), Some(c.state))
  {
    hide At, SilentGraph, Reach;
    var g := SilentGraph(a, text, c.pos);
    forall u: nat, v: nat | u < |g| && v in g[u] && Reach(g, c.state, u)
      ensures !Reach(g, v, u)
    {
      AtClosed(a, text, from, c.pos, c.state, u);
      assert NoCycleAt(a, text, from, c.pos);
    }
  }

  /** Wherever there is a match there is a leftmost run that makes it. */
  lemma LeftmostMatch(a: Automaton, text: Text, from: nat, end: nat) returns (p: seq<Config>)
    requires Valid(a) && from <= |text| && NoCycles(a, text, from) && Matches(a, text, from, end)
    ensures IsMatch(a, text, from, end, p) && LeftmostRun(a, text, p)
  {
    var c := Config(a.start, from);
    var q :| IsMatch(a, text, from, end, q);
    RunLeads(a, text, q, c);
    hide NoCycles, IsRun, LeftmostRun;
    RunStays(a, text, q, c);
    assert IsRun(a, text, [c], c) by { RunBegins(a, text, [], c, c); assert [] + [c] == [c]; }
    RunIsAt(a, text, from, [c]);
    var avail := EverythingAvailable(SilentGraph(a, text, from), Some(a.start));
    p := LeftmostFrom(a, text, from, c, Last(q), avail);
  }

  /** There is only one. */
  lemma {:induction false} LeftmostUnique(a: Automaton, text: Text, c: Config, p: seq<Config>, q: seq<Config>)
    requires Valid(a) && IsRun(a, text, p, c) && IsRun(a, text, q, c) && Last(p) == Last(q)
    requires Last(p).state < |a.states| && a.states[Last(p).state].kind.Accept?
    requires AllFirst(a, text, p, Last(p)) && AllFirst(a, text, q, Last(p))
    ensures p == q
    decreases |p|
  {
    hide Leading, FirstMove, Move, IsRun;
    RunFirst(a, text, p, c);
    RunFirst(a, text, q, c);
    if |p| == 1 {
      StaysPut(a, text, c, q);
    } else if |q| == 1 {
      StaysPut(a, text, c, p);
    } else {
      assert FirstMove(a, text, p[0], p[0 + 1], Last(p)) && FirstMove(a, text, q[0], q[0 + 1], Last(p));
      RunLeads(a, text, p[1..], p[1]);
      RunLeads(a, text, q[1..], q[1]);
      FirstSame(a, text, c, p[1], q[1], Last(p));
      RestFirst(a, text, p, Last(p));
      RestFirst(a, text, q, Last(p));
      LeftmostUnique(a, text, p[1], p[1..], q[1..]);
      assert p == [c] + p[1..] && q == [c] + q[1..];
    }
  }

  /** Nothing moves on from an accepting state. */
  lemma StaysPut(a: Automaton, text: Text, c: Config, p: seq<Config>)
    requires Valid(a) && IsRun(a, text, p, c) && c.state < |a.states| && a.states[c.state].kind.Accept?
    ensures |p| == 1
  {
    RunFirst(a, text, p, c);
  }

  lemma RestFirst(a: Automaton, text: Text, p: seq<Config>, goal: Config)
    requires |p| > 1 && AllFirst(a, text, p, goal)
    ensures AllFirst(a, text, p[1..], goal)
  {
    hide FirstMove;
    forall i | 0 <= i < |p[1..]| - 1
      ensures FirstMove(a, text, p[1..][i], p[1..][i + 1], goal)
    {
      assert FirstMove(a, text, p[i + 1], p[i + 1 + 1], goal);
    }
  }

  lemma FirstSame(a: Automaton, text: Text, c: Config, d: Config, e: Config, goal: Config)
    requires FirstMove(a, text, c, d, goal) && FirstMove(a, text, c, e, goal)
    requires Move(a, text, c, d) && Move(a, text, c, e) && Leading(a, text, d, goal) && Leading(a, text, e, goal)
    ensures d == e
  {
    hide Leading, AnchorHolds;
    assert d.pos == e.pos;
    if d.pos == c.pos {
      var l := Silent(a, text, c.pos, c.state);
      var k: nat :| k < |l| && l[k] == d.state && forall m: nat :: m < k ==> !Leading(a, text, Config(l[m], c.pos), goal);
      var n: nat :| n < |l| && l[n] == e.state && forall m: nat :: m < n ==> !Leading(a, text, Config(l[m], c.pos), goal);
      assert d == Config(l[k], c.pos) && e == Config(l[n], c.pos);
    }
  }

  /** What Tier 2 reports are the saves of the run that is kept, and that is the leftmost run to the
      end reported exactly when the leftmost run is undisputed. */
  lemma LeftmostReported(a: Automaton, text: Text, from: nat, out: Registers, p: seq<Config>) returns (tr: Trace, kept: Trace)
    requires Valid(a) && OneAccept(a) && from <= |text| && RegistersOf(a, text, from, out)
    requires IsMatch(a, text, from, out[1], p) && LeftmostRun(a, text, p)
    ensures IsTrace(a, text, from, tr) && RunOf(from, tr) == p
    ensures IsTrace(a, text, from, kept) && Kept(a, text, from, kept) && IsMatch(a, text, from, out[1], RunOf(from, kept))
    ensures forall i :: 2 <= i < |out| ==> out[i] == SavesOf(a, RunOf(from, kept), |out|)[i]
    ensures p == RunOf(from, kept) <==> Undisputed(a, text, from, tr)
  {
    hide LeftmostRun, IsRun, Kept, IsTrace, Undisputed, Chosen, Valid, SavesOf;
    var q :| Winner(a, text, from, out[1], q, |out|) && forall i :: 2 <= i < |out| ==> out[i] == SavesOf(a, q, |out|)[i];
    tr := CutRun(a, text, from, p);
    kept := ChosenIsKept(a, text, from, a.accept, out[1], SavesOf(a, q, |out|));
    TraceRuns(a, text, from, kept);
    LeftmostKept(a, text, from, tr, kept);
  }

  // ---------------------------------------------------------------------------------
  // Two automata where the left alternative loses.

  /** A split whose left way saves a position and whose right way does not. */
  function TwoWays(): Automaton {
    Automaton([State(Split, Some(1), Some(2)), State(Save(2), Some(2), None), State(Accept, None, None)], 0, 2)
  }

  const TWO_WAYS: Graph := [[1, 2], [2], []]

  /** The left way and the right way through it. */
  function LeftWay(): Trace { First([0, 1, 2]) }
  function RightWay(): Trace { First([0, 2]) }

  /** On the empty text the right way wins, and register 2 stays unset; the left way would have
      set it. The two ways meet without a byte. */
  lemma RightWins(out: Registers)
    requires |out| == 3 && RegistersOf(TwoWays(), [], 0, out)
    ensures Valid(TwoWays()) && OneAccept(TwoWays()) && NoCycles(TwoWays(), [], 0)
    ensures out == [0, 0, -1]
    ensures IsTrace(TwoWays(), [], 0, LeftWay()) && LeftmostRun(TwoWays(), [], RunOf(0, LeftWay()))
    ensures SavesOf(TwoWays(), RunOf(0, LeftWay()), 3) == [-1, -1, 0]
    ensures !Undisputed(TwoWays(), [], 0, LeftWay())
  {
    hide RegistersOf, IsTrace, LeftmostRun, Undisputed, NoCycles, SavesOf;
    TwoWaysSilent();
    TwoWaysAcyclic();
    LeftWaySaves();
    LeftWayFirst();
    RightWayKept();
    RightWaySaves();
    TwoWaysOut(out);
  }

  lemma TwoWaysSilent()
    ensures Valid(TwoWays()) && OneAccept(TwoWays()) && SilentGraph(TwoWays(), [], 0) == TWO_WAYS
  {
    var g := SilentGraph(TwoWays(), [], 0);
    assert g[0] == [1, 2] && g[1] == [2] && g[2] == [];
  }

  lemma TwoWaysAcyclic()
    ensures NoCycles(TwoWays(), [], 0)
  {
    hide At, Reach;
    TwoWaysSilent();
    var g := TWO_WAYS;
    forall u: nat, v: nat | u < 3 && v in g[u]
      ensures !Reach(g, v, u)
    {
      if Reach(g, v, u) {
        var x := ReachFirst(g, v, u);
        if Reach(g, x, u) {
          var y := ReachFirst(g, x, u);
        }
      }
    }
  }

  lemma LeftWayFirst()
    ensures IsTrace(TwoWays(), [], 0, LeftWay()) && LeftmostRun(TwoWays(), [], RunOf(0, LeftWay()))
    ensures !Undisputed(TwoWays(), [], 0, LeftWay())
  {
    hide Leading, SilentGraph, Reach;
    TwoWaysSilent();
    assert [0, 1, 2][1..] == [1, 2] && [1, 2][1..] == [2];
    assert IsWalk(TWO_WAYS, [2], 2, 2) && IsWalk(TWO_WAYS, [1, 2], 1, 2);
    assert RunOf(0, LeftWay()) == [Config(0, 0), Config(1, 0), Config(2, 0)];
    assert Silent(TwoWays(), [], 0, 0)[0] == 1 && Silent(TwoWays(), [], 0, 1)[0] == 2;
    WalkReaches(TWO_WAYS, [2], 2, 2);
    WalkReaches(TWO_WAYS, [1, 2], 1, 2);
    assert TWO_WAYS[0][0] == 1 && TWO_WAYS[0][1] == 2;
    assert !OneWayTo(TWO_WAYS, LeftWay().walk[0], 2);
  }

  lemma LeftWaySaves()
    ensures SavesOf(TwoWays(), RunOf(0, LeftWay()), 3) == [-1, -1, 0]
  {
    var a := TwoWays();
    SavesAfter(a, [], [0, 1, 2], 0, 3);
    assert [] + Configs([0, 1, 2], 0) == RunOf(0, LeftWay());
    assert [0, 1, 2][1..] == [1, 2] && [1, 2][1..] == [2] && [2][1..] == [];
    assert SaveAlong(a, [2], [-1, -1, 0], 0) == [-1, -1, 0];
    assert SaveAlong(a, [1, 2], [-1, -1, -1], 0) == [-1, -1, 0];
  }

  lemma RightWayKept()
    ensures IsTrace(TwoWays(), [], 0, RightWay()) && Kept(TwoWays(), [], 0, RightWay())
  {
    hide SilentGraph, Reach;
    TwoWaysSilent();
    assert [0, 2][1..] == [2];
    assert IsWalk(TWO_WAYS, [2], 2, 2);
    assert TWO_WAYS[0][1] == 2;
    assert LastWay(TWO_WAYS, 0, 2, 2);
  }

  lemma RightWaySaves()
    ensures SavesOf(TwoWays(), RunOf(0, RightWay()), 3) == [-1, -1, -1]
  {
    var a := TwoWays();
    SavesAfter(a, [], [0, 2], 0, 3);
    assert [] + Configs([0, 2], 0) == RunOf(0, RightWay());
    assert [0, 2][1..] == [2] && [2][1..] == [];
    assert SaveAlong(a, [2], [-1, -1, -1], 0) == [-1, -1, -1];
  }

  lemma TwoWaysOut(out: Registers)
    requires |out| == 3 && RegistersOf(TwoWays(), [], 0, out)
    ensures out == [0, 0, -1]
  {
    hide SilentGraph, IsMatch, SavesOf, Chosen, IsTrace, Kept;
    var a := TwoWays();
    TwoWaysSilent();
    RightWayKept();
    RightWaySaves();
    var p :| Winner(a, [], 0, out[1], p, 3) && forall i :: 2 <= i < 3 ==> out[i] == SavesOf(a, p, 3)[i];
    KeptIsChosen(a, [], 0, RightWay(), 3);
    ChosenUnique(a, [], 0, 2, 0, [-1, -1, -1], SavesOf(a, p, 3));
  }

  /** Two ways through one byte each: the left one saves a position first. */
  function TwoBytes(): Automaton {
    Automaton([State(Split, Some(1), Some(3)), State(Save(2), Some(2), None), State(Char(97), Some(4), None),
               State(Char(97), Some(4), None), State(Accept, None, None)], 0, 4)
  }

  const TWO_BYTES: Graph := [[1, 3], [2], [], [], []]

  function LeftByte(): Trace { Then(First([0, 1, 2]), [4]) }
  function RightByte(): Trace { Then(First([0, 3]), [4]) }

  /** The two ways meet after a byte. No branch has two ways to the same state, but the right way
      consumes the byte in the state of greater number, so it wins. */
  lemma GreaterNumberWins(out: Registers)
    requires |out| == 3 && RegistersOf(TwoBytes(), [97], 0, out)
    ensures Valid(TwoBytes()) && OneAccept(TwoBytes())
    ensures out == [0, 1, -1]
    ensures IsTrace(TwoBytes(), [97], 0, LeftByte()) && LeftmostRun(TwoBytes(), [97], RunOf(0, LeftByte()))
    ensures SavesOf(TwoBytes(), RunOf(0, LeftByte()), 3) == [-1, -1, 0]
    ensures Unforked(SilentGraph(TwoBytes(), [97], 0), [0, 1, 2], 2) && Unforked(SilentGraph(TwoBytes(), [97], 1), [4], 4)
    ensures !Undisputed(TwoBytes(), [97], 0, LeftByte())
  {
    hide RegistersOf, IsTrace, LeftmostRun, Undisputed, Unforked, SavesOf;
    TwoBytesSilent();
    LeftByteFirst();
    LeftByteDisputed();
    LeftByteSaves();
    TwoBytesOut(out);
  }

  lemma TwoBytesSilent()
    ensures Valid(TwoBytes()) && OneAccept(TwoBytes())
    ensures SilentGraph(TwoBytes(), [97], 0) == TWO_BYTES == SilentGraph(TwoBytes(), [97], 1)
  {
    var g, h := SilentGraph(TwoBytes(), [97], 0), SilentGraph(TwoBytes(), [97], 1);
    assert g[0] == [1, 3] && g[1] == [2] && g[2] == [] && g[3] == [] && g[4] == [];
    assert h[0] == [1, 3] && h[1] == [2] && h[2] == [] && h[3] == [] && h[4] == [];
  }

  lemma LeftByteFirst()
    ensures IsTrace(TwoBytes(), [97], 0, LeftByte()) && LeftmostRun(TwoBytes(), [97], RunOf(0, LeftByte()))
    ensures IsTrace(TwoBytes(), [97], 0, LeftByte().before)
  {
    hide Leading, SilentGraph;
    TwoBytesSilent();
    var a, tr := TwoBytes(), LeftByte();
    assert [0, 1, 2][1..] == [1, 2] && [1, 2][1..] == [2];
    assert IsWalk(TWO_BYTES, [2], 2, 2) && IsWalk(TWO_BYTES, [1, 2], 1, 2) && IsWalk(TWO_BYTES, [0, 1, 2], 0, 2);
    assert IsWalk(TWO_BYTES, [4], 4, 4);
    assert End(0, tr.before) == 0 && End(0, tr) == 1;
    assert IsTrace(a, [97], 0, tr.before);
    assert RunOf(0, tr.before) == [Config(0, 0), Config(1, 0), Config(2, 0)];
    assert RunOf(0, tr) == [Config(0, 0), Config(1, 0), Config(2, 0), Config(4, 1)];
    assert Silent(a, [97], 0, 0)[0] == 1 && Silent(a, [97], 0, 1)[0] == 2;
  }

  lemma TwoBytesReach()
    ensures Reach(TWO_BYTES, 0, 3) && Reach(TWO_BYTES, 4, 4)
    ensures !Reach(TWO_BYTES, 3, 2) && !Reach(TWO_BYTES, 0, 4)
  {
    var g := TWO_BYTES;
    assert IsWalk(g, [4], 4, 4);
    assert g[0][1] == 3;
    ReachEdge(g, 0, 3);
    hide Reach;
    if Reach(g, 3, 2) {
      var x := ReachFirst(g, 3, 2);
    }
    if Reach(g, 0, 4) {
      var x := ReachFirst(g, 0, 4);
      var y := ReachFirst(g, x, 4);
    }
  }

  lemma LeftByteDisputed()
    requires IsTrace(TwoBytes(), [97], 0, LeftByte())
    ensures Unforked(SilentGraph(TwoBytes(), [97], 0), [0, 1, 2], 2) && Unforked(SilentGraph(TwoBytes(), [97], 1), [4], 4)
    ensures !Undisputed(TwoBytes(), [97], 0, LeftByte())
  {
    hide Reach, SilentGraph;
    var a, g, w := TwoBytes(), TWO_BYTES, [0, 1, 2];
    TwoBytesSilent();
    TwoBytesReach();
    assert OneWayTo(g, 0, 2) && OneWayTo(g, 1, 2);
    assert Leads(a, [97], 0, 0, 3, 4) by { ThreeIsLive(); }
  }

  lemma ThreeIsLive()
    ensures 3 in At(TwoBytes(), [97], 0, 0)
  {
    hide Reach, SilentGraph;
    TwoBytesSilent();
    TwoBytesReach();
    var seeds: set<nat> := {0};
    assert 0 in seeds && Reach(SilentGraph(TwoBytes(), [97], 0), 0, 3);
  }

  lemma LeftByteSaves()
    ensures SavesOf(TwoBytes(), RunOf(0, LeftByte()), 3) == [-1, -1, 0]
  {
    var a := TwoBytes();
    SavesAfter(a, [], [0, 1, 2], 0, 3);
    SavesAfter(a, RunOf(0, LeftByte().before), [4], 1, 3);
    assert [] + Configs([0, 1, 2], 0) == RunOf(0, LeftByte().before);
    assert [0, 1, 2][1..] == [1, 2] && [1, 2][1..] == [2] && [2][1..] == [] && [4][1..] == [];
    assert SaveAlong(a, [2], [-1, -1, 0], 0) == [-1, -1, 0];
    assert SaveAlong(a, [1, 2], [-1, -1, -1], 0) == [-1, -1, 0];
  }

  lemma RightByteSaves()
    ensures SavesOf(TwoBytes(), RunOf(0, RightByte()), 3) == [-1, -1, -1]
  {
    var a := TwoBytes();
    SavesAfter(a, [], [0, 3], 0, 3);
    SavesAfter(a, RunOf(0, RightByte().before), [4], 1, 3);
    assert [] + Configs([0, 3], 0) == RunOf(0, RightByte().before);
    assert [0, 3][1..] == [3] && [3][1..] == [] && [4][1..] == [];
    assert SaveAlong(a, [3], [-1, -1, -1], 0) == [-1, -1, -1];
  }

  lemma RightByteKept()
    ensures IsTrace(TwoBytes(), [97], 0, RightByte()) && Kept(TwoBytes(), [97], 0, RightByte())
  {
    hide SilentGraph, Reach, At;
    var a, tr := TwoBytes(), RightByte();
    TwoBytesSilent();
    TwoBytesReach();
    ThreeIsLive();
    assert [0, 3][1..] == [3];
    assert IsWalk(TWO_BYTES, [3], 3, 3) && IsWalk(TWO_BYTES, [0, 3], 0, 3) && IsWalk(TWO_BYTES, [4], 4, 4);
    assert End(0, tr.before) == 0 && End(0, tr) == 1;
    assert IsTrace(a, [97], 0, tr.before);
    assert TWO_BYTES[0][1] == 3;
    assert LastWay(TWO_BYTES, 0, 3, 3);
    assert Latest(TWO_BYTES, [0, 3], 3) && Latest(TWO_BYTES, [4], 4);
    assert Leads(a, [97], 0, 0, 3, 4) && !Leads(a, [97], 0, 0, 4, 4);
  }

  lemma NeedsByte(regs: Registers)
    ensures !Chosen(TwoBytes(), [97], 0, 4, 0, regs)
  {
    hide SilentGraph, Reach, IsWalk;
    TwoBytesSilent();
    TwoBytesReach();
    if Chosen(TwoBytes(), [97], 0, 4, 0, regs) {
      var w :| IsWalk(TWO_BYTES, w, 0, 4) && Latest(TWO_BYTES, w, 4);
      WalkReaches(TWO_BYTES, w, 0, 4);
    }
  }

  lemma TwoBytesOut(out: Registers)
    requires |out| == 3 && RegistersOf(TwoBytes(), [97], 0, out)
    ensures out == [0, 1, -1]
  {
    hide SilentGraph, IsMatch, SavesOf, IsTrace, Kept, Chosen;
    var a := TwoBytes();
    TwoBytesSilent();
    var p :| Winner(a, [97], 0, out[1], p, 3) && forall i :: 2 <= i < 3 ==> out[i] == SavesOf(a, p, 3)[i];
    if out[1] == 0 {
      NeedsByte(SavesOf(a, p, 3));
    }
    RightByteKept();
    RightByteSaves();
    KeptIsChosen(a, [97], 0, RightByte(), 3);
    ChosenUnique(a, [97], 0, 4, 1, [-1, -1, -1], SavesOf(a, p, 3));
  }
}
