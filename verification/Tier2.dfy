/** The Tier 2 simulation: at most one thread in each state, carrying capture registers. */
module Tier2 {
  import opened Wrappers
  import opened Digraph
  import opened Nfa
  import Tier1

  type Registers = seq<int>

  // ---------------------------------------------------------------------------------
  // What the registers record.

  /** A save state stores the position, if its register exists. */
  function SaveAt(a: Automaton, s: nat, regs: Registers, pos: nat): (r: Registers)
    ensures |r| == |regs|
  {
    if s < |a.states| && a.states[s].kind.Save? && 0 <= a.states[s].kind.index < |regs|
    then regs[a.states[s].kind.index := pos] else regs
  }

  /** The registers after the states of a silent walk. */
  function SaveAlong(a: Automaton, w: seq<nat>, regs: Registers, pos: nat): (r: Registers)
    ensures |r| == |regs|
  {
    if |w| == 0 then regs else SaveAlong(a, w[1..], SaveAt(a, w[0], regs, pos), pos)
  }

  /** The registers after a run: for each, the position of the last save on the run. */
  function SavesOf(a: Automaton, p: seq<Config>, n: nat): (r: Registers)
    ensures |r| == n
  {
    if |p| == 0 then seq(n, _ => -1)
    else SaveAt(a, Last(p).state, SavesOf(a, p[..|p| - 1], n), Last(p).pos)
  }

  /** `regs` are the saves of one run to state `t` at `pos`. */
  ghost predicate Carried(a: Automaton, text: Text, from: nat, t: nat, pos: nat, regs: Registers) {
    exists p :: IsRun(a, text, p, Config(a.start, from)) && Last(p) == Config(t, pos) && SavesOf(a, p, |regs|) == regs
  }

  lemma {:induction false} RunWithSaves(a: Automaton, text: Text, p: seq<Config>, c: Config, w: seq<nat>, t: nat,
                                        n: nat) returns (r: seq<Config>)
    requires Valid(a) && IsRun(a, text, p, c) && Last(p).pos <= |text|
    requires IsWalk(SilentGraph(a, text, Last(p).pos), w, Last(p).state, t)
    ensures IsRun(a, text, r, c) && Last(r) == Config(t, Last(p).pos)
    ensures SavesOf(a, r, n) == SaveAlong(a, w[1..], SavesOf(a, p, n), Last(p).pos)
    decreases |w|
  {
    if |w| == 1 {
      r := p;
    } else {
      var d := Config(w[1], Last(p).pos);
      assert Move(a, text, Last(p), d);
      RunExtends(a, text, p, c, d);
      r := RunWithSaves(a, text, p + [d], c, w[1..], t, n);
      assert (p + [d])[..|p|] == p;
      assert SavesOf(a, p + [d], n) == SaveAt(a, w[1], SavesOf(a, p, n), d.pos);
      assert w[1..][1..] == w[2..] && w[1..][0] == w[1];
    }
  }

  // ---------------------------------------------------------------------------------
  // Placing a thread and following its silent moves.

  /** No silent move that can be reached from `next` leads back. */
  ghost predicate NoCycle(g: Graph, next: Option<nat>) {
    next.Some? ==> forall u: nat, v: nat :: u < |g| && v in g[u] && Reach(g, next.value, u) ==> !Reach(g, v, u)
  }

  /** From `u`, the last way on that leads to `t` goes to `v`. */
  ghost predicate LastWay(g: Graph, u: nat, v: nat, t: nat) {
    u < |g| && exists k: nat :: k < |g[u]| && g[u][k] == v && forall m: nat :: k < m < |g[u]| ==> !Reach(g, g[u][m], t)
  }

  /** At every branch the walk takes the last way on that leads to `t`. */
  ghost predicate Latest(g: Graph, w: seq<nat>, t: nat) {
    forall i :: 0 <= i < |w| - 1 ==> LastWay(g, w[i], w[i + 1], t)
  }

  /** A thread that set out from `root` with `regs` has arrived in `t` with `r`. Of several ways,
      the one tried last counts. */
  ghost predicate Landed(a: Automaton, g: Graph, root: nat, regs: Registers, pos: nat, t: nat, r: Registers) {
    exists w :: IsWalk(g, w, root, t) && Latest(g, w, t) && r == SaveAlong(a, w, regs, pos)
  }

  /** There is only one such way to a state where threads stop. */
  lemma {:induction false} LatestUnique(g: Graph, w: seq<nat>, z: seq<nat>, root: nat, t: nat)
    requires t < |g| && g[t] == []
    requires IsWalk(g, w, root, t) && Latest(g, w, t) && IsWalk(g, z, root, t) && Latest(g, z, t)
    ensures w == z
    decreases |w|
  {
    if |w| == 1 || |z| == 1 {
      assert root == t;
    } else {
      assert LastWay(g, w[0], w[1], t) && LastWay(g, z[0], z[1], t);
      assert Reach(g, w[1], t) && Reach(g, z[1], t);
      LatestRest(g, w, t);
      LatestRest(g, z, t);
      LatestUnique(g, w[1..], z[1..], w[1], t);
    }
  }

  lemma LatestRest(g: Graph, w: seq<nat>, t: nat)
    requires |w| > 1 && Latest(g, w, t)
    ensures Latest(g, w[1..], t)
  {
    forall i | 0 <= i < |w[1..]| - 1
      ensures LastWay(g, w[1..][i], w[1..][i + 1], t)
    {
      assert LastWay(g, w[i + 1], w[i + 2], t);
    }
  }

  type Threads = seq<Option<Registers>>

  /** The slot of `t` after placing a thread: the new one wins wherever it can go. */
  ghost predicate SlotPlaced(a: Automaton, g: Graph, pos: nat, next: Option<nat>, regs: Registers,
                             before: Threads, after: Threads, t: nat)
    requires t < |before| == |after| == |a.states|
  {
    if next.Some? && Stops(a.states[t].kind) && Reach(g, next.value, t)
    then after[t].Some? && Landed(a, g, next.value, regs, pos, t, after[t].value)
    else after[t] == before[t]
  }

  ghost predicate Placed(a: Automaton, g: Graph, pos: nat, next: Option<nat>, regs: Registers,
                         before: Threads, after: Threads) {
    && |before| == |after| == |a.states|
    && forall t: nat :: t < |after| ==> SlotPlaced(a, g, pos, next, regs, before, after, t)
  }

  lemma LandedBefore(a: Automaton, g: Graph, s: nat, y: nat, regs: Registers, pos: nat, t: nat, r: Registers)
    requires s < |g| && y in g[s] && LastWay(g, s, y, t) && Landed(a, g, y, SaveAt(a, s, regs, pos), pos, t, r)
    ensures Landed(a, g, s, regs, pos, t, r)
  {
    hide LastWay, Reach;
    var w :| IsWalk(g, w, y, t) && Latest(g, w, t) && r == SaveAlong(a, w, SaveAt(a, s, regs, pos), pos);
    var z := [s] + w;
    assert z[1..] == w;
    assert IsWalk(g, z, s, t);
    forall i | 0 <= i < |z| - 1
      ensures LastWay(g, z[i], z[i + 1], t)
    {
      if i > 0 {
        assert LastWay(g, w[i - 1], w[i], t);
      }
    }
    assert Latest(g, z, t);
  }

  /** A state that does not stop passes its thread on to its successors, first to `out1`,
      then to `out2`. */
  lemma PlacedThrough(a: Automaton, g: Graph, pos: nat, s: nat, out1: Option<nat>, out2: Option<nat>,
                      regs: Registers, before: Threads, middle: Threads, after: Threads)
    requires WellFormed(g) && |g| == |a.states| && s < |g| && !Stops(a.states[s].kind)
    requires g[s] == ListOf(out1) + ListOf(out2)
    requires Placed(a, g, pos, out1, SaveAt(a, s, regs, pos), before, middle)
    requires Placed(a, g, pos, out2, SaveAt(a, s, regs, pos), middle, after)
    ensures Placed(a, g, pos, Some(s), regs, before, after)
  {
    hide SaveAt, Landed, Reach;
    forall t: nat | t < |after|
      ensures SlotPlaced(a, g, pos, Some(s), regs, before, after, t)
    {
      assert SlotPlaced(a, g, pos, out1, SaveAt(a, s, regs, pos), before, middle, t);
      assert SlotPlaced(a, g, pos, out2, SaveAt(a, s, regs, pos), middle, after, t);
      ThroughEither(g, s, out1, out2, t);
      if Stops(a.states[t].kind) && Reach(g, s, t) {
        if out2.Some? && Reach(g, out2.value, t) {
          assert g[s][|g[s]| - 1] == out2.value;
          LandedBefore(a, g, s, out2.value, regs, pos, t, after[t].value);
        } else {
          assert g[s][0] == out1.value;
          assert out2.Some? ==> g[s][1] == out2.value;
          LandedBefore(a, g, s, out1.value, regs, pos, t, after[t].value);
        }
      }
    }
  }

  lemma ThroughEither(g: Graph, s: nat, out1: Option<nat>, out2: Option<nat>, t: nat)
    requires WellFormed(g) && s < |g| && g[s] == ListOf(out1) + ListOf(out2)
    ensures out1.Some? ==> out1.value in g[s]
    ensures out2.Some? ==> out2.value in g[s]
    ensures s != t ==>
      (Reach(g, s, t) <==> (out1.Some? && Reach(g, out1.value, t)) || (out2.Some? && Reach(g, out2.value, t)))
  {
    if s != t {
      if Reach(g, s, t) {
        var v := ReachFirst(g, s, t);
      }
      if out1.Some? && Reach(g, out1.value, t) {
        Tier1.ReachThrough(g, s, out1, t);
      }
      if out2.Some? && Reach(g, out2.value, t) {
        Tier1.ReachThrough(g, s, out2, t);
      }
    }
  }

  lemma PlacedHere(a: Automaton, g: Graph, pos: nat, s: nat, regs: Registers, before: Threads)
    requires |g| == |a.states| == |before| && s < |g| && g[s] == [] && Stops(a.states[s].kind)
    ensures Placed(a, g, pos, Some(s), regs, before, before[s := Some(regs)])
  {
    ReachSelf(g, s);
    assert IsWalk(g, [s], s, s);
    assert Latest(g, [s], s);
    assert SaveAlong(a, [s], regs, pos) == SaveAlong(a, [s][1..], SaveAt(a, s, regs, pos), pos) == regs;
    var after := before[s := Some(regs)];
    forall t: nat | t < |after|
      ensures SlotPlaced(a, g, pos, Some(s), regs, before, after, t)
    {
      if t != s && Reach(g, s, t) {
        var v := ReachFirst(g, s, t);
      }
    }
  }

  lemma PlacedNowhere(a: Automaton, g: Graph, pos: nat, regs: Registers, before: Threads)
    requires |before| == |a.states|
    ensures Placed(a, g, pos, None, regs, before, before)
  {
  }

  /** Everything silently reachable from `next` is still available. */
  ghost predicate Available(g: Graph, next: Option<nat>, avail: set<nat>) {
    next.Some? ==> forall t: nat :: t < |g| && Reach(g, next.value, t) ==> t in avail
  }

  lemma AvailableNext(g: Graph, s: nat, out: Option<nat>, avail: set<nat>)
    requires WellFormed(g) && NoCycle(g, Some(s)) && s < |g| && Available(g, Some(s), avail)
    requires out.Some? ==> out.value in g[s]
    ensures s in avail && Available(g, out, avail - {s}) && NoCycle(g, out)
  {
    hide Reach;
    ReachSelf(g, s);
    if out.Some? {
      forall t: nat | t < |g| && Reach(g, out.value, t)
        ensures t in avail - {s} && Reach(g, s, t)
      {
        Tier1.ReachThrough(g, s, out, t);
      }
    }
  }

  /** Places a thread at `next` carrying `regs`, following silent moves. */
  method Place(a: Automaton, text: Text, pos: nat, threads: array<Option<Registers>>, next: Option<nat>,
               regs: Registers, ghost avail: set<nat>)
    requires Valid(a) && pos <= |text| && threads.Length == |a.states| && ValidNext(|a.states|, next)
    requires NoCycle(SilentGraph(a, text, pos), next) && Available(SilentGraph(a, text, pos), next, avail)
    modifies threads
    ensures Placed(a, SilentGraph(a, text, pos), pos, next, regs, old(threads[..]), threads[..])
    decreases avail
  {
    hide Placed, SilentGraph, Available, NoCycle, AnchorHolds, SaveAt;
    ghost var g, before := SilentGraph(a, text, pos), threads[..];
    PlacedNowhere(a, g, pos, regs, before);
    if next.None? {
      return;
    }
    var id := next.value;
    var state := a.states[id];
    SilentWellFormed(a, text, pos);
    Tier1.SilentOf(a, text, pos, id);
    AvailableNext(g, id, None, avail);
    match state.kind {
      case Split =>
        ThroughEither(g, id, state.out1, state.out2, id);
        AvailableNext(g, id, state.out1, avail);
        AvailableNext(g, id, state.out2, avail);
        KeepsRegisters(a, id, regs, pos);
        Place(a, text, pos, threads, state.out1, regs, avail - {id});
        ghost var middle := threads[..];
        Place(a, text, pos, threads, state.out2, regs, avail - {id});
        PlacedThrough(a, g, pos, id, state.out1, state.out2, regs, before, middle, threads[..]);
      case Save(index) =>
        ThroughEither(g, id, state.out1, None, id);
        AvailableNext(g, id, state.out1, avail);
        var saved := if 0 <= index < |regs| then regs[index := pos] else regs;
        SavesRegister(a, id, regs, pos);
        Place(a, text, pos, threads, state.out1, saved, avail - {id});
        PlacedNowhere(a, g, pos, saved, threads[..]);
        PlacedThrough(a, g, pos, id, state.out1, None, regs, before, threads[..], threads[..]);
      case Anchor(which) =>
        KeepsRegisters(a, id, regs, pos);
        if AnchorHolds(which, text, pos) {
          ThroughEither(g, id, state.out1, None, id);
          AvailableNext(g, id, state.out1, avail);
          Place(a, text, pos, threads, state.out1, regs, avail - {id});
          PlacedNowhere(a, g, pos, regs, threads[..]);
          PlacedThrough(a, g, pos, id, state.out1, None, regs, before, threads[..], threads[..]);
        } else {
          PlacedThrough(a, g, pos, id, None, None, regs, before, before, before);
        }
      case _ =>
        PlacedHere(a, g, pos, id, regs, before);
        threads[id] := Some(regs);
        assert threads[..] == before[id := Some(regs)];
    }
  }

  lemma KeepsRegisters(a: Automaton, s: nat, regs: Registers, pos: nat)
    requires s < |a.states| && !a.states[s].kind.Save?
    ensures SaveAt(a, s, regs, pos) == regs
  {
  }

  lemma SavesRegister(a: Automaton, s: nat, regs: Registers, pos: nat)
    requires s < |a.states| && a.states[s].kind.Save?
    ensures SaveAt(a, s, regs, pos) ==
            if 0 <= a.states[s].kind.index < |regs| then regs[a.states[s].kind.index := pos] else regs
  {
  }

  // ---------------------------------------------------------------------------------
  // All threads at a position.

  /** No state that can be reached at `pos` lies on a silent cycle. */
  ghost predicate NoCycleAt(a: Automaton, text: Text, from: nat, pos: nat)
    requires from <= pos <= |text|
  {
    forall u: nat, v: nat :: u < |a.states| && u in At(a, text, from, pos) && v in SilentGraph(a, text, pos)[u] ==>
      !Reach(SilentGraph(a, text, pos), v, u)
  }

  lemma StartsWithoutCycle(a: Automaton, text: Text, from: nat)
    requires from <= |text| && NoCycleAt(a, text, from, from)
    ensures NoCycle(SilentGraph(a, text, from), Some(a.start))
  {
    hide SilentGraph, Reach;
  }

  lemma MovesWithoutCycle(a: Automaton, text: Text, from: nat, pos: nat, i: nat)
    requires from <= pos < |text| && NoCycleAt(a, text, from, pos + 1)
    requires i < |a.states| && i in At(a, text, from, pos) && MatchesByte(a.states[i].kind, text[pos])
    ensures NoCycle(SilentGraph(a, text, pos + 1), a.states[i].out1)
  {
    hide SilentGraph, Reach, MatchesByte;
    if a.states[i].out1.Some? {
      var seeds := Advance(a, text[pos], At(a, text, from, pos));
      assert a.states[i].out1.value in seeds;
      assert At(a, text, from, pos + 1) == Closure(a, text, pos + 1, seeds);
    }
  }

  /** There is a thread exactly in the stopping states that the seeds reach. */
  ghost predicate Occupied(a: Automaton, g: Graph, seeds: set<nat>, m: Threads) {
    && |m| == |a.states|
    && forall t: nat :: t < |m| ==> (m[t].Some? <==> Stops(a.states[t].kind) && Reached(g, seeds, t))
  }

  /** Every thread carries the saves of one run to its state. */
  ghost predicate AllCarried(a: Automaton, text: Text, from: nat, pos: nat, n: nat, m: Threads) {
    && |m| == |a.states|
    && forall t: nat :: t < |m| && m[t].Some? ==>
         |m[t].value| == n && Carried(a, text, from, t, pos, m[t].value)
  }

  // ---------------------------------------------------------------------------------
  // Which run it is. Threads move in the order of their states, and the last to arrive stays.

  /** The state `i` has a thread at `pos` that the next byte takes to `t`. */
  ghost predicate Leads(a: Automaton, text: Text, from: nat, pos: nat, i: nat, t: nat)
    requires from <= pos < |text|
  {
    && i < |a.states| && Stops(a.states[i].kind) && i in At(a, text, from, pos)
    && MatchesByte(a.states[i].kind, text[pos]) && a.states[i].out1.Some?
    && Reach(SilentGraph(a, text, pos + 1), a.states[i].out1.value, t)
  }

  /** Of the states below `limit`, `i` is the last that leads to `t`. */
  ghost predicate LeadsLast(a: Automaton, text: Text, from: nat, pos: nat, i: nat, t: nat, limit: nat)
    requires from <= pos < |text|
  {
    i < limit && Leads(a, text, from, pos, i, t) && forall j: nat :: i < j < limit ==> !Leads(a, text, from, pos, j, t)
  }

  /** `regs` went from `r` over the last state that leads to `t`. */
  ghost predicate Inherits(a: Automaton, text: Text, pos: nat, i: nat, r: Registers, t: nat, regs: Registers)
    requires pos < |text|
  {
    && i < |a.states| && a.states[i].out1.Some?
    && Landed(a, SilentGraph(a, text, pos + 1), a.states[i].out1.value, r, pos + 1, t, regs)
  }

  /** `regs` are the registers of the thread that stays in `t` at `pos`. */
  ghost predicate Chosen(a: Automaton, text: Text, from: nat, t: nat, pos: nat, regs: Registers)
    requires from <= pos <= |text|
    decreases pos
  {
    if pos == from then Landed(a, SilentGraph(a, text, from), a.start, seq(|regs|, _ => -1), from, t, regs)
    else
      var before: nat := pos - 1;
      exists i: nat, r: Registers ::
        && LeadsLast(a, text, from, before, i, t, |a.states|) && Inherits(a, text, before, i, r, t, regs)
        && |r| == |regs| && Chosen(a, text, from, i, before, r)
  }

  /** Every thread carries the registers chosen for its state. */
  ghost predicate AllChosen(a: Automaton, text: Text, from: nat, pos: nat, n: nat, m: Threads)
    requires from <= pos <= |text|
  {
    && |m| == |a.states|
    && forall t: nat :: t < |m| && m[t].Some? ==> |m[t].value| == n && Chosen(a, text, from, t, pos, m[t].value)
  }

  /** The registers are decided by the automaton and the text. */
  lemma {:induction false} ChosenUnique(a: Automaton, text: Text, from: nat, t: nat, pos: nat, r: Registers, q: Registers)
    requires Valid(a) && from <= pos <= |text| && |r| == |q| && t < |a.states| && Stops(a.states[t].kind)
    requires Chosen(a, text, from, t, pos, r) && Chosen(a, text, from, t, pos, q)
    ensures r == q
    decreases pos
  {
    hide SilentGraph, Leads, Landed, MatchesByte, Valid;
    if pos == from {
      LandedUnique(a, text, pos, a.start, seq(|r|, _ => -1), t, r, q);
    } else {
      var i: nat, x: Registers :| LeadsLast(a, text, from, pos - 1, i, t, |a.states|) &&
        Inherits(a, text, pos - 1, i, x, t, r) && |x| == |r| && Chosen(a, text, from, i, pos - 1, x);
      var j: nat, y: Registers :| LeadsLast(a, text, from, pos - 1, j, t, |a.states|) &&
        Inherits(a, text, pos - 1, j, y, t, q) && |y| == |q| && Chosen(a, text, from, j, pos - 1, y);
      assert i == j;
      LeadsStops(a, text, from, pos - 1, i, t);
      ChosenUnique(a, text, from, i, pos - 1, x, y);
      LandedUnique(a, text, pos, a.states[i].out1.value, x, t, r, q);
    }
  }

  lemma LeadsStops(a: Automaton, text: Text, from: nat, pos: nat, i: nat, t: nat)
    requires from <= pos < |text| && Leads(a, text, from, pos, i, t)
    ensures i < |a.states| && Stops(a.states[i].kind)
  {
  }

  lemma LandedUnique(a: Automaton, text: Text, pos: nat, root: nat, regs: Registers, t: nat, r: Registers, q: Registers)
    requires Valid(a) && pos <= |text| && t < |a.states| && Stops(a.states[t].kind)
    requires Landed(a, SilentGraph(a, text, pos), root, regs, pos, t, r)
    requires Landed(a, SilentGraph(a, text, pos), root, regs, pos, t, q)
    ensures r == q
  {
    hide Latest, IsWalk, AnchorHolds;
    var g := SilentGraph(a, text, pos);
    SilentWellFormed(a, text, pos);
    Tier1.SilentOf(a, text, pos, t);
    var w :| IsWalk(g, w, root, t) && Latest(g, w, t) && r == SaveAlong(a, w, regs, pos);
    var z :| IsWalk(g, z, root, t) && Latest(g, z, t) && q == SaveAlong(a, z, regs, pos);
    LatestUnique(g, w, z, root, t);
  }

  /** The threads that the first `limit` slots have brought to the next position. */
  ghost predicate Taken(a: Automaton, text: Text, from: nat, pos: nat, n: nat, m: Threads, limit: nat, after: Threads)
    requires from <= pos < |text|
  {
    && limit <= |m| == |after| == |a.states|
    && forall t: nat :: t < |after| && after[t].Some? ==>
         Stops(a.states[t].kind) && TakenSlot(a, text, from, pos, n, m, limit, after, t)
  }

  ghost predicate TakenSlot(a: Automaton, text: Text, from: nat, pos: nat, n: nat, m: Threads, limit: nat, after: Threads,
                            t: nat)
    requires from <= pos < |text| && limit <= |m| && t < |after| && after[t].Some?
  {
    exists k: nat :: LeadsLast(a, text, from, pos, k, t, limit) && m[k].Some? && |m[k].value| == n == |after[t].value| &&
      Inherits(a, text, pos, k, m[k].value, t, after[t].value)
  }

  /** A thread that moves takes over every slot it leads to. */
  lemma TakenMove(a: Automaton, text: Text, from: nat, pos: nat, n: nat, m: Threads, i: nat, before: Threads,
                  after: Threads)
    requires from <= pos < |text| && i < |m| && Taken(a, text, from, pos, n, m, i, before)
    requires m[i].Some? && |m[i].value| == n && Stops(a.states[i].kind) && i in At(a, text, from, pos)
    requires MatchesByte(a.states[i].kind, text[pos])
    requires Placed(a, SilentGraph(a, text, pos + 1), pos + 1, a.states[i].out1, m[i].value, before, after)
    ensures Taken(a, text, from, pos, n, m, i + 1, after)
  {
    hide SilentGraph, MatchesByte, Landed, Reach, At;
    var g := SilentGraph(a, text, pos + 1);
    forall t: nat | t < |after| && after[t].Some?
      ensures Stops(a.states[t].kind) && TakenSlot(a, text, from, pos, n, m, i + 1, after, t)
    {
      assert SlotPlaced(a, g, pos + 1, a.states[i].out1, m[i].value, before, after, t);
      if Leads(a, text, from, pos, i, t) && Stops(a.states[t].kind) {
        LandedLength(a, g, a.states[i].out1.value, m[i].value, pos + 1, t, after[t].value);
        assert LeadsLast(a, text, from, pos, i, t, i + 1);
      } else {
        KeptSlot(a, text, from, pos, n, m, i, before, after, t);
      }
    }
  }

  lemma LandedLength(a: Automaton, g: Graph, root: nat, regs: Registers, pos: nat, t: nat, r: Registers)
    requires Landed(a, g, root, regs, pos, t, r)
    ensures |r| == |regs|
  {
  }

  lemma TakenStay(a: Automaton, text: Text, from: nat, pos: nat, n: nat, m: Threads, i: nat, after: Threads)
    requires from <= pos < |text| && i < |m| && Taken(a, text, from, pos, n, m, i, after)
    requires !(Stops(a.states[i].kind) && i in At(a, text, from, pos) && MatchesByte(a.states[i].kind, text[pos]))
    ensures Taken(a, text, from, pos, n, m, i + 1, after)
  {
    hide SilentGraph, MatchesByte, Inherits, Reach, At;
    forall t: nat | t < |after| && after[t].Some?
      ensures TakenSlot(a, text, from, pos, n, m, i + 1, after, t)
    {
      KeptSlot(a, text, from, pos, n, m, i, after, after, t);
    }
  }

  lemma KeptSlot(a: Automaton, text: Text, from: nat, pos: nat, n: nat, m: Threads, i: nat, before: Threads,
                 after: Threads, t: nat)
    requires from <= pos < |text| && i < |m| && t < |before| == |after| && before[t] == after[t] && before[t].Some?
    requires TakenSlot(a, text, from, pos, n, m, i, before, t) && !Leads(a, text, from, pos, i, t)
    ensures TakenSlot(a, text, from, pos, n, m, i + 1, after, t)
  {
    hide Leads, Inherits;
    var k: nat :| LeadsLast(a, text, from, pos, k, t, i) && m[k].Some? && |m[k].value| == n == |after[t].value| &&
      Inherits(a, text, pos, k, m[k].value, t, after[t].value);
    assert LeadsLast(a, text, from, pos, k, t, i + 1);
  }

  lemma TakenNone(a: Automaton, text: Text, from: nat, pos: nat, n: nat, m: Threads, after: Threads)
    requires from <= pos < |text| && |m| == |after| == |a.states| && forall t: nat :: t < |after| ==> after[t] == None
    ensures Taken(a, text, from, pos, n, m, 0, after)
  {
  }

  lemma TakenAll(a: Automaton, text: Text, from: nat, pos: nat, n: nat, m: Threads, after: Threads)
    requires from <= pos < |text| && AllChosen(a, text, from, pos, n, m)
    requires Taken(a, text, from, pos, n, m, |m|, after)
    ensures AllChosen(a, text, from, pos + 1, n, after)
  {
    hide Leads, Inherits;
    forall t: nat | t < |after| && after[t].Some?
      ensures |after[t].value| == n && Chosen(a, text, from, t, pos + 1, after[t].value)
    {
      assert TakenSlot(a, text, from, pos, n, m, |m|, after, t);
    }
  }

  /** The threads placed from the start state. */
  lemma FirstChosen(a: Automaton, text: Text, from: nat, n: nat, before: Threads, after: Threads)
    requires from <= |text| && forall t: nat :: t < |before| ==> before[t] == None
    requires Placed(a, SilentGraph(a, text, from), from, Some(a.start), seq(n, _ => -1), before, after)
    ensures AllChosen(a, text, from, from, n, after)
  {
    hide SilentGraph, Landed, Reach;
    var g, none := SilentGraph(a, text, from), seq(n, _ => -1);
    forall t: nat | t < |after| && after[t].Some?
      ensures |after[t].value| == n && Chosen(a, text, from, t, from, after[t].value)
    {
      assert SlotPlaced(a, g, from, Some(a.start), none, before, after, t);
      LandedLength(a, g, a.start, none, from, t, after[t].value);
    }
  }

  lemma OccupiedMore(a: Automaton, g: Graph, pos: nat, seeds: set<nat>, seed: nat, regs: Registers,
                     before: Threads, after: Threads)
    requires Occupied(a, g, seeds, before) && Placed(a, g, pos, Some(seed), regs, before, after)
    ensures Occupied(a, g, seeds + {seed}, after)
  {
    hide Reach, Landed;
    forall t: nat | t < |after|
      ensures after[t].Some? <==> Stops(a.states[t].kind) && Reached(g, seeds + {seed}, t)
    {
      assert SlotPlaced(a, g, pos, Some(seed), regs, before, after, t);
      ReachedMore(g, seeds, seed, t);
    }
  }

  lemma ReachedMore(g: Graph, seeds: set<nat>, seed: nat, t: nat)
    ensures Reached(g, seeds + {seed}, t) <==> Reached(g, seeds, t) || Reach(g, seed, t)
  {
    hide Reach;
    if s: nat :| s in seeds && Reach(g, s, t) {
      assert s in seeds + {seed};
    }
    assert seed in seeds + {seed};
  }

  /** The threads placed from a seed that a run has just entered carry runs. */
  lemma CarriedMore(a: Automaton, text: Text, from: nat, pos: nat, p: seq<Config>, seed: nat, regs: Registers,
                    before: Threads, after: Threads)
    requires Valid(a) && pos <= |text| && AllCarried(a, text, from, pos, |regs|, before)
    requires IsRun(a, text, p, Config(a.start, from)) && Last(p) == Config(seed, pos)
    requires SavesOf(a, p, |regs|) == SaveAt(a, seed, regs, pos)
    requires Placed(a, SilentGraph(a, text, pos), pos, Some(seed), regs, before, after)
    ensures AllCarried(a, text, from, pos, |regs|, after)
  {
    hide Reach, SavesOf, SaveAt, IsRun, SilentGraph, IsWalk;
    var g := SilentGraph(a, text, pos);
    forall t: nat | t < |after| && after[t].Some?
      ensures |after[t].value| == |regs| && Carried(a, text, from, t, pos, after[t].value)
    {
      assert SlotPlaced(a, g, pos, Some(seed), regs, before, after, t);
      if Stops(a.states[t].kind) && Reach(g, seed, t) {
        var w :| IsWalk(g, w, seed, t) && Latest(g, w, t) && after[t].value == SaveAlong(a, w, regs, pos);
        WalkStart(g, w, seed, t);
        var r := RunWithSaves(a, text, p, Config(a.start, from), w, t, |regs|);
      }
    }
  }

  lemma WalkStart(g: Graph, w: seq<nat>, u: nat, v: nat)
    requires IsWalk(g, w, u, v)
    ensures |w| > 0 && w[0] == u
  {
  }

  /** The seeds that the threads in the first `n` slots lead to over a byte. */
  ghost function SeedsOf(a: Automaton, m: Threads, b: Byte, n: nat): set<nat>
    requires |m| == |a.states| && n <= |m|
  {
    set k: nat | k < n && m[k].Some? && MatchesByte(a.states[k].kind, b) && a.states[k].out1.Some? ::
      a.states[k].out1.value
  }

  lemma SeedsStep(a: Automaton, m: Threads, b: Byte, i: nat)
    requires i < |m| == |a.states|
    ensures if m[i].Some? && MatchesByte(a.states[i].kind, b) && a.states[i].out1.Some?
            then SeedsOf(a, m, b, i + 1) == SeedsOf(a, m, b, i) + {a.states[i].out1.value}
            else SeedsOf(a, m, b, i + 1) == SeedsOf(a, m, b, i)
  {
    hide MatchesByte;
  }

  /** Every reachable state that can consume a byte has a thread. */
  lemma SeedsAreAdvance(a: Automaton, text: Text, from: nat, pos: nat, m: Threads, b: Byte)
    requires from <= pos <= |text| && |m| == |a.states|
    requires forall t: nat :: t < |m| ==> (m[t].Some? <==> Stops(a.states[t].kind) && t in At(a, text, from, pos))
    ensures SeedsOf(a, m, b, |m|) == Advance(a, b, At(a, text, from, pos))
  {
  }

  /** The threads at `pos`, as the simulation keeps them. */
  ghost predicate ThreadsAt(a: Automaton, text: Text, from: nat, pos: nat, n: nat, m: Threads)
    requires from <= pos <= |text|
  {
    && |m| == |a.states|
    && (forall t: nat :: t < |m| ==> (m[t].Some? <==> Stops(a.states[t].kind) && t in At(a, text, from, pos)))
    && AllCarried(a, text, from, pos, n, m) && AllChosen(a, text, from, pos, n, m)
  }

  lemma ThreadsFilled(a: Automaton, text: Text, from: nat, pos: nat, n: nat, seeds: set<nat>, m: Threads)
    requires from <= pos <= |text|
    requires Occupied(a, SilentGraph(a, text, pos), seeds, m) && AllCarried(a, text, from, pos, n, m)
    requires AllChosen(a, text, from, pos, n, m)
    requires At(a, text, from, pos) == Closure(a, text, pos, seeds)
    ensures ThreadsAt(a, text, from, pos, n, m)
  {
  }

  lemma NobodyYet(a: Automaton, g: Graph, text: Text, from: nat, pos: nat, n: nat, m: Threads)
    requires |m| == |a.states| && forall t: nat :: t < |m| ==> m[t] == None
    ensures Occupied(a, g, {}, m) && AllCarried(a, text, from, pos, n, m)
  {
  }

  lemma EverythingAvailable(g: Graph, seed: Option<nat>) returns (avail: set<nat>)
    ensures Available(g, seed, avail)
  {
    avail := set t: nat | t < |g| && seed.Some? && Reach(g, seed.value, t);
  }

  method Clear(threads: array<Option<Registers>>)
    modifies threads
    ensures forall t :: 0 <= t < threads.Length ==> threads[t] == None
  {
    forall i | 0 <= i < threads.Length {
      threads[i] := None;
    }
  }

  /** One more thread, from slot `i`, moved over the byte at `pos`. */
  method MoveThread(a: Automaton, text: Text, from: nat, pos: nat, n: nat, i: nat, regs: Registers,
                    nxt: array<Option<Registers>>, ghost seeds: set<nat>)
    requires Valid(a) && from <= pos < |text| && i < |a.states| == nxt.Length && |regs| == n
    requires MatchesByte(a.states[i].kind, text[pos]) && Carried(a, text, from, i, pos, regs)
    requires NoCycle(SilentGraph(a, text, pos + 1), a.states[i].out1)
    requires Occupied(a, SilentGraph(a, text, pos + 1), seeds, nxt[..])
    requires AllCarried(a, text, from, pos + 1, n, nxt[..])
    modifies nxt
    ensures AllCarried(a, text, from, pos + 1, n, nxt[..])
    ensures Placed(a, SilentGraph(a, text, pos + 1), pos + 1, a.states[i].out1, regs, old(nxt[..]), nxt[..])
    ensures Occupied(a, SilentGraph(a, text, pos + 1),
                     if a.states[i].out1.Some? then seeds + {a.states[i].out1.value} else seeds, nxt[..])
  {
    hide Occupied, AllCarried, SilentGraph, NoCycle, MatchesByte, Placed, IsRun, SavesOf, SaveAt, Available;
    var out := a.states[i].out1;
    ghost var g, before := SilentGraph(a, text, pos + 1), nxt[..];
    ghost var avail := EverythingAvailable(g, out);
    Place(a, text, pos + 1, nxt, out, regs, avail);
    if out.Some? {
      ghost var p := RunOver(a, text, from, pos, i, regs, out.value);
      OccupiedMore(a, g, pos + 1, seeds, out.value, regs, before, nxt[..]);
      CarriedMore(a, text, from, pos + 1, p, out.value, regs, before, nxt[..]);
    } else {
      PlacedNone(a, g, pos + 1, regs, before, nxt[..]);
    }
  }

  lemma PlacedNone(a: Automaton, g: Graph, pos: nat, regs: Registers, before: Threads, after: Threads)
    requires Placed(a, g, pos, None, regs, before, after)
    ensures before == after
  {
    forall t: nat | t < |after|
      ensures before[t] == after[t]
    {
      assert SlotPlaced(a, g, pos, None, regs, before, after, t);
    }
  }

  lemma RunOver(a: Automaton, text: Text, from: nat, pos: nat, s: nat, regs: Registers, seed: nat)
    returns (p: seq<Config>)
    requires pos < |text| && s < |a.states| && Carried(a, text, from, s, pos, regs)
    requires MatchesByte(a.states[s].kind, text[pos]) && a.states[s].out1 == Some(seed)
    ensures IsRun(a, text, p, Config(a.start, from)) && Last(p) == Config(seed, pos + 1)
    ensures SavesOf(a, p, |regs|) == SaveAt(a, seed, regs, pos + 1)
  {
    var q :| IsRun(a, text, q, Config(a.start, from)) && Last(q) == Config(s, pos) && SavesOf(a, q, |regs|) == regs;
    var d := Config(seed, pos + 1);
    RunExtends(a, text, q, Config(a.start, from), d);
    p := q + [d];
    assert p[..|p| - 1] == q;
  }

  /** The threads after the byte at `pos`. */
  method StepThreads(a: Automaton, text: Text, from: nat, pos: nat, n: nat,
                     cur: array<Option<Registers>>, nxt: array<Option<Registers>>)
    requires Valid(a) && from <= pos < |text| && cur.Length == nxt.Length == |a.states| && cur != nxt
    requires ThreadsAt(a, text, from, pos, n, cur[..]) && NoCycleAt(a, text, from, pos + 1)
    modifies nxt
    ensures ThreadsAt(a, text, from, pos + 1, n, nxt[..])
  {
    hide Occupied, AllCarried, AllChosen, Placed, Taken, SilentGraph, NoCycle, NoCycleAt, MatchesByte, ThreadsAt, Carried, SeedsOf,
         Valid;
    ghost var g, m := SilentGraph(a, text, pos + 1), cur[..];
    Clear(nxt);
    NobodyYet(a, g, text, from, pos + 1, n, nxt[..]);
    NoSeeds(a, m, text[pos]);
    TakenNone(a, text, from, pos, n, m, nxt[..]);
    var i := 0;
    while i < |a.states|
      invariant i <= |a.states| == |m| && cur[..] == m
      invariant Occupied(a, g, SeedsOf(a, m, text[pos], i), nxt[..])
      invariant AllCarried(a, text, from, pos + 1, n, nxt[..]) && Taken(a, text, from, pos, n, m, i, nxt[..])
    {
      SeedsStep(a, m, text[pos], i);
      assert m[i] == cur[i];
      if cur[i].Some? && MatchesByte(a.states[i].kind, text[pos]) {
        ThreadCarried(a, text, from, pos, n, m, i);
        ghost var before := nxt[..];
        MovesWithoutCycle(a, text, from, pos, i);
        MoveThread(a, text, from, pos, n, i, cur[i].value, nxt, SeedsOf(a, m, text[pos], i));
        TakenMove(a, text, from, pos, n, m, i, before, nxt[..]);
      } else {
        NotMoving(a, text, from, pos, n, m, i);
        TakenStay(a, text, from, pos, n, m, i, nxt[..]);
      }
      i := i + 1;
    }
    AllSeeds(a, text, from, pos, n, m);
    ThreadsChosen(a, text, from, pos, n, m);
    TakenAll(a, text, from, pos, n, m, nxt[..]);
    ThreadsFilled(a, text, from, pos + 1, n, SeedsOf(a, m, text[pos], |m|), nxt[..]);
  }

  lemma NoSeeds(a: Automaton, m: Threads, b: Byte)
    requires |m| == |a.states|
    ensures SeedsOf(a, m, b, 0) == {}
  {
  }

  lemma ThreadCarried(a: Automaton, text: Text, from: nat, pos: nat, n: nat, m: Threads, i: nat)
    requires from <= pos <= |text| && ThreadsAt(a, text, from, pos, n, m) && i < |m| && m[i].Some?
    ensures |m[i].value| == n && Carried(a, text, from, i, pos, m[i].value)
    ensures |m| == |a.states| && Stops(a.states[i].kind) && i in At(a, text, from, pos)
  {
  }

  lemma NotMoving(a: Automaton, text: Text, from: nat, pos: nat, n: nat, m: Threads, i: nat)
    requires from <= pos < |text| && ThreadsAt(a, text, from, pos, n, m) && i < |m| == |a.states|
    requires !(m[i].Some? && MatchesByte(a.states[i].kind, text[pos]))
    ensures !(Stops(a.states[i].kind) && i in At(a, text, from, pos) && MatchesByte(a.states[i].kind, text[pos]))
  {
  }

  lemma ThreadsChosen(a: Automaton, text: Text, from: nat, pos: nat, n: nat, m: Threads)
    requires from <= pos <= |text| && ThreadsAt(a, text, from, pos, n, m)
    ensures AllChosen(a, text, from, pos, n, m)
  {
  }

  lemma AllSeeds(a: Automaton, text: Text, from: nat, pos: nat, n: nat, m: Threads)
    requires from <= pos < |text| && ThreadsAt(a, text, from, pos, n, m)
    ensures At(a, text, from, pos + 1) == Closure(a, text, pos + 1, SeedsOf(a, m, text[pos], |m|))
  {
    SeedsAreAdvance(a, text, from, pos, m, text[pos]);
  }

  // ---------------------------------------------------------------------------------
  // The simulation.

  /** The automaton has one accepting state, the designated one. */
  predicate OneAccept(a: Automaton) {
    && a.accept < |a.states|
    && forall s :: 0 <= s < |a.states| ==> (a.states[s].kind.Accept? <==> s == a.accept)
  }

  /** No state that can be reached lies on a silent cycle. */
  ghost predicate NoCycles(a: Automaton, text: Text, from: nat) {
    forall pos: nat :: from <= pos <= |text| ==> NoCycleAt(a, text, from, pos)
  }

  /** `p` is an accepting run to `end` whose saves are the registers chosen there. */
  ghost predicate Winner(a: Automaton, text: Text, from: nat, end: nat, p: seq<Config>, n: nat) {
    IsMatch(a, text, from, end, p) && from <= end <= |text| && Chosen(a, text, from, a.accept, end, SavesOf(a, p, n))
  }

  /** `out` holds the ends of a match from `from` and, from register 2 on, the saves of that
      one accepting run. */
  ghost predicate RegistersOf(a: Automaton, text: Text, from: nat, out: Registers) {
    && |out| >= 2 && out[0] == from && out[1] >= 0
    && exists p :: Winner(a, text, from, out[1], p, |out|) &&
         forall i :: 2 <= i < |out| ==> out[i] == SavesOf(a, p, |out|)[i]
  }

  /** All runs that can win agree on what they saved. */
  lemma WinnersAgree(a: Automaton, text: Text, from: nat, end: nat, p: seq<Config>, q: seq<Config>, n: nat)
    requires Valid(a) && OneAccept(a) && Winner(a, text, from, end, p, n) && Winner(a, text, from, end, q, n)
    ensures SavesOf(a, p, n) == SavesOf(a, q, n)
  {
    ChosenUnique(a, text, from, a.accept, end, SavesOf(a, p, n), SavesOf(a, q, n));
  }

  lemma AcceptedRegisters(a: Automaton, text: Text, from: nat, pos: nat, regs: Registers)
    requires OneAccept(a) && |regs| >= 2 && Carried(a, text, from, a.accept, pos, regs)
    requires from <= pos <= |text| && Chosen(a, text, from, a.accept, pos, regs)
    ensures RegistersOf(a, text, from, regs[0 := from][1 := pos])
  {
    hide Chosen, SavesOf;
    var p :| IsRun(a, text, p, Config(a.start, from)) && Last(p) == Config(a.accept, pos) &&
             SavesOf(a, p, |regs|) == regs;
    assert Winner(a, text, from, pos, p, |regs|);
  }

  lemma AcceptAt(a: Automaton, text: Text, from: nat, pos: nat, n: nat, m: Threads)
    requires from <= pos <= |text| && OneAccept(a) && ThreadsAt(a, text, from, pos, n, m)
    ensures m[a.accept].Some? <==> Tier1.Accepting(a, At(a, text, from, pos))
    ensures m[a.accept].Some? ==>
      && |m[a.accept].value| == n && Carried(a, text, from, a.accept, pos, m[a.accept].value)
      && Chosen(a, text, from, a.accept, pos, m[a.accept].value)
  {
  }

  lemma NoThreads(a: Automaton, text: Text, from: nat, pos: nat, n: nat, m: Threads)
    requires from <= pos <= |text| && ThreadsAt(a, text, from, pos, n, m) && forall t: nat :: t < |m| ==> m[t].None?
    ensures Tier1.Stuck(a, At(a, text, from, pos))
  {
  }

  /** Whether any slot holds a thread. */
  method AnyThread(threads: array<Option<Registers>>) returns (active: bool)
    ensures active <==> exists t: nat :: t < threads.Length && threads[t].Some?
  {
    active := false;
    var i := 0;
    while i < threads.Length && !active
      invariant i <= threads.Length
      invariant active <==> exists t: nat :: t < i && threads[t].Some?
    {
      if threads[i].Some? {
        active := true;
      }
      i := i + 1;
    }
  }

  /** The first threads: the start state, with nothing saved. */
  method Seed(a: Automaton, text: Text, from: nat, n: nat, cur: array<Option<Registers>>)
    requires Valid(a) && from <= |text| && cur.Length == |a.states| && NoCycleAt(a, text, from, from)
    modifies cur
    ensures ThreadsAt(a, text, from, from, n, cur[..])
  {
    hide Occupied, AllCarried, AllChosen, SilentGraph, NoCycle, NoCycleAt, ThreadsAt, Placed, Available, SaveAt;
    ghost var g := SilentGraph(a, text, from);
    Clear(cur);
    ghost var before := cur[..];
    NobodyYet(a, g, text, from, from, n, before);
    var init := seq(n, _ => -1);
    ghost var avail := EverythingAvailable(g, Some(a.start));
    StartsWithoutCycle(a, text, from);
    Place(a, text, from, cur, Some(a.start), init, avail);
    ghost var c := Config(a.start, from);
    OccupiedMore(a, g, from, {}, a.start, init, before, cur[..]);
    FirstSaves(a, c, n);
    FirstChosen(a, text, from, n, before, cur[..]);
    CarriedMore(a, text, from, from, [c], a.start, init, before, cur[..]);
    assert {} + {a.start} == {a.start};
    ThreadsFilled(a, text, from, from, n, {a.start}, cur[..]);
  }

  lemma FirstSaves(a: Automaton, c: Config, n: nat)
    ensures SavesOf(a, [c], n) == SaveAt(a, c.state, seq(n, _ => -1), c.pos)
  {
    assert [c][..0] == [];
  }

  /** The longest match from `from`, with the captures of one run that makes it. */
  method RunTier2(a: Automaton, text: Text, from: nat, n: nat) returns (found: bool, out: Registers)
    requires Valid(a) && OneAccept(a) && from <= |text| && NoCycles(a, text, from) && n >= 2
    ensures found ==> |out| == n && RegistersOf(a, text, from, out)
    ensures forall e: nat :: Matches(a, text, from, e) ==> found && e <= out[1]
  {
    hide Tier1.Longest, Tier1.Accepting, Tier1.Stuck, Matches, ThreadsAt, RegistersOf, Carried, Chosen, NoCycleAt, SilentGraph, Valid,
         OneAccept;
    found, out := false, seq(n, _ => -1);
    ghost var end: nat := 0;
    var cur := new Option<Registers>[|a.states|](_ => None);
    var nxt := new Option<Registers>[|a.states|](_ => None);
    Seed(a, text, from, n, cur);
    Tier1.LongestStart(a, text, from);
    var pos := from;
    AcceptInRange(a);
    while true
      invariant from <= pos <= |text| && cur.Length == nxt.Length == |a.states| && cur != nxt
      invariant fresh(cur) && fresh(nxt)
      invariant ThreadsAt(a, text, from, pos, n, cur[..])
      invariant Tier1.Longest(a, text, from, pos, found, end)
      invariant |out| == n && (found ==> out[1] == end && RegistersOf(a, text, from, out))
      decreases |text| - pos
    {
      var accepted := cur[a.accept];
      AcceptAt(a, text, from, pos, n, cur[..]);
      Tier1.LongestStep(a, text, from, pos, found, end, accepted.Some?);
      if accepted.Some? {
        AcceptedRegisters(a, text, from, pos, accepted.value);
        out := accepted.value[0 := from][1 := pos];
        found, end := true, pos;
      }
      if pos >= |text| {
        Tier1.LongestEnd(a, text, from, pos + 1, found, end);
        return;
      }
      var active := AnyThread(cur);
      if !active {
        NoThreads(a, text, from, pos, n, cur[..]);
        LastPosition(a, text, from, pos, found, end);
        return;
      }
      StepThreads(a, text, from, pos, n, cur, nxt);
      cur, nxt := nxt, cur;
      pos := pos + 1;
    }
  }

  lemma AcceptInRange(a: Automaton)
    requires OneAccept(a)
    ensures a.accept < |a.states|
  {
  }

  lemma LastPosition(a: Automaton, text: Text, from: nat, pos: nat, found: bool, end: nat)
    requires Valid(a) && from <= pos <= |text| && Tier1.Longest(a, text, from, pos + 1, found, end)
    requires Tier1.Stuck(a, At(a, text, from, pos))
    ensures forall e: nat :: Matches(a, text, from, e) ==> found && e <= end
  {
    forall e: nat | Matches(a, text, from, e)
      ensures found && e <= end
    {
      MatchesIffAt(a, text, from, e);
      if e > pos {
        NothingLater(a, text, from, pos, e);
      }
    }
  }
}
